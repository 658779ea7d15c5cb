/**
 Copy-only migration between two keychains for one service. A keychain is the stored entries and the
 account list its index decodes to. A failing destination store may have written the entry, the index
 line, both or neither: the operating-system backend writes them one after the other and then reads
 the entry back, and the file backend keeps both in memory when its persist fails.
 */
module Migration {
  import opened Common
  import opened KeystoreIndex

  datatype Keychain = Keychain(entries: map<string, Bytestring>, listed: seq<string>)

  /** What a failing store wrote before it failed. */
  datatype Effect = Effect(entry: bool, index: bool)

  /** The operation fails while handling the account at position `at`. */
  datatype Fault = NoFault | FailAt(at: nat, effect: Effect)

  function StoreInto(k: Keychain, account: string, secret: Bytestring): (r: Keychain) {
    Keychain(k.entries[account := secret], Added(k.listed, account))
  }

  function FailedStore(k: Keychain, account: string, secret: Bytestring, effect: Effect): (r: Keychain) {
    var full := StoreInto(k, account, secret);
    Keychain(if effect.entry then full.entries else k.entries, if effect.index then full.listed else k.listed)
  }

  /** Everything listed that the source has, with the destination's own entries winning. */
  function Union(src: Keychain, dst: Keychain, accounts: seq<string>): (r: map<string, Bytestring>) {
    (map a | a in accounts && a in src.entries :: src.entries[a]) + dst.entries
  }

  /** `accounts` added to `list` one by one, each once. */
  function AddedAll(list: seq<string>, accounts: seq<string>): (r: seq<string>) {
    if accounts == [] then list else Added(AddedAll(list, accounts[..|accounts| - 1]), accounts[|accounts| - 1])
  }

  function NewOnes(dst: Keychain, accounts: seq<string>): (r: seq<string>) {
    Filter(accounts, a => a !in dst.entries)
  }

  /** The destination-wins union: the entries, and the listing extended by the new accounts in order. */
  function Merged(src: Keychain, dst: Keychain, accounts: seq<string>): (r: Keychain) {
    Keychain(Union(src, dst, accounts), AddedAll(dst.listed, NewOnes(dst, accounts)))
  }

  predicate Readable(src: Keychain, dst: Keychain, account: string) {
    account in src.entries || account in dst.entries
  }

  predicate AllReadable(src: Keychain, dst: Keychain, accounts: seq<string>) {
    forall a <- accounts :: Readable(src, dst, a)
  }

  // ---- what a run leaves --------------------------------------------------------------------------

  /** The position at which the run stops: the fault, or an account neither side can supply. */
  function StopsAt(src: Keychain, dst: Keychain, fault: Fault, i: nat): (n: nat)
    requires i <= |src.listed|
    ensures i <= n <= |src.listed|
    decreases |src.listed| - i
  {
    if i == |src.listed| || (fault.FailAt? && fault.at == i) || !Readable(src, dst, src.listed[i]) then i
    else StopsAt(src, dst, fault, i + 1)
  }

  /** Nothing listed is unreadable and the fault, if any, lies beyond the listing. */
  predicate Completes(src: Keychain, dst: Keychain, fault: Fault) {
    AllReadable(src, dst, src.listed) && (fault.FailAt? ==> fault.at >= |src.listed|)
  }

  lemma {:induction false} CompletesIff(src: Keychain, dst: Keychain, fault: Fault, i: nat)
    requires i <= |src.listed| && (fault.FailAt? ==> i <= fault.at)
    ensures StopsAt(src, dst, fault, i) == |src.listed| <==>
            && (forall k :: i <= k < |src.listed| ==> Readable(src, dst, src.listed[k]))
            && (fault.FailAt? ==> fault.at >= |src.listed|)
    decreases |src.listed| - i
  {
    if i < |src.listed| && StopsAt(src, dst, fault, i) != i {
      CompletesIff(src, dst, fault, i + 1);
    }
  }

  /** The store at position `i` is reached: the account is not yet present and the source has it. */
  predicate Stores(src: Keychain, dst: Keychain, i: nat) {
    && i < |src.listed|
    && src.listed[i] !in dst.entries && src.listed[i] in src.entries && src.listed[i] !in src.listed[..i]
  }

  /** The destination a run leaves, failed or not. */
  function Left(src: Keychain, dst: Keychain, fault: Fault): (r: Keychain) {
    var i := StopsAt(src, dst, fault, 0);
    var now := Merged(src, dst, src.listed[..i]);
    if fault.FailAt? && fault.at == i && Stores(src, dst, i) then
      FailedStore(now, src.listed[i], src.entries[src.listed[i]], fault.effect)
    else now
  }

  lemma {:induction false} AddedAllMembers(list: seq<string>, accounts: seq<string>)
    ensures forall a :: a in AddedAll(list, accounts) <==> a in list || a in accounts
    ensures NoDuplicates(list) ==> NoDuplicates(AddedAll(list, accounts))
  {
    if accounts != [] {
      var n := |accounts| - 1;
      AddedAllMembers(list, accounts[..n]);
      assert accounts == accounts[..n] + [accounts[n]];
    }
  }

  lemma {:induction false} NewOnesMembers(dst: Keychain, accounts: seq<string>)
    ensures forall a :: a in NewOnes(dst, accounts) <==> a in accounts && a !in dst.entries
  {
    if accounts != [] {
      NewOnesMembers(dst, accounts[1..]);
      assert accounts == [accounts[0]] + accounts[1..];
    }
  }

  lemma NewOnesSnoc(dst: Keychain, accounts: seq<string>, a: string)
    ensures NewOnes(dst, accounts + [a]) ==
            if a in dst.entries then NewOnes(dst, accounts) else NewOnes(dst, accounts) + [a]
  {
    FilterSnoc(accounts, a, a => a !in dst.entries);
  }

  lemma AddedAllSnoc(list: seq<string>, accounts: seq<string>, a: string)
    ensures AddedAll(list, accounts + [a]) == Added(AddedAll(list, accounts), a)
  {
    assert (accounts + [a])[..|accounts|] == accounts;
  }

  /** One account more extends the listing unless it is present already. */
  lemma ListedSnoc(list: seq<string>, dst: Keychain, accounts: seq<string>, a: string)
    ensures var before := AddedAll(list, NewOnes(dst, accounts));
            AddedAll(list, NewOnes(dst, accounts + [a])) ==
            if a in dst.entries || a in accounts then before else Added(before, a)
  {
    NewOnesSnoc(dst, accounts, a);
    AddedAllSnoc(list, NewOnes(dst, accounts), a);
    NewOnesMembers(dst, accounts);
    AddedAllMembers(list, NewOnes(dst, accounts));
  }

  lemma UnionSnoc(src: Keychain, dst: Keychain, accounts: seq<string>, a: string)
    requires AllReadable(src, dst, accounts)
    ensures var before, after := Union(src, dst, accounts), Union(src, dst, accounts + [a]);
            && (a in before <==> a in dst.entries || a in accounts)
            && (a in before || a !in src.entries ==> after == before)
            && (a !in before && a in src.entries ==> after == before[a := src.entries[a]])
  {
  }

  /** The accounts a run has copied once it is past `accounts`. */
  function CopiedFrom(dst: Keychain, accounts: seq<string>): (copied: seq<string>) {
    AddedAll([], NewOnes(dst, accounts))
  }

  lemma CopiedMembers(dst: Keychain, accounts: seq<string>)
    ensures NoDuplicates(CopiedFrom(dst, accounts))
    ensures forall a :: a in CopiedFrom(dst, accounts) <==> a in accounts && a !in dst.entries
  {
    NewOnesMembers(dst, accounts);
    AddedAllMembers([], NewOnes(dst, accounts));
  }

  datatype Round = Skipped | Stored | Failed

  /** One account: look in the destination, read from the source, store; `failing` is an error on the way. */
  method CopyAccount(src: Keychain, now: Keychain, account: string, failing: Option<Effect>)
    returns (next: Keychain, round: Round)
    ensures round == if failing.Some? then Failed else if account in now.entries then Skipped
                     else if account in src.entries then Stored else Failed
    ensures next == if account in now.entries || account !in src.entries then now
                    else if failing.Some? then FailedStore(now, account, src.entries[account], failing.value)
                    else StoreInto(now, account, src.entries[account])
  {
    if account in now.entries {
      return now, if failing.Some? then Failed else Skipped;
    }
    if account !in src.entries {
      return now, Failed;
    }
    if failing.Some? {
      return FailedStore(now, account, src.entries[account], failing.value), Failed;
    }
    return StoreInto(now, account, src.entries[account]), Stored;
  }

  /**
   The copy loop. It leaves exactly what `Left` describes. On success that is the destination-wins
   union, and the returned accounts are the new ones, each once, in listing order. The source is an
   input and stays as it is.
   */
  method MigrateAccounts(src: Keychain, dst: Keychain, fault: Fault)
    returns (result: Keychain, copied: seq<string>, ok: bool)
    ensures ok <==> Completes(src, dst, fault)
    ensures result == Left(src, dst, fault)
    ensures ok ==> result == Merged(src, dst, src.listed)
    ensures ok ==> NoDuplicates(copied) && forall a :: a in copied <==> a in src.listed && a !in dst.entries
  {
    Begins(src, dst, fault);
    result, copied := dst, [];
    for i := 0 to |src.listed|
      invariant Progress(src, dst, fault, i, result, copied)
    {
      var failing := if fault.FailAt? && fault.at == i then Some(fault.effect) else None;
      var account, round := src.listed[i], Skipped;
      Advances(src, dst, fault, i, result, copied);
      result, round := CopyAccount(src, result, account, failing);
      if round.Failed? {
        return result, copied, false;
      }
      if round.Stored? {
        copied := copied + [account];
      }
    }
    assert src.listed[..|src.listed|] == src.listed;
    CompletesIff(src, dst, fault, 0);
    CopiedMembers(dst, src.listed);
    ok := true;
  }

  /** The loop's state before position `i`. */
  ghost predicate Progress(src: Keychain, dst: Keychain, fault: Fault, i: nat, now: Keychain, copied: seq<string>) {
    && i <= |src.listed| && AllReadable(src, dst, src.listed[..i])
    && now == Merged(src, dst, src.listed[..i]) && copied == CopiedFrom(dst, src.listed[..i])
    && StopsAt(src, dst, fault, 0) == StopsAt(src, dst, fault, i) && (fault.FailAt? ==> fault.at >= i)
  }

  lemma Begins(src: Keychain, dst: Keychain, fault: Fault)
    ensures Progress(src, dst, fault, 0, dst, [])
  {
    assert src.listed[..0] == [];
    assert Union(src, dst, []) == dst.entries;
  }

  /** One round: a failure leaves what `Left` says, and otherwise the loop is one position further. */
  lemma Advances(src: Keychain, dst: Keychain, fault: Fault, i: nat, now: Keychain, copied: seq<string>)
    requires i < |src.listed| && Progress(src, dst, fault, i, now, copied)
    ensures var a := src.listed[i];
            if fault.FailAt? && fault.at == i then
              && !Completes(src, dst, fault)
              && Left(src, dst, fault) ==
                 if a in now.entries || a !in src.entries then now
                 else FailedStore(now, a, src.entries[a], fault.effect)
            else if a in now.entries then Progress(src, dst, fault, i + 1, now, copied)
            else if a in src.entries then
              Progress(src, dst, fault, i + 1, StoreInto(now, a, src.entries[a]), copied + [a])
            else !Completes(src, dst, fault) && Left(src, dst, fault) == now
  {
    var a, done := src.listed[i], src.listed[..i];
    TakeNext(src.listed, i);
    UnionSnoc(src, dst, done, a);
    ListedSnoc(dst.listed, dst, done, a);
    ListedSnoc([], dst, done, a);
    CopiedMembers(dst, done);
  }

  // ---- re-running after a failure -----------------------------------------------------------------

  /** Old entries kept, additions only from the source's first `n` listed accounts. */
  ghost predicate Between(src: Keychain, dst: Keychain, now: Keychain, n: nat) {
    && n <= |src.listed|
    && (forall a <- dst.entries :: a in now.entries && now.entries[a] == dst.entries[a])
    && (forall a <- now.entries :: a !in dst.entries ==>
          a in src.listed[..n] && a in src.entries && now.entries[a] == src.entries[a])
  }

  lemma MergedBetween(src: Keychain, dst: Keychain, n: nat)
    requires n <= |src.listed|
    ensures Between(src, dst, Merged(src, dst, src.listed[..n]), n)
  {
  }

  lemma BetweenMore(src: Keychain, dst: Keychain, now: Keychain, n: nat, m: nat)
    requires Between(src, dst, now, n) && n <= m <= |src.listed|
    ensures Between(src, dst, now, m)
  {
    assert forall a <- src.listed[..n] :: a in src.listed[..m];
  }

  lemma LeftBetween(src: Keychain, dst: Keychain, fault: Fault)
    ensures Between(src, dst, Left(src, dst, fault), |src.listed|)
  {
    var i := StopsAt(src, dst, fault, 0);
    MergedBetween(src, dst, i);
    BetweenMore(src, dst, Merged(src, dst, src.listed[..i]), i, |src.listed|);
    if fault.FailAt? && fault.at == i && Stores(src, dst, i) {
      assert src.listed[i] in src.listed[..|src.listed|];
    }
  }

  /** Re-running after a failure anywhere computes the same entries as one uninterrupted run. */
  lemma RerunReachesUnion(src: Keychain, dst: Keychain, fault: Fault)
    ensures Union(src, Left(src, dst, fault), src.listed) == Union(src, dst, src.listed)
    ensures AllReadable(src, Left(src, dst, fault), src.listed) <==> AllReadable(src, dst, src.listed)
  {
    LeftBetween(src, dst, fault);
    BetweenReachesUnion(src, dst, Left(src, dst, fault));
  }

  lemma BetweenReachesUnion(src: Keychain, dst: Keychain, partial: Keychain)
    requires Between(src, dst, partial, |src.listed|)
    ensures Union(src, partial, src.listed) == Union(src, dst, src.listed)
    ensures AllReadable(src, partial, src.listed) <==> AllReadable(src, dst, src.listed)
  {
    assert src.listed[..|src.listed|] == src.listed;
  }

  /**
   The inputs on which the re-run's listing stays incomplete: the failing store wrote the entry but
   not its index line, for an account that was nowhere in the destination.
   */
  predicate LeavesUnlisted(src: Keychain, dst: Keychain, fault: Fault) {
    && fault.FailAt? && fault.effect == Effect(true, false)
    && Stores(src, dst, fault.at) && src.listed[fault.at] !in dst.listed
  }

  lemma {:induction false} AddedAllConcat(list: seq<string>, x: seq<string>, y: seq<string>)
    ensures AddedAll(list, x + y) == AddedAll(AddedAll(list, x), y)
  {
    if y == [] {
      assert x + y == x;
    } else {
      var n := |y| - 1;
      assert x + y == (x + y[..n]) + [y[n]];
      AddedAllConcat(list, x, y[..n]);
      AddedAllSnoc(list, x + y[..n], y[n]);
    }
  }

  lemma {:induction false} AddedAllAgain(list: seq<string>, accounts: seq<string>)
    requires forall a <- accounts :: a in list
    ensures AddedAll(list, accounts) == list
  {
    if accounts != [] {
      AddedAllAgain(list, accounts[..|accounts| - 1]);
    }
  }

  /** Two destinations that disagree only on listed accounts extend the listing alike. */
  lemma {:induction false} SameExtension(list: seq<string>, j: Keychain, k: Keychain, accounts: seq<string>)
    requires forall a <- accounts :: a !in list ==> (a in j.entries <==> a in k.entries)
    ensures AddedAll(list, NewOnes(j, accounts)) == AddedAll(list, NewOnes(k, accounts))
  {
    if accounts != [] {
      var init, a := accounts[..|accounts| - 1], accounts[|accounts| - 1];
      assert accounts == init + [a];
      SameExtension(list, j, k, init);
      NewOnesSnoc(j, init, a);
      NewOnesSnoc(k, init, a);
      AddedAllSnoc(list, NewOnes(j, init), a);
      AddedAllSnoc(list, NewOnes(k, init), a);
      AddedAllMembers(list, NewOnes(j, init));
    }
  }

  /** A partial run whose listing is not behind its entries is completed to the uninterrupted listing. */
  lemma ResumedListing(src: Keychain, dst: Keychain, partial: Keychain, n: nat)
    requires Between(src, dst, partial, n) && partial.listed == AddedAll(dst.listed, NewOnes(dst, src.listed[..n]))
    ensures AddedAll(partial.listed, NewOnes(partial, src.listed)) == AddedAll(dst.listed, NewOnes(dst, src.listed))
  {
    var done, rest := src.listed[..n], src.listed[n..];
    assert src.listed == done + rest;
    NewOnesMembers(dst, done);
    AddedAllMembers(dst.listed, NewOnes(dst, done));
    SameExtension(partial.listed, partial, dst, src.listed);
    FilterConcat(done, rest, a => a !in dst.entries);
    AddedAllConcat(partial.listed, NewOnes(dst, done), NewOnes(dst, rest));
    AddedAllConcat(dst.listed, NewOnes(dst, done), NewOnes(dst, rest));
    AddedAllAgain(partial.listed, NewOnes(dst, done));
  }

  /** The entry without its index line is found present by the re-run and is skipped for good. */
  lemma SkippedForGood(src: Keychain, dst: Keychain, fault: Fault)
    requires AllReadable(src, dst, src.listed) && LeavesUnlisted(src, dst, fault)
    ensures var a, partial := src.listed[fault.at], Left(src, dst, fault);
            a in Merged(src, dst, src.listed).listed && a !in Merged(src, partial, src.listed).listed
  {
    var done, partial := src.listed[..fault.at], Left(src, dst, fault);
    StopsAtFault(src, dst, fault, 0);
    NewOnesMembers(dst, src.listed);
    AddedAllMembers(dst.listed, NewOnes(dst, src.listed));
    NewOnesMembers(dst, done);
    AddedAllMembers(dst.listed, NewOnes(dst, done));
    NewOnesMembers(partial, src.listed);
    AddedAllMembers(partial.listed, NewOnes(partial, src.listed));
  }

  lemma {:induction false} StopsAtFault(src: Keychain, dst: Keychain, fault: Fault, i: nat)
    requires AllReadable(src, dst, src.listed) && i <= |src.listed| && fault.FailAt? && fault.at >= i
    ensures StopsAt(src, dst, fault, i) == if fault.at < |src.listed| then fault.at else |src.listed|
    decreases |src.listed| - i
  {
    if i < |src.listed| && fault.at != i {
      StopsAtFault(src, dst, fault, i + 1);
    }
  }

  /**
   A failed run followed by a re-run ends where one uninterrupted run ends, entries and listing in the
   same order, exactly when the failure did not leave an entry unlisted.
   */
  lemma RerunCompletesIff(src: Keychain, dst: Keychain, fault: Fault)
    requires AllReadable(src, dst, src.listed)
    ensures Merged(src, Left(src, dst, fault), src.listed) == Merged(src, dst, src.listed) <==>
            !LeavesUnlisted(src, dst, fault)
  {
    RerunReachesUnion(src, dst, fault);
    if LeavesUnlisted(src, dst, fault) {
      SkippedForGood(src, dst, fault);
    } else {
      var n := CaughtUp(src, dst, fault);
      ResumedListing(src, dst, Left(src, dst, fault), n);
    }
  }

  /** Otherwise what is left lists the new accounts up to some position, and has stored none beyond it. */
  lemma CaughtUp(src: Keychain, dst: Keychain, fault: Fault) returns (n: nat)
    requires AllReadable(src, dst, src.listed) && !LeavesUnlisted(src, dst, fault)
    ensures var partial := Left(src, dst, fault);
            Between(src, dst, partial, n) && partial.listed == AddedAll(dst.listed, NewOnes(dst, src.listed[..n]))
  {
    var i := StopsAt(src, dst, fault, 0);
    n := i;
    MergedBetween(src, dst, i);
    if fault.FailAt? && fault.at == i && Stores(src, dst, i) {
      var done := src.listed[..i];
      TakeNext(src.listed, i);
      ListedSnoc(dst.listed, dst, done, src.listed[i]);
      AddedAllMembers(dst.listed, NewOnes(dst, done));
      BetweenMore(src, dst, Merged(src, dst, done), i, i + 1);
      if fault.effect.entry || fault.effect.index {
        n := i + 1;
      }
    }
  }

  /** The smallest failing case, run twice: the account is stored and never listed. */
  lemma UnlistedExample(secret: Bytestring)
    ensures var src, dst := Keychain(map["a" := secret], ["a"]), Keychain(map[], []);
            var partial := Left(src, dst, FailAt(0, Effect(true, false)));
            && Left(src, partial, NoFault) == Keychain(map["a" := secret], [])
            && Left(src, dst, NoFault) == Keychain(map["a" := secret], ["a"])
  {
    var src, dst := Keychain(map["a" := secret], ["a"]), Keychain(map[], []);
    var fault := FailAt(0, Effect(true, false));
    var partial := Left(src, dst, fault);
    assert src.listed[..1] == ["a"] && ["a"][..0] == [];
    assert partial == Keychain(map["a" := secret], []);
  }

  /** The documented recovery: re-run after a failure. */
  method MigrateAndResume(src: Keychain, dst: Keychain, fault: Fault) returns (result: Keychain, ok: bool)
    ensures ok <==> AllReadable(src, dst, src.listed)
    ensures ok ==> result.entries == Merged(src, dst, src.listed).entries
    ensures ok ==> (result.listed == Merged(src, dst, src.listed).listed <==> !LeavesUnlisted(src, dst, fault))
  {
    var partial, _, first := MigrateAccounts(src, dst, fault);
    var copied;
    result, copied, ok := MigrateAccounts(src, partial, NoFault);
    RerunReachesUnion(src, dst, fault);
    if ok {
      RerunCompletesIff(src, dst, fault);
    }
  }
}
