/**
 The keystore's in-memory map with its sentinel index: one reserved account per service holds the
 encoded list of the service's accounts, because the backends cannot enumerate. The index is a
 cache of the map's key set, and the results say when the two agree.
 */
module KeystoreIndex {
  import opened Common
  import opened Base64

  const INDEX_SUFFIX := "__merkle_account_index"

  type Bytestring = seq<Byte>
  type Flat = map<(string, string), Bytestring>

  /** The JSON form of an account list; only its round trip matters here. */
  datatype IndexCodec = IndexCodec(encode: seq<string> -> Bytestring, decode: Bytestring -> Option<seq<string>>)

  ghost predicate Lawful(codec: IndexCodec) {
    forall list :: codec.encode(list) != [] && codec.decode(codec.encode(list)) == Some(list)
  }

  predicate EndsWith(s: string, suffix: string) {
    |suffix| <= |s| && s[|s| - |suffix|..] == suffix
  }

  function SentinelAccount(service: string): (account: string)
    ensures EndsWith(account, INDEX_SUFFIX)
  {
    service + INDEX_SUFFIX
  }

  /** An absent or empty entry is an empty list. */
  function DecodeIndex(codec: IndexCodec, raw: Bytestring): (list: Option<seq<string>>) {
    if raw == [] then Some([]) else codec.decode(raw)
  }

  function RawIndex(m: Flat, service: string): Bytestring {
    var key := (service, SentinelAccount(service));
    if key in m then m[key] else []
  }

  function ListAccounts(codec: IndexCodec, m: Flat, service: string): (list: Option<seq<string>>) {
    DecodeIndex(codec, RawIndex(m, service))
  }

  function Added(list: seq<string>, account: string): (r: seq<string>) {
    if account in list then list else list + [account]
  }

  function Removed(list: seq<string>, account: string): (r: seq<string>) {
    Filter(list, a => a != account)
  }

  method IndexAdd(current: seq<string>, account: string) returns (next: seq<string>, changed: bool)
    ensures next == Added(current, account)
    ensures changed <==> next != current
  {
    if exists a <- current :: a == account {
      return current, false;
    }
    return current + [account], true;
  }

  /** `Vec::retain`: keep what differs, in order. */
  method IndexRemove(current: seq<string>, account: string) returns (next: seq<string>, changed: bool)
    ensures next == Removed(current, account)
    ensures changed <==> next != current
    ensures !changed <==> account !in current
  {
    next := [];
    for i := 0 to |current|
      invariant next == Removed(current[..i], account)
      invariant |next| <= i && (|next| == i <==> account !in current[..i])
      invariant account !in current[..i] ==> next == current[..i]
    {
      assert current[..i + 1] == current[..i] + [current[i]];
      FilterSnoc(current[..i], current[i], a => a != account);
      if current[i] != account {
        next := next + [current[i]];
      }
    }
    assert current[..|current|] == current;
    changed := |next| != |current|;
  }

  datatype Outcome = Done | NotFound | BadIndex

  /** `store` up to the persist: note that a bad index is detected after the entry went in. */
  function StoreEntry(codec: IndexCodec, m: Flat, service: string, account: string, secret: Bytestring)
    : (r: (Flat, Outcome))
  {
    var m1 := m[(service, account) := secret];
    if EndsWith(account, INDEX_SUFFIX) then (m1, Done)
    else
      var index := ListAccounts(codec, m1, service);
      if index.None? then (m1, BadIndex)
      else if account in index.value then (m1, Done)
      else (m1[(service, SentinelAccount(service)) := codec.encode(Added(index.value, account))], Done)
  }

  /** `delete` up to the persist. */
  function DeleteEntry(codec: IndexCodec, m: Flat, service: string, account: string): (r: (Flat, Outcome)) {
    if (service, account) !in m then (m, NotFound)
    else
      var m1 := m - {(service, account)};
      if EndsWith(account, INDEX_SUFFIX) then (m1, Done)
      else
        var index := ListAccounts(codec, m1, service);
        if index.None? then (m1, BadIndex)
        else if account !in index.value then (m1, Done)
        else (m1[(service, SentinelAccount(service)) := codec.encode(Removed(index.value, account))], Done)
  }

  // ---- agreement ------------------------------------------------------------------------------------

  predicate NoDuplicates(list: seq<string>) {
    forall i, j :: 0 <= i < j < |list| ==> list[i] != list[j]
  }

  /** `list` names each non-reserved account stored under the service exactly once. */
  ghost predicate Covers(m: Flat, service: string, list: seq<string>) {
    && NoDuplicates(list)
    && forall a :: a in list <==> (service, a) in m && !EndsWith(a, INDEX_SUFFIX)
  }

  /** The service's index decodes and covers the map. */
  ghost predicate Agrees(codec: IndexCodec, m: Flat, service: string) {
    var list := ListAccounts(codec, m, service);
    list.Some? && Covers(m, service, list.value)
  }

  ghost predicate Consistent(codec: IndexCodec, m: Flat) {
    forall service :: Agrees(codec, m, service)
  }

  lemma AddedCovers(m: Flat, m': Flat, service: string, account: string, list: seq<string>)
    requires Covers(m, service, list) && !EndsWith(account, INDEX_SUFFIX)
    requires (service, account) in m'
    requires forall a :: !EndsWith(a, INDEX_SUFFIX) && a != account ==> ((service, a) in m' <==> (service, a) in m)
    ensures Covers(m', service, Added(list, account))
  {
  }

  lemma {:induction false} RemovedMembers(list: seq<string>, account: string)
    requires NoDuplicates(list)
    ensures NoDuplicates(Removed(list, account))
    ensures forall a :: a in Removed(list, account) <==> a in list && a != account
  {
    if list != [] {
      assert list == [list[0]] + list[1..];
      RemovedMembers(list[1..], account);
      assert list[0] !in list[1..];
      var rest := Removed(list[1..], account);
      assert list[0] !in rest && NoDuplicates([list[0]] + rest);
    }
  }

  lemma RemovedCovers(m: Flat, m': Flat, service: string, account: string, list: seq<string>)
    requires Covers(m, service, list) && !EndsWith(account, INDEX_SUFFIX)
    requires (service, account) !in m'
    requires forall a :: !EndsWith(a, INDEX_SUFFIX) && a != account ==> ((service, a) in m' <==> (service, a) in m)
    ensures Covers(m', service, Removed(list, account))
    ensures account !in list ==> Removed(list, account) == list
  {
    RemovedMembers(list, account);
    if account !in list {
      FilterAll(list, a => a != account);
    }
  }

  /** Another service's agreement depends only on its own keys. */
  lemma OtherServiceAgrees(codec: IndexCodec, m: Flat, m': Flat, other: string)
    requires Agrees(codec, m, other)
    requires forall a :: (other, a) in m' <==> (other, a) in m
    requires forall a :: (other, a) in m ==> m'[(other, a)] == m[(other, a)]
    ensures Agrees(codec, m', other)
  {
    var key := (other, SentinelAccount(other));
    assert key in m' <==> key in m;
    assert RawIndex(m', other) == RawIndex(m, other);
  }

  lemma StoreAgrees(codec: IndexCodec, m: Flat, service: string, account: string, secret: Bytestring)
    requires Lawful(codec) && Agrees(codec, m, service) && account != SentinelAccount(service)
    ensures Agrees(codec, StoreEntry(codec, m, service, account, secret).0, service)
    ensures StoreEntry(codec, m, service, account, secret).1 == Done
  {
    var m1 := m[(service, account) := secret];
    var list := ListAccounts(codec, m, service).value;
    assert RawIndex(m1, service) == RawIndex(m, service);
    if !EndsWith(account, INDEX_SUFFIX) {
      var m2 := StoreEntry(codec, m, service, account, secret).0;
      AddedCovers(m, m2, service, account, list);
    }
  }

  lemma DeleteAgrees(codec: IndexCodec, m: Flat, service: string, account: string)
    requires Lawful(codec) && Agrees(codec, m, service) && account != SentinelAccount(service)
    ensures Agrees(codec, DeleteEntry(codec, m, service, account).0, service)
    ensures DeleteEntry(codec, m, service, account).1 == if (service, account) in m then Done else NotFound
  {
    if (service, account) in m {
      var m1 := m - {(service, account)};
      var list := ListAccounts(codec, m, service).value;
      assert RawIndex(m1, service) == RawIndex(m, service);
      if !EndsWith(account, INDEX_SUFFIX) {
        var m2 := DeleteEntry(codec, m, service, account).0;
        RemovedCovers(m, m2, service, account, list);
      }
    }
  }

  /**
   Exactly which stores keep the index in agreement: all of them, except one that writes a service's
   own sentinel account with anything but a list covering the stored accounts.
   */
  lemma StoreKeepsConsistentIff(codec: IndexCodec, m: Flat, service: string, account: string, secret: Bytestring)
    requires Lawful(codec) && Consistent(codec, m)
    ensures Consistent(codec, StoreEntry(codec, m, service, account, secret).0) <==>
            (account == SentinelAccount(service) ==>
               DecodeIndex(codec, secret).Some? && Covers(m, service, DecodeIndex(codec, secret).value))
  {
    var m' := StoreEntry(codec, m, service, account, secret).0;
    forall other | other != service
      ensures Agrees(codec, m', other)
    {
      OtherServiceAgrees(codec, m, m', other);
    }
    if account != SentinelAccount(service) {
      StoreAgrees(codec, m, service, account, secret);
    } else {
      assert RawIndex(m', service) == secret;
      SameAccounts(m, m', service);
      var list := DecodeIndex(codec, secret);
      if list.Some? {
        CoversSame(m, m', service, list.value);
      }
      assert Agrees(codec, m', service) <==> list.Some? && Covers(m', service, list.value);
    }
  }

  lemma SameAccounts(m: Flat, m': Flat, service: string)
    requires forall k :: k != (service, SentinelAccount(service)) ==> (k in m' <==> k in m)
    ensures forall a :: !EndsWith(a, INDEX_SUFFIX) ==> ((service, a) in m' <==> (service, a) in m)
  {
  }

  lemma CoversSame(m: Flat, m': Flat, service: string, list: seq<string>)
    requires forall a :: !EndsWith(a, INDEX_SUFFIX) ==> ((service, a) in m' <==> (service, a) in m)
    ensures Covers(m', service, list) <==> Covers(m, service, list)
  {
  }

  /** Deletes keep agreement too, except that a used service's own sentinel must stay. */
  lemma DeleteKeepsConsistentIff(codec: IndexCodec, m: Flat, service: string, account: string)
    requires Lawful(codec) && Consistent(codec, m)
    ensures Consistent(codec, DeleteEntry(codec, m, service, account).0) <==>
            (account == SentinelAccount(service) && (service, account) in m ==> Covers(m, service, []))
  {
    var m' := DeleteEntry(codec, m, service, account).0;
    forall other | other != service
      ensures Agrees(codec, m', other)
    {
      OtherServiceAgrees(codec, m, m', other);
    }
    if account != SentinelAccount(service) {
      DeleteAgrees(codec, m, service, account);
    } else if (service, account) in m {
      assert RawIndex(m', service) == [];
      SameAccounts(m, m', service);
      CoversSame(m, m', service, []);
      assert Agrees(codec, m', service) <==> Covers(m', service, []);
    }
  }

  lemma EmptyIsConsistent(codec: IndexCodec)
    ensures Consistent(codec, map[])
  {
    forall service
      ensures Agrees(codec, map[], service)
    {
      assert ListAccounts(codec, map[], service) == Some([]);
    }
  }

  /** Writing a sentinel directly can list an account that does not exist. */
  lemma SentinelOverwriteExample(codec: IndexCodec, service: string)
    requires Lawful(codec)
    ensures var m := StoreEntry(codec, map[], service, SentinelAccount(service), codec.encode(["ghost"])).0;
            ListAccounts(codec, m, service) == Some(["ghost"]) && (service, "ghost") !in m
  {
    var sentinel := SentinelAccount(service);
    assert |sentinel| > |"ghost"|;
  }
}
