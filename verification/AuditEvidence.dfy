/** What the verifier's verdicts prove about a log, for every log, head and key. */
module AuditEvidence {
  import opened Common
  import opened AuditChain

  // ---- an Intact verdict, in terms of the chain ---------------------------------------------------

  /** The log's tip is the pinned head's. */
  predicate TipMatches(es: seq<Entry>, h: PinnedHead) {
    LastHash(es) == h.headHash && LastSeq(es) == h.headSeq
  }

  predicate Anchored(es: seq<Entry>) {
    CheckGenesisAnchor(es).None?
  }

  ghost predicate TagsHold(c: Crypto, key: Option<Key>, es: seq<Entry>, floor: nat) {
    key.Some? ==> Tagged(c, key.value, es, floor)
  }

  lemma StepMeaning(c: Crypto, key: Option<Key>, floor: nat, es: seq<Entry>, i: nat)
    requires i < |es| && Anchored(es) && (i > 0 ==> es[i - 1].seqNo == i - 1)
    ensures FaultAt(c, key, floor, es, i).None? <==>
            ChainedAt(c, es, i) && (key.Some? && es[i].seqNo >= floor ==> TagOk(c, key.value, es[i]))
  {
    if i > 0 {
      assert es[..i][i - 1] == es[i - 1];
    }
  }

  lemma {:induction false} SeqNumbers(c: Crypto, key: Option<Key>, floor: nat, es: seq<Entry>, i: nat)
    requires i < |es| && Anchored(es)
    requires forall j :: 0 <= j <= i ==> FaultAt(c, key, floor, es, j).None?
    ensures ChainedAt(c, es, i) && (key.Some? && es[i].seqNo >= floor ==> TagOk(c, key.value, es[i]))
  {
    if i > 0 {
      SeqNumbers(c, key, floor, es, i - 1);
    }
    StepMeaning(c, key, floor, es, i);
  }

  /** The walk finds no fault exactly when the rows form a genesis-anchored chain with the tags in place. */
  lemma WalkPassesIff(c: Crypto, key: Option<Key>, floor: nat, es: seq<Entry>)
    ensures Anchored(es) && FirstFault(c, key, floor, es, 0) == |es| <==>
            Chained(c, es) && TagsHold(c, key, es, floor)
  {
    if Anchored(es) && FirstFault(c, key, floor, es, 0) == |es| {
      forall i | 0 <= i < |es|
        ensures ChainedAt(c, es, i) && (key.Some? && es[i].seqNo >= floor ==> TagOk(c, key.value, es[i]))
      {
        SeqNumbers(c, key, floor, es, i);
      }
    }
    if Chained(c, es) && TagsHold(c, key, es, floor) {
      if es != [] {
        assert ChainedAt(c, es, 0);
      }
      var k := FirstFault(c, key, floor, es, 0);
      if k < |es| {
        assert ChainedAt(c, es, k);
        if k > 0 {
          assert ChainedAt(c, es, k - 1);
        }
        StepMeaning(c, key, floor, es, k);
      }
    }
  }

  predicate KeyAccepted(key: Key) {
    key == [] || |key| == KEY_LENGTH
  }

  function KeyOption(key: Key): Option<Key> {
    if key == [] then None else Some(key)
  }

  /** The full pass says Intact exactly for a chained log whose tags and authenticated head all agree. */
  lemma FullIntactIff(c: Crypto, log: seq<Entry>, h: PinnedHead, key: Key)
    ensures FullVerdict(c, log, h, key).outcome == Intact <==>
            && KeyAccepted(key)
            && Chained(c, log)
            && (key != [] ==> Tagged(c, key, log, 0) && HeadAuthentic(c, key, h))
            && TipMatches(log, h)
  {
    assert Slice(log, None, None) == log;
    WalkPassesIff(c, KeyOption(key), 0, log);
  }

  /** On a properly chained and tagged log the verdict is the head-commitment check's. */
  lemma ChainedVerdict(c: Crypto, log: seq<Entry>, h: PinnedHead, key: Key)
    requires |key| == KEY_LENGTH && Chained(c, log) && Tagged(c, key, log, 0)
    ensures FullVerdict(c, log, h, key).outcome ==
            UnwrapOr(CheckHeadCommitment(c, Some(key), StateAfter(log), h), Intact)
  {
    assert Slice(log, None, None) == log;
    WalkPassesIff(c, Some(key), 0, log);
  }

  /** Deleting every row is reported, unless the surviving head itself claims the genesis position. */
  lemma EmptyLogIntactIff(c: Crypto, h: PinnedHead, key: Key)
    requires KeyAccepted(key)
    ensures FullVerdict(c, [], h, key).outcome == Intact <==>
            h.headHash == GENESIS && h.headSeq == 0 && (key != [] ==> HeadAuthentic(c, key, h))
  {
    FullIntactIff(c, [], h, key);
  }

  // ---- entry by entry, for any window ---------------------------------------------------------------

  /** The digest an entry of a window is hashed against: the first one's own claim, then its predecessor. */
  function PrevDigest(es: seq<Entry>, i: nat): (d: Digest)
    requires i < |es|
  {
    if i > 0 then es[i - 1].currentHash else if es[0].prevHash.Some? then es[0].prevHash.value else GENESIS
  }

  predicate Linked(es: seq<Entry>, i: nat)
    requires i < |es|
  {
    i > 0 ==> es[i].seqNo == es[i - 1].seqNo + 1 && es[i].prevHash == Some(es[i - 1].currentHash)
  }

  predicate Hashed(c: Crypto, es: seq<Entry>, i: nat)
    requires i < |es|
  {
    es[i].currentHash == c.blake3(Canonical(es[i].id, es[i].seqNo, es[i].event, PrevDigest(es, i)))
  }

  /** The entry links to its predecessor in the window, hashes, and carries its tag from `floor` on. */
  predicate SoundAt(c: Crypto, key: Option<Key>, floor: nat, es: seq<Entry>, i: nat)
    requires i < |es|
  {
    Linked(es, i) && Hashed(c, es, i) && (key.Some? && es[i].seqNo >= floor ==> TagOk(c, key.value, es[i]))
  }

  ghost predicate SoundUpTo(c: Crypto, key: Option<Key>, floor: nat, es: seq<Entry>, n: nat) {
    n <= |es| && forall i :: 0 <= i < n ==> SoundAt(c, key, floor, es, i)
  }

  /** What is reported about an unsound entry. */
  ghost predicate Blames(c: Crypto, o: ChainOutcome, es: seq<Entry>, i: nat)
    requires i < |es|
  {
    if !Linked(es, i) || !Hashed(c, es, i) then o == BrokenAtEntry(es[i].id, PrevDigest(es, i), es[i].prevHash)
    else if es[i].hmac.None? then o == MissingHmac(es[i].id)
    else o == HmacMismatch(es[i].id)
  }

  lemma FaultMeaning(c: Crypto, key: Option<Key>, floor: nat, es: seq<Entry>, i: nat)
    requires i < |es|
    ensures FaultAt(c, key, floor, es, i).None? <==> SoundAt(c, key, floor, es, i)
    ensures FaultAt(c, key, floor, es, i).Some? ==> Blames(c, FaultAt(c, key, floor, es, i).value, es, i)
  {
    if i > 0 {
      assert es[..i][i - 1] == es[i - 1];
    }
  }

  /** The walk stops at the first unsound entry. */
  lemma FirstFaultIs(c: Crypto, key: Option<Key>, floor: nat, es: seq<Entry>, n: nat)
    requires SoundUpTo(c, key, floor, es, n) && (n < |es| ==> !SoundAt(c, key, floor, es, n))
    ensures FirstFault(c, key, floor, es, 0) == n
  {
    var k := FirstFault(c, key, floor, es, 0);
    if k < |es| {
      FaultMeaning(c, key, floor, es, k);
    }
    if n < |es| {
      FaultMeaning(c, key, floor, es, n);
    }
  }

  /**
   A range of any log is intact exactly when every entry of its window links to its predecessor in the
   window, hashes, and carries its tag. The first entry that does not is blamed, and counted last.
   */
  lemma RangeIntactIff(
    c: Crypto, log: seq<Entry>, h: PinnedHead, fromId: Option<nat>, toId: Option<nat>, key: Key, lo: nat, hi: nat)
    requires IsWindow(log, fromId, toId, lo, hi) && (fromId.Some? || toId.Some?)
    ensures var v := RangeVerdict(c, log, h, fromId, toId, key);
            var es, k := log[lo..hi], KeyOption(key);
            && (v.outcome == Intact <==> KeyAccepted(key) && SoundUpTo(c, k, 0, es, |es|))
            && (v.outcome == Intact ==> v.entriesChecked == |es| && v.anomaliesDetected == 0)
            && (!KeyAccepted(key) ==> v.outcome == HmacKeyUnavailable && v.entriesChecked == 0)
            && (KeyAccepted(key) ==>
                  forall n :: 0 <= n < |es| && SoundUpTo(c, k, 0, es, n) && !SoundAt(c, k, 0, es, n) ==>
                    Blames(c, v.outcome, es, n) && v.entriesChecked == n + 1 && v.anomaliesDetected == 1)
  {
    var es, k := log[lo..hi], KeyOption(key);
    SliceIs(log, fromId, toId, lo, hi);
    var n := FirstFault(c, k, 0, es, 0);
    forall i | 0 <= i < n
      ensures SoundAt(c, k, 0, es, i)
    {
      FaultMeaning(c, k, 0, es, i);
    }
    if n < |es| {
      FaultMeaning(c, k, 0, es, n);
    }
  }

  /** Every range of an intact log is intact, whichever ids bound it. */
  lemma {:induction false} RangesOfIntactLog(
    c: Crypto, log: seq<Entry>, h: PinnedHead, fromId: Option<nat>, toId: Option<nat>, key: Key)
    requires FullVerdict(c, log, h, key).outcome == Intact
    ensures RangeVerdict(c, log, h, fromId, toId, key).outcome == Intact
  {
    FullIntactIff(c, log, h, key);
    if fromId.Some? || toId.Some? {
      var lo, hi := SliceWindow(log, fromId, toId);
      forall i | 0 <= i < hi - lo
        ensures SoundAt(c, KeyOption(key), 0, log[lo..hi], i)
      {
        WindowSound(c, KeyOption(key), log, lo, hi, i);
      }
      RangeIntactIff(c, log, h, fromId, toId, key, lo, hi);
    }
  }

  lemma WindowSound(c: Crypto, key: Option<Key>, log: seq<Entry>, lo: nat, hi: nat, i: nat)
    requires Chained(c, log) && TagsHold(c, key, log, 0) && lo <= hi <= |log| && lo + i < hi
    ensures SoundAt(c, key, 0, log[lo..hi], i)
  {
    var j := lo + i;
    assert ChainedAt(c, log, j) && log[lo..hi][i] == log[j];
    if j > 0 {
      assert ChainedAt(c, log, j - 1) && log[..j][j - 1] == log[j - 1];
    }
  }

  /** The rest of the report of any pass: counts, the head shown, and whether tags were really checked. */
  lemma RangeReport(
    c: Crypto, log: seq<Entry>, h: PinnedHead, fromId: Option<nat>, toId: Option<nat>, key: Key, lo: nat, hi: nat)
    requires IsWindow(log, fromId, toId, lo, hi)
    ensures var v, n := RangeVerdict(c, log, h, fromId, toId, key), hi - lo;
            var walked := n > 0 || (fromId.None? && toId.None?);
            && v.baselineSeq.None? && v.quarantinedBelow == 0
            && v.anomaliesDetected == (if v.outcome == Intact then 0 else 1) && v.entriesChecked <= n
            && (v.hmacChecked <==> v.outcome == Intact && key != [] && walked)
            && (v.outcome == Intact ==>
                  && v.entriesChecked == n
                  && v.headHash == if walked then Some(LastHash(log[lo..hi])) else LogHead(log))
  {
    SliceIs(log, fromId, toId, lo, hi);
    var es, k := log[lo..hi], KeyOption(key);
    var i := FirstFault(c, k, 0, es, 0);
    if i < |es| {
      FaultMeaning(c, k, 0, es, i);
    }
  }

  /** Every outcome of a full pass that is not about an entry: the key, the genesis anchor, the head. */
  lemma FullOutcome(c: Crypto, log: seq<Entry>, h: PinnedHead, key: Key)
    ensures var o := FullVerdict(c, log, h, key).outcome;
            && (!KeyAccepted(key) ==> o == HmacKeyUnavailable)
            && (KeyAccepted(key) && log != [] && (log[0].seqNo != 0 || log[0].prevHash.Some?) ==>
                  o == GenesisAnchorMissing(log[0].id, log[0].seqNo))
            && (KeyAccepted(key) && Chained(c, log) && (key != [] ==> Tagged(c, key, log, 0)) ==>
                  o == HeadOutcome(c, log, h, key))
  {
    assert Slice(log, None, None) == log;
    WalkPassesIff(c, KeyOption(key), 0, log);
  }

  /** The authenticated head against the tip, in the order of the source. */
  function HeadOutcome(c: Crypto, log: seq<Entry>, h: PinnedHead, key: Key): (o: ChainOutcome) {
    if key != [] && !HeadAuthentic(c, key, h) then HeadMacMismatch(h.headId)
    else if h.headSeq > LastSeq(log) then TruncationDetected(h.headSeq, LastSeq(log))
    else if !TipMatches(log, h) then HeadHashMismatch(h.headHash, LastHash(log))
    else Intact
  }

  /** The first unsound entry of a full pass is blamed. */
  lemma FullBlames(c: Crypto, log: seq<Entry>, h: PinnedHead, key: Key, n: nat)
    requires KeyAccepted(key) && Anchored(log) && n < |log|
    requires SoundUpTo(c, KeyOption(key), 0, log, n) && !SoundAt(c, KeyOption(key), 0, log, n)
    ensures var v := FullVerdict(c, log, h, key);
            Blames(c, v.outcome, log, n) && v.entriesChecked == n + 1 && v.anomaliesDetected == 1
  {
    assert Slice(log, None, None) == log;
    FirstFaultIs(c, KeyOption(key), 0, log, n);
    FaultMeaning(c, KeyOption(key), 0, log, n);
  }

  // ---- tamper evidence ---------------------------------------------------------------------------

  /** Two rows at the same position whose different messages have the same digest. */
  predicate CollisionAt(c: Crypto, a: seq<Entry>, b: seq<Entry>, i: nat) {
    && i < |a| && i < |b|
    && Message(a[i], LastHash(a[..i])) != Message(b[i], LastHash(b[..i]))
    && c.blake3(Message(a[i], LastHash(a[..i]))) == c.blake3(Message(b[i], LastHash(b[..i])))
  }

  /** Equal in everything the hash covers; the tag may differ. */
  predicate SameContent(x: Entry, y: Entry) {
    x.(hmac := None) == y.(hmac := None)
  }

  /** Two chains with the same digest at position `n - 1` agree below it, or expose a collision. */
  lemma {:induction false} ChainsAgree(c: Crypto, a: seq<Entry>, b: seq<Entry>, n: nat)
    requires Chained(c, a) && Chained(c, b) && n <= |a| && n <= |b|
    requires n > 0 ==> a[n - 1].currentHash == b[n - 1].currentHash
    ensures (forall i :: 0 <= i < n ==> SameContent(a[i], b[i])) || exists i :: CollisionAt(c, a, b, i)
  {
    if n > 0 {
      var i := n - 1;
      assert ChainedAt(c, a, i) && ChainedAt(c, b, i);
      if !CollisionAt(c, a, b, i) {
        if i > 0 {
          assert a[..i][i - 1] == a[i - 1] && b[..i][i - 1] == b[i - 1];
          assert a[i - 1].currentHash == b[i - 1].currentHash;
        }
        ChainsAgree(c, a, b, i);
      }
    }
  }

  /** The head describes position `k` of the issued history (its time stamp is not authenticated). */
  predicate Describes(h: PinnedHead, issued: seq<Entry>, k: nat) {
    k < |issued| && h.headHash == issued[k].currentHash && h.headSeq == k && h.headId == issued[k].id
  }

  /** The keyed tag was not forged: a head that authenticates was issued by the writer. */
  ghost predicate HeadNotForged(c: Crypto, key: Key, issued: seq<Entry>, h: PinnedHead) {
    HeadAuthentic(c, key, h) ==> exists k :: Describes(h, issued, k)
  }

  /** The presented log breaks the hash: a collision with the issued history, or a digest of all zeros. */
  ghost predicate HashBroken(c: Crypto, issued: seq<Entry>, rows: seq<Entry>) {
    || (exists i :: CollisionAt(c, issued, rows, i))
    || (issued != [] && issued[0].currentHash == GENESIS)
  }

  /**
   Tamper evidence. Whatever rows and head are presented, a keyed Intact verdict means the rows are,
   field by field, the issued history up to the position the head names; otherwise the head was
   forged or the hash is broken. No edit, reorder, insertion, truncation or rebuild is accepted.
   */
  lemma TamperEvident(c: Crypto, key: Key, issued: seq<Entry>, rows: seq<Entry>, h: PinnedHead)
    requires |key| == KEY_LENGTH && Chained(c, issued) && Tagged(c, key, issued, 0)
    requires HeadNotForged(c, key, issued, h)
    requires FullVerdict(c, rows, h, key).outcome == Intact
    ensures HashBroken(c, issued, rows) || (h.headSeq < |issued| && rows == issued[..h.headSeq + 1])
  {
    FullIntactIff(c, rows, h, key);
    var k :| Describes(h, issued, k);
    if rows == [] {
      assert ChainedAt(c, issued, 0);
    } else {
      var n := |rows|;
      assert ChainedAt(c, rows, n - 1);
      ChainsAgree(c, issued, rows, n);
      if forall i :: 0 <= i < n ==> SameContent(issued[i], rows[i]) {
        forall i | 0 <= i < n
          ensures rows[i] == issued[i]
        {
          assert rows[i] in rows && issued[i] in issued;
          assert TagOk(c, key, rows[i]) && TagOk(c, key, issued[i]);
        }
        assert rows == issued[..n];
      }
    }
  }

  lemma PrefixChained(c: Crypto, key: Key, es: seq<Entry>, n: nat)
    requires n <= |es| && Chained(c, es)
    ensures Chained(c, es[..n])
    ensures Tagged(c, key, es, 0) ==> Tagged(c, key, es[..n], 0)
  {
    forall i | 0 <= i < n
      ensures ChainedAt(c, es[..n], i)
    {
      assert ChainedAt(c, es, i);
      assert es[..n][..i] == es[..i];
    }
  }

  /** Every issued prefix with its own pinned head verifies, so the previous result is exact. */
  lemma IssuedPrefixIntact(c: Crypto, key: Key, issued: seq<Entry>, k: nat, h: PinnedHead)
    requires |key| == KEY_LENGTH && Chained(c, issued) && Tagged(c, key, issued, 0)
    requires Describes(h, issued, k) && HeadAuthentic(c, key, h)
    ensures FullVerdict(c, issued[..k + 1], h, key).outcome == Intact
  {
    PrefixChained(c, key, issued, k + 1);
    assert ChainedAt(c, issued, k);
    FullIntactIff(c, issued[..k + 1], h, key);
  }

  /** Exactly the issued prefixes are accepted: this is the whole of what an Intact verdict rules out. */
  lemma IntactIffIssuedPrefix(c: Crypto, key: Key, issued: seq<Entry>, rows: seq<Entry>, h: PinnedHead)
    requires |key| == KEY_LENGTH && Chained(c, issued) && Tagged(c, key, issued, 0)
    requires HeadNotForged(c, key, issued, h) && !HashBroken(c, issued, rows)
    ensures FullVerdict(c, rows, h, key).outcome == Intact <==>
            HeadAuthentic(c, key, h) && exists k :: Describes(h, issued, k) && rows == issued[..k + 1]
  {
    if FullVerdict(c, rows, h, key).outcome == Intact {
      TamperEvident(c, key, issued, rows, h);
      FullIntactIff(c, rows, h, key);
      var k :| Describes(h, issued, k);
      assert rows == issued[..k + 1];
    }
    if k :| Describes(h, issued, k) && rows == issued[..k + 1] && HeadAuthentic(c, key, h) {
      IssuedPrefixIntact(c, key, issued, k, h);
    }
  }

  /** Without a key the content is still pinned by a trusted head; only the tags go unchecked. */
  lemma HashOnlyContent(c: Crypto, issued: seq<Entry>, rows: seq<Entry>, h: PinnedHead, k: nat)
    requires Chained(c, issued) && Describes(h, issued, k)
    requires FullVerdict(c, rows, h, []).outcome == Intact
    ensures HashBroken(c, issued, rows) ||
            (|rows| == k + 1 && forall i :: 0 <= i <= k ==> SameContent(issued[i], rows[i]))
  {
    FullIntactIff(c, rows, h, []);
    if rows == [] {
      assert ChainedAt(c, issued, 0);
    } else {
      assert ChainedAt(c, rows, |rows| - 1);
      ChainsAgree(c, issued, rows, |rows|);
    }
  }

  // ---- the baseline pass --------------------------------------------------------------------------

  lemma {:induction false} ChainedCounts(c: Crypto, es: seq<Entry>, b: Baseline)
    requires Chained(c, es)
    ensures CountBelow(es, b.baselineSeq) == if b.baselineSeq < |es| then b.baselineSeq else |es|
    ensures AnchorOk(es, b) <==> b.baselineSeq < |es| && es[b.baselineSeq].currentHash == b.baselineHash
  {
    if es != [] {
      var n := |es| - 1;
      PrefixChained(c, [], es, n);
      ChainedCounts(c, es[..n], b);
      assert ChainedAt(c, es, n);
    }
  }

  /**
   The baseline pass says Intact exactly when the whole log is chained, the tags hold from the
   anchor on, the authenticated anchor names its row, and the authenticated head is the tip.
   */
  lemma BaselineIntactIff(c: Crypto, log: seq<Entry>, h: PinnedHead, b: Baseline, key: Key)
    ensures BaselineVerdict(c, log, h, b, key).outcome == Intact <==>
            && |key| == KEY_LENGTH
            && b.hmac == Some(BaselineTag(c, key, b))
            && Chained(c, log) && Tagged(c, key, log, b.baselineSeq)
            && b.baselineSeq < |log| && log[b.baselineSeq].currentHash == b.baselineHash
            && HeadAuthentic(c, key, h) && TipMatches(log, h)
    ensures BaselineVerdict(c, log, h, b, key).outcome == Intact ==>
            BaselineVerdict(c, log, h, b, key).quarantinedBelow == b.baselineSeq
  {
    WalkPassesIff(c, Some(key), b.baselineSeq, log);
    if Chained(c, log) {
      ChainedCounts(c, log, b);
    }
  }

  /** Every other outcome of the baseline pass, in the order of the source. */
  lemma BaselineOutcome(c: Crypto, log: seq<Entry>, h: PinnedHead, b: Baseline, key: Key)
    ensures var o := BaselineVerdict(c, log, h, b, key).outcome;
            if |key| != KEY_LENGTH then o == HmacKeyUnavailable
            else if b.hmac != Some(BaselineTag(c, key, b)) then o == BaselineMacMismatch(b.baselineId)
            else if log != [] && (log[0].seqNo != 0 || log[0].prevHash.Some?) then
              o == GenesisAnchorMissing(log[0].id, log[0].seqNo)
            else if Chained(c, log) && Tagged(c, key, log, b.baselineSeq) then
              o == if b.baselineSeq < |log| && log[b.baselineSeq].currentHash == b.baselineHash
                   then HeadOutcome(c, log, h, key) else BaselineEntryMissing(b.baselineSeq)
            else
              exists n :: 0 <= n < |log| && SoundUpTo(c, Some(key), b.baselineSeq, log, n)
                          && !SoundAt(c, Some(key), b.baselineSeq, log, n) && Blames(c, o, log, n)
  {
    WalkPassesIff(c, Some(key), b.baselineSeq, log);
    if Chained(c, log) {
      ChainedCounts(c, log, b);
    }
    var n := FirstFault(c, Some(key), b.baselineSeq, log, 0);
    forall i | 0 <= i < n
      ensures SoundAt(c, Some(key), b.baselineSeq, log, i)
    {
      FaultMeaning(c, Some(key), b.baselineSeq, log, i);
    }
    if n < |log| {
      FaultMeaning(c, Some(key), b.baselineSeq, log, n);
    }
  }

  /** The report of the anchored pass. */
  lemma BaselineReport(c: Crypto, log: seq<Entry>, h: PinnedHead, b: Baseline, key: Key)
    ensures var v := BaselineVerdict(c, log, h, b, key);
            && v.anomaliesDetected == (if v.outcome == Intact then 0 else 1)
            && (v.hmacChecked <==> v.outcome == Intact)
            && (v.outcome == Intact || v.outcome == BaselineEntryMissing(b.baselineSeq) ==>
                  && v.headHash == Some(LastHash(log)) && v.entriesChecked == |log|
                  && v.baselineSeq == Some(b.baselineSeq)
                  && v.quarantinedBelow == if b.baselineSeq < |log| then b.baselineSeq else |log|)
  {
    WalkPassesIff(c, Some(key), b.baselineSeq, log);
    var i := FirstFault(c, Some(key), b.baselineSeq, log, 0);
    if i < |log| {
      FaultMeaning(c, Some(key), b.baselineSeq, log, i);
    }
    if Chained(c, log) {
      ChainedCounts(c, log, b);
    }
  }

  /** Against a genuine anchor, the full pass is the baseline pass plus the tags below the anchor. */
  lemma FullIsBaselinePlusPrefixTags(c: Crypto, log: seq<Entry>, h: PinnedHead, b: Baseline, key: Key)
    requires |key| == KEY_LENGTH && b.hmac == Some(BaselineTag(c, key, b))
    requires b.baselineSeq < |log| && log[b.baselineSeq].currentHash == b.baselineHash
    ensures FullVerdict(c, log, h, key).outcome == Intact <==>
            && BaselineVerdict(c, log, h, b, key).outcome == Intact
            && forall e <- log :: e.seqNo < b.baselineSeq ==> TagOk(c, key, e)
  {
    FullIntactIff(c, log, h, key);
    BaselineIntactIff(c, log, h, b, key);
  }

  /** A baseline does not weaken content evidence: even quarantined rows are the issued ones. */
  lemma BaselineKeepsContentEvidence(
    c: Crypto, key: Key, issued: seq<Entry>, rows: seq<Entry>, h: PinnedHead, b: Baseline)
    requires Chained(c, issued) && HeadNotForged(c, key, issued, h)
    requires BaselineVerdict(c, rows, h, b, key).outcome == Intact
    ensures HashBroken(c, issued, rows) ||
            (|rows| == h.headSeq + 1 <= |issued| && forall i :: 0 <= i < |rows| ==> SameContent(issued[i], rows[i]))
  {
    BaselineIntactIff(c, rows, h, b, key);
    var k :| Describes(h, issued, k);
    assert ChainedAt(c, rows, |rows| - 1);
    ChainsAgree(c, issued, rows, |rows|);
  }
}
