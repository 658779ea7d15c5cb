/**
 The audit hash chain: entries, the keyed tags, the verifier, and what an `Intact` verdict means.
 BLAKE3 and its keyed form are arbitrary functions held in `Crypto`; nothing is assumed of them
 beyond being functions. Where a result depends on the hash, it is stated as a reduction: the
 property holds, or two different messages with the same digest are exhibited.
 */
module AuditChain {
  import opened Common

  /** A 32-byte digest or tag, read as a number; the genesis digest is all zeros. */
  type Digest = nat
  type Key = seq<bv8>

  const GENESIS: Digest := 0
  const KEY_LENGTH := 32
  const U64_MAX: nat := 0xffff_ffff_ffff_ffff

  datatype Event = Event(
    ts: string, namespaceId: nat, callerProgram: Option<string>, op: string, outcome: string,
    denialReason: Option<string>, handle: Option<string>, sensitivity: Option<string>)

  datatype Entry = Entry(
    id: nat, seqNo: nat, event: Event, prevHash: Option<Digest>, currentHash: Digest, hmac: Option<Digest>)

  datatype PinnedHead = PinnedHead(
    headHash: Digest, headSeq: nat, headId: nat, updatedAt: string, hmacHead: Option<Digest>)

  datatype Baseline = Baseline(
    baselineSeq: nat, baselineId: nat, baselineHash: Digest, entryCount: nat,
    reason: string, createdAt: string, hmac: Option<Digest>)

  /** The hashed message: the entry's fields without its own hash and tag, then the previous digest. */
  datatype Canonical = Canonical(id: nat, seqNo: nat, event: Event, prev: Digest)

  /** The three tagged messages; their byte strings have lengths 48, 64 and 88, so they never coincide. */
  datatype MacInput =
    | EntryMac(hash: Digest, id: nat)
    | HeadMac(hash: Digest, seqNo: nat, id: nat, count: nat)
    | BaselineMac(hash: Digest, seqNo: nat, id: nat, count: nat)

  datatype Crypto = Crypto(blake3: Canonical -> Digest, keyed: (Key, MacInput) -> Digest)

  // ---- writing ----------------------------------------------------------------------------------

  function Message(e: Entry, prev: Digest): Canonical {
    Canonical(e.id, e.seqNo, e.event, prev)
  }

  /** `AuditWriter::append`: the entry chained to the in-memory head, with its hash and tag. */
  function NextEntry(c: Crypto, key: Key, head: Option<Digest>, headSeq: nat, id: nat, event: Event): (e: Entry) {
    var seqNo := if head.None? then 0 else headSeq + 1;
    var prev := UnwrapOr(head, GENESIS);
    var hash := c.blake3(Canonical(id, seqNo, event, prev));
    Entry(id, seqNo, event, head, hash, Some(c.keyed(key, EntryMac(hash, id))))
  }

  /** The pinned head `append` returns beside the entry, with its commitment MAC. */
  function HeadFor(c: Crypto, key: Key, e: Entry): (h: PinnedHead) {
    PinnedHead(e.currentHash, e.seqNo, e.id, e.event.ts,
               Some(c.keyed(key, HeadMac(e.currentHash, e.seqNo, e.id, e.seqNo + 1))))
  }

  function BaselineTag(c: Crypto, key: Key, b: Baseline): Digest {
    c.keyed(key, BaselineMac(b.baselineHash, b.baselineSeq, b.baselineId, b.entryCount))
  }

  // ---- the meaning of a chain -------------------------------------------------------------------

  function LastHash(es: seq<Entry>): Digest {
    if es == [] then GENESIS else es[|es| - 1].currentHash
  }

  function LastSeq(es: seq<Entry>): nat {
    if es == [] then 0 else es[|es| - 1].seqNo
  }

  function LogHead(es: seq<Entry>): Option<Digest> {
    if es == [] then None else Some(es[|es| - 1].currentHash)
  }

  predicate TagOk(c: Crypto, key: Key, e: Entry) {
    e.hmac == Some(c.keyed(key, EntryMac(e.currentHash, e.id)))
  }

  /** Row `i` sits at sequence number `i`, points at row `i - 1` and hashes its own content. */
  predicate ChainedAt(c: Crypto, es: seq<Entry>, i: nat)
    requires i < |es|
  {
    && es[i].seqNo == i
    && es[i].prevHash == LogHead(es[..i])
    && es[i].currentHash == c.blake3(Message(es[i], LastHash(es[..i])))
  }

  /** A gap-free chain from the genesis entry. */
  ghost predicate Chained(c: Crypto, es: seq<Entry>) {
    forall i :: 0 <= i < |es| ==> ChainedAt(c, es, i)
  }

  /** Every entry at or above sequence number `floor` carries its tag under `key`. */
  ghost predicate Tagged(c: Crypto, key: Key, es: seq<Entry>, floor: nat) {
    forall e <- es :: e.seqNo >= floor ==> TagOk(c, key, e)
  }

  // ---- the verifier -----------------------------------------------------------------------------

  datatype ChainOutcome =
    | Intact
    | HmacKeyUnavailable
    | GenesisAnchorMissing(entryId: nat, foundSeq: nat)
    | BrokenAtEntry(brokenAtId: nat, expectedPrev: Digest, actualPrev: Option<Digest>)
    | MissingHmac(entryId: nat)
    | HmacMismatch(entryId: nat)
    | HeadMacMismatch(headId: nat)
    | TruncationDetected(lastPinnedSeq: nat, lastActualSeq: nat)
    | HeadHashMismatch(expectedHead: Digest, actualHead: Digest)
    | BaselineMacMismatch(baselineId: nat)
    | BaselineEntryMissing(missingSeq: nat)

  datatype Verdict = Verdict(
    outcome: ChainOutcome, headHash: Option<Digest>, entriesChecked: nat, anomaliesDetected: nat,
    hmacChecked: bool, baselineSeq: Option<nat>, quarantinedBelow: nat)

  /** The walk's state after some entries: `last_hash`, `last_seq` (`None` before the first entry). */
  datatype WalkState = WalkState(lastHash: Digest, lastSeq: Option<nat>)

  function StateAfter(es: seq<Entry>): WalkState {
    if es == [] then WalkState(GENESIS, None) else WalkState(LastHash(es), Some(LastSeq(es)))
  }

  function Broken(e: Entry, expectedPrev: Digest): ChainOutcome {
    BrokenAtEntry(e.id, expectedPrev, e.prevHash)
  }

  function CheckLink(e: Entry, st: WalkState): (fault: Option<ChainOutcome>) {
    if st.lastSeq.Some? && e.seqNo != st.lastSeq.value + 1 then Some(Broken(e, st.lastHash))
    else if e.prevHash != Some(st.lastHash) then Some(Broken(e, st.lastHash))
    else None
  }

  function CheckHash(c: Crypto, e: Entry, prev: Digest): (fault: Option<ChainOutcome>) {
    if c.blake3(Message(e, prev)) != e.currentHash then Some(Broken(e, prev)) else None
  }

  function CheckHmac(c: Crypto, e: Entry, key: Option<Key>): (fault: Option<ChainOutcome>) {
    if key.None? then None
    else if e.hmac.None? then Some(MissingHmac(e.id))
    else if c.keyed(key.value, EntryMac(e.currentHash, e.id)) != e.hmac.value then Some(HmacMismatch(e.id))
    else None
  }

  function CheckGenesisAnchor(es: seq<Entry>): (fault: Option<ChainOutcome>) {
    if es == [] || (es[0].seqNo == 0 && es[0].prevHash.None?) then None
    else Some(GenesisAnchorMissing(es[0].id, es[0].seqNo))
  }

  function SaturatingAdd(a: nat, b: nat): nat {
    if a + b <= U64_MAX then a + b else U64_MAX
  }

  predicate HeadAuthentic(c: Crypto, key: Key, h: PinnedHead) {
    h.hmacHead == Some(c.keyed(key, HeadMac(h.headHash, h.headSeq, h.headId, SaturatingAdd(h.headSeq, 1))))
  }

  function CheckHeadCommitment(c: Crypto, key: Option<Key>, st: WalkState, h: PinnedHead)
    : (fault: Option<ChainOutcome>)
  {
    var finalSeq := UnwrapOr(st.lastSeq, 0);
    if key.Some? && !HeadAuthentic(c, key.value, h) then Some(HeadMacMismatch(h.headId))
    else if h.headSeq > finalSeq then Some(TruncationDetected(h.headSeq, finalSeq))
    else if st.lastHash != h.headHash || finalSeq != h.headSeq then Some(HeadHashMismatch(h.headHash, st.lastHash))
    else None
  }

  /** The digest an entry is hashed against: its own `prev_hash` for the first, then the walk's. */
  function PrevForHashing(e: Entry, st: WalkState): Digest {
    if st.lastSeq.None? then UnwrapOr(e.prevHash, GENESIS) else st.lastHash
  }

  /** What the walk finds wrong with the next entry, tags being examined from `floor` on. */
  function StepFault(c: Crypto, key: Option<Key>, floor: nat, e: Entry, st: WalkState): (fault: Option<ChainOutcome>) {
    var link := if st.lastSeq.None? then None else CheckLink(e, st);
    if link.Some? then link
    else
      var hash := CheckHash(c, e, PrevForHashing(e, st));
      if hash.Some? then hash
      else if e.seqNo >= floor then CheckHmac(c, e, key) else None
  }

  function FaultAt(c: Crypto, key: Option<Key>, floor: nat, es: seq<Entry>, i: nat): (fault: Option<ChainOutcome>)
    requires i < |es|
  {
    StepFault(c, key, floor, es[i], StateAfter(es[..i]))
  }

  /** The first faulty index at or after `i`, or `|es|`. */
  function FirstFault(c: Crypto, key: Option<Key>, floor: nat, es: seq<Entry>, i: nat): (k: nat)
    requires i <= |es|
    ensures i <= k <= |es|
    ensures forall j :: i <= j < k ==> FaultAt(c, key, floor, es, j).None?
    ensures k < |es| ==> FaultAt(c, key, floor, es, k).Some?
    decreases |es| - i
  {
    if i == |es| || FaultAt(c, key, floor, es, i).Some? then i else FirstFault(c, key, floor, es, i + 1)
  }

  function IndexOf(log: seq<Entry>, id: nat, from: nat): (k: nat)
    requires from <= |log|
    ensures from <= k <= |log|
    ensures forall j :: from <= j < k ==> log[j].id != id
    ensures k < |log| ==> log[k].id == id
    decreases |log| - from
  {
    if from == |log| || log[from].id == id then from else IndexOf(log, id, from + 1)
  }

  /** The entries from the first `fromId` through the first `toId` at or after it. */
  function Slice(log: seq<Entry>, fromId: Option<nat>, toId: Option<nat>): (es: seq<Entry>) {
    var lo := if fromId.Some? then IndexOf(log, fromId.value, 0) else 0;
    if toId.None? then log[lo..]
    else
      var hi := IndexOf(log, toId.value, lo);
      if hi < |log| then log[lo..hi + 1] else log[lo..]
  }

  function Rejected(outcome: ChainOutcome, headHash: Option<Digest>, checked: nat): Verdict {
    Verdict(outcome, headHash, checked, 1, false, None, 0)
  }

  /** What `verify_range` reports: the earliest failing check in the source's order. */
  function RangeVerdict(c: Crypto, log: seq<Entry>, h: PinnedHead, fromId: Option<nat>, toId: Option<nat>, key: Key)
    : (v: Verdict)
  {
    if key != [] && |key| != KEY_LENGTH then Rejected(HmacKeyUnavailable, LogHead(log), 0)
    else
      var k := if key == [] then None else Some(key);
      var full := fromId.None? && toId.None?;
      var es := Slice(log, fromId, toId);
      if es == [] && !full then Verdict(Intact, LogHead(log), 0, 0, false, None, 0)
      else if full && CheckGenesisAnchor(es).Some? then Rejected(CheckGenesisAnchor(es).value, LogHead(log), 0)
      else
        var i := FirstFault(c, k, 0, es, 0);
        if i < |es| then Rejected(FaultAt(c, k, 0, es, i).value, None, i + 1)
        else
          var head := CheckHeadCommitment(c, k, StateAfter(es), h);
          if full && head.Some? then Rejected(head.value, Some(LastHash(es)), |es|)
          else Verdict(Intact, Some(LastHash(es)), |es|, 0, k.Some?, None, 0)
  }

  function FullVerdict(c: Crypto, log: seq<Entry>, h: PinnedHead, key: Key): Verdict {
    RangeVerdict(c, log, h, None, None, key)
  }

  /** The window starts at the first `fromId`, or at the end of a log without it. */
  ghost predicate StartsAt(log: seq<Entry>, fromId: Option<nat>, lo: nat) {
    && lo <= |log|
    && (fromId.None? ==> lo == 0)
    && (fromId.Some? ==>
          (forall j :: 0 <= j < lo ==> log[j].id != fromId.value) && (lo < |log| ==> log[lo].id == fromId.value))
  }

  /** The window ends with the first `toId` at or after its start, that entry included, or with the log. */
  ghost predicate EndsAt(log: seq<Entry>, toId: Option<nat>, lo: nat, hi: nat) {
    && lo <= hi <= |log|
    && (hi < |log| ==> toId.Some? && lo < hi && log[hi - 1].id == toId.value)
    && (toId.Some? ==> forall j :: lo <= j < hi - 1 ==> log[j].id != toId.value)
  }

  ghost predicate IsWindow(log: seq<Entry>, fromId: Option<nat>, toId: Option<nat>, lo: nat, hi: nat) {
    StartsAt(log, fromId, lo) && EndsAt(log, toId, lo, hi)
  }

  /** The bounds of the slice. */
  lemma SliceWindow(log: seq<Entry>, fromId: Option<nat>, toId: Option<nat>) returns (lo: nat, hi: nat)
    ensures IsWindow(log, fromId, toId, lo, hi) && Slice(log, fromId, toId) == log[lo..hi]
  {
    lo := if fromId.Some? then IndexOf(log, fromId.value, 0) else 0;
    hi := |log|;
    if toId.Some? {
      var k := IndexOf(log, toId.value, lo);
      hi := if k < |log| then k + 1 else |log|;
    }
    assert log[lo..] == log[lo..|log|];
  }

  /** The bounds are determined, so this is all there is to say about a slice. */
  lemma WindowUnique(log: seq<Entry>, fromId: Option<nat>, toId: Option<nat>, lo: nat, hi: nat, lo': nat, hi': nat)
    requires IsWindow(log, fromId, toId, lo, hi) && IsWindow(log, fromId, toId, lo', hi')
    ensures lo == lo' && hi == hi'
  {
  }

  lemma SliceIs(log: seq<Entry>, fromId: Option<nat>, toId: Option<nat>, lo: nat, hi: nat)
    requires IsWindow(log, fromId, toId, lo, hi)
    ensures Slice(log, fromId, toId) == log[lo..hi]
  {
    var lo', hi' := SliceWindow(log, fromId, toId);
    WindowUnique(log, fromId, toId, lo, hi, lo', hi');
  }

  method SkipTo(log: seq<Entry>, fromId: Option<nat>) returns (i: nat)
    ensures StartsAt(log, fromId, i)
  {
    i := 0;
    if fromId.Some? {
      while i < |log| && log[i].id != fromId.value
        invariant i <= |log| && forall j :: 0 <= j < i ==> log[j].id != fromId.value
      {
        i := i + 1;
      }
    }
  }

  /** `slice_entries`: from the first `fromId` through the first `toId` from there on, both included. */
  method SliceEntries(log: seq<Entry>, fromId: Option<nat>, toId: Option<nat>)
    returns (collected: seq<Entry>)
    ensures exists lo: nat, hi: nat :: IsWindow(log, fromId, toId, lo, hi) && collected == log[lo..hi]
  {
    var i := SkipTo(log, fromId);
    ghost var lo := i;
    collected := [];
    while i < |log|
      invariant lo <= i <= |log| && collected == log[lo..i]
      invariant toId.Some? ==> forall j :: lo <= j < i ==> log[j].id != toId.value
    {
      collected := collected + [log[i]];
      i := i + 1;
      if toId.Some? && log[i - 1].id == toId.value {
        break;
      }
    }
    assert IsWindow(log, fromId, toId, lo, i);
  }

  /** The walk over the entries of a range: the first fault and how many entries were looked at. */
  method WalkEntries(c: Crypto, key: Option<Key>, entries: seq<Entry>)
    returns (fault: Option<ChainOutcome>, checked: nat, state: WalkState)
    ensures var k := FirstFault(c, key, 0, entries, 0);
            && (k < |entries| ==> fault == FaultAt(c, key, 0, entries, k) && checked == k + 1)
            && (k == |entries| ==> fault.None? && checked == k && state == StateAfter(entries))
  {
    state := WalkState(GENESIS, None);
    for i := 0 to |entries|
      invariant state == StateAfter(entries[..i])
      invariant FirstFault(c, key, 0, entries, 0) == FirstFault(c, key, 0, entries, i)
    {
      var entry := entries[i];
      var first := state.lastSeq.None?;
      var prev := PrevForHashing(entry, state);
      TakeNext(entries, i);
      if !first {
        var link := CheckLink(entry, state);
        if link.Some? {
          return link, i + 1, state;
        }
      }
      var hash := CheckHash(c, entry, prev);
      if hash.Some? {
        return hash, i + 1, state;
      }
      var tag := CheckHmac(c, entry, key);
      if tag.Some? {
        return tag, i + 1, state;
      }
      state := WalkState(entry.currentHash, Some(entry.seqNo));
    }
    assert entries[..|entries|] == entries;
    return None, |entries|, state;
  }

  /** `verify_range`: the key discipline, the anchor, the walk and the head, with early returns. */
  method VerifyRange(c: Crypto, log: seq<Entry>, h: PinnedHead, fromId: Option<nat>, toId: Option<nat>, key: Key)
    returns (v: Verdict)
    ensures v == RangeVerdict(c, log, h, fromId, toId, key)
  {
    if key != [] && |key| != KEY_LENGTH {
      return Rejected(HmacKeyUnavailable, LogHead(log), 0);
    }
    var k := if key == [] then None else Some(key);
    var full := fromId.None? && toId.None?;
    var entries := SliceEntries(log, fromId, toId);
    ghost var lo: nat, hi: nat :| IsWindow(log, fromId, toId, lo, hi) && entries == log[lo..hi];
    SliceIs(log, fromId, toId, lo, hi);
    if entries == [] && !full {
      return Verdict(Intact, LogHead(log), 0, 0, false, None, 0);
    }
    if full {
      var anchor := CheckGenesisAnchor(entries);
      if anchor.Some? {
        return Rejected(anchor.value, LogHead(log), 0);
      }
    }
    var fault, checked, state := WalkEntries(c, k, entries);
    if fault.Some? {
      return Rejected(fault.value, None, checked);
    }
    if full {
      var head := CheckHeadCommitment(c, k, state, h);
      if head.Some? {
        return Rejected(head.value, Some(state.lastHash), checked);
      }
    }
    v := Verdict(Intact, Some(state.lastHash), checked, 0, k.Some?, None, 0);
  }

  /** How many of the entries lie below the trust floor. */
  function CountBelow(es: seq<Entry>, floor: nat): (n: nat) {
    if es == [] then 0 else CountBelow(es[..|es| - 1], floor) + (if es[|es| - 1].seqNo < floor then 1 else 0)
  }

  /** The last entry at the anchor's sequence number commits to the pinned hash. */
  function AnchorOk(es: seq<Entry>, b: Baseline): (ok: bool) {
    if es == [] then false
    else if es[|es| - 1].seqNo == b.baselineSeq then es[|es| - 1].currentHash == b.baselineHash
    else AnchorOk(es[..|es| - 1], b)
  }

  /** What `verify_from_baseline` reports. */
  function BaselineVerdict(c: Crypto, log: seq<Entry>, h: PinnedHead, b: Baseline, key: Key): (v: Verdict) {
    if |key| != KEY_LENGTH then Verdict(HmacKeyUnavailable, LogHead(log), 0, 1, false, Some(b.baselineSeq), 0)
    else if b.hmac != Some(BaselineTag(c, key, b)) then
      Verdict(BaselineMacMismatch(b.baselineId), LogHead(log), 0, 1, false, Some(b.baselineSeq), 0)
    else if CheckGenesisAnchor(log).Some? then Rejected(CheckGenesisAnchor(log).value, LogHead(log), 0)
    else
      var i := FirstFault(c, Some(key), b.baselineSeq, log, 0);
      if i < |log| then Rejected(FaultAt(c, Some(key), b.baselineSeq, log, i).value, None, i + 1)
      else
        var below := CountBelow(log, b.baselineSeq);
        if !AnchorOk(log, b) then
          Verdict(BaselineEntryMissing(b.baselineSeq), Some(LastHash(log)), |log|, 1, false, Some(b.baselineSeq), below)
        else
          var head := CheckHeadCommitment(c, Some(key), StateAfter(log), h);
          if head.Some? then Rejected(head.value, Some(LastHash(log)), |log|)
          else Verdict(Intact, Some(LastHash(log)), |log|, 0, true, Some(b.baselineSeq), below)
  }

  /** The baseline-anchored walk: structure everywhere, tags only from the anchor on. */
  method VerifyFromBaseline(c: Crypto, log: seq<Entry>, h: PinnedHead, b: Baseline, key: Key) returns (v: Verdict)
    ensures v == BaselineVerdict(c, log, h, b, key)
  {
    if |key| != KEY_LENGTH {
      return Verdict(HmacKeyUnavailable, LogHead(log), 0, 1, false, Some(b.baselineSeq), 0);
    }
    if b.hmac != Some(BaselineTag(c, key, b)) {
      return Verdict(BaselineMacMismatch(b.baselineId), LogHead(log), 0, 1, false, Some(b.baselineSeq), 0);
    }
    var anchor := CheckGenesisAnchor(log);
    if anchor.Some? {
      return Rejected(anchor.value, LogHead(log), 0);
    }
    var state := WalkState(GENESIS, None);
    var quarantinedBelow := 0;
    var anchorOk := false;
    for i := 0 to |log|
      invariant state == StateAfter(log[..i])
      invariant FirstFault(c, Some(key), b.baselineSeq, log, 0) == FirstFault(c, Some(key), b.baselineSeq, log, i)
      invariant quarantinedBelow == CountBelow(log[..i], b.baselineSeq)
      invariant anchorOk == AnchorOk(log[..i], b)
    {
      var entry := log[i];
      assert log[..i + 1][..i] == log[..i];
      var first := state.lastSeq.None?;
      var prev := PrevForHashing(entry, state);
      if !first {
        var link := CheckLink(entry, state);
        if link.Some? {
          return Rejected(link.value, None, i + 1);
        }
      }
      var hash := CheckHash(c, entry, prev);
      if hash.Some? {
        return Rejected(hash.value, None, i + 1);
      }
      if entry.seqNo >= b.baselineSeq {
        var tag := CheckHmac(c, entry, Some(key));
        if tag.Some? {
          return Rejected(tag.value, None, i + 1);
        }
      } else {
        quarantinedBelow := quarantinedBelow + 1;
      }
      if entry.seqNo == b.baselineSeq {
        anchorOk := entry.currentHash == b.baselineHash;
      }
      state := WalkState(entry.currentHash, Some(entry.seqNo));
    }
    assert log[..|log|] == log;
    if !anchorOk {
      return Verdict(BaselineEntryMissing(b.baselineSeq), Some(state.lastHash), |log|, 1, false,
                     Some(b.baselineSeq), quarantinedBelow);
    }
    var head := CheckHeadCommitment(c, Some(key), state, h);
    if head.Some? {
      return Rejected(head.value, Some(state.lastHash), |log|);
    }
    v := Verdict(Intact, Some(state.lastHash), |log|, 0, true, Some(b.baselineSeq), quarantinedBelow);
  }
}
