/**
 Changes of the audit key and the re-baseline that follows them. A vault is run in epochs, each under
 one key; the tags of an earlier epoch do not verify under a later key. Pinning a baseline at an entry
 of the current epoch makes the verification query pass again, for every continuation.
 */
module AuditRebaseline {
  import opened Common
  import opened AuditChain
  import opened AuditEvidence
  import opened AuditVault
  import opened AuditSnapshot

  // ---- epochs -------------------------------------------------------------------------------------

  datatype Epoch = Epoch(key: Key, actions: seq<Action>)

  function RunEpochs(c: Crypto, epochs: seq<Epoch>): (v: Vault) {
    if epochs == [] then FRESH
    else
      var last := epochs[|epochs| - 1];
      Run(c, last.key, RunEpochs(c, epochs[..|epochs| - 1]), last.actions)
  }

  /** A new key takes the stored chain over as it is; nothing stored carries its tags yet. */
  lemma RekeyKeepsValid(c: Crypto, oldKey: Key, floor: nat, v: Vault, key: Key)
    requires Valid(c, oldKey, floor, v)
    ensures Valid(c, key, |v.db.rows|, v)
  {
    var rows := v.db.rows;
    forall e | e in rows
      ensures e.seqNo < |rows|
    {
      var i :| 0 <= i < |rows| && rows[i] == e;
      assert ChainedAt(c, rows, i);
    }
  }

  /** Whatever keys were used, the stored chain is sound and can be continued under any key. */
  lemma {:induction false} EpochsKeepValid(c: Crypto, epochs: seq<Epoch>, key: Key)
    ensures var v := RunEpochs(c, epochs);
            Valid(c, key, |v.db.rows|, v)
  {
    if epochs != [] {
      var init, last := epochs[..|epochs| - 1], epochs[|epochs| - 1];
      var before := RunEpochs(c, init);
      EpochsKeepValid(c, init, last.key);
      RunKeepsValid(c, last.key, |before.db.rows|, before, last.actions);
      RekeyKeepsValid(c, last.key, |before.db.rows|, RunEpochs(c, epochs), key);
    }
  }

  // ---- the command --------------------------------------------------------------------------------

  function BaselineFor(c: Crypto, key: Key, h: PinnedHead, reason: string, createdAt: string): (b: Baseline) {
    var count := SaturatingAdd(h.headSeq, 1);
    var tag := c.keyed(key, BaselineMac(h.headHash, h.headSeq, h.headId, count));
    Baseline(h.headSeq, h.headId, h.headHash, count, reason, createdAt, Some(tag))
  }

  /** `b` was made by the command from the head of a row of the current epoch. */
  predicate MadeFromHead(c: Crypto, key: Key, floor: nat, rows: seq<Entry>, b: Baseline) {
    var k := b.baselineSeq;
    && floor <= k < |rows| && k < MAX_I64
    && b == BaselineFor(c, key, HeadFor(c, key, rows[k]), b.reason, b.createdAt)
  }

  /**
   The tag covers the entry count, so a baseline comes back from its signed columns unchanged exactly
   below sequence number `i64::MAX`, one short of what an entry can have.
   */
  lemma BaselineStoredIff(c: Crypto, key: Key, e: Entry, reason: string, createdAt: string)
    requires e.seqNo <= MAX_I64
    ensures var b := BaselineFor(c, key, HeadFor(c, key, e), reason, createdAt);
            StoredBaseline(b) == b <==> e.seqNo < MAX_I64
  {
  }

  /**
   The re-baseline command: append a marker under the current key, read the pinned head back, pin an
   authenticated baseline at it. The marker is the anchor and everything before it is quarantined.
   */
  method SetAuditBaseline(
    agent: AuditAgent, c: Crypto, key: Key, ghost floor: nat, id: nat, event: Event,
    reason: string, createdAt: string, confirmed: bool, commitFails: bool, pinFails: bool)
    returns (quarantined: Option<nat>)
    requires agent.memory.Up? && Valid(c, key, floor, agent.View()) && floor <= |agent.store.rows|
    modifies agent, agent.store
    ensures var v := old(agent.View());
            var marked := Step(c, key, v, Commit(id, event, if commitFails then Refused else NoFault));
            var e := Attempt(c, key, v, id, event);
            var b := BaselineFor(c, key, HeadFor(c, key, e), reason, createdAt);
            if !confirmed then quarantined.None? && agent.View() == v
            else if marked.db == v.db || pinFails then quarantined.None? && agent.View() == marked
            else
              && marked.db.rows == v.db.rows + [e] && agent.View() == Step(c, key, marked, PinBaseline(b))
              && quarantined == Some(|v.db.rows|)
              && (|v.db.rows| < MAX_I64 ==> MadeFromHead(c, key, floor, marked.db.rows, b))
  {
    if !confirmed {
      return None;
    }
    CommitOutcome(c, key, floor, agent.View(), id, event);
    var ok := agent.AuditCommit(c, key, id, event, commitFails);
    if !ok {
      return None;
    }
    var head := agent.store.pinned;
    if head.None? {
      return None;
    }
    if pinFails {
      return None;
    }
    var b := BaselineFor(c, key, head.value, reason, createdAt);
    agent.store.SetAuditBaseline(b);
    quarantined := Some(head.value.headSeq);
  }

  // ---- every continuation verifies ----------------------------------------------------------------

  /** Each baseline pinned in the run was made from a head the run had committed under the key. */
  ghost predicate PinsMadeFromHeads(c: Crypto, key: Key, floor: nat, isolated: bool, start: Vault, moves: seq<Move>) {
    forall i :: 0 <= i < |moves| && moves[i].Write? && moves[i].action.PinBaseline? ==>
      var rows := RunSystem(c, key, isolated, start, moves[..i]).vault.db.rows;
      MadeFromHead(c, key, floor, rows, moves[i].action.baseline)
  }

  ghost predicate BaselineOk(c: Crypto, key: Key, floor: nat, db: Db) {
    db.baseline.Some? ==> MadeFromHead(c, key, floor, db.rows, db.baseline.value)
  }

  lemma StepKeepsBaseline(c: Crypto, key: Key, floor: nat, v: Vault, a: Action)
    requires Valid(c, key, floor, v) && BaselineOk(c, key, floor, v.db)
    requires a.PinBaseline? ==> MadeFromHead(c, key, floor, v.db.rows, a.baseline)
    ensures BaselineOk(c, key, floor, Step(c, key, v, a).db)
  {
    StepKeepsValid(c, key, floor, v, a);
  }

  lemma {:induction false} RunKeepsBaselines(
    c: Crypto, key: Key, floor: nat, isolated: bool, start: Vault, moves: seq<Move>)
    requires Valid(c, key, floor, start) && BaselineOk(c, key, floor, start.db)
    requires PinsMadeFromHeads(c, key, floor, isolated, start, moves)
    ensures forall db <- RunSystem(c, key, isolated, start, moves).history :: BaselineOk(c, key, floor, db)
  {
    if moves != [] {
      var init, m := moves[..|moves| - 1], moves[|moves| - 1];
      assert forall i :: 0 <= i < |init| ==> init[..i] == moves[..i];
      RunKeepsBaselines(c, key, floor, isolated, start, init);
      RunKeepsHistory(c, key, floor, isolated, start, init);
      if m.Write? {
        var s := RunSystem(c, key, isolated, start, init);
        assert s.vault.db in s.history;
        StepKeepsBaseline(c, key, floor, s.vault, m.action);
      }
    }
  }

  /** The verification query on a snapshot: anchored to the baseline when there is one. */
  function QueryVerdict(c: Crypto, key: Key, snap: Snapshot): (v: Option<Verdict>) {
    if snap.pinned.None? then None
    else if snap.baseline.Some? then
      Some(BaselineVerdict(c, snap.entries, snap.pinned.value, snap.baseline.value, key))
    else Some(FullVerdict(c, snap.entries, snap.pinned.value, key))
  }

  /**
   What the query says of any snapshot under any key. It answers when a head is pinned. With a baseline
   it is Intact exactly when the whole log is chained, tags hold from the anchor on, the authenticated
   anchor names its row and the authenticated head is the tip; without one, when the full pass is.
   */
  lemma QueryIntactIff(c: Crypto, key: Key, snap: Snapshot)
    ensures var v, es := QueryVerdict(c, key, snap), snap.entries;
            && (v.Some? <==> snap.pinned.Some?)
            && (v.Some? ==>
                  (v.value.outcome == Intact <==>
                   && Chained(c, es) && TipMatches(es, snap.pinned.value)
                   && if snap.baseline.Some? then
                        var b := snap.baseline.value;
                        && |key| == KEY_LENGTH && HeadAuthentic(c, key, snap.pinned.value)
                        && b.hmac == Some(BaselineTag(c, key, b))
                        && b.baselineSeq < |es| && es[b.baselineSeq].currentHash == b.baselineHash
                        && Tagged(c, key, es, b.baselineSeq)
                      else
                        && KeyAccepted(key)
                        && (key != [] ==> Tagged(c, key, es, 0) && HeadAuthentic(c, key, snap.pinned.value))))
            && (v.Some? && v.value.outcome == Intact ==>
                  && v.value.entriesChecked == |es|
                  && (snap.baseline.None? ==> v.value.baselineSeq.None? && v.value.quarantinedBelow == 0)
                  && (snap.baseline.Some? ==>
                        var anchor := snap.baseline.value.baselineSeq;
                        v.value.baselineSeq == Some(anchor) && v.value.quarantinedBelow == anchor))
  {
    if snap.pinned.Some? {
      assert Slice(snap.entries, None, None) == snap.entries;
      FullIntactIff(c, snap.entries, snap.pinned.value, key);
      if snap.baseline.Some? {
        BaselineIntactIff(c, snap.entries, snap.pinned.value, snap.baseline.value, key);
      }
    }
  }

  /**
   So an Intact query, on whatever rows, means that they have the content of the issued history up to
   the position the head names, quarantined or not; otherwise the hash is broken.
   */
  lemma QueryTamperEvident(c: Crypto, key: Key, issued: seq<Entry>, snap: Snapshot)
    requires |key| == KEY_LENGTH && Chained(c, issued)
    requires snap.pinned.Some? && HeadNotForged(c, key, issued, snap.pinned.value)
    requires QueryVerdict(c, key, snap).value.outcome == Intact
    ensures var es, n := snap.entries, snap.pinned.value.headSeq + 1;
            || HashBroken(c, issued, es)
            || (|es| == n <= |issued| && forall i :: 0 <= i < n ==> SameContent(issued[i], es[i]))
  {
    QueryIntactIff(c, key, snap);
    var es := snap.entries;
    var k :| Describes(snap.pinned.value, issued, k);
    if es == [] {
      assert ChainedAt(c, issued, 0);
    } else {
      assert ChainedAt(c, es, |es| - 1);
      ChainsAgree(c, issued, es, |es|);
    }
  }

  /** A sound state with a baseline of the current epoch, or with one key throughout, passes the query. */
  lemma QueryPasses(c: Crypto, key: Key, floor: nat, db: Db)
    requires |key| == KEY_LENGTH && DbValid(c, key, floor, db) && BaselineOk(c, key, floor, db)
    requires db.rows != [] && (db.baseline.None? ==> floor == 0)
    ensures var v := QueryVerdict(c, key, Snapshot(db.rows, db.pinned, db.baseline));
            && v.Some? && v.value.outcome == Intact
            && v.value.quarantinedBelow == if db.baseline.Some? then db.baseline.value.baselineSeq else 0
  {
    assert ChainedAt(c, db.rows, |db.rows| - 1);
    if db.baseline.Some? {
      var b := db.baseline.value;
      assert ChainedAt(c, db.rows, b.baselineSeq);
      BaselineIntactIff(c, db.rows, db.pinned.value, b, key);
    } else {
      ValidDbIsIntact(c, key, db);
    }
  }

  /**
   With one key throughout, the query passes on every isolated snapshot of every run in which
   baselines come from the command.
   */
  lemma SnapshotQueryPasses(c: Crypto, key: Key, moves: seq<Move>, snap: Snapshot)
    requires |key| == KEY_LENGTH && RunSystem(c, key, true, FRESH, moves).reader == Done(snap)
    requires PinsMadeFromHeads(c, key, 0, true, FRESH, moves)
    ensures var verdict := QueryVerdict(c, key, snap);
            snap.entries != [] ==> verdict.Some? && verdict.value.outcome == Intact
  {
    RunKeepsIsolation(c, key, 0, FRESH, moves);
    RunKeepsHistory(c, key, 0, true, FRESH, moves);
    RunKeepsBaselines(c, key, 0, true, FRESH, moves);
    if snap.entries != [] {
      QueryPasses(c, key, 0, Db(snap.entries, snap.pinned, snap.baseline));
    }
  }

  /**
   Why the re-baseline is needed: under a new key an unanchored query accepts the old rows exactly
   when their tags and the head's MAC happen to hold under that key too.
   */
  lemma UnanchoredPassesIff(c: Crypto, epochs: seq<Epoch>, key: Key)
    requires |key| == KEY_LENGTH && RunEpochs(c, epochs).db.rows != []
    ensures var db := RunEpochs(c, epochs).db;
            var verdict := QueryVerdict(c, key, Snapshot(db.rows, db.pinned, None));
            && verdict.Some?
            && (verdict.value.outcome == Intact <==>
                Tagged(c, key, db.rows, 0) && HeadAuthentic(c, key, db.pinned.value))
  {
    var db := RunEpochs(c, epochs).db;
    EpochsChained(c, epochs);
    FullIntactIff(c, db.rows, db.pinned.value, key);
  }

  lemma EpochsChained(c: Crypto, epochs: seq<Epoch>)
    requires RunEpochs(c, epochs).db.rows != []
    ensures var db := RunEpochs(c, epochs).db;
            Chained(c, db.rows) && db.pinned.Some? && TipMatches(db.rows, db.pinned.value)
  {
    EpochsKeepValid(c, epochs, []);
  }

  /** The vault after a restore and a completed re-baseline under `key`. */
  function Rebaselined(c: Crypto, key: Key, v: Vault, id: nat, event: Event, reason: string, createdAt: string)
    : (w: Vault)
  {
    var restored := Step(c, key, v, Restore);
    var e := Attempt(c, key, restored, id, event);
    var marked := Step(c, key, restored, Commit(id, event, NoFault));
    Step(c, key, marked, PinBaseline(BaselineFor(c, key, HeadFor(c, key, e), reason, createdAt)))
  }

  /**
   Recovery from any history of keys. Once a re-baseline under the current key went through, every
   isolated snapshot of every continuation passes the query. Until the next re-baseline it
   quarantines exactly the rows that were stored before; later ones only move the floor up.
   */
  lemma RebaselineRestoresVerification(
    c: Crypto, epochs: seq<Epoch>, key: Key, id: nat, event: Event, reason: string, createdAt: string,
    moves: seq<Move>, snap: Snapshot)
    requires |key| == KEY_LENGTH
    requires var v := RunEpochs(c, epochs);
             var w := Rebaselined(c, key, v, id, event, reason, createdAt);
             && w.db.rows != v.db.rows && |v.db.rows| < MAX_I64
             && PinsMadeFromHeads(c, key, |v.db.rows|, true, w, moves)
             && RunSystem(c, key, true, w, moves).reader == Done(snap)
    ensures var v := RunEpochs(c, epochs);
            var w := Rebaselined(c, key, v, id, event, reason, createdAt);
            var verdict := QueryVerdict(c, key, snap);
            && verdict.Some? && verdict.value.outcome == Intact
            && snap.baseline.Some? && verdict.value.quarantinedBelow == snap.baseline.value.baselineSeq >= |v.db.rows|
            && (snap.baseline == w.db.baseline ==> verdict.value.quarantinedBelow == |v.db.rows|)
  {
    var v := RunEpochs(c, epochs);
    var w := Rebaselined(c, key, v, id, event, reason, createdAt);
    EpochsKeepValid(c, epochs, key);
    RebaselinedOk(c, key, v, id, event, reason, createdAt);
    RunKeepsIsolation(c, key, |v.db.rows|, w, moves);
    RunKeepsHistory(c, key, |v.db.rows|, true, w, moves);
    RunKeepsBaselines(c, key, |v.db.rows|, true, w, moves);
    BaselineStays(c, key, true, w, moves);
    QueryPasses(c, key, |v.db.rows|, Db(snap.entries, snap.pinned, snap.baseline));
  }

  lemma RebaselinedOk(c: Crypto, key: Key, v: Vault, id: nat, event: Event, reason: string, createdAt: string)
    requires Valid(c, key, |v.db.rows|, v) && |v.db.rows| < MAX_I64
    ensures var w := Rebaselined(c, key, v, id, event, reason, createdAt);
            && Valid(c, key, |v.db.rows|, w)
            && (w.db.rows != v.db.rows ==>
                  && w.db.baseline.Some? && w.db.baseline.value.baselineSeq == |v.db.rows|
                  && BaselineOk(c, key, |v.db.rows|, w.db))
  {
    var n := |v.db.rows|;
    var restored := Step(c, key, v, Restore);
    StepKeepsValid(c, key, n, v, Restore);
    CommitOutcome(c, key, n, restored, id, event);
    var marked := Step(c, key, restored, Commit(id, event, NoFault));
    StepKeepsValid(c, key, n, restored, Commit(id, event, NoFault));
    var b := BaselineFor(c, key, HeadFor(c, key, Attempt(c, key, restored, id, event)), reason, createdAt);
    StepKeepsValid(c, key, n, marked, PinBaseline(b));
  }

  /** A pinned baseline can be replaced, never removed. */
  lemma {:induction false} BaselineStays(c: Crypto, key: Key, isolated: bool, start: Vault, moves: seq<Move>)
    requires start.db.baseline.Some?
    ensures var s := RunSystem(c, key, isolated, start, moves);
            s.vault.db.baseline.Some? && forall db <- s.history :: db.baseline.Some?
  {
    if moves != [] {
      BaselineStays(c, key, isolated, start, moves[..|moves| - 1]);
    }
  }
}
