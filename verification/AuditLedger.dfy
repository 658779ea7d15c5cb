/**
 The audit protocol as its users see it: an append-only ledger of (id, event) records. A run of the
 vault, with its hashes, tags, pinned head, in-memory position and faults, stores exactly the ledger
 that can be read off the list of actions.
 */
module AuditLedger {
  import opened Common
  import opened AuditChain
  import opened AuditEvidence
  import Vault = AuditVault

  datatype Record = Record(id: nat, event: Event)

  /** Whether the agent runs, and whether its memory has everything durable. */
  datatype Status = Stopped | Synced | Stale

  datatype Ledger = Ledger(status: Status, log: seq<Record>)

  const EMPTY := Ledger(Stopped, [])

  /** The chain digest after the records. */
  function Digests(c: Crypto, log: seq<Record>): (d: Digest) {
    if log == [] then GENESIS
    else
      var n := |log| - 1;
      c.blake3(Canonical(log[n].id, n, log[n].event, Digests(c, log[..n])))
  }

  /** The digest stored with record `k`. */
  function DigestAt(c: Crypto, log: seq<Record>, k: nat): (d: Digest)
    requires k < |log|
  {
    Digests(c, log[..k + 1])
  }

  /** No record has the id, and the chain never had the digest. */
  ghost predicate Unused(c: Crypto, log: seq<Record>, id: nat, digest: Digest) {
    forall k :: 0 <= k < |log| ==> log[k].id != id && DigestAt(c, log, k) != digest
  }

  /** The table takes the record: there is a sequence number left, and its id and digest are new. */
  ghost predicate Accepts(c: Crypto, log: seq<Record>, r: Record) {
    |log| <= Vault.MAX_I64 && Unused(c, log, r.id, Digests(c, log + [r]))
  }

  /** The commit is durable: the memory is in sync, the table accepts, and nothing stops the transaction. */
  ghost predicate Durable(c: Crypto, l: Ledger, r: Record, fault: Vault.Fault) {
    l.status == Synced && Accepts(c, l.log, r) && !fault.Refused? && !fault.CrashBefore?
  }

  ghost function Step(c: Crypto, l: Ledger, a: Vault.Action): (m: Ledger) {
    match a
    case Crash => l.(status := Stopped)
    case Boot => l.(status := if l.log == [] then Synced else Stale)
    case Restore => l.(status := Synced)
    case PinBaseline(_) => l
    case Commit(id, event, fault) =>
      var r := Record(id, event);
      var durable := Durable(c, l, r, fault);
      Ledger(
        if l.status.Stopped? || fault.CrashBefore? || fault.CrashAfter? then Stopped
        else if fault.LostAck? && durable then Stale
        else l.status,
        if durable then l.log + [r] else l.log)
  }

  ghost function Run(c: Crypto, actions: seq<Vault.Action>): (l: Ledger) {
    if actions == [] then EMPTY else Step(c, Run(c, actions[..|actions| - 1]), actions[|actions| - 1])
  }

  // ---- what is stored for a ledger ------------------------------------------------------------------

  /** The row for record `i`, from the records alone. */
  function RowFor(c: Crypto, key: Key, log: seq<Record>, i: nat): (e: Entry)
    requires i < |log|
  {
    var digest := DigestAt(c, log, i);
    Entry(log[i].id, i, log[i].event, if i == 0 then None else Some(Digests(c, log[..i])), digest,
          Some(c.keyed(key, EntryMac(digest, log[i].id))))
  }

  ghost predicate RowsFor(c: Crypto, key: Key, log: seq<Record>, rows: seq<Entry>) {
    |rows| == |log| && forall i :: 0 <= i < |log| ==> rows[i] == RowFor(c, key, log, i)
  }

  function PinnedFor(c: Crypto, key: Key, log: seq<Record>): (h: Option<PinnedHead>) {
    if log == [] then None
    else
      var n, digest := |log| - 1, Digests(c, log);
      Some(PinnedHead(digest, n, log[n].id, log[n].event.ts,
                      Some(c.keyed(key, HeadMac(digest, n, log[n].id, n + 1)))))
  }

  /** The vault holds the ledger: every row, the pinned head, and the position the status says. */
  ghost predicate Holds(c: Crypto, key: Key, v: Vault.Vault, l: Ledger) {
    && RowsFor(c, key, l.log, v.db.rows)
    && v.db.pinned == PinnedFor(c, key, l.log)
    && (l.status.Stopped? <==> v.memory.Down?)
    && (l.status.Synced? <==> Vault.InSync(v))
  }

  // ---- refinement -----------------------------------------------------------------------------------

  lemma DigestSnoc(c: Crypto, log: seq<Record>, r: Record)
    ensures Digests(c, log + [r]) == c.blake3(Canonical(r.id, |log|, r.event, Digests(c, log)))
  {
    assert (log + [r])[..|log|] == log;
  }

  lemma RowStays(c: Crypto, key: Key, log: seq<Record>, r: Record, i: nat)
    requires i < |log|
    ensures RowFor(c, key, log + [r], i) == RowFor(c, key, log, i)
  {
    assert (log + [r])[..i] == log[..i] && (log + [r])[..i + 1] == log[..i + 1];
  }

  lemma RowsSnoc(c: Crypto, key: Key, log: seq<Record>, r: Record, rows: seq<Entry>, e: Entry)
    requires RowsFor(c, key, log, rows) && e == RowFor(c, key, log + [r], |log|)
    ensures RowsFor(c, key, log + [r], rows + [e])
  {
    forall i | 0 <= i < |log|
      ensures (rows + [e])[i] == RowFor(c, key, log + [r], i)
    {
      RowStays(c, key, log, r, i);
    }
  }

  lemma HeadsOf(c: Crypto, key: Key, log: seq<Record>, rows: seq<Entry>)
    requires RowsFor(c, key, log, rows)
    ensures LastHash(rows) == Digests(c, log)
    ensures LogHead(rows) == if log == [] then None else Some(Digests(c, log))
    ensures LastSeq(rows) == if log == [] then 0 else |log| - 1
  {
    if log != [] {
      assert log[..|log|] == log;
    }
  }

  /** In sync, the agent attempts exactly the ledger's next row. */
  lemma AttemptIs(c: Crypto, key: Key, v: Vault.Vault, l: Ledger, r: Record)
    requires Holds(c, key, v, l) && l.status.Synced?
    ensures Vault.Attempt(c, key, v, r.id, r.event) == RowFor(c, key, l.log + [r], |l.log|)
  {
    var log, rows := l.log, v.db.rows;
    assert rows[..|rows|] == rows;
    HeadsOf(c, key, log, rows);
    DigestSnoc(c, log, r);
    assert (log + [r])[..|log| + 1] == log + [r] && (log + [r])[..|log|] == log;
  }

  lemma UnusedIff(c: Crypto, key: Key, log: seq<Record>, rows: seq<Entry>, id: nat, digest: Digest)
    requires RowsFor(c, key, log, rows)
    ensures (forall row <- rows :: row.id != id && row.currentHash != digest) <==> Unused(c, log, id, digest)
  {
    if forall row <- rows :: row.id != id && row.currentHash != digest {
      forall k | 0 <= k < |log|
        ensures log[k].id != id && DigestAt(c, log, k) != digest
      {
        assert rows[k] in rows && rows[k] == RowFor(c, key, log, k);
      }
    }
    if Unused(c, log, id, digest) {
      forall row | row in rows
        ensures row.id != id && row.currentHash != digest
      {
        var k :| 0 <= k < |rows| && rows[k] == row;
        assert row == RowFor(c, key, log, k);
      }
    }
  }

  lemma AttemptUnusedIff(c: Crypto, key: Key, v: Vault.Vault, l: Ledger, r: Record)
    requires Holds(c, key, v, l) && l.status.Synced?
    ensures var e := Vault.Attempt(c, key, v, r.id, r.event);
            (forall row <- v.db.rows :: row.id != r.id && row.currentHash != e.currentHash) <==>
            Unused(c, l.log, r.id, Digests(c, l.log + [r]))
  {
    AttemptIs(c, key, v, l, r);
    assert (l.log + [r])[..|l.log| + 1] == l.log + [r];
    UnusedIff(c, key, l.log, v.db.rows, r.id, Digests(c, l.log + [r]));
  }

  /** The table's constraints are the ledger's. */
  lemma AcceptedIff(c: Crypto, key: Key, v: Vault.Vault, l: Ledger, r: Record)
    requires Vault.Valid(c, key, 0, v) && Holds(c, key, v, l) && v.memory.Up?
    ensures var e := Vault.Attempt(c, key, v, r.id, r.event);
            Vault.CommitTx(v.db, e, HeadFor(c, key, e)).Some? <==> l.status.Synced? && Accepts(c, l.log, r)
  {
    Vault.CommitAcceptedIff(c, key, 0, v, r.id, r.event);
    if l.status.Synced? {
      AttemptUnusedIff(c, key, v, l, r);
    }
  }

  /** A durable commit stores the ledger's next row and pins its head. */
  lemma DurableHolds(c: Crypto, key: Key, v: Vault.Vault, l: Ledger, r: Record)
    requires Vault.Valid(c, key, 0, v) && Holds(c, key, v, l) && l.status.Synced? && Accepts(c, l.log, r)
    ensures var e := Vault.Attempt(c, key, v, r.id, r.event);
            var tx := Vault.CommitTx(v.db, e, HeadFor(c, key, e));
            && tx.Some? && RowsFor(c, key, l.log + [r], tx.value.rows)
            && tx.value.pinned == PinnedFor(c, key, l.log + [r])
            && tx.value.rows == v.db.rows + [e]
            && Vault.PositionAt(tx.value.rows, |tx.value.rows|) == Vault.Up(Some(e.currentHash), e.seqNo)
  {
    AcceptedIff(c, key, v, l, r);
    AttemptIs(c, key, v, l, r);
    Vault.CommitOutcome(c, key, 0, v, r.id, r.event);
    RowsSnoc(c, key, l.log, r, v.db.rows, Vault.Attempt(c, key, v, r.id, r.event));
    HeadOfRow(c, key, l.log, r);
  }

  lemma HeadOfRow(c: Crypto, key: Key, log: seq<Record>, r: Record)
    ensures Some(HeadFor(c, key, RowFor(c, key, log + [r], |log|))) == PinnedFor(c, key, log + [r])
  {
    assert (log + [r])[..|log| + 1] == log + [r];
  }

  /** A memory that was in sync is not in sync with one more row. */
  lemma OneMoreIsStale(c: Crypto, key: Key, v: Vault.Vault, w: Vault.Vault, l: Ledger, r: Record, e: Entry)
    requires Holds(c, key, v, l) && l.status.Synced? && w.memory == v.memory
    requires w.db.rows == v.db.rows + [e] && RowsFor(c, key, l.log + [r], w.db.rows)
    ensures !Vault.InSync(w)
  {
    assert v.db.rows[..|v.db.rows|] == v.db.rows && w.db.rows[..|w.db.rows|] == w.db.rows;
    HeadsOf(c, key, l.log, v.db.rows);
    HeadsOf(c, key, l.log + [r], w.db.rows);
  }

  lemma CommitRefines(c: Crypto, key: Key, v: Vault.Vault, l: Ledger, r: Record, fault: Vault.Fault)
    requires Vault.Valid(c, key, 0, v) && Holds(c, key, v, l) && v.memory.Up?
    ensures var a := Vault.Commit(r.id, r.event, fault);
            Holds(c, key, Vault.Step(c, key, v, a), Step(c, l, a))
  {
    AcceptedIff(c, key, v, l, r);
    if l.status.Synced? && Accepts(c, l.log, r) {
      DurableHolds(c, key, v, l, r);
      if fault.LostAck? {
        var a := Vault.Commit(r.id, r.event, fault);
        OneMoreIsStale(c, key, v, Vault.Step(c, key, v, a), l, r, Vault.Attempt(c, key, v, r.id, r.event));
      }
    }
  }

  lemma StepRefines(c: Crypto, key: Key, v: Vault.Vault, l: Ledger, a: Vault.Action)
    requires Vault.Valid(c, key, 0, v) && Holds(c, key, v, l)
    ensures Holds(c, key, Vault.Step(c, key, v, a), Step(c, l, a))
  {
    match a
    case Crash =>
    case Boot =>
      assert v.db.rows[..|v.db.rows|] == v.db.rows;
      HeadsOf(c, key, l.log, v.db.rows);
    case Restore => Vault.RestoredInSync(c, key, 0, v.db);
    case PinBaseline(_) =>
    case Commit(id, event, fault) =>
      if v.memory.Up? {
        CommitRefines(c, key, v, l, Record(id, event), fault);
      }
  }

  /**
   Over every run, under every fault: the stored rows are, in order and field by field, those of the
   commits that became durable, each with the id and the event it was called with, and the pinned head
   is the last one's. Which commits those are is read off the list of actions.
   */
  lemma {:induction false} RunRefinesLedger(c: Crypto, key: Key, actions: seq<Vault.Action>)
    ensures Holds(c, key, Vault.Run(c, key, Vault.FRESH, actions), Run(c, actions))
  {
    if actions != [] {
      var init := actions[..|actions| - 1];
      RunRefinesLedger(c, key, init);
      Vault.RunKeepsValid(c, key, 0, Vault.FRESH, init);
      StepRefines(c, key, Vault.Run(c, key, Vault.FRESH, init), Run(c, init), actions[|actions| - 1]);
    }
  }
}
