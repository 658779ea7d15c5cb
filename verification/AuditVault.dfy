/**
 Audit persistence: the append-only table, the pinned-head singleton, the in-memory head that is
 lost in a crash, and the commit protocol between them. Classes follow the source's mutable
 objects; `Step` and `Run` give the protocol as a state machine over which the results are stated.
 */
module AuditVault {
  import opened Common
  import opened AuditChain
  import opened AuditEvidence

  const MAX_I64: nat := 0x7fff_ffff_ffff_ffff

  // ---- the database -----------------------------------------------------------------------------

  /** Sequence columns are signed: writing saturates, reading maps a negative value to zero. */
  function EncodeSeq(n: nat): (column: int) {
    if n <= MAX_I64 then n else MAX_I64
  }

  function DecodeSeq(column: int): (n: nat) {
    if column < 0 then 0 else column
  }

  /** A number survives the column exactly when it is at most `i64::MAX`. */
  lemma SeqColumnRoundTrip(n: nat)
    ensures DecodeSeq(EncodeSeq(n)) == n <==> n <= MAX_I64
  {
  }

  /** Committed contents; `rows` is the entry table as read back in `ORDER BY seq`. */
  datatype Db = Db(rows: seq<Entry>, pinned: Option<PinnedHead>, baseline: Option<Baseline>)

  function StoredEntry(e: Entry): Entry {
    e.(seqNo := DecodeSeq(EncodeSeq(e.seqNo)))
  }

  function StoredHead(h: PinnedHead): PinnedHead {
    h.(headSeq := DecodeSeq(EncodeSeq(h.headSeq)))
  }

  /** So a head comes back unchanged exactly then, and is pinned at the last number otherwise. */
  lemma HeadColumnRoundTrip(h: PinnedHead)
    ensures StoredHead(h) == h <==> h.headSeq <= MAX_I64
    ensures h.headSeq > MAX_I64 ==> StoredHead(h) == h.(headSeq := MAX_I64)
  {
  }

  /** The table's constraints: `id` is the primary key, `seq` and `current_hash` are unique. */
  predicate Clashes(rows: seq<Entry>, e: Entry) {
    exists r <- rows :: r.id == e.id || r.seqNo == e.seqNo || r.currentHash == e.currentHash
  }

  function InsertBySeq(rows: seq<Entry>, e: Entry): (r: seq<Entry>) {
    if rows == [] || rows[|rows| - 1].seqNo < e.seqNo then rows + [e]
    else InsertBySeq(rows[..|rows| - 1], e) + [rows[|rows| - 1]]
  }

  /** One transaction inserting the entry and pinning `h`; `None` when a constraint aborts it. */
  function CommitTx(db: Db, e: Entry, h: PinnedHead): (r: Option<Db>) {
    if Clashes(db.rows, StoredEntry(e)) then None
    else Some(db.(rows := InsertBySeq(db.rows, StoredEntry(e)), pinned := Some(StoredHead(h))))
  }

  /** The legacy transaction, which pins the head without its MAC. */
  function AppendTx(db: Db, e: Entry, now: string): (r: Option<Db>) {
    CommitTx(db, e, PinnedHead(e.currentHash, e.seqNo, e.id, now, None))
  }

  function UpdateHeadTx(db: Db, h: PinnedHead): (r: Db) {
    db.(pinned := Some(StoredHead(h)))
  }

  class AuditStore {
    var rows: seq<Entry>
    var pinned: Option<PinnedHead>
    var baseline: Option<Baseline>

    ghost function View(): Db
      reads this
    {
      Db(rows, pinned, baseline)
    }

    constructor ()
      ensures View() == Db([], None, None)
    {
      rows, pinned, baseline := [], None, None;
    }

    /** Insert then pin inside one transaction; `commitFails` is an error from the final commit. */
    method CommitAuditEntry(entry: Entry, head: PinnedHead, commitFails: bool) returns (ok: bool)
      modifies this
      ensures ok <==> CommitTx(old(View()), entry, head).Some? && !commitFails
      ensures View() == if ok then CommitTx(old(View()), entry, head).value else old(View())
    {
      var savedRows, savedPinned := rows, pinned;
      var row := StoredEntry(entry);
      if Clashes(rows, row) {
        return false;
      }
      rows := InsertBySeq(rows, row);
      pinned := Some(StoredHead(head));
      if commitFails {
        rows, pinned := savedRows, savedPinned;
        return false;
      }
      return true;
    }

    method AppendAuditEntry(entry: Entry, now: string) returns (ok: bool)
      modifies this
      ensures ok <==> AppendTx(old(View()), entry, now).Some?
      ensures View() == if ok then AppendTx(old(View()), entry, now).value else old(View())
    {
      ok := CommitAuditEntry(entry, PinnedHead(entry.currentHash, entry.seqNo, entry.id, now, None), false);
    }

    method UpdatePinnedHead(head: PinnedHead)
      modifies this
      ensures View() == UpdateHeadTx(old(View()), head)
    {
      pinned := Some(StoredHead(head));
    }

    method SetAuditBaseline(b: Baseline)
      modifies this
      ensures View() == old(View()).(baseline := Some(StoredBaseline(b)))
    {
      baseline := Some(StoredBaseline(b));
    }
  }

  function StoredBaseline(b: Baseline): Baseline {
    b.(baselineSeq := DecodeSeq(EncodeSeq(b.baselineSeq)), entryCount := DecodeSeq(EncodeSeq(b.entryCount)))
  }

  // ---- the protocol -------------------------------------------------------------------------------

  /** The in-memory log position: absent while the agent is down; a boot starts it empty. */
  datatype Memory = Down | Up(head: Option<Digest>, headSeq: nat)

  datatype Vault = Vault(db: Db, memory: Memory)

  /**
   What can go wrong around a commit: the storage refuses and rolls back, the agent dies before or
   after the transaction becomes durable, or it is durable but reported as an error.
   */
  datatype Fault = NoFault | Refused | CrashBefore | CrashAfter | LostAck

  datatype Action =
    | Commit(id: nat, event: Event, fault: Fault)
    | Crash
    | Boot
    | Restore
    | PinBaseline(baseline: Baseline)

  function Restored(db: Db): Memory {
    if db.pinned.None? then Up(None, 0) else Up(Some(db.pinned.value.headHash), db.pinned.value.headSeq)
  }

  function Attempt(c: Crypto, key: Key, v: Vault, id: nat, event: Event): (e: Entry)
    requires v.memory.Up?
  {
    NextEntry(c, key, v.memory.head, v.memory.headSeq, id, event)
  }

  /** One step. A failed commit rolls the in-memory head back, so it leaves the memory as it was. */
  function Step(c: Crypto, key: Key, v: Vault, a: Action): (w: Vault) {
    match a
    case Crash => v.(memory := Down)
    case Boot => v.(memory := Up(None, 0))
    case Restore => v.(memory := Restored(v.db))
    case PinBaseline(b) => v.(db := v.db.(baseline := Some(StoredBaseline(b))))
    case Commit(id, event, fault) =>
      if v.memory.Down? then v
      else
        var e := Attempt(c, key, v, id, event);
        var tx := CommitTx(v.db, e, HeadFor(c, key, e));
        var db := if tx.Some? then tx.value else v.db;
        match fault
        case NoFault => if tx.Some? then Vault(db, Up(Some(e.currentHash), e.seqNo)) else v
        case Refused => v
        case CrashBefore => v.(memory := Down)
        case CrashAfter => Vault(db, Down)
        case LostAck => v.(db := db)
  }

  function Run(c: Crypto, key: Key, v: Vault, actions: seq<Action>): (w: Vault) {
    if actions == [] then v else Step(c, key, Run(c, key, v, actions[..|actions| - 1]), actions[|actions| - 1])
  }

  const FRESH := Vault(Db([], None, None), Down)

  /** The agent: the in-memory log position beside its store. */
  class AuditAgent {
    const store: AuditStore
    var memory: Memory

    ghost function View(): Vault
      reads this, store
    {
      Vault(store.View(), memory)
    }

    constructor (store: AuditStore)
      ensures this.store == store && memory == Up(None, 0)
    {
      this.store := store;
      memory := Up(None, 0);
    }

    /** Reset the in-memory head from the persisted one. */
    method RestoreAuditChain(ghost c: Crypto, ghost key: Key)
      modifies this
      ensures View() == Step(c, key, old(View()), Restore)
    {
      memory := if store.pinned.None? then Up(None, 0)
      else Up(Some(store.pinned.value.headHash), store.pinned.value.headSeq);
    }

    /** Append in memory, persist, and undo the in-memory advance when persisting fails. */
    method AuditCommit(c: Crypto, key: Key, id: nat, event: Event, commitFails: bool) returns (ok: bool)
      requires memory.Up?
      modifies this, store
      ensures View() == Step(c, key, old(View()), Commit(id, event, if commitFails then Refused else NoFault))
      ensures var e := Attempt(c, key, old(View()), id, event);
              ok <==> CommitTx(old(View()).db, e, HeadFor(c, key, e)).Some? && !commitFails
      ensures ok ==> forall floor: nat | Valid(c, key, floor, old(View())) ::
                && |store.rows| == |old(store.rows)| + 1 && old(store.rows) <= store.rows
                && store.rows[|store.rows| - 1].id == id && store.rows[|store.rows| - 1].event == event
    {
      forall floor: nat | Valid(c, key, floor, View()) {
        CommitOutcome(c, key, floor, View(), id, event);
      }
      var prev := memory;
      var entry := NextEntry(c, key, memory.head, memory.headSeq, id, event);
      var pinned := HeadFor(c, key, entry);
      memory := Up(Some(entry.currentHash), entry.seqNo);
      ok := store.CommitAuditEntry(entry, pinned, commitFails);
      if !ok {
        memory := prev;
      }
    }
  }

  // ---- what every run keeps -----------------------------------------------------------------------

  /** The head names the entry; its time stamp and MAC are left open. */
  predicate Pins(h: PinnedHead, e: Entry) {
    h.headHash == e.currentHash && h.headSeq == e.seqNo && h.headId == e.id
  }

  /**
   Stored rows are a gap-free chain and the pinned head is the last row's. The rows from `floor` on
   were written under `key` and carry its tags, and so does the head once there is such a row; the
   rows below were written under earlier keys. With one key throughout, `floor` is zero.
   */
  ghost predicate DbValid(c: Crypto, key: Key, floor: nat, db: Db) {
    && Chained(c, db.rows)
    && Tagged(c, key, db.rows, floor)
    && |db.rows| <= MAX_I64 + 1
    && (if db.rows == [] then db.pinned.None?
        else
          var last := db.rows[|db.rows| - 1];
          && db.pinned.Some? && Pins(db.pinned.value, last)
          && (floor < |db.rows| ==> db.pinned.value == HeadFor(c, key, last)))
  }

  /** The in-memory position that reading the first `k` rows gives. */
  function PositionAt(rows: seq<Entry>, k: nat): Memory
    requires k <= |rows|
  {
    Up(LogHead(rows[..k]), LastSeq(rows[..k]))
  }

  /** The memory is down or at some stored position; it lags only after a lost acknowledgement. */
  ghost predicate MemoryValid(rows: seq<Entry>, m: Memory) {
    m.Up? ==> exists k :: 0 <= k <= |rows| && m == PositionAt(rows, k)
  }

  ghost predicate Valid(c: Crypto, key: Key, floor: nat, v: Vault) {
    DbValid(c, key, floor, v.db) && MemoryValid(v.db.rows, v.memory)
  }

  /** Nothing durable is missing from the memory: the next append extends the stored chain. */
  predicate InSync(v: Vault) {
    v.memory == PositionAt(v.db.rows, |v.db.rows|)
  }

  /** Chaining off position `k` yields the entry for sequence number `k`, whatever the lag. */
  lemma EntryAtPosition(c: Crypto, key: Key, rows: seq<Entry>, k: nat, id: nat, event: Event)
    requires Chained(c, rows) && k <= |rows|
    ensures var m := PositionAt(rows, k);
            var e := NextEntry(c, key, m.head, m.headSeq, id, event);
            && e.seqNo == k && e.prevHash == LogHead(rows[..k])
            && e.currentHash == c.blake3(Message(e, LastHash(rows[..k]))) && TagOk(c, key, e)
  {
    if k > 0 {
      assert ChainedAt(c, rows, k - 1);
    }
  }

  /** A lagging memory cannot fork the chain: its sequence number is taken. */
  lemma LaggingCommitClashes(c: Crypto, rows: seq<Entry>, k: nat, e: Entry)
    requires Chained(c, rows) && k < |rows| <= MAX_I64 + 1 && e.seqNo == k
    ensures Clashes(rows, StoredEntry(e))
  {
    assert ChainedAt(c, rows, k);
    assert rows[k] in rows;
  }

  /** At the end of a full table the saturated sequence number is taken too. */
  lemma FullTableClashes(c: Crypto, rows: seq<Entry>, e: Entry)
    requires Chained(c, rows) && |rows| == MAX_I64 + 1 && e.seqNo == |rows|
    ensures Clashes(rows, StoredEntry(e))
  {
    assert ChainedAt(c, rows, MAX_I64);
    assert rows[MAX_I64] in rows;
  }

  lemma ChainExtends(c: Crypto, key: Key, floor: nat, rows: seq<Entry>, e: Entry)
    requires Chained(c, rows) && Tagged(c, key, rows, floor)
    requires e.seqNo == |rows| && e.prevHash == LogHead(rows) && TagOk(c, key, e)
    requires e.currentHash == c.blake3(Message(e, LastHash(rows)))
    ensures Chained(c, rows + [e]) && Tagged(c, key, rows + [e], floor)
    ensures InsertBySeq(rows, e) == rows + [e]
  {
    var all := rows + [e];
    forall i | 0 <= i < |all|
      ensures ChainedAt(c, all, i)
    {
      if i < |rows| {
        assert ChainedAt(c, rows, i);
        assert all[..i] == rows[..i];
      } else {
        assert all[..i] == rows;
      }
    }
    if rows != [] {
      assert ChainedAt(c, rows, |rows| - 1);
    }
  }

  /** A transaction that goes through appends exactly the attempted entry and pins its head. */
  lemma CommitOutcome(c: Crypto, key: Key, floor: nat, v: Vault, id: nat, event: Event)
    requires Valid(c, key, floor, v) && v.memory.Up?
    ensures var e := Attempt(c, key, v, id, event);
            var tx := CommitTx(v.db, e, HeadFor(c, key, e));
            tx.Some? ==>
              && InSync(v) && e.seqNo == |v.db.rows| <= MAX_I64 && e.id == id && e.event == event
              && tx.value == v.db.(rows := v.db.rows + [e], pinned := Some(HeadFor(c, key, e)))
              && DbValid(c, key, floor, tx.value)
              && PositionAt(tx.value.rows, |tx.value.rows|) == Up(Some(e.currentHash), e.seqNo)
  {
    var rows := v.db.rows;
    var k :| 0 <= k <= |rows| && v.memory == PositionAt(rows, k);
    var e := Attempt(c, key, v, id, event);
    EntryAtPosition(c, key, rows, k, id, event);
    if k < |rows| {
      LaggingCommitClashes(c, rows, k, e);
    } else if k == MAX_I64 + 1 {
      FullTableClashes(c, rows, e);
    } else {
      assert rows[..k] == rows;
      ChainExtends(c, key, floor, rows, e);
      assert (rows + [e])[..k + 1] == rows + [e];
    }
  }

  lemma PositionStays(rows: seq<Entry>, more: seq<Entry>, m: Memory)
    requires MemoryValid(rows, m)
    ensures MemoryValid(rows + more, m)
  {
    if m.Up? {
      var k :| 0 <= k <= |rows| && m == PositionAt(rows, k);
      assert (rows + more)[..k] == rows[..k];
      assert m == PositionAt(rows + more, k);
    }
  }

  lemma RestoredInSync(c: Crypto, key: Key, floor: nat, db: Db)
    requires DbValid(c, key, floor, db)
    ensures Restored(db) == PositionAt(db.rows, |db.rows|)
  {
    assert db.rows[..|db.rows|] == db.rows;
  }

  /** Every step keeps the vault valid and only ever extends the stored rows. */
  lemma StepKeepsValid(c: Crypto, key: Key, floor: nat, v: Vault, a: Action)
    requires Valid(c, key, floor, v)
    ensures Valid(c, key, floor, Step(c, key, v, a))
    ensures v.db.rows <= Step(c, key, v, a).db.rows
  {
    match a
    case Crash =>
    case Boot => assert Up(None, 0) == PositionAt(v.db.rows, 0);
    case Restore => RestoredInSync(c, key, floor, v.db);
    case PinBaseline(_) =>
    case Commit(id, event, fault) =>
      if v.memory.Up? {
        CommitKeepsValid(c, key, floor, v, id, event, fault);
      }
  }

  lemma CommitKeepsValid(c: Crypto, key: Key, floor: nat, v: Vault, id: nat, event: Event, fault: Fault)
    requires Valid(c, key, floor, v) && v.memory.Up?
    ensures Valid(c, key, floor, Step(c, key, v, Commit(id, event, fault)))
    ensures v.db.rows <= Step(c, key, v, Commit(id, event, fault)).db.rows
  {
    var e := Attempt(c, key, v, id, event);
    CommitOutcome(c, key, floor, v, id, event);
    PositionStays(v.db.rows, [e], v.memory);
  }

  /**
   Safety over whole runs. For every sequence of commits, faults, crashes and restores, with no bound
   on its length: stored sequence numbers are 0..n-1, each row links to its predecessor, the pinned
   head is the last row's with its MAC, and no stored row is ever lost or changed.
   */
  lemma {:induction false} RunKeepsValid(c: Crypto, key: Key, floor: nat, v: Vault, actions: seq<Action>)
    requires Valid(c, key, floor, v)
    ensures Valid(c, key, floor, Run(c, key, v, actions))
    ensures v.db.rows <= Run(c, key, v, actions).db.rows
  {
    if actions != [] {
      var n := |actions| - 1;
      RunKeepsValid(c, key, floor, v, actions[..n]);
      StepKeepsValid(c, key, floor, Run(c, key, v, actions[..n]), actions[n]);
    }
  }

  /** In any reachable non-empty vault the verifier finds the log intact. */
  lemma {:induction false} ReachableLogIsIntact(c: Crypto, key: Key, actions: seq<Action>)
    requires |key| == KEY_LENGTH
    ensures var db := Run(c, key, FRESH, actions).db;
            db.rows != [] ==> db.pinned.Some? && FullVerdict(c, db.rows, db.pinned.value, key).outcome == Intact
  {
    RunKeepsValid(c, key, 0, FRESH, actions);
    var db := Run(c, key, FRESH, actions).db;
    if db.rows != [] {
      ValidDbIsIntact(c, key, db);
    }
  }

  lemma ValidDbIsIntact(c: Crypto, key: Key, db: Db)
    requires |key| == KEY_LENGTH && DbValid(c, key, 0, db) && db.rows != []
    ensures db.pinned.Some? && FullVerdict(c, db.rows, db.pinned.value, key).outcome == Intact
  {
    var n := |db.rows| - 1;
    assert ChainedAt(c, db.rows, n);
    FullIntactIff(c, db.rows, db.pinned.value, key);
  }

  /**
   An append is accepted exactly when nothing durable is missing from memory, the sequence column is
   not exhausted, and its id and digest are new. So the first append after a restore never hits the
   uniqueness of `seq` before 2^63 entries exist.
   */
  lemma CommitAcceptedIff(c: Crypto, key: Key, floor: nat, v: Vault, id: nat, event: Event)
    requires Valid(c, key, floor, v) && v.memory.Up?
    ensures var e := Attempt(c, key, v, id, event);
            CommitTx(v.db, e, HeadFor(c, key, e)).Some? <==>
            && InSync(v) && |v.db.rows| <= MAX_I64
            && forall r <- v.db.rows :: r.id != id && r.currentHash != e.currentHash
  {
    CommitOutcome(c, key, floor, v, id, event);
    var rows := v.db.rows;
    var e := Attempt(c, key, v, id, event);
    if InSync(v) && |rows| <= MAX_I64 {
      EntryAtPosition(c, key, rows, |rows|, id, event);
      forall r | r in rows
        ensures r.seqNo != e.seqNo
      {
        var i :| 0 <= i < |rows| && rows[i] == r;
        assert ChainedAt(c, rows, i);
      }
    }
  }

  /** The uniqueness of `current_hash` only ever refuses an append that exposes a hash collision. */
  lemma HashClashIsCollision(c: Crypto, key: Key, floor: nat, v: Vault, id: nat, event: Event, i: nat)
    requires Valid(c, key, floor, v) && InSync(v) && i < |v.db.rows|
    requires v.db.rows[i].currentHash == Attempt(c, key, v, id, event).currentHash
    ensures var x := Message(v.db.rows[i], LastHash(v.db.rows[..i]));
            var y := Message(Attempt(c, key, v, id, event), LastHash(v.db.rows));
            x != y && c.blake3(x) == c.blake3(y)
  {
    var rows := v.db.rows;
    assert rows[..|rows|] == rows;
    assert ChainedAt(c, rows, i);
    EntryAtPosition(c, key, rows, |rows|, id, event);
  }

  /** After a restore the memory is in sync, and a fault-free run keeps it so. */
  lemma SyncAfterRestore(c: Crypto, key: Key, floor: nat, v: Vault, id: nat, event: Event)
    requires Valid(c, key, floor, v)
    ensures InSync(Step(c, key, v, Restore))
    ensures InSync(v) ==> InSync(Step(c, key, v, Commit(id, event, NoFault)))
  {
    RestoredInSync(c, key, floor, v.db);
    if InSync(v) {
      CommitOutcome(c, key, floor, v, id, event);
    }
  }

  /** Serving commands after a boot without the restore: every append is refused, the log is untouched. */
  lemma UnrestoredBootCannotAppend(c: Crypto, key: Key, floor: nat, v: Vault, id: nat, event: Event, fault: Fault)
    requires Valid(c, key, floor, v) && v.db.rows != []
    ensures Step(c, key, Step(c, key, v, Boot), Commit(id, event, fault)).db == v.db
  {
    var w := Step(c, key, v, Boot);
    StepKeepsValid(c, key, floor, v, Boot);
    CommitOutcome(c, key, floor, w, id, event);
    assert v.db.rows[..|v.db.rows|] == v.db.rows;
  }

  // ---- the append-then-update path ------------------------------------------------------------------

  /**
   The contrast: writing the entry first and the MAC later passes through a state that a keyed
   verification rejects, for every valid vault and entry; the later update then closes the gap,
   ending where the single transaction ends.
   */
  lemma AppendThenUpdateGap(c: Crypto, key: Key, v: Vault, id: nat, event: Event, now: string)
    requires |key| == KEY_LENGTH && Valid(c, key, 0, v) && v.memory.Up?
    ensures var e := Attempt(c, key, v, id, event);
            var mid := AppendTx(v.db, e, now);
            mid.Some? ==>
              && mid.value.pinned == Some(PinnedHead(e.currentHash, e.seqNo, e.id, now, None))
              && FullVerdict(c, mid.value.rows, mid.value.pinned.value, key).outcome == HeadMacMismatch(e.id)
              && CommitTx(v.db, e, HeadFor(c, key, e)) == Some(UpdateHeadTx(mid.value, HeadFor(c, key, e)))
  {
    var e := Attempt(c, key, v, id, event);
    CommitOutcome(c, key, 0, v, id, event);
    var mid := AppendTx(v.db, e, now);
    if mid.Some? {
      UnpinnedMacRejected(c, key, mid.value.rows, mid.value.pinned.value);
    }
  }

  lemma UnpinnedMacRejected(c: Crypto, key: Key, rows: seq<Entry>, h: PinnedHead)
    requires |key| == KEY_LENGTH && Chained(c, rows) && Tagged(c, key, rows, 0) && h.hmacHead.None?
    ensures FullVerdict(c, rows, h, key).outcome == HeadMacMismatch(h.headId)
  {
    ChainedVerdict(c, rows, h, key);
  }
}
