/**
 The snapshot reader interleaved with any number of writers. An isolated reader fixes its view at
 its first read, as a WAL read transaction does; the other reads each time from the current state.
 */
module AuditSnapshot {
  import opened Common
  import opened AuditChain
  import opened AuditEvidence
  import opened AuditVault

  datatype Snapshot = Snapshot(entries: seq<Entry>, pinned: Option<PinnedHead>, baseline: Option<Baseline>)

  /** The reader between its three reads; `view` is the committed state its transaction started on. */
  datatype Reader =
    | Idle
    | ReadEntries(view: Db, entries: seq<Entry>)
    | ReadHead(view: Db, entries: seq<Entry>, pinned: Option<PinnedHead>)
    | Done(snapshot: Snapshot)

  /** `history` lists every committed state so far, oldest first; the last one is current. */
  datatype System = System(vault: Vault, history: seq<Db>, reader: Reader)

  datatype Move = Write(action: Action) | Read

  function NextReader(isolated: bool, reader: Reader, current: Db): (r: Reader) {
    match reader
    case Idle => ReadEntries(current, current.rows)
    case ReadEntries(view, entries) => ReadHead(view, entries, (if isolated then view else current).pinned)
    case ReadHead(view, entries, pinned) =>
      Done(Snapshot(entries, pinned, (if isolated then view else current).baseline))
    case Done(_) => reader
  }

  function Next(c: Crypto, key: Key, isolated: bool, s: System, m: Move): (t: System) {
    match m
    case Write(a) =>
      var w := Step(c, key, s.vault, a);
      System(w, s.history + [w.db], s.reader)
    case Read => s.(reader := NextReader(isolated, s.reader, s.vault.db))
  }

  function RunSystem(c: Crypto, key: Key, isolated: bool, start: Vault, moves: seq<Move>): (s: System) {
    if moves == [] then System(start, [start.db], Idle)
    else Next(c, key, isolated, RunSystem(c, key, isolated, start, moves[..|moves| - 1]), moves[|moves| - 1])
  }

  // ---- what every interleaving keeps --------------------------------------------------------------

  /** Committed states are valid and their rows only grow. */
  ghost predicate HistoryValid(c: Crypto, key: Key, floor: nat, s: System) {
    && Valid(c, key, floor, s.vault)
    && s.history != [] && s.history[|s.history| - 1] == s.vault.db
    && (forall db <- s.history :: DbValid(c, key, floor, db))
    && (forall i, j :: 0 <= i <= j < |s.history| ==> s.history[i].rows <= s.history[j].rows)
  }

  lemma {:induction false} RunKeepsHistory(
    c: Crypto, key: Key, floor: nat, isolated: bool, start: Vault, moves: seq<Move>)
    requires Valid(c, key, floor, start)
    ensures HistoryValid(c, key, floor, RunSystem(c, key, isolated, start, moves))
  {
    if moves != [] {
      var m := moves[|moves| - 1];
      RunKeepsHistory(c, key, floor, isolated, start, moves[..|moves| - 1]);
      if m.Write? {
        StepKeepsValid(c, key, floor, RunSystem(c, key, isolated, start, moves[..|moves| - 1]).vault, m.action);
      }
    }
  }

  /** The isolated reader's partial results all come from its view, which was committed. */
  ghost predicate IsolatedSoFar(s: System) {
    match s.reader
    case Idle => true
    case ReadEntries(view, entries) => view in s.history && entries == view.rows
    case ReadHead(view, entries, pinned) => view in s.history && entries == view.rows && pinned == view.pinned
    case Done(snap) => Db(snap.entries, snap.pinned, snap.baseline) in s.history
  }

  lemma {:induction false} RunKeepsIsolation(c: Crypto, key: Key, floor: nat, start: Vault, moves: seq<Move>)
    requires Valid(c, key, floor, start)
    ensures IsolatedSoFar(RunSystem(c, key, true, start, moves))
  {
    if moves != [] {
      RunKeepsIsolation(c, key, floor, start, moves[..|moves| - 1]);
      RunKeepsHistory(c, key, floor, true, start, moves[..|moves| - 1]);
    }
  }

  /**
   For every interleaving, the snapshot read in one transaction is a single committed state, so its
   pinned head is its last entry's and a full verification raises no false alarm.
   */
  lemma {:induction false} SnapshotIsOneCommittedState(c: Crypto, key: Key, moves: seq<Move>, snap: Snapshot)
    requires RunSystem(c, key, true, FRESH, moves).reader == Done(snap)
    ensures Db(snap.entries, snap.pinned, snap.baseline) in RunSystem(c, key, true, FRESH, moves).history
    ensures snap.pinned ==
            if snap.entries == [] then None else Some(HeadFor(c, key, snap.entries[|snap.entries| - 1]))
    ensures |key| == KEY_LENGTH && snap.entries != [] ==>
              FullVerdict(c, snap.entries, snap.pinned.value, key).outcome == Intact
  {
    RunKeepsIsolation(c, key, 0, FRESH, moves);
    RunKeepsHistory(c, key, 0, true, FRESH, moves);
    if |key| == KEY_LENGTH && snap.entries != [] {
      ValidDbIsIntact(c, key, Db(snap.entries, snap.pinned, snap.baseline));
    }
  }

  // ---- three separate reads -----------------------------------------------------------------------

  /** Entries and head were each committed, the entries no later than the head. */
  ghost predicate TornBetween(history: seq<Db>, entries: seq<Entry>, pinned: Option<PinnedHead>) {
    exists i, j :: 0 <= i <= j < |history| && entries == history[i].rows && pinned == history[j].pinned
  }

  predicate ReadAt(history: seq<Db>, snap: Snapshot, i: int, j: int, k: int) {
    && 0 <= i <= j <= k < |history|
    && snap == Snapshot(history[i].rows, history[j].pinned, history[k].baseline)
  }

  /** The three parts were each committed, none before the one read earlier. */
  ghost predicate TornSnapshot(history: seq<Db>, snap: Snapshot) {
    exists i, j, k :: ReadAt(history, snap, i, j, k)
  }

  lemma TornSnapshotStays(history: seq<Db>, db: Db, snap: Snapshot)
    requires TornSnapshot(history, snap)
    ensures TornSnapshot(history + [db], snap)
  {
    var i, j, k :| ReadAt(history, snap, i, j, k);
    assert ReadAt(history + [db], snap, i, j, k);
  }

  ghost predicate SeparateSoFar(s: System) {
    match s.reader
    case Idle => true
    case ReadEntries(_, entries) => exists i :: 0 <= i < |s.history| && entries == s.history[i].rows
    case ReadHead(_, entries, pinned) => TornBetween(s.history, entries, pinned)
    case Done(snap) => TornSnapshot(s.history, snap)
  }

  lemma TornStays(history: seq<Db>, db: Db, entries: seq<Entry>, pinned: Option<PinnedHead>)
    requires TornBetween(history, entries, pinned)
    ensures TornBetween(history + [db], entries, pinned)
  {
    var i, j :| 0 <= i <= j < |history| && entries == history[i].rows && pinned == history[j].pinned;
    assert entries == (history + [db])[i].rows && pinned == (history + [db])[j].pinned;
  }

  lemma {:induction false} RunKeepsSeparate(c: Crypto, key: Key, moves: seq<Move>)
    ensures SeparateSoFar(RunSystem(c, key, false, FRESH, moves))
  {
    if moves != [] {
      var before := RunSystem(c, key, false, FRESH, moves[..|moves| - 1]);
      RunKeepsSeparate(c, key, moves[..|moves| - 1]);
      RunKeepsHistory(c, key, 0, false, FRESH, moves[..|moves| - 1]);
      SeparateStep(c, key, before, moves[|moves| - 1]);
    }
  }

  lemma SeparateStep(c: Crypto, key: Key, s: System, m: Move)
    requires HistoryValid(c, key, 0, s) && SeparateSoFar(s)
    ensures SeparateSoFar(Next(c, key, false, s, m))
  {
    var last := |s.history| - 1;
    match m
    case Write(a) =>
      var db := Step(c, key, s.vault, a).db;
      if s.reader.ReadEntries? {
        var i :| 0 <= i < |s.history| && s.reader.entries == s.history[i].rows;
        assert s.reader.entries == (s.history + [db])[i].rows;
      } else if s.reader.ReadHead? {
        TornStays(s.history, db, s.reader.entries, s.reader.pinned);
      } else if s.reader.Done? {
        TornSnapshotStays(s.history, db, s.reader.snapshot);
      }
    case Read =>
      assert s.vault.db == s.history[last];
      if s.reader.ReadHead? {
        var i, j :| 0 <= i <= j < |s.history| && s.reader.entries == s.history[i].rows
                    && s.reader.pinned == s.history[j].pinned;
        assert ReadAt(s.history, Snapshot(s.reader.entries, s.reader.pinned, s.vault.db.baseline), i, j, last);
      }
  }

  /** What a keyed verification says when the head is from a later state than the entries. */
  function TornOutcome(older: seq<Entry>, newer: seq<Entry>): (o: ChainOutcome)
    requires newer != []
  {
    var n := |newer| - 1;
    if |older| == |newer| then Intact
    else if n > LastSeq(older) then TruncationDetected(n, LastSeq(older))
    else if newer[n].currentHash == GENESIS then Intact
    else HeadHashMismatch(newer[n].currentHash, GENESIS)
  }

  /** The head commitment check on older entries against a later head. */
  lemma TornHead(c: Crypto, key: Key, older: seq<Entry>, newer: Db)
    requires DbValid(c, key, 0, newer) && older <= newer.rows && newer.rows != []
    ensures UnwrapOr(CheckHeadCommitment(c, Some(key), StateAfter(older), newer.pinned.value), Intact) ==
            TornOutcome(older, newer.rows)
  {
    assert ChainedAt(c, newer.rows, |newer.rows| - 1);
    if older != [] {
      assert ChainedAt(c, newer.rows, |older| - 1);
    }
  }

  lemma TornVerdict(c: Crypto, key: Key, older: Db, newer: Db)
    requires |key| == KEY_LENGTH && DbValid(c, key, 0, older) && DbValid(c, key, 0, newer)
    requires older.rows <= newer.rows && newer.rows != []
    ensures FullVerdict(c, older.rows, newer.pinned.value, key).outcome == TornOutcome(older.rows, newer.rows)
  {
    ChainedVerdict(c, older.rows, newer.pinned.value, key);
    TornHead(c, key, older.rows, newer);
  }

  /** The committed state `db` whose head was read, at or after the entries, and the verdict it gives. */
  ghost predicate TornRead(c: Crypto, key: Key, history: seq<Db>, snap: Snapshot, db: Db) {
    && db in history && db.rows != [] && db.pinned == snap.pinned && snap.pinned.Some?
    && snap.entries <= db.rows
    && FullVerdict(c, snap.entries, snap.pinned.value, key).outcome == TornOutcome(snap.entries, db.rows)
  }

  lemma {:induction false} TornReadOf(c: Crypto, key: Key, moves: seq<Move>, snap: Snapshot) returns (db: Db)
    requires |key| == KEY_LENGTH && RunSystem(c, key, false, FRESH, moves).reader == Done(snap) && snap.pinned.Some?
    ensures TornRead(c, key, RunSystem(c, key, false, FRESH, moves).history, snap, db)
    ensures DbValid(c, key, 0, db)
  {
    RunKeepsSeparate(c, key, moves);
    RunKeepsHistory(c, key, 0, false, FRESH, moves);
    var h := RunSystem(c, key, false, FRESH, moves).history;
    var i, j, k :| ReadAt(h, snap, i, j, k);
    assert h[i] in h && h[j] in h;
    TornVerdict(c, key, h[i], h[j]);
    db := h[j];
  }

  /** A torn pair passes exactly when it is not torn, or when the first entry hashes to the genesis digest. */
  lemma TornPasses(c: Crypto, key: Key, older: seq<Entry>, db: Db)
    requires DbValid(c, key, 0, db) && db.rows != [] && older <= db.rows
    ensures var h := db.pinned.value;
            && |older| <= h.headSeq + 1
            && (TornOutcome(older, db.rows) == Intact <==>
                |older| == h.headSeq + 1 || (older == [] && h.headSeq == 0 && h.headHash == GENESIS))
  {
    assert ChainedAt(c, db.rows, |db.rows| - 1);
    if older != [] {
      assert ChainedAt(c, db.rows, |older| - 1);
    }
  }

  /**
   For every interleaving, three separate reads only give entries and a head of some committed state
   at or after them. Verification passes exactly when no append came in between (or the log's first
   digest is the genesis one), and otherwise reports a truncation that never happened, or a head
   mismatch when the log was empty before its first entry.
   */
  lemma {:induction false} SeparateReadsVerdict(c: Crypto, key: Key, moves: seq<Move>, snap: Snapshot)
    requires |key| == KEY_LENGTH && RunSystem(c, key, false, FRESH, moves).reader == Done(snap) && snap.pinned.Some?
    ensures exists db :: TornRead(c, key, RunSystem(c, key, false, FRESH, moves).history, snap, db)
    ensures TornSnapshot(RunSystem(c, key, false, FRESH, moves).history, snap)
    ensures var h := snap.pinned.value;
            && |snap.entries| <= h.headSeq + 1
            && (FullVerdict(c, snap.entries, h, key).outcome == Intact <==>
                |snap.entries| == h.headSeq + 1 || (snap.entries == [] && h.headSeq == 0 && h.headHash == GENESIS))
  {
    RunKeepsSeparate(c, key, moves);
    var db := TornReadOf(c, key, moves, snap);
    TornPasses(c, key, snap.entries, db);
  }

  /** Such a torn read is reachable: entries before the first commit, head after it. */
  lemma TornReadReachable(c: Crypto, key: Key, id: nat, event: Event)
    ensures var e := NextEntry(c, key, None, 0, id, event);
            var moves := [Write(Boot), Read, Write(Commit(id, event, NoFault)), Read, Read];
            RunSystem(c, key, false, FRESH, moves).reader == Done(Snapshot([], Some(HeadFor(c, key, e)), None))
  {
    var e := NextEntry(c, key, None, 0, id, event);
    var m1, m3 := Write(Boot), Write(Commit(id, event, NoFault));
    RunOne(c, key, [], m1);
    RunOne(c, key, [m1], Read);
    RunOne(c, key, [m1, Read], m3);
    RunOne(c, key, [m1, Read, m3], Read);
    RunOne(c, key, [m1, Read, m3, Read], Read);
    assert [] + [m1] == [m1] && [m1] + [Read] == [m1, Read] && [m1, Read] + [m3] == [m1, Read, m3];
    assert [m1, Read, m3] + [Read] == [m1, Read, m3, Read];
    assert [m1, Read, m3, Read] + [Read] == [m1, Read, m3, Read, Read];
    assert StoredEntry(e) == e && InsertBySeq([], e) == [e];
  }

  lemma RunOne(c: Crypto, key: Key, moves: seq<Move>, m: Move)
    ensures RunSystem(c, key, false, FRESH, moves + [m]) ==
            Next(c, key, false, RunSystem(c, key, false, FRESH, moves), m)
  {
    assert (moves + [m])[..|moves|] == moves;
  }
}
