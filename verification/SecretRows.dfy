/**
 The `secrets` table over runs of puts and deletes: what each row holds, exactly when a put is
 accepted, and the constraints that every run keeps.
 */
module SecretRows {
  import opened Common
  import opened SecretVersions

  // ---- the rows ---------------------------------------------------------------------------------------

  /** The successful puts of `sid` since its last delete, in order. */
  function PutsOf(t: Tables, ops: seq<Op>, sid: SecretId): (puts: seq<Secret>) {
    if ops == [] then []
    else
      var init, op := ops[..|ops| - 1], ops[|ops| - 1];
      var before, puts := Run(t, init), PutsOf(t, init, sid);
      if op.Put? && op.secret.id == sid && PutTx(before, op.secret).Some? then puts + [op.secret]
      else if op.Delete? && op.id == sid then []
      else puts
  }

  /** A row is what the first of its puts fixed, brought up to date by the last. */
  ghost predicate RowReflects(row: SecretRow, puts: seq<Secret>)
    requires puts != []
  {
    var first, last := puts[0], puts[|puts| - 1];
    && row.namespaceId == first.namespaceId && row.category == first.category && row.createdAt == first.createdAt
    && row.handle == last.handle && row.metadata == last.metadata && row.currentVersionId == last.currentVersionId
  }

  /**
   After any run of puts and deletes, failed ones included: a secret has a row exactly when it was put
   since its last delete. Its namespace, category and creation time are the first put's and never
   change; its handle, metadata and current version are the last put's.
   */
  lemma {:induction false} RowAfterRun(t: Tables, ops: seq<Op>, sid: SecretId)
    requires t.secrets == map[]
    ensures var puts, rows := PutsOf(t, ops, sid), Run(t, ops).secrets;
            && (sid in rows <==> puts != [])
            && (sid in rows ==> RowReflects(rows[sid], puts))
    ensures Run(t, ops).namespaces == t.namespaces
  {
    if ops != [] {
      RowAfterRun(t, ops[..|ops| - 1], sid);
    }
  }

  /** A delete finds the secret exactly when it was put since its last delete. */
  lemma {:induction false} DeleteFindsIff(t: Tables, ops: seq<Op>, sid: SecretId)
    requires t.secrets == map[]
    ensures DeleteTx(Run(t, ops), sid).Some? <==> PutsOf(t, ops, sid) != []
  {
    RowAfterRun(t, ops, sid);
  }

  // ---- when a put is accepted -------------------------------------------------------------------------

  /** Mention `i` inserts a row: its id is neither stored nor mentioned earlier. */
  ghost predicate Inserts(vs: VersionTable, list: seq<Version>, i: nat) {
    i < |list| && list[i].id !in vs && forall j :: 0 <= j < i ==> list[j].id != list[i].id
  }

  /** No inserted version takes a number that the parent has, or that was inserted earlier. */
  ghost predicate NumbersFree(vs: VersionTable, list: seq<Version>, parent: SecretId) {
    forall i: nat :: Inserts(vs, list, i) ==>
      && (forall id <- vs :: vs[id].secretId == parent ==> vs[id].version.versionNo != list[i].versionNo)
      && (forall j: nat :: j < i && Inserts(vs, list, j) ==> list[j].versionNo != list[i].versionNo)
  }

  predicate InsertedAs(ws: VersionTable, v: Version, parent: SecretId) {
    v.id in ws && ws[v.id].secretId == parent && ws[v.id].version.versionNo == v.versionNo
  }

  /** What the version loop has stored: the old rows with their owner and number, and the insertions. */
  ghost predicate Upserted(vs: VersionTable, list: seq<Version>, parent: SecretId, ws: VersionTable) {
    && (forall id <- vs :: id in ws && ws[id].secretId == vs[id].secretId
                           && ws[id].version.versionNo == vs[id].version.versionNo)
    && (forall i: nat :: Inserts(vs, list, i) ==> InsertedAs(ws, list[i], parent))
    && (forall id <- ws :: id in vs || exists i: nat :: Inserts(vs, list, i) && list[i].id == id)
  }

  lemma InsertsSnoc(vs: VersionTable, init: seq<Version>, v: Version, i: nat)
    requires i < |init|
    ensures Inserts(vs, init + [v], i) <==> Inserts(vs, init, i)
  {
    var list := init + [v];
    assert forall j :: 0 <= j <= i ==> list[j] == init[j];
  }

  /** Whether the last mention inserts is decided by what is stored when its turn comes. */
  lemma LastInserts(vs: VersionTable, init: seq<Version>, v: Version, parent: SecretId)
    requires UpsertVersions(vs, init, parent).Some?
    requires Upserted(vs, init, parent, UpsertVersions(vs, init, parent).value)
    ensures Inserts(vs, init + [v], |init|) <==> v.id !in UpsertVersions(vs, init, parent).value
  {
    var list, ws := init + [v], UpsertVersions(vs, init, parent).value;
    OwnersStay(vs, init, parent);
    assert forall j :: 0 <= j < |init| ==> list[j] == init[j] && init[j] in init;
  }

  lemma UpsertedSnoc(
    vs: VersionTable, init: seq<Version>, v: Version, parent: SecretId, ws: VersionTable, xs: VersionTable)
    requires Upserted(vs, init, parent, ws) && UpsertVersion(ws, v, parent) == Some(xs)
    requires Inserts(vs, init + [v], |init|) <==> v.id !in ws
    ensures Upserted(vs, init + [v], parent, xs)
  {
    var list := init + [v];
    forall i: nat | Inserts(vs, list, i)
      ensures InsertedAs(xs, list[i], parent)
    {
      if i < |init| {
        InsertsSnoc(vs, init, v, i);
      }
    }
    forall id | id in xs && id !in vs
      ensures exists i: nat :: Inserts(vs, list, i) && list[i].id == id
    {
      if id in ws {
        var i: nat :| Inserts(vs, init, i) && init[i].id == id;
        InsertsSnoc(vs, init, v, i);
        assert list[i].id == id;
      } else {
        assert list[|init|].id == id;
      }
    }
  }

  lemma {:induction false} VersionsUpserted(vs: VersionTable, list: seq<Version>, parent: SecretId)
    requires UpsertVersions(vs, list, parent).Some?
    ensures Upserted(vs, list, parent, UpsertVersions(vs, list, parent).value)
  {
    if list != [] {
      var init, v := list[..|list| - 1], list[|list| - 1];
      assert list == init + [v];
      VersionsUpserted(vs, init, parent);
      LastInserts(vs, init, v, parent);
      UpsertedSnoc(vs, init, v, parent, UpsertVersions(vs, init, parent).value, UpsertVersions(vs, list, parent).value);
    }
  }

  /** A number is taken by an old row of the parent or by an earlier insertion. */
  lemma TakenIff(vs: VersionTable, init: seq<Version>, parent: SecretId, ws: VersionTable, number: nat)
    requires Upserted(vs, init, parent, ws)
    ensures NumberTaken(ws, parent, number) <==>
            || (exists id <- vs :: vs[id].secretId == parent && vs[id].version.versionNo == number)
            || (exists i: nat :: Inserts(vs, init, i) && init[i].versionNo == number)
  {
    if id :| id in ws && ws[id].secretId == parent && ws[id].version.versionNo == number {
      if id !in vs {
        var i: nat :| Inserts(vs, init, i) && init[i].id == id;
        assert init[i].versionNo == number;
      }
    }
    if i: nat :| Inserts(vs, init, i) && init[i].versionNo == number {
      assert init[i].id in ws;
    }
  }

  lemma NumbersFreeSnoc(vs: VersionTable, init: seq<Version>, v: Version, parent: SecretId)
    ensures var list := init + [v];
            NumbersFree(vs, list, parent) <==>
            && NumbersFree(vs, init, parent)
            && (Inserts(vs, list, |init|) ==>
                  && (forall id <- vs :: vs[id].secretId == parent ==> vs[id].version.versionNo != v.versionNo)
                  && (forall j: nat :: Inserts(vs, init, j) ==> init[j].versionNo != v.versionNo))
  {
    var list := init + [v];
    forall i: nat | i < |init|
      ensures Inserts(vs, list, i) <==> Inserts(vs, init, i)
    {
      InsertsSnoc(vs, init, v, i);
    }
    assert forall i: nat :: i < |init| ==> list[i] == init[i];
  }

  lemma {:induction false} VersionsAcceptedIff(vs: VersionTable, list: seq<Version>, parent: SecretId)
    ensures UpsertVersions(vs, list, parent).Some? <==> NumbersFree(vs, list, parent)
  {
    if list != [] {
      var init, v := list[..|list| - 1], list[|list| - 1];
      assert list == init + [v];
      VersionsAcceptedIff(vs, init, parent);
      NumbersFreeSnoc(vs, init, v, parent);
      if UpsertVersions(vs, init, parent).Some? {
        VersionsUpserted(vs, init, parent);
        LastInserts(vs, init, v, parent);
        TakenIff(vs, init, parent, UpsertVersions(vs, init, parent).value, v.versionNo);
      }
    }
  }

  /**
   A put is accepted exactly when no other secret has its handle, its namespace exists or the secret
   does already, and each version it inserts has a free number.
   */
  lemma PutAcceptedIff(t: Tables, s: Secret)
    ensures PutTx(t, s).Some? <==>
            && (forall id <- t.secrets :: t.secrets[id].handle == s.handle ==> id == s.id)
            && (s.id in t.secrets || s.namespaceId in t.namespaces)
            && NumbersFree(t.versions, s.versions, s.id)
  {
    VersionsAcceptedIff(t.versions, s.versions, s.id);
  }

  // ---- constraints ------------------------------------------------------------------------------------

  /** Handles are unique, every secret's namespace exists, and every version's secret does. */
  ghost predicate ConstraintsHold(t: Tables) {
    && (forall a <- t.secrets, b <- t.secrets :: t.secrets[a].handle == t.secrets[b].handle ==> a == b)
    && (forall id <- t.secrets :: t.secrets[id].namespaceId in t.namespaces)
    && (forall v <- t.versions :: t.versions[v].secretId in t.secrets)
  }

  lemma PutKeepsConstraints(t: Tables, s: Secret)
    requires ConstraintsHold(t) && PutTx(t, s).Some?
    ensures ConstraintsHold(PutTx(t, s).value)
  {
    OwnersStay(t.versions, s.versions, s.id);
  }

  lemma {:induction false} RunKeepsConstraints(t: Tables, ops: seq<Op>)
    requires t.secrets == map[] && t.versions == map[]
    ensures ConstraintsHold(Run(t, ops))
  {
    if ops != [] {
      var before, op := Run(t, ops[..|ops| - 1]), ops[|ops| - 1];
      RunKeepsConstraints(t, ops[..|ops| - 1]);
      if op.Put? && PutTx(before, op.secret).Some? {
        PutKeepsConstraints(before, op.secret);
      }
    }
  }

  // ---- looking a secret up by its handle ------------------------------------------------------------

  /** The row with the handle, if there is one. */
  ghost predicate FoundBy(t: Tables, handle: string, sid: SecretId) {
    sid in t.secrets && t.secrets[sid].handle == handle
  }

  /**
   After any run, a handle finds the secret whose last put since its last delete gave it that handle,
   and no other.
   */
  lemma {:induction false} FoundByHandleIff(t: Tables, ops: seq<Op>, handle: string, sid: SecretId)
    requires t.secrets == map[] && t.versions == map[]
    ensures var puts := PutsOf(t, ops, sid);
            FoundBy(Run(t, ops), handle, sid) <==> puts != [] && puts[|puts| - 1].handle == handle
    ensures FoundBy(Run(t, ops), handle, sid) ==> forall other :: FoundBy(Run(t, ops), handle, other) ==> other == sid
  {
    RowAfterRun(t, ops, sid);
    RunKeepsConstraints(t, ops);
  }
}
