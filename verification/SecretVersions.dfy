/**
 The secret store's tables: upserts with partial-update rules inside one transaction, and deletes
 that cascade. Results are stated over every run of puts and deletes.
 */
module SecretVersions {
  import opened Common

  type SecretId = nat
  type VersionId = nat

  datatype Blob = Blob(ciphertext: seq<bv8>, nonce: seq<bv8>, aeadTag: seq<bv8>, associatedData: seq<bv8>)

  datatype Version = Version(
    id: VersionId, versionNo: nat, blob: Blob, dekVersion: nat, createdAt: string, deprecatedAt: Option<string>)

  /** `metadata` stands for the sensitivity, the public metadata, the tags and the labels derived from them. */
  datatype Secret = Secret(
    id: SecretId, namespaceId: nat, handle: string, category: string, metadata: string, createdAt: string,
    currentVersionId: VersionId, versions: seq<Version>)

  datatype SecretRow = SecretRow(
    namespaceId: nat, handle: string, category: string, metadata: string, createdAt: string,
    currentVersionId: VersionId)

  datatype VersionRow = VersionRow(secretId: SecretId, version: Version)

  type VersionTable = map<VersionId, VersionRow>

  datatype Tables = Tables(namespaces: set<nat>, secrets: map<SecretId, SecretRow>, versions: VersionTable)

  // ---- statements ---------------------------------------------------------------------------------

  predicate HandleTaken(t: Tables, s: Secret) {
    exists id <- t.secrets :: id != s.id && t.secrets[id].handle == s.handle
  }

  /** Insert the row, or update an existing one except for its namespace, category and creation time. */
  function UpsertSecretRow(t: Tables, s: Secret): (r: Option<Tables>) {
    if HandleTaken(t, s) then None
    else if s.id in t.secrets then
      Some(t.(secrets := t.secrets[s.id := t.secrets[s.id].(
        handle := s.handle, metadata := s.metadata, currentVersionId := s.currentVersionId)]))
    else if s.namespaceId !in t.namespaces then None
    else Some(t.(secrets := t.secrets[s.id :=
      SecretRow(s.namespaceId, s.handle, s.category, s.metadata, s.createdAt, s.currentVersionId)]))
  }

  predicate NumberTaken(vs: VersionTable, parent: SecretId, versionNo: nat) {
    exists id <- vs :: vs[id].secretId == parent && vs[id].version.versionNo == versionNo
  }

  /** Insert under `parent`; an existing id only has its `deprecated_at` replaced. */
  function UpsertVersion(vs: VersionTable, v: Version, parent: SecretId): (r: Option<VersionTable>) {
    if v.id in vs then Some(vs[v.id := vs[v.id].(version := vs[v.id].version.(deprecatedAt := v.deprecatedAt))])
    else if NumberTaken(vs, parent, v.versionNo) then None
    else Some(vs[v.id := VersionRow(parent, v)])
  }

  function UpsertVersions(vs: VersionTable, list: seq<Version>, parent: SecretId): (r: Option<VersionTable>) {
    if list == [] then Some(vs)
    else
      var before := UpsertVersions(vs, list[..|list| - 1], parent);
      if before.None? then None else UpsertVersion(before.value, list[|list| - 1], parent)
  }

  /** One transaction; `None` is an abort that rolls everything back. */
  function PutTx(t: Tables, s: Secret): (r: Option<Tables>) {
    var parent := UpsertSecretRow(t, s);
    if parent.None? then None
    else
      var vs := UpsertVersions(parent.value.versions, s.versions, s.id);
      if vs.None? then None else Some(parent.value.(versions := vs.value))
  }

  /** Delete the row and, through the foreign key, its versions; `None` is NotFound. */
  function DeleteTx(t: Tables, id: SecretId): (r: Option<Tables>) {
    if id !in t.secrets then None
    else Some(t.(secrets := t.secrets - {id},
                 versions := map v | v in t.versions && t.versions[v].secretId != id :: t.versions[v]))
  }

  class SecretStore {
    var tables: Tables

    constructor (namespaces: set<nat>)
      ensures tables == Tables(namespaces, map[], map[])
    {
      tables := Tables(namespaces, map[], map[]);
    }

    /** The parent upsert and the version loop under one transaction: a failed put changes nothing. */
    method PutSecret(s: Secret) returns (ok: bool)
      modifies this
      ensures ok <==> PutTx(old(tables), s).Some?
      ensures tables == if ok then PutTx(old(tables), s).value else old(tables)
    {
      var parent := UpsertSecretRow(tables, s);
      if parent.None? {
        return false;
      }
      var working := parent.value.versions;
      for i := 0 to |s.versions|
        invariant UpsertVersions(parent.value.versions, s.versions[..i], s.id) == Some(working)
      {
        assert s.versions[..i + 1][..i] == s.versions[..i];
        var next := UpsertVersion(working, s.versions[i], s.id);
        if next.None? {
          AbortStays(parent.value.versions, s.versions, s.id, i + 1);
          return false;
        }
        working := next.value;
      }
      assert s.versions[..|s.versions|] == s.versions;
      tables := parent.value.(versions := working);
      return true;
    }

    method DeleteSecret(id: SecretId) returns (found: bool)
      modifies this
      ensures found <==> DeleteTx(old(tables), id).Some?
      ensures tables == if found then DeleteTx(old(tables), id).value else old(tables)
    {
      var r := DeleteTx(tables, id);
      found := r.Some?;
      if found {
        tables := r.value;
      }
    }
  }

  lemma {:induction false} AbortStays(vs: VersionTable, list: seq<Version>, parent: SecretId, n: nat)
    requires n <= |list| && UpsertVersions(vs, list[..n], parent).None?
    ensures UpsertVersions(vs, list, parent).None?
  {
    if n == |list| {
      assert list[..n] == list;
    } else {
      var init := list[..|list| - 1];
      assert init[..n] == list[..n];
      AbortStays(vs, init, parent, n);
    }
  }

  // ---- what is loaded -------------------------------------------------------------------------------

  /** The versions stored for a secret, by id. */
  function Loaded(vs: VersionTable, sid: SecretId): (m: map<VersionId, Version>) {
    map id | id in vs && vs[id].secretId == sid :: vs[id].version
  }

  /** What a list of version mentions amounts to: the first mention, with the last `deprecated_at`. */
  function Absorb(m: map<VersionId, Version>, v: Version): (r: map<VersionId, Version>) {
    if v.id in m then m[v.id := m[v.id].(deprecatedAt := v.deprecatedAt)] else m[v.id := v]
  }

  function AbsorbAll(m: map<VersionId, Version>, list: seq<Version>): (r: map<VersionId, Version>) {
    if list == [] then m else Absorb(AbsorbAll(m, list[..|list| - 1]), list[|list| - 1])
  }

  /** No version being put belongs to another secret. */
  predicate NoForeignIds(vs: VersionTable, list: seq<Version>, parent: SecretId) {
    forall v <- list :: v.id in vs ==> vs[v.id].secretId == parent
  }

  lemma UpsertOne(vs: VersionTable, v: Version, parent: SecretId, other: SecretId)
    requires UpsertVersion(vs, v, parent).Some?
    requires v.id in vs ==> vs[v.id].secretId == parent
    ensures var ws := UpsertVersion(vs, v, parent).value;
            && Loaded(ws, parent) == Absorb(Loaded(vs, parent), v)
            && (other != parent ==> Loaded(ws, other) == Loaded(vs, other))
  {
  }

  /** Rows keep their owner, and new rows belong to the parent. */
  ghost predicate OwnersKept(vs: VersionTable, ws: VersionTable, parent: SecretId) {
    && (forall id <- vs :: id in ws && ws[id].secretId == vs[id].secretId)
    && (forall id <- ws :: id !in vs ==> ws[id].secretId == parent)
  }

  lemma OwnersKeptOnce(vs: VersionTable, v: Version, parent: SecretId)
    requires UpsertVersion(vs, v, parent).Some?
    ensures OwnersKept(vs, UpsertVersion(vs, v, parent).value, parent)
  {
  }

  lemma {:induction false} OwnersStay(vs: VersionTable, list: seq<Version>, parent: SecretId)
    requires UpsertVersions(vs, list, parent).Some?
    ensures OwnersKept(vs, UpsertVersions(vs, list, parent).value, parent)
    ensures forall v <- list :: v.id in UpsertVersions(vs, list, parent).value
  {
    if list != [] {
      var n := |list| - 1;
      OwnersStay(vs, list[..n], parent);
      OwnersKeptOnce(UpsertVersions(vs, list[..n], parent).value, list[n], parent);
      assert list == list[..n] + [list[n]];
    }
  }

  /** A successful put absorbs its versions into the parent's and leaves other secrets alone. */
  lemma {:induction false} PutAbsorbs(vs: VersionTable, list: seq<Version>, parent: SecretId, other: SecretId)
    requires UpsertVersions(vs, list, parent).Some? && NoForeignIds(vs, list, parent)
    ensures var ws := UpsertVersions(vs, list, parent).value;
            && Loaded(ws, parent) == AbsorbAll(Loaded(vs, parent), list)
            && (other != parent ==> Loaded(ws, other) == Loaded(vs, other))
  {
    if list != [] {
      var init, v := list[..|list| - 1], list[|list| - 1];
      assert v in list && forall u <- init :: u in list;
      PutAbsorbs(vs, init, parent, other);
      OwnersStay(vs, init, parent);
      UpsertOne(UpsertVersions(vs, init, parent).value, v, parent, other);
    }
  }

  /**
   Exactly when is everything put also loaded? If and only if no version id belongs to another
   secret; such an id stays with its owner.
   */
  lemma PutLoadsAllIff(t: Tables, s: Secret)
    requires PutTx(t, s).Some?
    ensures (forall v <- s.versions :: v.id in Loaded(PutTx(t, s).value.versions, s.id)) <==>
            NoForeignIds(t.versions, s.versions, s.id)
  {
    OwnersStay(t.versions, s.versions, s.id);
    var ws := PutTx(t, s).value.versions;
    forall v | v in s.versions
      ensures v.id in Loaded(ws, s.id) <==> (v.id in t.versions ==> t.versions[v.id].secretId == s.id)
    {
    }
  }

  /** A version id held by secret 1 and put again under secret 2: accepted, but not loaded there. */
  lemma SharedIdExample(v: Version, createdAt: string)
    ensures var t := Tables({0}, map[1 := SecretRow(0, "a", "", "", createdAt, v.id)], map[v.id := VersionRow(1, v)]);
            var s := Secret(2, 0, "b", "", "", createdAt, v.id, [v]);
            PutTx(t, s).Some? && v.id !in Loaded(PutTx(t, s).value.versions, 2)
  {
    var t := Tables({0}, map[1 := SecretRow(0, "a", "", "", createdAt, v.id)], map[v.id := VersionRow(1, v)]);
    var s := Secret(2, 0, "b", "", "", createdAt, v.id, [v]);
    assert "a"[0] != "b"[0];
    assert !HandleTaken(t, s);
    assert [v][..0] == [];
    assert UpsertVersions(t.versions, [], 2) == Some(t.versions);
    assert UpsertVersions(t.versions, [v], 2) == UpsertVersion(t.versions, v, 2);
  }

  // ---- runs -----------------------------------------------------------------------------------------

  datatype Op = Put(secret: Secret) | Delete(id: SecretId)

  function Apply(t: Tables, op: Op): (r: Tables) {
    var tx := if op.Put? then PutTx(t, op.secret) else DeleteTx(t, op.id);
    if tx.Some? then tx.value else t
  }

  function Run(t: Tables, ops: seq<Op>): (r: Tables) {
    if ops == [] then t else Apply(Run(t, ops[..|ops| - 1]), ops[|ops| - 1])
  }

  function NextMentions(before: Tables, op: Op, sid: SecretId, ms: seq<Version>): (r: seq<Version>) {
    if op.Put? && op.secret.id == sid && PutTx(before, op.secret).Some? then ms + op.secret.versions
    else if op.Delete? && op.id == sid && DeleteTx(before, op.id).Some? then []
    else ms
  }

  /** All version mentions in successful puts of `sid` since its last successful delete, in order. */
  function Mentions(t: Tables, ops: seq<Op>, sid: SecretId): (ms: seq<Version>) {
    if ops == [] then []
    else
      var init := ops[..|ops| - 1];
      NextMentions(Run(t, init), ops[|ops| - 1], sid, Mentions(t, init, sid))
  }

  /** No put in the run names a version id that another secret holds at that time. */
  predicate NoSharing(t: Tables, ops: seq<Op>) {
    forall i :: 0 <= i < |ops| && ops[i].Put? ==>
      NoForeignIds(Run(t, ops[..i]).versions, ops[i].secret.versions, ops[i].secret.id)
  }

  lemma {:induction false} AbsorbConcat(m: map<VersionId, Version>, a: seq<Version>, b: seq<Version>)
    ensures AbsorbAll(m, a + b) == AbsorbAll(AbsorbAll(m, a), b)
  {
    if b == [] {
      assert a + b == a;
    } else {
      var n := |b| - 1;
      assert (a + b)[..|a| + n] == a + b[..n];
      AbsorbConcat(m, a, b[..n]);
    }
  }

  lemma DeleteLoads(t: Tables, id: SecretId, sid: SecretId)
    requires DeleteTx(t, id).Some?
    ensures Loaded(DeleteTx(t, id).value.versions, sid) == if sid == id then map[] else Loaded(t.versions, sid)
  {
  }

  lemma StepLoads(before: Tables, op: Op, sid: SecretId, ms: seq<Version>)
    requires Loaded(before.versions, sid) == AbsorbAll(map[], ms)
    requires op.Put? ==> NoForeignIds(before.versions, op.secret.versions, op.secret.id)
    ensures Loaded(Apply(before, op).versions, sid) == AbsorbAll(map[], NextMentions(before, op, sid, ms))
  {
    match op
    case Put(s) =>
      if PutTx(before, s).Some? {
        PutAbsorbs(before.versions, s.versions, s.id, sid);
        AbsorbConcat(map[], ms, s.versions);
      }
    case Delete(id) =>
      if DeleteTx(before, id).Some? {
        DeleteLoads(before, id, sid);
      }
  }

  lemma NoSharingPrefix(t: Tables, ops: seq<Op>)
    requires ops != [] && NoSharing(t, ops)
    ensures NoSharing(t, ops[..|ops| - 1])
  {
    var init := ops[..|ops| - 1];
    forall i | 0 <= i < |init| && init[i].Put?
      ensures NoForeignIds(Run(t, init[..i]).versions, init[i].secret.versions, init[i].secret.id)
    {
      assert init[..i] == ops[..i];
    }
  }

  lemma {:induction false} RunLoads(t: Tables, ops: seq<Op>, sid: SecretId)
    requires t.versions == map[] && NoSharing(t, ops)
    ensures Loaded(Run(t, ops).versions, sid) == AbsorbAll(map[], Mentions(t, ops, sid))
  {
    if ops != [] {
      var n := |ops| - 1;
      NoSharingPrefix(t, ops);
      RunLoads(t, ops[..n], sid);
      StepLoads(Run(t, ops[..n]), ops[n], sid, Mentions(t, ops[..n], sid));
    }
  }

  /** `ms[i]` is the first mention of its id. */
  predicate FirstMention(ms: seq<Version>, i: nat) {
    i < |ms| && forall j :: 0 <= j < i ==> ms[j].id != ms[i].id
  }

  predicate LastMention(ms: seq<Version>, i: nat) {
    i < |ms| && forall j :: i < j < |ms| ==> ms[j].id != ms[i].id
  }

  /** `v` is the union entry for its id: its first put, with the `deprecated_at` of its last. */
  ghost predicate FirstWithLastDeprecation(ms: seq<Version>, v: Version) {
    exists i: nat, j: nat ::
      && FirstMention(ms, i) && LastMention(ms, j) && ms[i].id == ms[j].id == v.id
      && v == ms[i].(deprecatedAt := ms[j].deprecatedAt)
  }

  lemma MentionAgain(init: seq<Version>, v: Version, u: Version)
    requires FirstWithLastDeprecation(init, u)
    ensures FirstWithLastDeprecation(init + [v], if v.id == u.id then u.(deprecatedAt := v.deprecatedAt) else u)
  {
    var ms, n := init + [v], |init|;
    var i: nat, j: nat :| FirstMention(init, i) && LastMention(init, j) && init[i].id == init[j].id == u.id
                          && u == init[i].(deprecatedAt := init[j].deprecatedAt);
    assert FirstMention(ms, i) && ms[i] == init[i] && ms[j] == init[j] && ms[n] == v;
    assert LastMention(ms, if v.id == u.id then n else j);
  }

  lemma MentionFirst(init: seq<Version>, v: Version)
    requires forall w <- init :: w.id != v.id
    ensures FirstWithLastDeprecation(init + [v], v)
  {
    var ms, n := init + [v], |init|;
    assert FirstMention(ms, n) && LastMention(ms, n) && ms[n] == v;
  }

  /** Exactly the mentioned ids are present, each under its own id. */
  lemma {:induction false} AbsorbKeys(ms: seq<Version>, id: VersionId)
    ensures id in AbsorbAll(map[], ms) <==> exists v <- ms :: v.id == id
    ensures id in AbsorbAll(map[], ms) ==> AbsorbAll(map[], ms)[id].id == id
  {
    if ms != [] {
      var init, v := ms[..|ms| - 1], ms[|ms| - 1];
      AbsorbKeys(init, id);
      assert ms == init + [v];
      assert forall w :: w in ms <==> w in init || w == v;
    }
  }

  lemma {:induction false} AbsorbMeaning(ms: seq<Version>, id: VersionId)
    requires id in AbsorbAll(map[], ms)
    ensures FirstWithLastDeprecation(ms, AbsorbAll(map[], ms)[id])
  {
    var init, v := ms[..|ms| - 1], ms[|ms| - 1];
    assert ms == init + [v];
    var before := AbsorbAll(map[], init);
    AbsorbKeys(init, id);
    if id in before {
      AbsorbMeaning(init, id);
      MentionAgain(init, v, before[id]);
    } else {
      assert v.id == id;
      MentionFirst(init, v);
    }
  }

  /**
   After any run without shared version ids, the versions loaded for a secret are exactly those put
   for it since its last delete, each as first put, with the `deprecated_at` of its last put.
   */
  lemma {:induction false} LoadedVersions(t: Tables, ops: seq<Op>, sid: SecretId, id: VersionId)
    requires t.versions == map[] && NoSharing(t, ops)
    ensures var loaded := Loaded(Run(t, ops).versions, sid);
            var ms := Mentions(t, ops, sid);
            && (id in loaded <==> exists v <- ms :: v.id == id)
            && (id in loaded ==> FirstWithLastDeprecation(ms, loaded[id]))
  {
    RunLoads(t, ops, sid);
    var ms := Mentions(t, ops, sid);
    AbsorbKeys(ms, id);
    if id in AbsorbAll(map[], ms) {
      AbsorbMeaning(ms, id);
    }
  }

  // ---- the order of a load --------------------------------------------------------------------------

  /** The unique index on (secret_id, version_no). */
  ghost predicate NumbersUnique(vs: VersionTable) {
    forall a <- vs, b <- vs ::
      vs[a].secretId == vs[b].secretId && vs[a].version.versionNo == vs[b].version.versionNo ==> a == b
  }

  lemma {:induction false} UpsertsKeepNumbersUnique(vs: VersionTable, list: seq<Version>, parent: SecretId)
    requires NumbersUnique(vs) && UpsertVersions(vs, list, parent).Some?
    ensures NumbersUnique(UpsertVersions(vs, list, parent).value)
  {
    if list != [] {
      UpsertsKeepNumbersUnique(vs, list[..|list| - 1], parent);
    }
  }

  lemma {:induction false} RunKeepsNumbersUnique(t: Tables, ops: seq<Op>)
    requires t.versions == map[]
    ensures NumbersUnique(Run(t, ops).versions)
  {
    if ops != [] {
      var before, op := Run(t, ops[..|ops| - 1]), ops[|ops| - 1];
      RunKeepsNumbersUnique(t, ops[..|ops| - 1]);
      if op.Put? && PutTx(before, op.secret).Some? {
        UpsertsKeepNumbersUnique(before.versions, op.secret.versions, op.secret.id);
      }
    }
  }

  ghost predicate Ascending(out: seq<Version>) {
    forall i, j :: 0 <= i < j < |out| ==> out[i].versionNo < out[j].versionNo
  }

  /** `out` is the query's answer: the loaded versions in ascending version number. */
  ghost predicate IsOrderedLoad(vs: VersionTable, sid: SecretId, out: seq<Version>) {
    && (forall v :: v in out <==> exists id <- Loaded(vs, sid) :: Loaded(vs, sid)[id] == v)
    && Ascending(out)
  }

  function InsertByNumber(out: seq<Version>, v: Version): (r: seq<Version>) {
    if out == [] || out[|out| - 1].versionNo < v.versionNo then out + [v]
    else InsertByNumber(out[..|out| - 1], v) + [out[|out| - 1]]
  }

  lemma {:induction false} InsertKeepsAscending(out: seq<Version>, v: Version)
    requires Ascending(out) && forall u <- out :: u.versionNo != v.versionNo
    ensures Ascending(InsertByNumber(out, v))
    ensures forall u :: u in InsertByNumber(out, v) <==> u in out || u == v
  {
    if out != [] {
      var n := |out| - 1;
      assert out == out[..n] + [out[n]];
      InsertKeepsAscending(out[..n], v);
      forall u | u in InsertByNumber(out[..n], v) && v.versionNo < out[n].versionNo
        ensures u.versionNo < out[n].versionNo
      {
      }
    }
  }

  /** The load query: rows of one secret, ordered by version number. */
  method LoadVersionsForSecret(vs: VersionTable, sid: SecretId) returns (out: seq<Version>)
    requires NumbersUnique(vs)
    ensures IsOrderedLoad(vs, sid, out)
  {
    var loaded := Loaded(vs, sid);
    var todo := loaded.Keys;
    out := [];
    while todo != {}
      invariant todo <= loaded.Keys && Ascending(out)
      invariant forall v :: v in out <==> exists id <- loaded :: id !in todo && loaded[id] == v
      decreases |todo|
    {
      var id :| id in todo;
      forall u | u in out
        ensures u.versionNo != loaded[id].versionNo
      {
        var other :| other in loaded && other !in todo && loaded[other] == u;
        assert vs[other].secretId == vs[id].secretId;
      }
      InsertKeepsAscending(out, loaded[id]);
      out := InsertByNumber(out, loaded[id]);
      todo := todo - {id};
    }
  }

  /** So after any run the order leaves no choice: the load is one determined sequence. */
  lemma {:induction false} OrderedLoadUnique(vs: VersionTable, sid: SecretId, a: seq<Version>, b: seq<Version>)
    requires IsOrderedLoad(vs, sid, a) && IsOrderedLoad(vs, sid, b)
    ensures a == b
  {
    AscendingUnique(a, b);
  }

  lemma {:induction false} AscendingUnique(a: seq<Version>, b: seq<Version>)
    requires forall v :: v in a <==> v in b
    requires Ascending(a) && Ascending(b)
    ensures a == b
  {
    assert a == [] <==> b == [] by {
      if a != [] {
        assert a[0] in b;
      }
      if b != [] {
        assert b[0] in a;
      }
    }
    if a != [] {
      var n, m := |a| - 1, |b| - 1;
      assert a[n] in b && b[m] in a;
      var i :| 0 <= i <= m && b[i] == a[n];
      var j :| 0 <= j <= n && a[j] == b[m];
      assert a[n] == b[m];
      forall v
        ensures v in a[..n] <==> v in b[..m]
      {
        assert v in a <==> v in a[..n] || v == a[n];
        assert v in b <==> v in b[..m] || v == b[m];
      }
      AscendingUnique(a[..n], b[..m]);
    }
  }
}
