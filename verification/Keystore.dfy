/**
 The file keystore: the nested on-disk form, the write-to-temporary-then-rename persist with a fault
 at any point, and runs of stores, deletes, failures, crashes and reopenings.
 */
module Keystore {
  import opened Common
  import opened Base64
  import opened KeystoreIndex
  import NestedMap

  // ---- file names ---------------------------------------------------------------------------------

  const TMP_SUFFIX := ".age.tmp"

  /** Where the extension starts: the last dot, unless there is none or it leads the name. */
  function StemLength(name: string): (n: nat)
    ensures n <= |name|
    ensures n < |name| ==> 0 < n && name[n] == '.' && forall i :: n < i < |name| ==> name[i] != '.'
  {
    var d := LastDot(name);
    if d.None? || d.value == 0 then |name| else d.value
  }

  function LastDot(name: string): (d: Option<nat>)
    ensures d.Some? ==> d.value < |name| && name[d.value] == '.' && forall i :: d.value < i < |name| ==> name[i] != '.'
    ensures d.None? ==> '.' !in name
  {
    if name == "" then None
    else if name[|name| - 1] == '.' then Some(|name| - 1)
    else LastDot(name[..|name| - 1])
  }

  function Stem(name: string): string {
    name[..StemLength(name)]
  }

  /** A name that has a stem: `with_extension` leaves the empty name, `.` and `..` as they are. */
  predicate FileName(name: string) {
    name != "" && name != "." && name != ".."
  }

  /** `with_extension("age.tmp")` on the last path component: the extension is replaced, not appended to. */
  function TmpName(name: string): (tmp: string) {
    if FileName(name) then Stem(name) + TMP_SUFFIX else name
  }

  /** The temporary file differs from the keystore exactly when the path ends in a file name. */
  lemma TmpNameDiffersIff(name: string)
    ensures TmpName(name) != name <==> FileName(name)
  {
    var n := StemLength(name);
    if |name| == n + |TMP_SUFFIX| {
      assert name[n + 4] != '.' && (Stem(name) + TMP_SUFFIX)[n + 4] == TMP_SUFFIX[4];
    }
  }

  /** The last dot decides: what follows it is replaced, and without one the suffix is appended. */
  lemma TmpNameOf(stem: string, extension: string)
    requires stem != "" && '.' !in extension
    ensures FileName(stem + "." + extension) ==> TmpName(stem + "." + extension) == stem + ".age.tmp"
    ensures FileName(stem) && '.' !in stem[1..] ==> TmpName(stem) == stem + ".age.tmp"
  {
    var name := stem + "." + extension;
    var d := LastDot(name);
    assert name[|stem|] == '.';
    assert forall i :: |stem| < i < |name| ==> name[i] == extension[i - |stem| - 1] && name[i] in extension;
    assert d == Some(|stem|) && name[..|stem|] == stem;
    assert forall i :: 1 <= i < |stem| ==> stem[i] == stem[1..][i - 1] && stem[i] in stem[1..];
    assert stem[..|stem|] == stem;
  }

  /** Two keystores in one directory share a temporary file exactly when their names share a stem. */
  lemma TmpNameSharedIff(a: string, b: string)
    requires FileName(a) && FileName(b)
    ensures TmpName(a) == TmpName(b) <==> Stem(a) == Stem(b)
  {
    if TmpName(a) == TmpName(b) {
      assert Stem(a) == TmpName(a)[..|TmpName(a)| - |TMP_SUFFIX|];
      assert Stem(b) == TmpName(b)[..|TmpName(b)| - |TMP_SUFFIX|];
    }
  }

  // ---- the stored form ----------------------------------------------------------------------------

  type Snapshot = NestedMap.Nested<string, string>

  /** JSON and age together: sealing draws randomness, opening fails on anything not sealed. */
  datatype Envelope = Envelope(seal: (Snapshot, nat) -> Bytestring, open: Bytestring -> Option<Snapshot>)

  ghost predicate Opens(env: Envelope) {
    forall s, n :: env.open(env.seal(s, n)) == Some(s)
  }

  /** The file content loads as `flat`. */
  ghost predicate Loads(env: Envelope, content: Bytestring, flat: Flat) {
    env.open(content).Some? && NestedMap.FlattensTo(env.open(content).value, flat, Base64.Decode)
  }

  /** What the next open of `name` sees: the file's map, or an empty one when there is no file. */
  ghost predicate OpenSees(env: Envelope, disk: map<string, Bytestring>, name: string, flat: Flat) {
    if name in disk then Loads(env, disk[name], flat) else flat == map[]
  }

  /** There is one answer to what an open sees. */
  lemma OpenSeesOne(env: Envelope, disk: map<string, Bytestring>, name: string, f: Flat, g: Flat)
    requires OpenSees(env, disk, name, f) && OpenSees(env, disk, name, g)
    ensures f == g
  {
    if name in disk {
      NestedMap.FlattensToUnique(env.open(disk[name]).value, f, g, Base64.Decode);
    }
  }

  /** Loading what was written gives back the same flat map, for every map of pairs to bytes. */
  lemma {:induction false} WrittenLoads(env: Envelope, flat: Flat, nested: Snapshot, nonce: nat)
    requires Opens(env) && NestedMap.Nests(flat, nested, Base64.Encode)
    ensures Loads(env, env.seal(nested, nonce), flat)
  {
    forall v | v in flat.Values
      ensures Base64.Decode(Base64.Encode(v)) == Some(v)
    {
      Base64.EncodeRoundTrip(v);
    }
    NestedMap.RoundTrip(flat, nested, Base64.Encode, Base64.Decode);
  }

  // ---- the protocol -------------------------------------------------------------------------------

  /** Where a persist stops, by an error or by the process dying there. */
  datatype Fault = NoFault | BeforeCreate | DuringWrite(partial: Bytestring) | BeforeRename

  /** The running agent's map, if any, and the map the next open will load. */
  datatype Store = Store(memory: Option<Flat>, file: Flat)

  datatype Action =
    | Put(service: string, account: string, secret: Bytestring, fault: Fault)
    | Remove(service: string, account: string, fault: Fault)
    | Crash
    | Reopen

  /** The memory keeps a change whose persist failed; the file only ever takes a complete one. */
  function Persisted(st: Store, change: (Flat, Outcome), fault: Fault): Store {
    Store(Some(change.0), if change.1 == Done && fault.NoFault? then change.0 else st.file)
  }

  function Step(codec: IndexCodec, st: Store, a: Action): (r: Store) {
    match a
    case Crash => st.(memory := None)
    case Reopen => st.(memory := Some(st.file))
    case Put(service, account, secret, fault) =>
      if st.memory.None? then st
      else Persisted(st, StoreEntry(codec, st.memory.value, service, account, secret), fault)
    case Remove(service, account, fault) =>
      if st.memory.None? then st
      else Persisted(st, DeleteEntry(codec, st.memory.value, service, account), fault)
  }

  function Run(codec: IndexCodec, st: Store, actions: seq<Action>): (r: Store) {
    if actions == [] then st else Step(codec, Run(codec, st, actions[..|actions| - 1]), actions[|actions| - 1])
  }

  function Lookup(m: Flat, key: (string, string)): (secret: Option<Bytestring>) {
    if key in m then Some(m[key]) else None
  }

  /** One keystore file; `name` is the last component of its path. */
  class FileKeystore {
    const name: string
    const codec: IndexCodec
    const env: Envelope
    var inner: Flat
    var disk: map<string, Bytestring>
    ghost var file: Flat

    ghost predicate Valid()
      reads this
    {
      FileName(name) && Opens(env) && OpenSees(env, disk, name, file)
    }

    ghost function View(): Store
      reads this
    {
      Store(Some(inner), file)
    }

    constructor (name: string, codec: IndexCodec, env: Envelope, disk: map<string, Bytestring>)
      requires FileName(name) && name !in disk && Opens(env)
      ensures Valid() && View() == Store(Some(map[]), map[])
    {
      this.name, this.codec, this.env, this.disk := name, codec, env, disk;
      inner, file := map[], map[];
    }

    /**
     Encrypt, write the temporary file, rename it into place. Stopping anywhere short of the rename
     leaves the keystore file untouched; completing it replaces the file by the current map.
     */
    method Persist(nonce: nat, fault: Fault) returns (ok: bool)
      requires Valid()
      modifies this`disk, this`file
      ensures Valid() && (ok <==> fault.NoFault?)
      ensures file == if ok then inner else old(file)
      ensures forall f :: f != name && f != TmpName(name) ==>
                (f in disk <==> f in old(disk)) && (f in disk ==> disk[f] == old(disk)[f])
      ensures !ok && name in old(disk) ==> name in disk && disk[name] == old(disk)[name]
    {
      var nested := NestedMap.BuildNested(inner, Base64.Encode);
      var ciphertext := env.seal(nested, nonce);
      WrittenLoads(env, inner, nested, nonce);
      var tmp := TmpName(name);
      TmpNameDiffersIff(name);
      if fault.BeforeCreate? {
        return false;
      }
      if fault.DuringWrite? {
        disk := disk[tmp := fault.partial];
        return false;
      }
      disk := disk[tmp := ciphertext];
      if fault.BeforeRename? {
        return false;
      }
      disk := (disk - {tmp})[name := disk[tmp]];
      file := inner;
      return true;
    }

    /** Insert, maintain the index, persist. */
    method StoreSecret(service: string, account: string, secret: Bytestring, nonce: nat, fault: Fault)
      returns (ok: bool)
      requires Valid()
      modifies this
      ensures Valid() && View() == Step(codec, old(View()), Put(service, account, secret, fault))
      ensures ok <==> StoreEntry(codec, old(inner), service, account, secret).1 == Done && fault.NoFault?
    {
      inner := inner[(service, account) := secret];
      if !EndsWith(account, INDEX_SUFFIX) {
        var sentinel := SentinelAccount(service);
        var raw := if (service, sentinel) in inner then inner[(service, sentinel)] else [];
        var index := DecodeIndex(codec, raw);
        if index.None? {
          return false;
        }
        var next, changed := IndexAdd(index.value, account);
        if changed {
          inner := inner[(service, sentinel) := codec.encode(next)];
        }
      }
      ok := Persist(nonce, fault);
    }

    method Retrieve(service: string, account: string) returns (secret: Option<Bytestring>)
      ensures secret == Lookup(inner, (service, account))
    {
      secret := if (service, account) in inner then Some(inner[(service, account)]) else None;
    }

    method DeleteSecret(service: string, account: string, nonce: nat, fault: Fault)
      returns (outcome: Outcome, persisted: bool)
      requires Valid()
      modifies this
      ensures Valid() && View() == Step(codec, old(View()), Remove(service, account, fault))
      ensures outcome == DeleteEntry(codec, old(inner), service, account).1
      ensures persisted <==> outcome == Done && fault.NoFault?
    {
      if (service, account) !in inner {
        return NotFound, false;
      }
      inner := inner - {(service, account)};
      if !EndsWith(account, INDEX_SUFFIX) {
        var sentinel := SentinelAccount(service);
        var raw := if (service, sentinel) in inner then inner[(service, sentinel)] else [];
        var index := DecodeIndex(codec, raw);
        if index.None? {
          return BadIndex, false;
        }
        var next, changed := IndexRemove(index.value, account);
        if changed {
          inner := inner[(service, sentinel) := codec.encode(next)];
        }
      }
      persisted := Persist(nonce, fault);
      outcome := Done;
    }

    /** Read the sentinel; with a consistent map the answer is the set of stored accounts. */
    method List(service: string) returns (list: Option<seq<string>>)
      ensures list == ListAccounts(codec, inner, service)
      ensures Consistent(codec, inner) ==> list.Some? && Covers(inner, service, list.value)
    {
      list := DecodeIndex(codec, RawIndex(inner, service));
      assert Consistent(codec, inner) ==> Agrees(codec, inner, service);
    }

    /**
     Load the file, as a starting process does. A file that does not open or decode is refused and
     nothing changes; a file left by `Persist` always loads.
     */
    method Open() returns (ok: bool)
      modifies this`inner
      ensures ok <==>
              name in disk ==>
                env.open(disk[name]).Some? && NestedMap.AllDecode(env.open(disk[name]).value, Base64.Decode)
      ensures if ok then OpenSees(env, disk, name, inner) else inner == old(inner)
      ensures Valid() ==> ok && View() == Step(codec, old(View()), Reopen)
    {
      if name !in disk {
        inner := map[];
        return true;
      }
      var nested := env.open(disk[name]);
      if nested.None? {
        return false;
      }
      var flat := NestedMap.Flatten(nested.value, Base64.Decode);
      if Valid() {
        LoadsDecodes(env, disk[name], file);
      }
      if flat.None? {
        return false;
      }
      inner := flat.value;
      if Valid() {
        OpenSeesOne(env, disk, name, inner, file);
      }
      return true;
    }
  }

  lemma LoadsDecodes(env: Envelope, content: Bytestring, flat: Flat)
    requires Loads(env, content, flat)
    ensures NestedMap.AllDecode(env.open(content).value, Base64.Decode)
  {
    var nested := env.open(content).value;
    forall s, a | s in nested && a in nested[s]
      ensures Base64.Decode(nested[s][a]).Some?
    {
      assert (s, a) in flat;
    }
  }

  // ---- what every run keeps -----------------------------------------------------------------------

  /** The action does not write or delete a service's own sentinel account. */
  predicate LeavesSentinels(a: Action) {
    a.Put? || a.Remove? ==> a.account != SentinelAccount(a.service)
  }

  ghost predicate BothConsistent(codec: IndexCodec, st: Store) {
    (st.memory.Some? ==> Consistent(codec, st.memory.value)) && Consistent(codec, st.file)
  }

  lemma StepKeepsConsistent(codec: IndexCodec, st: Store, a: Action)
    requires Lawful(codec) && BothConsistent(codec, st) && LeavesSentinels(a)
    ensures BothConsistent(codec, Step(codec, st, a))
  {
    if a.Put? && st.memory.Some? {
      StoreKeepsConsistentIff(codec, st.memory.value, a.service, a.account, a.secret);
    } else if a.Remove? && st.memory.Some? {
      DeleteKeepsConsistentIff(codec, st.memory.value, a.service, a.account);
    }
  }

  /**
   Over every run of stores, deletes, persists stopped at any point, crashes and reopenings, the
   index agrees with the map it summarises, both in memory and in the file.
   */
  lemma {:induction false} RunKeepsConsistent(codec: IndexCodec, actions: seq<Action>)
    requires Lawful(codec) && forall a <- actions :: LeavesSentinels(a)
    ensures BothConsistent(codec, Run(codec, Store(None, map[]), actions))
  {
    if actions == [] {
      EmptyIsConsistent(codec);
    } else {
      var n := |actions| - 1;
      assert actions[n] in actions && forall a <- actions[..n] :: a in actions;
      RunKeepsConsistent(codec, actions[..n]);
      StepKeepsConsistent(codec, Run(codec, Store(None, map[]), actions[..n]), actions[n]);
    }
  }

  /** So `list` after any such run returns each stored account once and nothing else. */
  lemma {:induction false} ListAfterRun(codec: IndexCodec, actions: seq<Action>, service: string)
    requires Lawful(codec) && forall a <- actions :: LeavesSentinels(a)
    ensures var st := Run(codec, Store(None, map[]), actions);
            && (st.memory.Some? ==> Agrees(codec, st.memory.value, service))
            && Agrees(codec, st.file, service)
  {
    RunKeepsConsistent(codec, actions);
  }

  // ---- what a retrieve returns --------------------------------------------------------------------

  /** The action stores or deletes this very account. */
  predicate Touches(a: Action, key: (string, string)) {
    (a.Put? || a.Remove?) && (a.service, a.account) == key
  }

  /** The value an action leaves in memory under `key`, when it decides that value. */
  function Decided(before: Store, a: Action, key: (string, string)): (v: Option<Bytestring>) {
    match a
    case Put(_, _, secret, _) => Some(secret)
    case Remove(_, _, _) => None
    case Crash => None
    case Reopen => Lookup(before.file, key)
  }

  predicate Decides(a: Action, key: (string, string)) {
    Touches(a, key) || a.Crash? || a.Reopen?
  }

  /** The index is maintained in the service's sentinel account only. */
  lemma StepLeavesOthers(codec: IndexCodec, st: Store, a: Action, key: (string, string))
    requires key.1 != SentinelAccount(key.0) && st.memory.Some?
    ensures var next := Step(codec, st, a);
            && (!Decides(a, key) || Touches(a, key) ==> next.memory.Some?)
            && (!Decides(a, key) ==> Lookup(next.memory.value, key) == Lookup(st.memory.value, key))
            && (Touches(a, key) ==> Lookup(next.memory.value, key) == Decided(st, a, key))
  {
  }

  /**
   Over every run, whatever fails in it and whatever is done to the sentinels: the value in memory is
   the last one stored and not deleted since the process opened the file, or else the file's then.
   */
  lemma {:induction false} RetrieveAfterRun(
    codec: IndexCodec, st: Store, actions: seq<Action>, t: nat, n: nat, key: (string, string))
    requires key.1 != SentinelAccount(key.0)
    requires t < n <= |actions| && Decides(actions[t], key)
    requires forall u :: t < u < n ==> !Decides(actions[u], key)
    requires Run(codec, st, actions[..n]).memory.Some?
    ensures Lookup(Run(codec, st, actions[..n]).memory.value, key) ==
            Decided(Run(codec, st, actions[..t]), actions[t], key)
  {
    var last := n - 1;
    var before := Run(codec, st, actions[..last]);
    RunNext(codec, st, actions, last);
    if before.memory.Some? {
      StepLeavesOthers(codec, before, actions[last], key);
      if t < last {
        RetrieveAfterRun(codec, st, actions, t, last, key);
      }
    }
  }

  // ---- what is durable ----------------------------------------------------------------------------

  /** The action is acknowledged: the agent is up, the change is made and its persist completes. */
  predicate Acknowledged(codec: IndexCodec, st: Store, a: Action) {
    && st.memory.Some? && (a.Put? || a.Remove?) && a.fault.NoFault?
    && (a.Put? ==> StoreEntry(codec, st.memory.value, a.service, a.account, a.secret).1 == Done)
    && (a.Remove? ==> DeleteEntry(codec, st.memory.value, a.service, a.account).1 == Done)
  }

  /** The file changes with acknowledged actions only, and then to the whole memory. */
  lemma StepFile(codec: IndexCodec, st: Store, a: Action)
    ensures var next := Step(codec, st, a);
            if Acknowledged(codec, st, a) then next.memory == Some(next.file) else next.file == st.file
  {
  }

  lemma RunNext(codec: IndexCodec, st: Store, actions: seq<Action>, n: nat)
    requires n < |actions|
    ensures Run(codec, st, actions[..n + 1]) == Step(codec, Run(codec, st, actions[..n]), actions[n])
  {
    assert actions[..n + 1][..n] == actions[..n];
  }

  /**
   After the first `n` actions the file is the memory as of the last acknowledged one, which carries
   earlier failed changes with it.
   */
  lemma {:induction false} FileIsLastAcknowledged(codec: IndexCodec, st: Store, actions: seq<Action>, t: nat, n: nat)
    requires t < n <= |actions| && Acknowledged(codec, Run(codec, st, actions[..t]), actions[t])
    requires forall u :: t < u < n ==> !Acknowledged(codec, Run(codec, st, actions[..u]), actions[u])
    ensures Run(codec, st, actions[..t + 1]).memory == Some(Run(codec, st, actions[..n]).file)
  {
    var last := n - 1;
    RunNext(codec, st, actions, last);
    StepFile(codec, Run(codec, st, actions[..last]), actions[last]);
    if t < last {
      FileIsLastAcknowledged(codec, st, actions, t, last);
    }
  }

  /** Memory and file hold the value. */
  predicate Holds(st: Store, key: (string, string), v: Option<Bytestring>) {
    Lookup(st.file, key) == v && (st.memory.Some? ==> Lookup(st.memory.value, key) == v)
  }

  lemma StepHolds(codec: IndexCodec, st: Store, a: Action, key: (string, string), v: Option<Bytestring>)
    requires key.1 != SentinelAccount(key.0) && !Touches(a, key) && Holds(st, key, v)
    ensures Holds(Step(codec, st, a), key, v)
  {
    StepFile(codec, st, a);
    if st.memory.Some? {
      StepLeavesOthers(codec, st, a, key);
    }
  }

  lemma {:induction false} HeldUntilTouched(
    codec: IndexCodec, st: Store, actions: seq<Action>, m: nat, n: nat, key: (string, string), v: Option<Bytestring>)
    requires key.1 != SentinelAccount(key.0) && m <= n <= |actions|
    requires Holds(Run(codec, st, actions[..m]), key, v) && forall u :: m <= u < n ==> !Touches(actions[u], key)
    ensures Holds(Run(codec, st, actions[..n]), key, v)
  {
    if m < n {
      HeldUntilTouched(codec, st, actions, m, n - 1, key, v);
      RunNext(codec, st, actions, n - 1);
      StepHolds(codec, Run(codec, st, actions[..n - 1]), actions[n - 1], key, v);
    }
  }

  /**
   An acknowledged store or delete is durable: no later crash, fault, reopening or change to other
   accounts affects it, until the account itself is stored or deleted again.
   */
  lemma {:induction false} AcknowledgedSurvives(
    codec: IndexCodec, st: Store, actions: seq<Action>, t: nat, n: nat, key: (string, string))
    requires key.1 != SentinelAccount(key.0)
    requires t < n <= |actions| && Touches(actions[t], key)
    requires Acknowledged(codec, Run(codec, st, actions[..t]), actions[t])
    requires forall u :: t < u < n ==> !Touches(actions[u], key)
    ensures Holds(Run(codec, st, actions[..n]), key, if actions[t].Put? then Some(actions[t].secret) else None)
  {
    var before, a := Run(codec, st, actions[..t]), actions[t];
    RunNext(codec, st, actions, t);
    StepFile(codec, before, a);
    StepLeavesOthers(codec, before, a, key);
    HeldUntilTouched(codec, st, actions, t + 1, n, key, Decided(before, a, key));
  }
}
