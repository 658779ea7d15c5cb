/**
 The one-shot rendezvous registry for out-of-band challenges. A receiver is named by the time of the
 call that created it, so a run's trace says everything about its fate.
 */
module PendingChallenges {
  import opened Common

  type ChallengeId = nat
  type Time = nat

  datatype Resolution = Resolution(challengeId: ChallengeId, approved: bool)

  /** What became of a receiver, and when: still waiting, sent a resolution, or its sender dropped. */
  datatype Fate = Waiting | Delivered(at: Time, res: Resolution) | Closed(at: Time)

  datatype Registry = Registry(
    inner: map<ChallengeId, Time>, fates: map<Time, Fate>, abandoned: set<Time>, clock: Time)

  datatype Action =
    | Register(id: ChallengeId)
    | Resolve(id: ChallengeId, res: Resolution)
    | Cancel(id: ChallengeId)
    | DropReceiver(rx: Time)

  const EMPTY := Registry(map[], map[], {}, 0)

  /** Sending reaches the receiver unless its owner gave up on it. */
  function Send(r: Registry, rx: Time, res: Resolution): Fate {
    if rx in r.abandoned then Closed(r.clock) else Delivered(r.clock, res)
  }

  function Step(r: Registry, a: Action): (s: Registry) {
    var next := match a
      case Register(id) =>
        var fates := if id in r.inner then r.fates[r.inner[id] := Closed(r.clock)] else r.fates;
        r.(inner := r.inner[id := r.clock], fates := fates[r.clock := Waiting])
      case Resolve(id, res) =>
        if id !in r.inner then r
        else r.(inner := r.inner - {id}, fates := r.fates[r.inner[id] := Send(r, r.inner[id], res)])
      case Cancel(id) =>
        if id !in r.inner then r
        else r.(inner := r.inner - {id}, fates := r.fates[r.inner[id] := Closed(r.clock)])
      case DropReceiver(rx) => r.(abandoned := r.abandoned + {rx});
    next.(clock := r.clock + 1)
  }

  function Run(actions: seq<Action>): (r: Registry) {
    if actions == [] then EMPTY else Step(Run(actions[..|actions| - 1]), actions[|actions| - 1])
  }

  // ---- what every run keeps -----------------------------------------------------------------------

  /** The action consumes or replaces whatever is registered for `id`. */
  predicate Touches(a: Action, id: ChallengeId) {
    (a.Register? || a.Resolve? || a.Cancel?) && a.id == id
  }

  /** No call about `id` in the trace from `lo` up to `hi`. */
  predicate Quiet(actions: seq<Action>, id: ChallengeId, lo: nat, hi: nat) {
    hi <= |actions| && forall t :: lo <= t < hi ==> !Touches(actions[t], id)
  }

  /** The receiver was given up before time `hi`. */
  predicate AbandonedBefore(actions: seq<Action>, rx: Time, hi: nat) {
    hi <= |actions| && exists t :: 0 <= t < hi && actions[t] == DropReceiver(rx)
  }

  /** The receiver's fate, read off the trace. */
  predicate FateExplained(actions: seq<Action>, rx: Time, fate: Fate) {
    && rx < |actions| && actions[rx].Register?
    && var id := actions[rx].id;
       match fate
       case Waiting => Quiet(actions, id, rx + 1, |actions|)
       case Delivered(at, res) =>
         && rx < at < |actions| && Quiet(actions, id, rx + 1, at)
         && actions[at] == Resolve(id, res) && !AbandonedBefore(actions, rx, at)
       case Closed(at) =>
         && rx < at < |actions| && Quiet(actions, id, rx + 1, at) && Touches(actions[at], id)
         && (actions[at].Resolve? ==> AbandonedBefore(actions, rx, at))
  }

  /** Registered senders belong to waiting receivers of the same id, one each. */
  ghost predicate Linked(actions: seq<Action>, r: Registry) {
    && (forall id <- r.inner :: r.inner[id] in r.fates && r.fates[r.inner[id]] == Waiting
                                && r.inner[id] < |actions| && actions[r.inner[id]] == Register(id))
    && (forall rx <- r.fates :: r.fates[rx] == Waiting ==>
          rx < |actions| && actions[rx].Register? && actions[rx].id in r.inner && r.inner[actions[rx].id] == rx)
  }

  ghost predicate Explained(actions: seq<Action>, r: Registry) {
    && r.clock == |actions|
    && (forall rx :: rx in r.fates <==> 0 <= rx < |actions| && actions[rx].Register?)
    && (forall rx <- r.fates :: FateExplained(actions, rx, r.fates[rx]))
    && (forall rx :: rx in r.abandoned <==> AbandonedBefore(actions, rx, |actions|))
  }

  lemma FateStays(actions: seq<Action>, a: Action, rx: Time, fate: Fate)
    requires FateExplained(actions, rx, fate)
    requires fate.Waiting? ==> !Touches(a, actions[rx].id)
    ensures FateExplained(actions + [a], rx, fate)
  {
    var all := actions + [a];
    assert forall t :: 0 <= t < |actions| ==> all[t] == actions[t];
    if !fate.Waiting? {
      assert AbandonedBefore(all, rx, fate.at) <==> AbandonedBefore(actions, rx, fate.at);
    }
  }

  lemma FateSettles(actions: seq<Action>, a: Action, rx: Time, id: ChallengeId, r: Registry)
    requires FateExplained(actions, rx, Waiting) && actions[rx] == Register(id) && Touches(a, id)
    requires r.clock == |actions| && (rx in r.abandoned <==> AbandonedBefore(actions, rx, |actions|))
    ensures FateExplained(actions + [a], rx, if a.Resolve? then Send(r, rx, a.res) else Closed(r.clock))
  {
    var all := actions + [a];
    assert forall t :: 0 <= t < |actions| ==> all[t] == actions[t];
    assert AbandonedBefore(all, rx, |actions|) <==> AbandonedBefore(actions, rx, |actions|);
  }

  lemma StepLinks(actions: seq<Action>, r: Registry, a: Action)
    requires Linked(actions, r) && r.clock == |actions| && forall rx <- r.fates :: rx < |actions|
    ensures Linked(actions + [a], Step(r, a))
  {
    var all := actions + [a];
    assert forall t :: 0 <= t < |actions| ==> all[t] == actions[t];
  }

  lemma StepExplains(actions: seq<Action>, r: Registry, a: Action)
    requires Linked(actions, r) && Explained(actions, r)
    ensures Explained(actions + [a], Step(r, a))
  {
    var all, s := actions + [a], Step(r, a);
    forall rx | rx in s.fates
      ensures FateExplained(all, rx, s.fates[rx])
    {
      if rx < |actions| {
        if r.fates[rx] == Waiting && Touches(a, actions[rx].id) {
          FateSettles(actions, a, rx, actions[rx].id, r);
        } else {
          FateStays(actions, a, rx, r.fates[rx]);
        }
      }
    }
    assert forall t :: 0 <= t < |actions| ==> all[t] == actions[t];
    forall rx
      ensures rx in s.abandoned <==> AbandonedBefore(all, rx, |all|)
    {
      assert AbandonedBefore(actions, rx, |actions|) ==> AbandonedBefore(all, rx, |all|);
      assert all[|actions|] == a;
    }
  }

  /**
   Over every run each receiver has exactly one fate, and the trace explains it: it got a resolution
   only if that was sent for its own id while it was the latest registration, and at most one.
   */
  lemma {:induction false} EveryFateExplained(actions: seq<Action>)
    ensures Linked(actions, Run(actions)) && Explained(actions, Run(actions))
  {
    if actions != [] {
      var n := |actions| - 1;
      EveryFateExplained(actions[..n]);
      assert actions == actions[..n] + [actions[n]];
      StepLinks(actions[..n], Run(actions[..n]), actions[n]);
      StepExplains(actions[..n], Run(actions[..n]), actions[n]);
    }
  }

  lemma SettledStaysOnce(actions: seq<Action>, a: Action, rx: Time)
    requires rx in Run(actions).fates && !Run(actions).fates[rx].Waiting?
    ensures rx in Run(actions + [a]).fates && Run(actions + [a]).fates[rx] == Run(actions).fates[rx]
  {
    EveryFateExplained(actions);
    assert (actions + [a])[..|actions|] == actions;
  }

  /** A settled fate never changes, whatever is called later: a receiver gets at most one resolution. */
  lemma {:induction false} SettledStays(actions: seq<Action>, later: seq<Action>, rx: Time)
    requires rx in Run(actions).fates && !Run(actions).fates[rx].Waiting?
    ensures rx in Run(actions + later).fates && Run(actions + later).fates[rx] == Run(actions).fates[rx]
  {
    if later == [] {
      assert actions + later == actions;
    } else {
      var n := |later| - 1;
      assert actions + later == (actions + later[..n]) + [later[n]];
      SettledStays(actions, later[..n], rx);
      SettledStaysOnce(actions + later[..n], later[n], rx);
    }
  }

  // ---- counting -----------------------------------------------------------------------------------

  /** Calls that found an entry for their id: evicting registers, and resolves and cancels that hit. */
  predicate Hits(r: Registry, a: Action) {
    !a.DropReceiver? && a.id in r.inner
  }

  function CountRegisters(actions: seq<Action>): nat {
    if actions == [] then 0 else CountRegisters(actions[..|actions| - 1]) + One(actions[|actions| - 1].Register?)
  }

  function CountHits(actions: seq<Action>): nat {
    if actions == [] then 0
    else CountHits(actions[..|actions| - 1]) + One(Hits(Run(actions[..|actions| - 1]), actions[|actions| - 1]))
  }

  /** The pending count is registrations minus evictions, resolves that hit and cancels that hit. */
  lemma {:induction false} PendingCount(actions: seq<Action>)
    ensures |Run(actions).inner| + CountHits(actions) == CountRegisters(actions)
  {
    if actions != [] {
      var n := |actions| - 1;
      PendingCount(actions[..n]);
      StepCounts(Run(actions[..n]), actions[n]);
    }
  }

  lemma StepCounts(r: Registry, a: Action)
    ensures |Step(r, a).inner| + One(Hits(r, a)) == |r.inner| + One(a.Register?)
  {
    if !a.DropReceiver? {
      if a.id in r.inner {
        assert r.inner.Keys == (r.inner - {a.id}).Keys + {a.id};
        assert r.inner[a.id := r.clock].Keys == r.inner.Keys;
      } else {
        assert r.inner[a.id := r.clock].Keys == r.inner.Keys + {a.id};
      }
    }
  }

  function WaitingReceivers(r: Registry): (rxs: set<Time>) {
    set rx | rx in r.fates && r.fates[rx] == Waiting
  }

  /** A map that sends its keys to different values has as many of them. */
  lemma {:induction false} InjectiveSize(m: map<ChallengeId, Time>)
    requires forall i <- m, j <- m :: m[i] == m[j] ==> i == j
    ensures |m.Values| == |m|
  {
    if m != map[] {
      var k :| k in m;
      var rest := m - {k};
      InjectiveSize(rest);
      assert m.Keys == rest.Keys + {k};
      assert m.Values == rest.Values + {m[k]};
    }
  }

  /** Over every run there is one registered sender for each receiver still waiting. */
  lemma {:induction false} SendersAreWaiting(actions: seq<Action>)
    ensures |Run(actions).inner| == |WaitingReceivers(Run(actions))|
  {
    var r := Run(actions);
    EveryFateExplained(actions);
    assert r.inner.Values == WaitingReceivers(r);
    InjectiveSize(r.inner);
  }

  // ---- the registry object ------------------------------------------------------------------------

  /** The guarded map of senders with the channels beside it; `trace` is the run so far. */
  class PendingChallengeRegistry {
    var inner: map<ChallengeId, Time>
    var fates: map<Time, Fate>
    var abandoned: set<Time>
    var clock: Time
    ghost var trace: seq<Action>

    ghost function View(): Registry
      reads this
    {
      Registry(inner, fates, abandoned, clock)
    }

    ghost predicate Valid()
      reads this
    {
      View() == Run(trace)
    }

    constructor ()
      ensures Valid() && trace == []
    {
      inner, fates, abandoned, clock, trace := map[], map[], {}, 0, [];
    }

    /** A sender already registered for the id is dropped, which closes its receiver. */
    method Register(id: ChallengeId) returns (rx: Time)
      requires Valid()
      modifies this
      ensures Valid() && trace == old(trace) + [Action.Register(id)]
      ensures View() == Step(old(View()), Action.Register(id)) && rx == old(clock)
    {
      RunOne(trace, Action.Register(id));
      rx := clock;
      if id in inner {
        fates := fates[inner[id] := Closed(clock)];
      }
      fates := fates[rx := Waiting];
      inner := inner[id := rx];
      clock := clock + 1;
      trace := trace + [Action.Register(id)];
    }

    method Resolve(id: ChallengeId, res: Resolution)
      requires Valid()
      modifies this
      ensures Valid() && trace == old(trace) + [Action.Resolve(id, res)]
      ensures View() == Step(old(View()), Action.Resolve(id, res))
    {
      RunOne(trace, Action.Resolve(id, res));
      if id in inner {
        var rx := inner[id];
        inner := inner - {id};
        fates := fates[rx := if rx in abandoned then Closed(clock) else Delivered(clock, res)];
      }
      clock := clock + 1;
      trace := trace + [Action.Resolve(id, res)];
    }

    method Cancel(id: ChallengeId)
      requires Valid()
      modifies this
      ensures Valid() && trace == old(trace) + [Action.Cancel(id)]
      ensures View() == Step(old(View()), Action.Cancel(id))
    {
      RunOne(trace, Action.Cancel(id));
      if id in inner {
        fates := fates[inner[id] := Closed(clock)];
        inner := inner - {id};
      }
      clock := clock + 1;
      trace := trace + [Action.Cancel(id)];
    }

    /** The owner of a receiver gives up on it; the registry does not notice. */
    method Abandon(rx: Time)
      requires Valid()
      modifies this
      ensures Valid() && trace == old(trace) + [DropReceiver(rx)]
      ensures View() == Step(old(View()), DropReceiver(rx)) && inner == old(inner)
    {
      RunOne(trace, DropReceiver(rx));
      abandoned, clock := abandoned + {rx}, clock + 1;
      trace := trace + [DropReceiver(rx)];
    }

    /** The size of the map is the number of receivers still waiting, and balances the calls made. */
    method Len() returns (n: nat)
      requires Valid()
      ensures n == |WaitingReceivers(View())|
      ensures n + CountHits(trace) == CountRegisters(trace)
    {
      n := |inner|;
      SendersAreWaiting(trace);
      PendingCount(trace);
    }
  }

  lemma RunOne(actions: seq<Action>, a: Action)
    ensures Run(actions + [a]) == Step(Run(actions), a)
  {
    assert (actions + [a])[..|actions|] == actions;
  }
}
