/** Runs of failure-free passes over ConfigSyncs that carry the finalizer, live ones and ones being deleted: what the
    theorems about rounds mean for the system itself. */
module Convergence {
  import opened Objects
  import opened ConfigSyncs
  import opened Plans
  import opened Passes
  import opened Clusters
  import opened ConfigSyncSteps
  import opened PassTheorems
  import opened Rounds
  import opened Runs

  predicate IsHeld(css: map<string, ConfigSync>, n: string) {
    n in css && FINALIZER in css[n].finalizers
  }

  /** `css` after passes over `done`: a ConfigSync that carries the finalizer is what it was, and one that has lost it
      was being deleted and has had its pass. */
  ghost predicate Tracks(css0: map<string, ConfigSync>, css: map<string, ConfigSync>, done: seq<string>) {
    forall n | IsHeld(css0, n) ::
      if IsHeld(css, n) then css[n].spec == css0[n].spec && css[n].deleting == css0[n].deleting && css[n].name == n
      else css0[n].deleting && n in done && (n in css ==> css[n].deleting)
  }

  lemma TracksOn(css0: map<string, ConfigSync>, css: map<string, ConfigSync>, after: map<string, ConfigSync>,
                 done: seq<string>, n: string)
    requires Tracks(css0, css, done)
    requires forall m | m != n :: (m in after <==> m in css) && (m in css ==> after[m] == css[m])
    requires IsHeld(css0, n) ==>
      if IsHeld(after, n)
      then after[n].spec == css0[n].spec && after[n].deleting == css0[n].deleting && after[n].name == n
      else css0[n].deleting && (n in after ==> after[n].deleting)
    ensures Tracks(css0, after, done + [n])
  {
  }

  lemma SyncTracks(css0: map<string, ConfigSync>, done: seq<string>, pre: ClusterState, post: ClusterState, n: string)
    requires IsHeld(css0, n) && Tracks(css0, pre.configSyncs, done) && IsHeld(pre.configSyncs, n)
    requires !pre.configSyncs[n].deleting && SyncStep(pre, post, n, true)
    ensures Tracks(css0, post.configSyncs, done + [n]) && post.objects == Pass(css0, n, pre.namespaces, pre.objects)
  {
    TracksOn(css0, pre.configSyncs, post.configSyncs, done, n);
  }

  lemma FinalTracks(css0: map<string, ConfigSync>, done: seq<string>, pre: ClusterState, post: ClusterState, n: string)
    requires IsHeld(css0, n) && Tracks(css0, pre.configSyncs, done) && IsHeld(pre.configSyncs, n)
    requires pre.configSyncs[n].deleting && FinalStep(pre, post, n, true)
    ensures Tracks(css0, post.configSyncs, done + [n]) && post.objects == Pass(css0, n, pre.namespaces, pre.objects)
  {
    TracksOn(css0, pre.configSyncs, post.configSyncs, done, n);
  }

  /** One pass does to the objects what it stands for in a round, and nothing if it has been carried out before. */
  lemma PassTracks(css0: map<string, ConfigSync>, done: seq<string>, s0: Store,
                   pre: ClusterState, post: ClusterState, n: string)
    requires IsHeld(css0, n) && Tracks(css0, pre.configSyncs, done) && ConfigSyncStep(pre, post, n, true)
    requires (forall m | m in done :: IsHeld(css0, m)) && Housed(s0, pre.namespaces)
    requires Uncontested(css0, pre.namespaces, s0) && pre.objects == Round(css0, done, pre.namespaces, s0)
    ensures Tracks(css0, post.configSyncs, done + [n]) && post.namespaces == pre.namespaces
    ensures post.objects == Pass(css0, n, pre.namespaces, pre.objects)
  {
    if !IsHeld(pre.configSyncs, n) {
      assert post == pre;
      RoundSettlesAll(css0, done, n, pre.namespaces, s0);
      TracksOn(css0, pre.configSyncs, post.configSyncs, done, n);
    } else if pre.configSyncs[n].deleting {
      FinalTracks(css0, done, pre, post, n);
    } else {
      SyncTracks(css0, done, pre, post, n);
    }
  }

  function Front(order: seq<string>): seq<string>
    requires order != []
  {
    order[..|order| - 1]
  }

  function Last(order: seq<string>): string
    requires order != []
  {
    order[|order| - 1]
  }

  /** Failure-free passes of the ConfigSyncs in `order`, one after the other, lead from `st` to `end`. */
  ghost predicate Reaches(st: ClusterState, order: seq<string>, end: ClusterState) {
    if order == [] then end == st
    else exists mid :: Reaches(st, Front(order), mid) && ConfigSyncStep(mid, end, Last(order), true)
  }

  /** Whose passes the first `i` steps are. */
  function Order(steps: seq<Step>, i: nat): seq<string>
    requires i <= |steps| && forall j | 0 <= j < i :: steps[j].ConfigSyncPass?
  {
    if i == 0 then [] else Order(steps, i - 1) + [steps[i - 1].name]
  }

  lemma ReachesOn(st: ClusterState, order: seq<string>, mid: ClusterState, end: ClusterState, n: string)
    requires Reaches(st, order, mid) && ConfigSyncStep(mid, end, n, true)
    ensures Reaches(st, order + [n], end)
  {
    assert Front(order + [n]) == order;
  }

  lemma {:induction false} RunReaches(states: seq<ClusterState>, steps: seq<Step>, i: nat)
    requires Run(states, steps) && i < |states|
    requires forall j | 0 <= j < |steps| :: steps[j].ConfigSyncPass? && steps[j].clean
    ensures Reaches(states[0], Order(steps, i), states[i])
  {
    if i > 0 {
      RunReaches(states, steps, i - 1);
      assert Next(states[i - 1], states[i], steps[i - 1]);
      ReachesOn(states[0], Order(steps, i - 1), states[i - 1], states[i], steps[i - 1].name);
    }
  }

  ghost predicate Orderly(st: ClusterState, order: seq<string>) {
    && WellFormed(st)
    && Uncontested(st.configSyncs, st.namespaces, st.objects)
    && forall n | n in order :: IsHeld(st.configSyncs, n)
  }

  /** What such a run does to the objects is what the round does. */
  lemma {:induction false} ReachesRound(st: ClusterState, order: seq<string>, end: ClusterState)
    requires Orderly(st, order) && Reaches(st, order, end)
    ensures end.namespaces == st.namespaces && Tracks(st.configSyncs, end.configSyncs, order)
    ensures end.objects == Round(st.configSyncs, order, st.namespaces, st.objects)
  {
    if order == [] {
      assert forall n | n in st.configSyncs :: NamedAndHeld(n, st.configSyncs[n]);
    } else {
      var done, n := Front(order), Last(order);
      var mid :| Reaches(st, done, mid) && ConfigSyncStep(mid, end, n, true);
      assert order == done + [n];
      ReachesRound(st, done, mid);
      PassTracks(st.configSyncs, done, st.objects, mid, end, n);
      RoundThenPass(st.configSyncs, done, n, st.namespaces, st.objects);
    }
  }

  /** Runs with the same passes in different orders end with the same objects. */
  lemma RunsConverge(st: ClusterState, order1: seq<string>, end1: ClusterState, order2: seq<string>, end2: ClusterState)
    requires Orderly(st, order1) && Orderly(st, order2) && multiset(order1) == multiset(order2)
    requires Reaches(st, order1, end1) && Reaches(st, order2, end2)
    ensures end1.objects == end2.objects
  {
    ReachesRound(st, order1, end1);
    ReachesRound(st, order2, end2);
    OrderIrrelevant(st.configSyncs, order1, order2, st.namespaces, st.objects);
  }

  /** After such a run another failure-free pass of any ConfigSync that has had its pass changes no object. */
  lemma RunSettles(st: ClusterState, order: seq<string>, end: ClusterState, n: string, post: ClusterState)
    requires Orderly(st, order) && Reaches(st, order, end) && n in order
    requires ConfigSyncStep(end, post, n, true)
    ensures post.objects == end.objects
  {
    ReachesRound(st, order, end);
    PassTracks(st.configSyncs, order, st.objects, end, post, n);
    RoundSettlesAll(st.configSyncs, order, n, st.namespaces, st.objects);
  }

  /** Two passes of different ConfigSyncs, in one order and in the other, end with the same objects if and only if one
      of the two is being deleted or they have no contested key. */
  lemma StepsCommuteExactly(st: ClusterState, a: string, b: string,
                            x1: ClusterState, y1: ClusterState, x2: ClusterState, y2: ClusterState)
    requires WellFormed(st) && a != b && IsHeld(st.configSyncs, a) && IsHeld(st.configSyncs, b)
    requires ConfigSyncStep(st, x1, a, true) && ConfigSyncStep(x1, y1, b, true)
    requires ConfigSyncStep(st, x2, b, true) && ConfigSyncStep(x2, y2, a, true)
    ensures y1.objects == y2.objects <==>
            || st.configSyncs[a].deleting || st.configSyncs[b].deleting
            || Contested(st.configSyncs[a].spec, st.configSyncs[b].spec, st.namespaces, st.objects) == {}
  {
    var css, nss, s := st.configSyncs, st.namespaces, st.objects;
    TwoSteps(st, a, b, x1, y1);
    TwoSteps(st, b, a, x2, y2);
    if css[a].deleting && css[b].deleting {
      FinalsCommute(a, css[a].spec, b, css[b].spec, nss, s);
    } else if css[a].deleting {
      SyncAndFinalCommute(b, css[b].spec, a, css[a].spec, nss, s);
    } else if css[b].deleting {
      SyncAndFinalCommute(a, css[a].spec, b, css[b].spec, nss, s);
    } else {
      PassesCommuteExactly(a, css[a].spec, b, css[b].spec, nss, s);
    }
  }

  lemma TwoSteps(st: ClusterState, a: string, b: string, x: ClusterState, y: ClusterState)
    requires WellFormed(st) && a != b && IsHeld(st.configSyncs, a) && IsHeld(st.configSyncs, b)
    requires ConfigSyncStep(st, x, a, true) && ConfigSyncStep(x, y, b, true)
    ensures y.objects == Pass(st.configSyncs, b, st.namespaces, Pass(st.configSyncs, a, st.namespaces, st.objects))
  {
    assert NamedAndHeld(a, st.configSyncs[a]);
    assert x.configSyncs[b] == st.configSyncs[b];
  }
}
