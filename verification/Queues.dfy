/** The work queue of the Secret and ConfigMap controllers while only the operator acts. */
module Queues {
  import opened Objects
  import opened ConfigSyncs
  import opened Clusters
  import opened Triggers
  import opened ResourceController
  import opened Runs

  /** The keys whose reconciliation a stretch of events asks for. */
  function Woken(events: seq<Event>, css: map<string, ConfigSync>): set<Key> {
    set i | 0 <= i < |events| && Accepts(events[i], css) :: events[i].key
  }

  lemma NothingWoken(events: seq<Event>, css: map<string, ConfigSync>)
    requires forall i | 0 <= i < |events| :: OperatorEvent(events[i])
    ensures Woken(events, css) == {}
  {
    forall i | 0 <= i < |events|
      ensures !Accepts(events[i], css)
    {
      assert OperatorEvent(events[i]);
    }
  }

  /** A pass that returns no error takes its key off the queue; after an error the key is queued again. */
  predicate Completes(step: Step) {
    step.ResourcePass? && !step.failed
  }

  predicate Errs(step: Step) {
    step.ResourcePass? && step.failed
  }

  /** The queue holds a key once, however often it was asked for, and is worked on in any order.  The events of every
      step are filtered and queued. */
  ghost predicate QueuedStep(pre: ClusterState, post: ClusterState, step: Step, queue: set<Key>, next: set<Key>) {
    && |pre.events| <= |post.events|
    && (step.ResourcePass? ==> step.key in queue)
    && next == (if Completes(step) then queue - {step.key} else queue) +
               Woken(post.events[|pre.events|..], post.configSyncs)
  }

  ghost predicate Queued(states: seq<ClusterState>, steps: seq<Step>, queues: seq<set<Key>>) {
    && |states| == |queues| == |steps| + 1
    && forall i | 0 <= i < |steps| :: QueuedStep(states[i], states[i + 1], steps[i], queues[i], queues[i + 1])
  }

  lemma QueueShrinks(pre: ClusterState, post: ClusterState, step: Step, queue: set<Key>, next: set<Key>)
    requires Next(pre, post, step) && IsOperator(step) && QueuedStep(pre, post, step, queue, next)
    ensures next == queue - if Completes(step) then {step.key} else {}
    ensures |next| + (if Completes(step) then 1 else 0) == |queue|
  {
    OperatorStepKeeps(pre, post, step);
    NothingWoken(post.events[|pre.events|..], post.configSyncs);
  }

  function Completions(steps: seq<Step>, i: nat): nat
    requires i <= |steps|
  {
    if i == 0 then 0 else Completions(steps, i - 1) + if Completes(steps[i - 1]) then 1 else 0
  }

  function Errors(steps: seq<Step>, i: nat): nat
    requires i <= |steps|
  {
    if i == 0 then 0 else Errors(steps, i - 1) + if Errs(steps[i - 1]) then 1 else 0
  }

  /** One of the first `i` steps was a pass for `k` that returned no error. */
  ghost predicate IsDone(steps: seq<Step>, i: nat, k: Key)
    requires i <= |steps|
  {
    exists j | 0 <= j < i :: steps[j].ResourcePass? && !steps[j].failed && steps[j].key == k
  }

  lemma DoneNext(steps: seq<Step>, i: nat, k: Key)
    requires 0 < i <= |steps|
    ensures IsDone(steps, i, k) <==> IsDone(steps, i - 1, k) || (Completes(steps[i - 1]) && steps[i - 1].key == k)
  {
  }

  /** Under the operator alone nothing is ever added to the queue, each pass without error removes exactly its key, and
      a pass with an error leaves the queue as it was. */
  lemma {:induction false} QueueDrains(states: seq<ClusterState>, steps: seq<Step>, queues: seq<set<Key>>, i: nat)
    requires Run(states, steps) && Queued(states, steps, queues) && i < |states|
    requires forall j | 0 <= j < |steps| :: IsOperator(steps[j])
    ensures forall k :: k in queues[i] <==> k in queues[0] && !IsDone(steps, i, k)
    ensures |queues[i]| + Completions(steps, i) == |queues[0]|
  {
    if i > 0 {
      QueueDrains(states, steps, queues, i - 1);
      assert Next(states[i - 1], states[i], steps[i - 1]);
      QueueShrinks(states[i - 1], states[i], steps[i - 1], queues[i - 1], queues[i]);
      forall k
        ensures k in queues[i] <==> k in queues[0] && !IsDone(steps, i, k)
      {
        DoneNext(steps, i, k);
      }
    }
  }

  /** How often a stretch of events writes the ConfigSync `n`. */
  function WritesOf(events: seq<Event>, n: string): nat {
    multiset(events)[ConfigSyncWritten(n)]
  }

  lemma {:induction false} OnceIfDistinct(events: seq<Event>, e: Event)
    requires forall i, j | 0 <= i < j < |events| :: events[i] != events[j]
    ensures multiset(events)[e] <= 1
  {
    if events != [] {
      assert events == [events[0]] + events[1..];
      assert forall j | 0 <= j < |events| - 1 :: events[1..][j] == events[j + 1];
      if e == events[0] {
        NeverIfAbsent(events[1..], e);
      } else {
        OnceIfDistinct(events[1..], e);
      }
    }
  }

  lemma {:induction false} NeverIfAbsent(events: seq<Event>, e: Event)
    requires e !in events
    ensures multiset(events)[e] == 0
  {
  }

  /** One resource pass writes each ConfigSync at most once. */
  lemma OneWriteAPass(pre: ClusterState, post: ClusterState, k: Key, now: string, clean: bool, failed: bool, n: string)
    requires ResourceStep(pre, post, k, now, clean, failed)
    ensures |pre.events| <= |post.events| && WritesOf(post.events[|pre.events|..], n) <= 1
  {
    var news := post.events[|pre.events|..];
    if k in pre.objects {
      OnceIfDistinct(news, ConfigSyncWritten(n));
    } else {
      assert forall i | 0 <= i < |news| :: news[i] == post.events[|pre.events| + i];
      NeverIfAbsent(news, ConfigSyncWritten(n));
    }
  }

  /** How often the resource passes among the first `i` steps wrote the ConfigSync `n`. */
  function TriggerWrites(states: seq<ClusterState>, steps: seq<Step>, n: string, i: nat): nat
    requires |states| == |steps| + 1 && i <= |steps|
    requires forall j | 0 <= j < |steps| :: |states[j].events| <= |states[j + 1].events|
  {
    if i == 0 then 0
    else
      TriggerWrites(states, steps, n, i - 1) +
      if steps[i - 1].ResourcePass? then WritesOf(states[i].events[|states[i - 1].events|..], n) else 0
  }

  /** The resource passes write each ConfigSync at most once per key that leaves the queue and once per error. */
  lemma {:induction false} TriggersBounded(states: seq<ClusterState>, steps: seq<Step>, queues: seq<set<Key>>,
                                           n: string, i: nat)
    requires Run(states, steps) && Queued(states, steps, queues) && i < |states|
    requires forall j | 0 <= j < |steps| :: IsOperator(steps[j])
    ensures TriggerWrites(states, steps, n, i) + |queues[i]| <= |queues[0]| + Errors(steps, i)
  {
    if i > 0 {
      TriggersBounded(states, steps, queues, n, i - 1);
      QueueDrains(states, steps, queues, i - 1);
      QueueDrains(states, steps, queues, i);
      assert Next(states[i - 1], states[i], steps[i - 1]);
      match steps[i - 1]
      case ResourcePass(k, now, clean, failed) =>
        OneWriteAPass(states[i - 1], states[i], k, now, clean, failed, n);
      case _ =>
    }
  }

  lemma {:induction false} NoErrors(steps: seq<Step>, i: nat)
    requires i <= |steps| && forall j | 0 <= j < i :: steps[j].ResourcePass? ==> !steps[j].failed
    ensures Errors(steps, i) == 0
  {
    if i > 0 {
      NoErrors(steps, i - 1);
    }
  }

  /** So without errors no ConfigSync is triggered more often than there were keys to begin with. */
  lemma TriggersBoundedByKeys(states: seq<ClusterState>, steps: seq<Step>, queues: seq<set<Key>>, n: string, i: nat)
    requires Run(states, steps) && Queued(states, steps, queues) && i < |states|
    requires forall j | 0 <= j < |steps| :: IsOperator(steps[j]) && (steps[j].ResourcePass? ==> !steps[j].failed)
    ensures TriggerWrites(states, steps, n, i) <= |queues[0]|
  {
    NoErrors(steps, i);
    TriggersBounded(states, steps, queues, n, i);
  }
}
