/** Whole runs of the system: passes of the four controllers, with any of their calls failing, interleaved with
    what users and the cluster do. */
module Runs {
  import opened Objects
  import opened ConfigSyncs
  import opened Plans
  import opened Passes
  import opened Clusters
  import opened Acts
  import opened Triggers
  import opened ConfigSyncSteps
  import opened ResourceController
  import opened NamespaceController
  import opened Webhook
  import opened PassTheorems

  datatype Step =
    | ConfigSyncPass(name: string, clean: bool)
    | ResourcePass(key: Key, now: string, clean: bool, failed: bool)
    | NamespacePass(ns: string, now: string, clean: bool)
    | UserWrite(user: User, key: Key, obj: Object)
    | UserDelete(user: User, key: Key)
    | NamespaceCreated(ns: string)
    | NamespaceRemoved(ns: string)
    | ConfigSyncCreated(cs: ConfigSync)
    | ConfigSyncEdited(cs: ConfigSync)
    | ConfigSyncDeleted(name: string)

  predicate IsOperator(step: Step) {
    step.ConfigSyncPass? || step.ResourcePass? || step.NamespacePass?
  }

  /** A user's write: an update goes through the admission check, a creation does not. */
  ghost predicate Written(pre: ClusterState, post: ClusterState, user: User, k: Key, o: Object) {
    && k.ns in pre.namespaces
    && (k in pre.objects ==> Handle(Request(user, UPDATE, Some(o), Some(pre.objects[k]))) == Allowed)
    && post == pre.(objects := pre.objects[k := o],
                    events := pre.events + [if k in pre.objects then Updated(k, pre.objects[k], o) else Created(k, o)])
  }

  ghost predicate Removed(pre: ClusterState, post: ClusterState, user: User, k: Key) {
    && k in pre.objects
    && Handle(Request(user, DELETE, None, Some(pre.objects[k]))) == Allowed
    && post == pre.(objects := pre.objects - {k}, events := pre.events + [Deleted(k, pre.objects[k])])
  }

  ghost predicate Next(pre: ClusterState, post: ClusterState, step: Step) {
    match step
    case ConfigSyncPass(name, clean) => ConfigSyncStep(pre, post, name, clean)
    case ResourcePass(k, now, clean, failed) => ResourceStep(pre, post, k, now, clean, failed)
    case NamespacePass(ns, now, clean) => NamespaceStep(pre, post, ns, now, clean)
    case UserWrite(user, k, o) => Written(pre, post, user, k, o)
    case UserDelete(user, k) => Removed(pre, post, user, k)
    case NamespaceCreated(ns) => post == pre.(namespaces := pre.namespaces + {ns})
    case NamespaceRemoved(ns) =>
      (forall k | k in pre.objects :: k.ns != ns) && post == pre.(namespaces := pre.namespaces - {ns})
    case ConfigSyncCreated(cs) =>
      cs.name !in pre.configSyncs && !cs.deleting && post == pre.(configSyncs := pre.configSyncs[cs.name := cs])
    case ConfigSyncEdited(cs) =>
      cs.name in pre.configSyncs && post == pre.(configSyncs := StoredUpdate(pre.configSyncs, cs))
    case ConfigSyncDeleted(name) =>
      name in pre.configSyncs && post == pre.(configSyncs := Doomed(pre.configSyncs, name))
  }

  /** Deletion waits for the finalizers. */
  function Doomed(css: map<string, ConfigSync>, name: string): map<string, ConfigSync>
    requires name in css
  {
    if css[name].finalizers == [] then css - {name} else css[name := css[name].(deleting := true)]
  }

  ghost predicate Run(states: seq<ClusterState>, steps: seq<Step>) {
    |states| == |steps| + 1 && forall i | 0 <= i < |steps| :: Next(states[i], states[i + 1], steps[i])
  }

  // ---- What one operator step can do ----

  lemma PassKeepsUsers(pre: ClusterState, post: ClusterState, name: string, clean: bool)
    requires ConfigSyncStep(pre, post, name, clean)
    ensures Unlabelled(post.objects) == Unlabelled(pre.objects)
  {
    if name in pre.configSyncs && FINALIZER in pre.configSyncs[name].finalizers {
      var spec := pre.configSyncs[name].spec;
      if pre.configSyncs[name].deleting {
        UnlabelledKept(FinalPlan(name, spec, pre.namespaces, pre.objects), pre.namespaces, pre.objects, post.objects);
      } else {
        UnlabelledKept(SyncPlan(name, spec, pre.namespaces, pre.objects), pre.namespaces, pre.objects, post.objects);
      }
    }
  }

  lemma OperatorStepKeeps(pre: ClusterState, post: ClusterState, step: Step)
    requires IsOperator(step) && Next(pre, post, step)
    ensures post.namespaces == pre.namespaces
    ensures Unlabelled(post.objects) == Unlabelled(pre.objects)
    ensures OperatorEvents(pre.events, post.events)
  {
    match step
    case ConfigSyncPass(name, clean) => PassKeepsUsers(pre, post, name, clean);
    case ResourcePass(k, now, clean, failed) =>
      if k !in pre.objects {
        UnlabelledKept(CascadePlan(k, pre.objects), pre.namespaces, pre.objects, post.objects);
      }
    case NamespacePass(ns, now, clean) =>
  }

  /** A copy as a pass of the live ConfigSync `name` writes it. */
  ghost predicate WrittenBy(pre: ClusterState, name: string, k: Key, o: Object) {
    && name in pre.configSyncs
    && !pre.configSyncs[name].deleting
    && FINALIZER in pre.configSyncs[name].finalizers
    && var spec := pre.configSyncs[name].spec;
    var src := SourceOf(k, SourceNamespace(spec));
    && k.ns in Targets(spec, pre.namespaces)
    && Enabled(spec, k.kind)
    && Selected(spec, pre.objects, src)
    && o == Project(pre.objects[src], SourceNamespace(spec), name)
  }

  /** Every object after an operator step was there before, or is a fresh copy of a source. */
  lemma OperatorObjects(pre: ClusterState, post: ClusterState, step: Step, k: Key)
    requires IsOperator(step) && Next(pre, post, step) && k in post.objects
    ensures (k in pre.objects && post.objects[k] == pre.objects[k]) ||
            (step.ConfigSyncPass? && WrittenBy(pre, step.name, k, post.objects[k]))
  {
    match step
    case ConfigSyncPass(name, clean) =>
      if name in pre.configSyncs {
        var cs := pre.configSyncs[name];
        if cs.deleting && FINALIZER in cs.finalizers {
          DeletionsLeave(FinalKeys(name, cs.spec, Targets(cs.spec, pre.namespaces), pre.objects),
                         pre.namespaces, pre.objects, post.objects, k);
        } else if FINALIZER in cs.finalizers {
          SyncPlanAt(name, cs.spec, pre.namespaces, pre.objects, k);
          assert Lookup(post.objects, k) == Lookup(pre.objects, k) ||
                 Lookup(post.objects, k) ==
                 EffectAt(SyncPlan(name, cs.spec, pre.namespaces, pre.objects), pre.namespaces, pre.objects, k);
        }
      }
    case ResourcePass(src, now, clean, failed) =>
      if src !in pre.objects {
        DeletionsLeave(CopyKeys(src, pre.objects), pre.namespaces, pre.objects, post.objects, k);
      }
    case NamespacePass(ns, now, clean) =>
  }

  // ---- Well-formed clusters ----

  lemma ConfigSyncsStayNamed(css0: map<string, ConfigSync>, css1: map<string, ConfigSync>, name: string)
    requires forall n | n in css0 :: NamedAndHeld(n, css0[n])
    requires forall n | n in css1 && n != name :: n in css0 && css1[n] == css0[n]
    requires name in css1 ==> NamedAndHeld(name, css1[name])
    ensures forall n | n in css1 :: NamedAndHeld(n, css1[n])
  {
  }

  lemma PassKeepsConfigSyncs(pre: ClusterState, post: ClusterState, name: string, clean: bool)
    requires WellFormed(pre) && ConfigSyncStep(pre, post, name, clean)
    ensures forall n | n in post.configSyncs :: NamedAndHeld(n, post.configSyncs[n])
  {
    if name in pre.configSyncs {
      assert NamedAndHeld(name, pre.configSyncs[name]);
      ConfigSyncsStayNamed(pre.configSyncs, post.configSyncs, name);
    }
  }

  lemma OperatorStepWellFormed(pre: ClusterState, post: ClusterState, step: Step)
    requires WellFormed(pre) && IsOperator(step) && Next(pre, post, step)
    ensures WellFormed(post)
  {
    forall k | k in post.objects
      ensures k.ns in post.namespaces
    {
      OperatorStepKeeps(pre, post, step);
      OperatorObjects(pre, post, step, k);
      OperatorHoused(pre, post, step, k);
    }
    if step.ConfigSyncPass? {
      PassKeepsConfigSyncs(pre, post, step.name, step.clean);
    } else {
      forall n | n in post.configSyncs
        ensures NamedAndHeld(n, post.configSyncs[n])
      {
        assert n in pre.configSyncs && NamedAndHeld(n, pre.configSyncs[n]);
      }
    }
  }

  lemma OperatorHoused(pre: ClusterState, post: ClusterState, step: Step, k: Key)
    requires WellFormed(pre) && IsOperator(step) && Next(pre, post, step) && k in post.objects
    ensures k.ns in pre.namespaces
  {
    OperatorObjects(pre, post, step, k);
    if k !in pre.objects {
      var cs := pre.configSyncs[step.name];
      assert Lookup(post.objects, k) == Lookup(pre.objects, k) ||
             Lookup(post.objects, k) ==
             EffectAt(SyncPlan(step.name, cs.spec, pre.namespaces, pre.objects), pre.namespaces, pre.objects, k);
    }
  }

  lemma OutsideStepWellFormed(pre: ClusterState, post: ClusterState, step: Step)
    requires WellFormed(pre) && !IsOperator(step) && Next(pre, post, step)
    ensures WellFormed(post)
  {
    assert forall n | n in pre.configSyncs :: NamedAndHeld(n, pre.configSyncs[n]);
    match step
    case ConfigSyncCreated(cs) => ConfigSyncsStayNamed(pre.configSyncs, post.configSyncs, cs.name);
    case ConfigSyncEdited(cs) => ConfigSyncsStayNamed(pre.configSyncs, post.configSyncs, cs.name);
    case ConfigSyncDeleted(name) => ConfigSyncsStayNamed(pre.configSyncs, post.configSyncs, name);
    case _ =>
  }

  lemma StepWellFormed(pre: ClusterState, post: ClusterState, step: Step)
    requires WellFormed(pre) && Next(pre, post, step)
    ensures WellFormed(post)
  {
    if IsOperator(step) {
      OperatorStepWellFormed(pre, post, step);
    } else {
      OutsideStepWellFormed(pre, post, step);
    }
  }

  lemma {:induction false} RunWellFormed(states: seq<ClusterState>, steps: seq<Step>, i: nat)
    requires Run(states, steps) && WellFormed(states[0]) && i < |states|
    ensures WellFormed(states[i])
  {
    if i > 0 {
      RunWellFormed(states, steps, i - 1);
      assert Next(states[i - 1], states[i], steps[i - 1]);
      StepWellFormed(states[i - 1], states[i], steps[i - 1]);
    }
  }

  // ---- Users' objects under the operator alone ----

  /** Any interleaving of passes, with any failures, leaves what users own as it was, adds labelled objects only,
      and wakes none of the resource controllers. */
  lemma {:induction false} OperatorRunKeepsUsers(states: seq<ClusterState>, steps: seq<Step>, i: nat)
    requires Run(states, steps) && i < |states|
    requires forall j | 0 <= j < |steps| :: IsOperator(steps[j])
    ensures states[i].namespaces == states[0].namespaces
    ensures Unlabelled(states[i].objects) == Unlabelled(states[0].objects)
    ensures OperatorEvents(states[0].events, states[i].events)
  {
    if i > 0 {
      OperatorRunKeepsUsers(states, steps, i - 1);
      assert Next(states[i - 1], states[i], steps[i - 1]);
      OperatorStepKeeps(states[i - 1], states[i], steps[i - 1]);
    }
  }

  /** So every ConfigSync finds the same sources throughout, and no copy is ever copied again. */
  lemma NoChains(states: seq<ClusterState>, steps: seq<Step>, i: nat, spec: Spec, kind: Kind, k: Key)
    requires Run(states, steps) && i < |states|
    requires forall j | 0 <= j < |steps| :: IsOperator(steps[j])
    ensures SourceKeys(spec, states[i].objects, kind) == SourceKeys(spec, states[0].objects, kind)
    ensures k in states[i].objects && k !in states[0].objects ==>
      Labelled(states[i].objects[k]) && k !in SourceKeys(spec, states[i].objects, kind)
  {
    OperatorRunKeepsUsers(states, steps, i);
    SourceKeysByUnlabelled(spec, states[i].objects, states[0].objects, kind);
    assert k in Unlabelled(states[0].objects) ==> k in states[0].objects;
    assert k in states[i].objects && !Labelled(states[i].objects[k]) ==> k in Unlabelled(states[i].objects);
  }

  /** No event an operator run causes passes the filters of the resource controllers, whatever ConfigSyncs exist. */
  lemma NoFeedback(states: seq<ClusterState>, steps: seq<Step>, i: nat, e: nat, css: map<string, ConfigSync>)
    requires Run(states, steps) && i < |states|
    requires forall j | 0 <= j < |steps| :: IsOperator(steps[j])
    requires |states[0].events| <= e < |states[i].events|
    ensures !Accepts(states[i].events[e], css)
  {
    OperatorRunKeepsUsers(states, steps, i);
    assert OperatorEvent(states[i].events[e]);
  }

  // ---- Provenance ----

  /** Nobody but the operator makes an object with both labels.  For updates by non-exempt users the admission
      check sees to that; creations and exempt users have to be trusted. */
  ghost predicate Honest(pre: ClusterState, step: Step) {
    step.UserWrite? && (step.key !in pre.objects || IsExempt(step.user)) ==> !BothLabelled(step.obj)
  }

  lemma OnlyTheOperatorLabels(pre: ClusterState, post: ClusterState, step: Step)
    requires Next(pre, post, step) && Honest(pre, step) && step.UserWrite?
    ensures !BothLabelled(step.obj)
  {
  }

  /** `o` is, field by field, the copy of the unlabelled object its labels point to, as that object is in `st`. */
  ghost predicate CopiedFrom(st: ClusterState, k: Key, o: Object) {
    && BothLabelled(o)
    && var src := Key(k.kind, o.labels[SYNCED_FROM], k.name);
    && src in st.objects
    && !Labelled(st.objects[src])
    && IsCopy(o, st.objects[src], o.labels[SYNCED_FROM], o.labels[SYNCED_BY])
  }

  lemma LabelledOrOld(pre: ClusterState, post: ClusterState, step: Step, k: Key)
    requires Next(pre, post, step) && Honest(pre, step)
    requires k in post.objects && BothLabelled(post.objects[k])
    ensures (k in pre.objects && post.objects[k] == pre.objects[k]) || CopiedFrom(pre, k, post.objects[k])
  {
    if IsOperator(step) {
      OperatorObjects(pre, post, step, k);
      if step.ConfigSyncPass? && WrittenBy(pre, step.name, k, post.objects[k]) {
        var from := SourceNamespace(pre.configSyncs[step.name].spec);
        IsCopyExactly(post.objects[k], pre.objects[SourceOf(k, from)], from, step.name);
      }
    } else if step.UserWrite? {
      OnlyTheOperatorLabels(pre, post, step);
    }
  }

  /** Every object with both labels is, field by field, the copy of some version that the source it names had earlier
      in the run. */
  lemma {:induction false} Provenance(states: seq<ClusterState>, steps: seq<Step>, i: nat, k: Key)
    requires Run(states, steps) && i < |states|
    requires forall j | 0 <= j < |steps| :: Honest(states[j], steps[j])
    requires forall c | c in states[0].objects :: !BothLabelled(states[0].objects[c])
    requires k in states[i].objects && BothLabelled(states[i].objects[k])
    ensures exists j | 0 <= j < i :: CopiedFrom(states[j], k, states[i].objects[k])
  {
    if i > 0 {
      assert Next(states[i - 1], states[i], steps[i - 1]);
      LabelledOrOld(states[i - 1], states[i], steps[i - 1], k);
      if CopiedFrom(states[i - 1], k, states[i].objects[k]) {
      } else {
        Provenance(states, steps, i - 1, k);
      }
    }
  }

  // ---- Ownership ----

  /** A copy at `k` made from `from` by `owner` is accounted for: its ConfigSync is stored and held by our
      finalizer, and still syncs that kind from there to this namespace. */
  ghost predicate HasOwner(st: ClusterState, k: Key, from: string, owner: string) {
    && owner in st.configSyncs
    && var cs := st.configSyncs[owner];
    && FINALIZER in cs.finalizers
    && from == SourceNamespace(cs.spec)
    && k.ns in Targets(cs.spec, st.namespaces)
    && Enabled(cs.spec, k.kind)
  }

  ghost predicate AllOwned(st: ClusterState) {
    forall k | k in st.objects && BothLabelled(st.objects[k]) ::
      HasOwner(st, k, st.objects[k].labels[SYNCED_FROM], st.objects[k].labels[SYNCED_BY])
  }

  /** What ownership asks of the others: users are honest and leave specs and our finalizer alone, and a
      finalizing pass that gives the finalizer up has no failed call. */
  ghost predicate Faithful(pre: ClusterState, post: ClusterState, step: Step) {
    && Honest(pre, step)
    && (step.ConfigSyncEdited? && step.cs.name in pre.configSyncs ==>
          && step.cs.spec == pre.configSyncs[step.cs.name].spec
          && (FINALIZER in pre.configSyncs[step.cs.name].finalizers ==> FINALIZER in step.cs.finalizers))
    && (step.ConfigSyncPass? && step.name in pre.configSyncs && pre.configSyncs[step.name].deleting ==>
          step.clean || post.configSyncs == pre.configSyncs)
  }

  /** The ConfigSyncs after a step that is not a completed finalization keep their specs and our finalizer. */
  ghost predicate OwnersKept(pre: ClusterState, post: ClusterState) {
    forall n | n in pre.configSyncs && FINALIZER in pre.configSyncs[n].finalizers ::
      && n in post.configSyncs
      && FINALIZER in post.configSyncs[n].finalizers
      && post.configSyncs[n].spec == pre.configSyncs[n].spec
  }

  lemma OwnedStill(pre: ClusterState, post: ClusterState, k: Key, from: string, owner: string)
    requires HasOwner(pre, k, from, owner) && OwnersKept(pre, post)
    requires k.ns in pre.namespaces ==> k.ns in post.namespaces
    ensures HasOwner(post, k, from, owner)
  {
  }

  ghost predicate DropsFinalizer(pre: ClusterState, post: ClusterState, step: Step) {
    && step.ConfigSyncPass? && step.name in pre.configSyncs
    && pre.configSyncs[step.name].deleting && FINALIZER in pre.configSyncs[step.name].finalizers
    && post.configSyncs != pre.configSyncs
  }

  lemma OwnersSurvive(pre: ClusterState, post: ClusterState, step: Step)
    requires WellFormed(pre) && Next(pre, post, step) && Faithful(pre, post, step) && !DropsFinalizer(pre, post, step)
    ensures OwnersKept(pre, post)
  {
    forall n | n in pre.configSyncs
      ensures NamedAndHeld(n, pre.configSyncs[n])
    {
    }
  }

  lemma OwnershipKept(pre: ClusterState, post: ClusterState, step: Step)
    requires WellFormed(pre) && WellFormed(post) && AllOwned(pre)
    requires Next(pre, post, step) && Faithful(pre, post, step) && !DropsFinalizer(pre, post, step)
    ensures AllOwned(post)
  {
    OwnersSurvive(pre, post, step);
    forall k | k in post.objects && BothLabelled(post.objects[k])
      ensures HasOwner(post, k, post.objects[k].labels[SYNCED_FROM], post.objects[k].labels[SYNCED_BY])
    {
      var from, owner := post.objects[k].labels[SYNCED_FROM], post.objects[k].labels[SYNCED_BY];
      ObjectHasOwner(pre, post, step, k);
      assert k.ns in post.namespaces;
      OwnedStill(pre, post, k, from, owner);
    }
  }

  lemma ObjectHasOwner(pre: ClusterState, post: ClusterState, step: Step, k: Key)
    requires AllOwned(pre) && Next(pre, post, step) && Honest(pre, step)
    requires k in post.objects && BothLabelled(post.objects[k])
    ensures HasOwner(pre, k, post.objects[k].labels[SYNCED_FROM], post.objects[k].labels[SYNCED_BY])
  {
    if IsOperator(step) {
      OperatorObjects(pre, post, step, k);
    } else if step.UserWrite? {
      OnlyTheOperatorLabels(pre, post, step);
    }
  }

  /** A finalizing pass that gives the finalizer up keeps every copy accounted for if and only if its clean-up was
      complete; the code gives it up even when deletions failed. */
  lemma DroppedFinalizerExactly(pre: ClusterState, post: ClusterState, name: string, clean: bool)
    requires AllOwned(pre) && name in pre.configSyncs && FinalStep(pre, post, name, clean)
    requires post.configSyncs == Released(pre.configSyncs, name)
    ensures AllOwned(post) <==>
            post.objects == Finalized(name, pre.configSyncs[name].spec, pre.namespaces, pre.objects)
  {
    var spec, t := pre.configSyncs[name].spec, Finalized(name, pre.configSyncs[name].spec, pre.namespaces, pre.objects);
    if post.objects == t {
      forall k | k in post.objects && BothLabelled(post.objects[k])
        ensures HasOwner(post, k, post.objects[k].labels[SYNCED_FROM], post.objects[k].labels[SYNCED_BY])
      {
        FinalizedAt(name, spec, pre.namespaces, pre.objects, k);
        assert Lookup(t, k).Some?;
      }
    }
    if AllOwned(post) {
      forall k
        ensures Lookup(post.objects, k) == Lookup(t, k)
      {
        FinalizedAt(name, spec, pre.namespaces, pre.objects, k);
        DeletionsLeave(FinalKeys(name, spec, Targets(spec, pre.namespaces), pre.objects), pre.namespaces,
                       pre.objects, post.objects, k);
      }
      SameStore(post.objects, t);
    }
  }

  /** Before the pass: that giving the finalizer up is safe can be relied on if and only if there is nothing to
      clean up. */
  lemma FinalizerSafeExactly(pre: ClusterState, name: string)
    requires AllOwned(pre) && name in pre.configSyncs
    requires pre.configSyncs[name].name == name && pre.configSyncs[name].deleting
    ensures var spec := pre.configSyncs[name].spec;
            (forall post, clean |
               FinalStep(pre, post, name, clean) && post.configSyncs == Released(pre.configSyncs, name) ::
               AllOwned(post)) <==>
            FinalKeys(name, spec, Targets(spec, pre.namespaces), pre.objects) == {}
  {
    var spec := pre.configSyncs[name].spec;
    var final := FinalKeys(name, spec, Targets(spec, pre.namespaces), pre.objects);
    if final == {} {
      forall post, clean | FinalStep(pre, post, name, clean) && post.configSyncs == Released(pre.configSyncs, name)
        ensures AllOwned(post)
      {
        NothingDeleted(pre.namespaces, pre.objects, post.objects);
        DroppedFinalizerExactly(pre, post, name, clean);
      }
    } else {
      var k :| k in final;
      var post := pre.(configSyncs := Released(pre.configSyncs, name));
      assert FinalStep(pre, post, name, false);
      assert !HasOwner(post, k, SourceNamespace(spec), name);
      assert !AllOwned(post);
    }
  }

  lemma NothingDeleted(nss: set<string>, s0: Store, s1: Store)
    requires Partial(Deletions({}), nss, s0, s1)
    ensures s1 == s0 == Apply(Deletions({}), nss, s0)
  {
    forall k
      ensures Lookup(s1, k) == Lookup(s0, k) == Lookup(Apply(Deletions({}), nss, s0), k)
    {
    }
    SameStore(s1, s0);
    SameStore(s0, Apply(Deletions({}), nss, s0));
  }

  /** One lost deletion orphans a copy: the ConfigSync is gone and its copy is not. */
  lemma LostDeletionOrphans() returns (pre: ClusterState, post: ClusterState)
    ensures AllOwned(pre) && pre.configSyncs.Keys == {"sync"} && pre.configSyncs["sync"].deleting
    ensures FinalStep(pre, post, "sync", false) && post.configSyncs == map[] && !AllOwned(post)
  {
    var spec := Spec("a", ["b"], [], None, None, None, None);
    var cs := ConfigSync("sync", spec, [FINALIZER], true, map[], Status(0, 0, [], true));
    var k := Key(SecretKind, "b", "token");
    var copy := Project(Object(map[], map[], SecretContent("Opaque", map[])), "a", "sync");
    pre := ClusterState(map[k := copy], {"a", "b"}, map["sync" := cs], []);
    post := ClusterState(map[k := copy], {"a", "b"}, map[], [ConfigSyncWritten("sync")]);
    assert Targets(spec, {"a", "b"}) == {"b"};
    assert Without([FINALIZER], {FINALIZER}) == [];
    assert k in post.objects && BothLabelled(post.objects[k]);
  }

  lemma OwnershipStep(pre: ClusterState, post: ClusterState, step: Step)
    requires WellFormed(pre) && AllOwned(pre)
    requires Next(pre, post, step) && Faithful(pre, post, step)
    ensures WellFormed(post) && AllOwned(post)
  {
    StepWellFormed(pre, post, step);
    if DropsFinalizer(pre, post, step) {
      DroppedFinalizerExactly(pre, post, step.name, step.clean);
    } else {
      OwnershipKept(pre, post, step);
    }
  }

  /** In every reachable state each object with both labels lies in a current target namespace of the ConfigSync it
      names, is of an enabled kind, and that ConfigSync is still stored with the finalizer. */
  lemma {:induction false} Ownership(states: seq<ClusterState>, steps: seq<Step>, i: nat)
    requires Run(states, steps) && WellFormed(states[0]) && i < |states|
    requires forall j | 0 <= j < |steps| :: Faithful(states[j], states[j + 1], steps[j])
    requires forall k | k in states[0].objects :: !BothLabelled(states[0].objects[k])
    ensures WellFormed(states[i]) && AllOwned(states[i])
  {
    if i > 0 {
      Ownership(states, steps, i - 1);
      assert Next(states[i - 1], states[i], steps[i - 1]);
      OwnershipStep(states[i - 1], states[i], steps[i - 1]);
    }
  }

  /** Hence a ConfigSync that is gone has left no copy behind. */
  lemma DeletionLeavesNothing(states: seq<ClusterState>, steps: seq<Step>, i: nat, name: string, k: Key)
    requires Run(states, steps) && WellFormed(states[0]) && i < |states|
    requires forall j | 0 <= j < |steps| :: Faithful(states[j], states[j + 1], steps[j])
    requires forall c | c in states[0].objects :: !BothLabelled(states[0].objects[c])
    requires name !in states[i].configSyncs
    ensures k in states[i].objects ==> !MadeBy(states[i].objects[k], name)
  {
    Ownership(states, steps, i);
  }

  /** What one failure-free pass under the new spec accounts for again: it overwrites the copy, or still answers for it,
      or removes it from a namespace that is no longer a target. */
  ghost predicate Reclaimed(spec: Spec, nss: set<string>, s: Store, k: Key)
    requires k in s && Labelled(s[k])
  {
    || k in WriteSet(spec, nss, s)
    || (s[k].labels[SYNCED_FROM] == SourceNamespace(spec) && (k.ns in Targets(spec, nss) ==> Enabled(spec, k.kind)))
  }

  /** The spec answers for the copy as it is. */
  predicate Answers(spec: Spec, nss: set<string>, k: Key, from: string) {
    from == SourceNamespace(spec) && k.ns in Targets(spec, nss) && Enabled(spec, k.kind)
  }

  lemma ReclaimedExactly(name: string, former: Spec, spec: Spec, nss: set<string>, s: Store, k: Key)
    requires Housed(s, nss) && k in s && MadeBy(s[k], name) && Answers(former, nss, k, s[k].labels[SYNCED_FROM])
    ensures var v := SyncValue(name, spec, nss, s, k, Some(s[k]));
            && (v.Some? ==> MadeBy(v.value, name))
            && (Reclaimed(spec, nss, s, k) <==>
                  (v.Some? ==> Answers(spec, nss, k, v.value.labels[SYNCED_FROM])))
  {
  }

  /** An edit of a live ConfigSync that keeps the finalizer is made good by one failure-free pass if and only if every
      copy it made is reclaimed: always when the source namespace and the kinds stay. */
  lemma RetargetingHealsExactly(pre: ClusterState, mid: ClusterState, post: ClusterState, cs: ConfigSync)
    requires WellFormed(pre) && AllOwned(pre) && Next(pre, mid, ConfigSyncEdited(cs))
    requires FINALIZER in cs.finalizers && !pre.configSyncs[cs.name].deleting
    requires Next(mid, post, ConfigSyncPass(cs.name, true))
    ensures AllOwned(post) <==>
            forall k | k in pre.objects && MadeBy(pre.objects[k], cs.name) ::
              Reclaimed(cs.spec, pre.namespaces, pre.objects, k)
  {
    forall k | k in pre.objects && MadeBy(pre.objects[k], cs.name)
      ensures Reclaimed(cs.spec, pre.namespaces, pre.objects, k) <==>
              (k in post.objects && BothLabelled(post.objects[k]) ==>
                 HasOwner(post, k, post.objects[k].labels[SYNCED_FROM], post.objects[k].labels[SYNCED_BY]))
    {
      RetargetedAt(pre, mid, post, cs, k);
    }
    forall k | k in post.objects && BothLabelled(post.objects[k]) &&
               !(k in pre.objects && MadeBy(pre.objects[k], cs.name))
      ensures HasOwner(post, k, post.objects[k].labels[SYNCED_FROM], post.objects[k].labels[SYNCED_BY])
    {
      OthersStayOwned(pre, mid, post, cs, k);
    }
  }

  lemma RetargetedAt(pre: ClusterState, mid: ClusterState, post: ClusterState, cs: ConfigSync, k: Key)
    requires WellFormed(pre) && AllOwned(pre) && Next(pre, mid, ConfigSyncEdited(cs))
    requires FINALIZER in cs.finalizers && !pre.configSyncs[cs.name].deleting
    requires SyncStep(mid, post, cs.name, true) && k in pre.objects && MadeBy(pre.objects[k], cs.name)
    ensures Reclaimed(cs.spec, pre.namespaces, pre.objects, k) <==>
            (k in post.objects && BothLabelled(post.objects[k]) ==>
               HasOwner(post, k, post.objects[k].labels[SYNCED_FROM], post.objects[k].labels[SYNCED_BY]))
  {
    var former := pre.configSyncs[cs.name].spec;
    assert HasOwner(pre, k, pre.objects[k].labels[SYNCED_FROM], cs.name);
    ReclaimedExactly(cs.name, former, cs.spec, pre.namespaces, pre.objects, k);
    SyncedAt(cs.name, cs.spec, pre.namespaces, pre.objects, k);
    assert post.objects == Synced(cs.name, cs.spec, pre.namespaces, pre.objects);
  }

  lemma OthersStayOwned(pre: ClusterState, mid: ClusterState, post: ClusterState, cs: ConfigSync, k: Key)
    requires WellFormed(pre) && AllOwned(pre) && Next(pre, mid, ConfigSyncEdited(cs))
    requires FINALIZER in cs.finalizers && !pre.configSyncs[cs.name].deleting
    requires SyncStep(mid, post, cs.name, true) && !(k in pre.objects && MadeBy(pre.objects[k], cs.name))
    requires k in post.objects && BothLabelled(post.objects[k])
    ensures HasOwner(post, k, post.objects[k].labels[SYNCED_FROM], post.objects[k].labels[SYNCED_BY])
  {
    OperatorObjects(mid, post, ConfigSyncPass(cs.name, true), k);
    if k in pre.objects && post.objects[k] == pre.objects[k] {
      assert HasOwner(pre, k, post.objects[k].labels[SYNCED_FROM], post.objects[k].labels[SYNCED_BY]);
    }
  }

  /** After an edit that takes our finalizer away the next pass only takes it back: all copies are accounted for if and
      only if the new spec answers for each of them as it is. */
  lemma FinalizerTakenBackExactly(pre: ClusterState, mid: ClusterState, post: ClusterState, cs: ConfigSync)
    requires WellFormed(pre) && AllOwned(pre) && Next(pre, mid, ConfigSyncEdited(cs))
    requires FINALIZER !in cs.finalizers && !pre.configSyncs[cs.name].deleting
    requires Next(mid, post, ConfigSyncPass(cs.name, true))
    ensures AllOwned(post) <==>
            forall k | k in pre.objects && MadeBy(pre.objects[k], cs.name) ::
              Answers(cs.spec, pre.namespaces, k, pre.objects[k].labels[SYNCED_FROM])
  {
    assert post.objects == pre.objects && FINALIZER in post.configSyncs[cs.name].finalizers;
    forall k | k in pre.objects && BothLabelled(pre.objects[k])
      ensures HasOwner(pre, k, pre.objects[k].labels[SYNCED_FROM], pre.objects[k].labels[SYNCED_BY])
    {
    }
  }

  // ---- Deletion of a source ----

  predicate IsCopyOf(k: Key, o: Object, src: Key) {
    k.kind == src.kind && k.name == src.name && Labelled(o) && o.labels[SYNCED_FROM] == src.ns
  }

  /** The source is gone and so are all its copies. */
  ghost predicate Gone(st: ClusterState, src: Key) {
    && (src in st.objects ==> Labelled(st.objects[src]))
    && forall k | k in st.objects :: !IsCopyOf(k, st.objects[k], src)
  }

  /** Nobody creates the source anew or forges a copy of it. */
  ghost predicate Quiet(step: Step, src: Key) {
    step.UserWrite? ==> (step.key == src ==> Labelled(step.obj)) && !IsCopyOf(step.key, step.obj, src)
  }

  lemma GoneKept(pre: ClusterState, post: ClusterState, step: Step, src: Key)
    requires Next(pre, post, step) && Quiet(step, src) && Gone(pre, src)
    ensures Gone(post, src)
  {
    if IsOperator(step) {
      forall k | k in post.objects
        ensures !IsCopyOf(k, post.objects[k], src)
        ensures k == src ==> Labelled(post.objects[k])
      {
        OperatorObjects(pre, post, step, k);
      }
    }
  }

  /** Once a source and its copies are gone they stay gone, until somebody creates the source again. */
  lemma {:induction false} StaysGone(states: seq<ClusterState>, steps: seq<Step>, i: nat, src: Key)
    requires Run(states, steps) && i < |states| && Gone(states[0], src)
    requires forall j | 0 <= j < |steps| :: Quiet(steps[j], src)
    ensures Gone(states[i], src)
  {
    if i > 0 {
      StaysGone(states, steps, i - 1, src);
      assert Next(states[i - 1], states[i], steps[i - 1]);
      GoneKept(states[i - 1], states[i], steps[i - 1], src);
    }
  }

  /** The pass that follows a source's deletion removes all copies if and only if nothing has taken the source's
      place meanwhile, or there were no copies: a copy put there by another ConfigSync keeps the cascade away. */
  lemma CascadeClearsExactly(pre: ClusterState, post: ClusterState, src: Key, now: string)
    requires src in pre.objects ==> Labelled(pre.objects[src])
    requires ResourceStep(pre, post, src, now, true, false)
    ensures Gone(post, src) <==> src !in pre.objects || Gone(pre, src)
  {
    if src !in pre.objects {
      forall k
        ensures k in post.objects ==> k in pre.objects && !IsCopyOf(k, post.objects[k], src)
      {
        CascadedAt(src, pre.namespaces, pre.objects, k);
        assert k in post.objects <==> Lookup(Cascaded(src, pre.namespaces, pre.objects), k).Some?;
      }
    }
  }

  /** Before the pass: that it returns no error is no sign that the copies are gone, unless there were none. */
  lemma CascadeSafeExactly(pre: ClusterState, src: Key, now: string)
    requires src in pre.objects ==> Labelled(pre.objects[src])
    ensures (forall post, clean | ResourceStep(pre, post, src, now, clean, false) :: Gone(post, src)) <==>
            Gone(pre, src)
  {
    if src !in pre.objects && Gone(pre, src) {
      forall post, clean | ResourceStep(pre, post, src, now, clean, false)
        ensures Gone(post, src)
      {
        assert CopyKeys(src, pre.objects) == {};
        NothingDeleted(pre.namespaces, pre.objects, post.objects);
      }
    }
    assert ResourceStep(pre, pre, src, now, src in pre.objects, false);
  }

  // ---- Recovery, at the level of passes ----

  /** Whatever a failing pass left, the next failure-free pass ends with the objects a failure-free pass at once
      would have ended with, as long as the ConfigSync's finalizer is held. */
  lemma PassRecovers(pre: ClusterState, mid: ClusterState, post: ClusterState, alone: ClusterState,
                     name: string, clean: bool)
    requires WellFormed(pre) && name in pre.configSyncs && FINALIZER in pre.configSyncs[name].finalizers
    requires name in mid.configSyncs && FINALIZER in mid.configSyncs[name].finalizers
    requires ConfigSyncStep(pre, mid, name, clean) && ConfigSyncStep(mid, post, name, true)
    requires ConfigSyncStep(pre, alone, name, true)
    ensures post.objects == alone.objects
  {
    var cs := pre.configSyncs[name];
    assert NamedAndHeld(name, cs);
    if cs.deleting {
      assert mid.configSyncs == pre.configSyncs;
      FinalRecovers(name, cs.spec, pre.namespaces, pre.objects, mid.objects);
    } else {
      SyncRecovers(name, cs.spec, pre.namespaces, pre.objects, mid.objects);
    }
  }
}
