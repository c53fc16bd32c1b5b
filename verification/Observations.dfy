/** What one step of the operator does, told in the fields of the objects and ConfigSyncs before and after it. */
module Observations {
  import opened Objects
  import opened Selectors
  import opened ConfigSyncs
  import opened Plans
  import opened Passes
  import opened Clusters
  import opened Acts
  import opened Triggers
  import opened ConfigSyncSteps
  import opened ResourceController
  import opened NamespaceController
  import opened Webhook
  import opened PassTheorems
  import opened Runs

  // ---- Fields of a spec ----

  /** Read off the fields: listed, or any existing namespace if none are listed; neither the source, nor one of the
      three system namespaces, nor excluded. */
  predicate IsTarget(spec: Spec, nss: set<string>, ns: string) {
    && (ns in spec.targetNamespaces || (spec.targetNamespaces == [] && ns in nss))
    && ns != (if spec.sourceNamespace == "" then "default" else spec.sourceNamespace)
    && ns !in ["kube-system", "kube-public", "kube-node-lease"]
    && ns !in spec.excludedNamespaces
  }

  lemma TargetedExactly(spec: Spec, nss: set<string>, ns: string)
    ensures ns in Targets(spec, nss) <==> IsTarget(spec, nss, ns)
  {
  }

  /** Read off the fields: a kind is synced unless its own flag says no. */
  predicate IsSynced(spec: Spec, kind: Kind) {
    match kind
    case SecretKind => spec.syncSecrets != Some(false)
    case ConfigMapKind => spec.syncConfigMaps != Some(false)
  }

  lemma EnabledExactly(spec: Spec, kind: Kind)
    ensures Enabled(spec, kind) <==> IsSynced(spec, kind)
  {
  }

  // ---- Sync passes ----

  /** Carries both labels with these values. */
  predicate IsMarked(o: Object, from: string, owner: string) {
    && ("config.zyql.com/synced-from", from) in o.labels.Items
    && ("config.zyql.com/synced-by", owner) in o.labels.Items
  }

  /** Read off the fields: `left` is what a sync pass without failures is to leave at `k` in the store `s`. */
  predicate IsLeftBySync(name: string, spec: Spec, nss: set<string>, s: Store, k: Key, left: Option<Object>) {
    var from := if spec.sourceNamespace == "" then "default" else spec.sourceNamespace;
    var src := Key(k.kind, from, k.name);
    if IsTarget(spec, nss, k.ns) && IsSynced(spec, k.kind) && IsToBeCopied(spec, s, src) then
      if k in s && "config.zyql.com/synced-from" !in s[k].labels then left == Some(s[k])
      else if k.ns in nss then left.Some? && IsCopy(left.value, s[src], from, name)
      else left == None
    else if k in s && IsMarked(s[k], from, name) && k.ns != from && !IsTarget(spec, nss, k.ns) &&
            k.ns !in ["kube-system", "kube-public", "kube-node-lease"] then
      left == None
    else
      left == if k in s then Some(s[k]) else None
  }

  lemma SyncValueObserved(name: string, spec: Spec, nss: set<string>, s: Store, k: Key)
    ensures IsLeftBySync(name, spec, nss, s, k, SyncValue(name, spec, nss, s, k, Lookup(s, k)))
  {
    var from := SourceNamespace(spec);
    var src := Key(k.kind, from, k.name);
    TargetedExactly(spec, nss, k.ns);
    EnabledExactly(spec, k.kind);
    SelectedExactly(spec, s, src);
    if src in s {
      IsCopyExactly(Project(s[src], from, name), s[src], from, name);
    }
  }

  /** What a failure-free sync pass leaves at `k`. */
  lemma SyncObserved(pre: ClusterState, post: ClusterState, name: string, k: Key)
    requires WellFormed(pre) && name in pre.configSyncs && SyncStep(pre, post, name, true)
    ensures IsLeftBySync(name, pre.configSyncs[name].spec, pre.namespaces, pre.objects, k, Lookup(post.objects, k))
  {
    SyncedAt(name, pre.configSyncs[name].spec, pre.namespaces, pre.objects, k);
    SyncValueObserved(name, pre.configSyncs[name].spec, pre.namespaces, pre.objects, k);
  }

  function ToBeCopied(spec: Spec, s: Store, kind: Kind): set<Key> {
    set k | k in s && k.kind == kind && IsToBeCopied(spec, s, k)
  }

  function Reportable(spec: Spec, nss: set<string>, s: Store, kind: Kind, ns: string): nat {
    if IsSynced(spec, kind) && ns in nss then |ToBeCopied(spec, s, kind)| else 0
  }

  /** Read off the fields: what is reported for a target. */
  predicate IsReport(spec: Spec, nss: set<string>, s: Store, e: NamespaceStatus) {
    && IsTarget(spec, nss, e.ns)
    && e.secrets == Reportable(spec, nss, s, SecretKind, e.ns)
    && e.configMaps == Reportable(spec, nss, s, ConfigMapKind, e.ns)
    && (e.succeeded <==>
          && (spec.syncSecrets != Some(false) ==> Usable(spec.secretSelector))
          && (spec.syncConfigMaps != Some(false) ==> Usable(spec.configMapSelector)))
  }

  lemma CountObserved(spec: Spec, nss: set<string>, s: Store, kind: Kind, ns: string)
    ensures ExpectedCount(spec, nss, s, kind, ns) == Reportable(spec, nss, s, kind, ns)
  {
    forall k
      ensures Selected(spec, s, k) <==> IsToBeCopied(spec, s, k)
    {
      SelectedExactly(spec, s, k);
    }
    assert SourceKeys(spec, s, kind) == ToBeCopied(spec, s, kind);
    EnabledExactly(spec, kind);
  }

  lemma ReportObserved(spec: Spec, nss: set<string>, s: Store, ns: string)
    requires ns in Targets(spec, nss)
    ensures IsReport(spec, nss, s, ExpectedStatus(spec, nss, s, ns))
  {
    TargetedExactly(spec, nss, ns);
    CountObserved(spec, nss, s, SecretKind, ns);
    CountObserved(spec, nss, s, ConfigMapKind, ns);
    assert Enabled(spec, SecretKind) <==> spec.syncSecrets != Some(false);
    assert Enabled(spec, ConfigMapKind) <==> spec.syncConfigMaps != Some(false);
    assert SelectorFor(spec, SecretKind) == spec.secretSelector;
    assert SelectorFor(spec, ConfigMapKind) == spec.configMapSelector;
  }

  lemma {:induction false} EachOnce(list: seq<string>)
    requires |list| == |Elements(list)|
    ensures forall i, j | 0 <= i < j < |list| :: list[i] != list[j]
  {
    if list != [] {
      var rest := list[1..];
      assert Elements(list) == {list[0]} + Elements(rest);
      ElementsBound(rest);
      assert Elements(list) == if list[0] in Elements(rest) then Elements(rest) else {list[0]} + Elements(rest);
      EachOnce(rest);
      assert forall i | 0 < i < |list| :: list[i] == rest[i - 1] && list[i] in Elements(rest);
    }
  }

  function NamesOf(list: seq<NamespaceStatus>): seq<string> {
    seq(|list|, i requires 0 <= i < |list| => list[i].ns)
  }

  /** Listed targets come in their order and as often as they are listed, the cluster's namespaces once each. */
  ghost predicate IsOrdered(spec: Spec, names: seq<string>) {
    var from := if spec.sourceNamespace == "" then "default" else spec.sourceNamespace;
    if spec.targetNamespaces == [] then forall i, j | 0 <= i < j < |names| :: names[i] != names[j]
    else
      Filtered(spec.targetNamespaces, names,
               {from, "kube-system", "kube-public", "kube-node-lease"} + Elements(spec.excludedNamespaces))
  }

  lemma OrderObserved(spec: Spec, nss: set<string>, targets: seq<string>)
    requires IsTargetList(targets, spec, nss)
    ensures IsOrdered(spec, targets)
  {
    if spec.targetNamespaces == [] {
      EachOnce(targets);
    } else {
      WithoutFilters(spec.targetNamespaces, ExcludedSet(spec.excludedNamespaces, SourceNamespace(spec)));
    }
  }

  /** Read off the fields: the list reports what was found for every target, in their order, and nothing else. */
  ghost predicate IsFullReport(spec: Spec, nss: set<string>, s: Store, list: seq<NamespaceStatus>) {
    && IsOrdered(spec, NamesOf(list))
    && (forall i | 0 <= i < |list| :: IsReport(spec, nss, s, list[i]))
    && (forall ns :: IsTarget(spec, nss, ns) <==> ns in Namespaces(list))
  }

  lemma ReportsObserved(spec: Spec, nss: set<string>, s: Store, st: Status, targets: seq<string>)
    requires IsTargetList(targets, spec, nss) && Accounted(st, targets)
    requires forall i | 0 <= i < |targets| :: st.namespaces[i] == ExpectedStatus(spec, nss, s, targets[i])
    ensures IsFullReport(spec, nss, s, st.namespaces)
  {
    AccountedNamespaces(st, targets);
    assert NamesOf(st.namespaces) == targets;
    OrderObserved(spec, nss, targets);
    forall i | 0 <= i < |targets|
      ensures IsReport(spec, nss, s, st.namespaces[i])
    {
      assert targets[i] in Elements(targets);
      ReportObserved(spec, nss, s, targets[i]);
    }
    forall ns
      ensures IsTarget(spec, nss, ns) <==> ns in Namespaces(st.namespaces)
    {
      TargetedExactly(spec, nss, ns);
    }
  }

  /** A failure-free sync pass stores the full report. */
  lemma StatusObserved(pre: ClusterState, post: ClusterState, name: string)
    requires name in pre.configSyncs && SyncStep(pre, post, name, true)
    ensures IsFullReport(pre.configSyncs[name].spec, pre.namespaces, pre.objects,
                         post.configSyncs[name].status.namespaces)
  {
    var spec, st := pre.configSyncs[name].spec, post.configSyncs[name].status;
    var targets :| IsTargetList(targets, spec, pre.namespaces) && Accounted(st, targets) &&
      (forall i | 0 <= i < |targets| ::
         st.namespaces[i] == ExpectedStatus(spec, pre.namespaces, pre.objects, targets[i]));
    ReportsObserved(spec, pre.namespaces, pre.objects, st, targets);
  }

  // ---- Finalizers ----

  /** A pass that gives our finalizer up: the ConfigSync goes away if and only if nobody else's finalizer holds it;
      otherwise all the others' finalizers stay, as often and in the order they were, and nothing else changes. */
  lemma FinalizersObserved(pre: ClusterState, post: ClusterState, name: string, clean: bool)
    requires WellFormed(pre) && name in pre.configSyncs && pre.configSyncs[name].deleting
    requires "config.zyql.com/finalizer" in pre.configSyncs[name].finalizers
    requires FinalStep(pre, post, name, clean) && (clean || post.configSyncs != pre.configSyncs)
    ensures name in post.configSyncs <==>
            exists f | f in pre.configSyncs[name].finalizers :: f != "config.zyql.com/finalizer"
    ensures name in post.configSyncs ==>
            var cs0, cs := pre.configSyncs[name], post.configSyncs[name];
            && cs == cs0.(finalizers := cs.finalizers)
            && Filtered(cs0.finalizers, cs.finalizers, {"config.zyql.com/finalizer"})
            && forall f :: multiset(cs.finalizers)[f] ==
                           if f == "config.zyql.com/finalizer" then 0 else multiset(cs0.finalizers)[f]
    ensures forall n | n != name :: (n in post.configSyncs <==> n in pre.configSyncs) &&
                                    (n in post.configSyncs ==> post.configSyncs[n] == pre.configSyncs[n])
  {
    var cs := pre.configSyncs[name];
    assert NamedAndHeld(name, cs);
    WithoutFilters(cs.finalizers, {FINALIZER});
    forall f
      ensures multiset(Without(cs.finalizers, {FINALIZER}))[f] ==
              if f == FINALIZER then 0 else multiset(cs.finalizers)[f]
    {
      WithoutCounts(cs.finalizers, {FINALIZER}, f);
    }
    NobodyElse(cs.finalizers);
  }

  lemma NobodyElse(finalizers: seq<string>)
    ensures Without(finalizers, {FINALIZER}) == [] <==> forall f | f in finalizers :: f == FINALIZER
  {
    var others := Without(finalizers, {FINALIZER});
    if others != [] {
      assert others[0] in others;
    }
    if f :| f in finalizers && f != FINALIZER {
      assert f in others;
    }
  }

  /** A failure-free pass over a ConfigSync without our finalizer appends it and does nothing else. */
  lemma HoldObserved(pre: ClusterState, post: ClusterState, name: string)
    requires name in pre.configSyncs && HoldStep(pre, post, name, true)
    ensures post.objects == pre.objects && name in post.configSyncs
    ensures post.configSyncs[name] ==
            pre.configSyncs[name].(finalizers := pre.configSyncs[name].finalizers + ["config.zyql.com/finalizer"])
    ensures forall n | n != name :: (n in post.configSyncs <==> n in pre.configSyncs) &&
                                    (n in post.configSyncs ==> post.configSyncs[n] == pre.configSyncs[n])
  {
  }

  /** What belongs to the user or to other controllers in a ConfigSync. */
  ghost predicate SameForOthers(cs0: ConfigSync, cs: ConfigSync) {
    && cs.name == cs0.name && cs.spec == cs0.spec && cs.deleting == cs0.deleting
    && Without(cs.finalizers, {"config.zyql.com/finalizer"}) == Without(cs0.finalizers, {"config.zyql.com/finalizer"})
    && cs.annotations - {"config.zyql.com/last-trigger"} == cs0.annotations - {"config.zyql.com/last-trigger"}
  }

  /** No operator step, whatever fails in it, touches that, or lets go of a ConfigSync that somebody else's finalizer
      holds. */
  lemma StepKeepsForOthers(pre: ClusterState, post: ClusterState, step: Step, n: string)
    requires WellFormed(pre) && IsOperator(step) && Next(pre, post, step) && n in pre.configSyncs
    ensures n !in post.configSyncs ==> forall f | f in pre.configSyncs[n].finalizers :: f == "config.zyql.com/finalizer"
    ensures n in post.configSyncs ==> SameForOthers(pre.configSyncs[n], post.configSyncs[n])
  {
    match step
    case ConfigSyncPass(name, clean) =>
      PassKeepsForOthers(pre, post, name, clean, n);
    case ResourcePass(k, now, clean, failed) =>
      MarkKeeps(pre.configSyncs[n], Stamp(k, now));
    case NamespacePass(ns, now, clean) =>
      MarkKeeps(pre.configSyncs[n], NamespaceStamp(ns, now));
  }

  lemma PassKeepsForOthers(pre: ClusterState, post: ClusterState, name: string, clean: bool, n: string)
    requires WellFormed(pre) && ConfigSyncStep(pre, post, name, clean) && n in pre.configSyncs
    ensures n !in post.configSyncs ==> forall f | f in pre.configSyncs[n].finalizers :: f == "config.zyql.com/finalizer"
    ensures n in post.configSyncs ==> SameForOthers(pre.configSyncs[n], post.configSyncs[n])
  {
    var cs := pre.configSyncs[n];
    assert NamedAndHeld(n, cs);
    if n == name && cs.deleting {
      ReleaseKeeps(pre.configSyncs, n);
    } else if n == name && FINALIZER !in cs.finalizers {
      HoldKeeps(cs);
    }
  }

  lemma ReleaseKeeps(css: map<string, ConfigSync>, n: string)
    requires n in css && css[n].name == n
    ensures n !in Released(css, n) ==> forall f | f in css[n].finalizers :: f == FINALIZER
    ensures n in Released(css, n) ==> SameForOthers(css[n], Released(css, n)[n])
  {
    NobodyElse(css[n].finalizers);
    WithoutTwice(css[n].finalizers);
  }

  lemma HoldKeeps(cs: ConfigSync)
    ensures SameForOthers(cs, cs.(finalizers := cs.finalizers + [FINALIZER]))
  {
    WithoutConcat(cs.finalizers, [FINALIZER], {FINALIZER});
    assert Without([FINALIZER], {FINALIZER}) == [];
  }

  lemma MarkKeeps(cs: ConfigSync, stamp: string)
    ensures SameForOthers(cs, Mark(cs, stamp))
  {
  }

  lemma {:induction false} WithoutTwice(s: seq<string>)
    ensures Without(Without(s, {FINALIZER}), {FINALIZER}) == Without(s, {FINALIZER})
  {
    if s != [] {
      var first := if s[0] in {FINALIZER} then [] else [s[0]];
      WithoutTwice(s[1..]);
      WithoutConcat(first, Without(s[1..], {FINALIZER}), {FINALIZER});
    }
  }

  /** So over any run of the operator: what others put into a ConfigSync stays, and while one of their finalizers holds
      it, it stays itself. */
  lemma {:induction false} RunKeepsForOthers(states: seq<ClusterState>, steps: seq<Step>, i: nat, n: string, f: string)
    requires Run(states, steps) && WellFormed(states[0]) && i < |states|
    requires forall j | 0 <= j < |steps| :: IsOperator(steps[j])
    requires n in states[0].configSyncs && f in states[0].configSyncs[n].finalizers && f != "config.zyql.com/finalizer"
    ensures n in states[i].configSyncs && SameForOthers(states[0].configSyncs[n], states[i].configSyncs[n])
  {
    if i > 0 {
      RunKeepsForOthers(states, steps, i - 1, n, f);
      RunWellFormed(states, steps, i - 1);
      assert Next(states[i - 1], states[i], steps[i - 1]);
      StillHeld(states[0].configSyncs[n], states[i - 1].configSyncs[n], f);
      StepKeepsForOthers(states[i - 1], states[i], steps[i - 1], n);
    }
  }

  lemma StillHeld(cs0: ConfigSync, cs: ConfigSync, f: string)
    requires SameForOthers(cs0, cs) && f in cs0.finalizers && f != FINALIZER
    ensures f in cs.finalizers
  {
    assert f in Without(cs0.finalizers, {FINALIZER});
  }

  // ---- Finalization and cascade ----

  /** What a failure-free finalizing pass leaves at `k`. */
  lemma FinalObserved(pre: ClusterState, post: ClusterState, name: string, k: Key)
    requires name in pre.configSyncs && FinalStep(pre, post, name, true)
    ensures var spec := pre.configSyncs[name].spec;
            var from := if spec.sourceNamespace == "" then "default" else spec.sourceNamespace;
            Lookup(post.objects, k) ==
            if k in pre.objects && IsMarked(pre.objects[k], from, name) &&
               IsTarget(spec, pre.namespaces, k.ns) && IsSynced(spec, k.kind)
            then None else Lookup(pre.objects, k)
  {
    var spec := pre.configSyncs[name].spec;
    FinalizedAt(name, spec, pre.namespaces, pre.objects, k);
    TargetedExactly(spec, pre.namespaces, k.ns);
    EnabledExactly(spec, k.kind);
  }

  /** What a failure-free pass for an empty key leaves at `k`. */
  lemma CascadeObserved(pre: ClusterState, post: ClusterState, src: Key, now: string, k: Key)
    requires src !in pre.objects && ResourceStep(pre, post, src, now, true, false)
    ensures Lookup(post.objects, k) ==
            if k in pre.objects && k.kind == src.kind && k.name == src.name &&
               ("config.zyql.com/synced-from", src.ns) in pre.objects[k].labels.Items
            then None else Lookup(pre.objects, k)
    ensures post.configSyncs == pre.configSyncs
  {
    CascadedAt(src, pre.namespaces, pre.objects, k);
  }

  // ---- Triggers ----

  /** Read off the fields: an object the trigger takes to be of interest to a spec. */
  predicate IsWatched(spec: Spec, k: Key, o: Object) {
    && k.ns == (if spec.sourceNamespace == "" then "default" else spec.sourceNamespace)
    && "config.zyql.com/synced-from" !in o.labels
    && !(o.content.SecretContent? && o.content.typ == "kubernetes.io/service-account-token")
    && match k.kind
       case SecretKind => LooselySelects(spec.secretSelector, o.labels)
       case ConfigMapKind => LooselySelects(spec.configMapSelector, o.labels)
  }

  /** A selector without matchLabels is not consulted. */
  predicate LooselySelects(sel: Option<LabelSelector>, labels: map<string, string>) {
    sel.None? || sel.value.matchLabels == map[] || Selects(sel, labels)
  }

  lemma WatchedExactly(spec: Spec, k: Key, o: Object)
    ensures !Labelled(o) && Watches(spec, k, o) <==> IsWatched(spec, k, o)
  {
    var sel := SelectorFor(spec, k.kind);
    if sel.Some? {
      assert |sel.value.matchLabels| == 0 <==> sel.value.matchLabels == map[];
    }
  }

  /** After a failure-free pass for a stored object exactly the ConfigSyncs that watch it carry a new mark, and nothing
      else has changed. */
  lemma TriggerObserved(pre: ClusterState, post: ClusterState, k: Key, now: string, n: string)
    requires k in pre.objects && ResourceStep(pre, post, k, now, true, false) && n in pre.configSyncs
    ensures post.objects == pre.objects && n in post.configSyncs
    ensures var cs := pre.configSyncs[n];
            var stamp := (match k.kind case SecretKind => "secret-" case ConfigMapKind => "configmap-")
                         + k.name + "-" + now;
            post.configSyncs[n] ==
            if IsWatched(cs.spec, k, pre.objects[k])
            then cs.(annotations := cs.annotations["config.zyql.com/last-trigger" := stamp]) else cs
  {
    WatchedExactly(pre.configSyncs[n].spec, k, pre.objects[k]);
  }

  /** After a failure-free pass for a namespace exactly the ConfigSyncs that list it and do not exclude it carry a new
      mark, if it exists and is no system namespace. */
  lemma NamespaceObserved(pre: ClusterState, post: ClusterState, ns: string, now: string, n: string)
    requires NamespaceStep(pre, post, ns, now, true) && n in pre.configSyncs
    ensures post.objects == pre.objects && n in post.configSyncs
    ensures var cs, stamp := pre.configSyncs[n], "namespace-created-" + ns + "-" + now;
            post.configSyncs[n] ==
            if && ns in pre.namespaces && ns !in ["kube-system", "kube-public", "kube-node-lease"]
               && ns in cs.spec.targetNamespaces && ns !in cs.spec.excludedNamespaces
            then cs.(annotations := cs.annotations["config.zyql.com/last-trigger" := stamp])
            else cs
  {
  }

  /** Which events on objects are worked on; updates are the matter of UpdatesReachExactly. */
  lemma AcceptedExactly(css: map<string, ConfigSync>, k: Key, o: Object)
    ensures Accepts(Created(k, o), css) <==> exists n | n in css :: IsWatched(css[n].spec, k, o)
    ensures Accepts(Deleted(k, o), css) <==>
            && "config.zyql.com/synced-from" !in o.labels
            && !(o.content.SecretContent? && o.content.typ == "kubernetes.io/service-account-token")
  {
    forall n | n in css
      ensures !Labelled(o) && n in Watchers(css, k, o) <==> IsWatched(css[n].spec, k, o)
    {
      WatchedExactly(css[n].spec, k, o);
    }
    if n :| n in css && IsWatched(css[n].spec, k, o) {
      assert n in Watchers(css, k, o);
    }
  }

  lemma NamespaceAcceptedExactly(created: bool, ns: string)
    ensures AcceptsNamespace(created, ns) <==> created && ns !in ["kube-system", "kube-public", "kube-node-lease"]
  {
  }

  // ---- Admission ----

  /** Carries both labels. */
  predicate IsProtected(o: Object) {
    "config.zyql.com/synced-from" in o.labels && "config.zyql.com/synced-by" in o.labels
  }

  /** The operator and cluster administrators may do anything, and anybody may create; others may not change objects
      into copies or delete copies, and get an error for what cannot be decoded. */
  lemma HandledExactly(username: string, groups: seq<string>, op: Operation, o: Option<Object>, before: Option<Object>)
    ensures var response := Handle(Request(User(username, groups), op, o, before));
            var judged := if op == DELETE then before else o;
            if || username == "system:serviceaccount:config-sync-system:config-sync-operator"
               || "system:masters" in groups || op == CREATE
            then response == Allowed
            else response == if judged.None? then Errored else if IsProtected(judged.value) then Denied else Allowed
  {
  }

  /** Every update and deletion by the operator is admitted for its own account. */
  lemma OperatorIsAdmitted(pre: ClusterState, post: ClusterState, step: Step, i: nat)
    requires IsOperator(step) && Next(pre, post, step) && |pre.events| <= i < |post.events|
    ensures var operator := User("system:serviceaccount:config-sync-system:config-sync-operator", []);
            match post.events[i]
            case Updated(_, before, o) => Handle(Request(operator, UPDATE, Some(o), Some(before))) == Allowed
            case Deleted(_, o) => Handle(Request(operator, DELETE, None, Some(o))) == Allowed
            case _ => true
  {
  }

  // ---- Coming back ----

  /** When a pass without errors asks to be run again. */
  lemma ComesBackExactly(css: map<string, ConfigSync>, name: string)
    ensures NextRun(css, name) == Done <==> name in css ==> css[name].deleting
    ensures NextRun(css, name) == RequeueAfterInterval <==>
            name in css && !css[name].deleting && "config.zyql.com/finalizer" in css[name].finalizers
    ensures NextRun(css, name) == Requeue <==>
            name in css && !css[name].deleting && "config.zyql.com/finalizer" !in css[name].finalizers
  {
  }
}
