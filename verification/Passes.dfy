/** What each reconcile pass is to do to the object store, as a plan computed from the store the pass finds. */
module Passes {
  import opened Objects
  import opened Selectors
  import opened ConfigSyncs
  import opened Plans

  function SourceOf(k: Key, from: string): Key {
    Key(k.kind, from, k.name)
  }

  /** Copies are never copied again, and service account tokens are never copied. */
  predicate IsSource(o: Object) {
    !Labelled(o) && !IsServiceAccountToken(o)
  }

  predicate Selected(spec: Spec, s: Store, src: Key) {
    && src in s
    && src.ns == SourceNamespace(spec)
    && IsSource(s[src])
    && Selects(SelectorFor(spec, src.kind), s[src].labels)
  }

  /** What a spec copies, read off its fields: the users' Secrets in the source namespace that are no service account
      tokens and that secretSelector selects, and the ConfigMaps that configMapSelector selects. */
  predicate IsToBeCopied(spec: Spec, s: Store, k: Key) {
    && k in s
    && k.ns == (if spec.sourceNamespace == "" then "default" else spec.sourceNamespace)
    && "config.zyql.com/synced-from" !in s[k].labels
    && !(s[k].content.SecretContent? && s[k].content.typ == "kubernetes.io/service-account-token")
    && match k.kind
       case SecretKind => Selects(spec.secretSelector, s[k].labels)
       case ConfigMapKind => Selects(spec.configMapSelector, s[k].labels)
  }

  lemma SelectedExactly(spec: Spec, s: Store, k: Key)
    ensures Selected(spec, s, k) <==> IsToBeCopied(spec, s, k)
  {
  }

  function SourceKeys(spec: Spec, s: Store, kind: Kind): set<Key> {
    set src | src in s && src.kind == kind && Selected(spec, s, src)
  }

  lemma SourceKeysByUnlabelled(spec: Spec, s: Store, t: Store, kind: Kind)
    requires Unlabelled(s) == Unlabelled(t)
    ensures SourceKeys(spec, s, kind) == SourceKeys(spec, t, kind)
  {
    forall src
      ensures src in SourceKeys(spec, s, kind) <==> src in SourceKeys(spec, t, kind)
    {
      SelectedByUnlabelled(spec, s, t, src);
    }
  }

  function OfKind(keys: set<Key>, kind: Kind): set<Key> {
    set k | k in keys && k.kind == kind
  }

  /** What a failure-free pass reports for one target. */
  function ExpectedStatus(spec: Spec, nss: set<string>, s: Store, ns: string): NamespaceStatus {
    NamespaceStatus(
      ns,
      ExpectedCount(spec, nss, s, SecretKind, ns),
      ExpectedCount(spec, nss, s, ConfigMapKind, ns),
      (forall kind | Enabled(spec, kind) :: Usable(SelectorFor(spec, kind))))
  }

  function ExpectedCount(spec: Spec, nss: set<string>, s: Store, kind: Kind, ns: string): nat {
    if Enabled(spec, kind) && ns in nss then |SourceKeys(spec, s, kind)| else 0
  }

  ghost predicate AreWriteKeys(keys: set<Key>, spec: Spec, targets: set<string>, s: Store) {
    forall k :: k in keys <==>
      k.ns in targets && Enabled(spec, k.kind) && Selected(spec, s, SourceOf(k, SourceNamespace(spec)))
  }

  lemma WriteKeysExist(spec: Spec, targets: set<string>, s: Store)
    ensures exists keys :: AreWriteKeys(keys, spec, targets, s)
  {
    var keys := set t, src | t in targets && src in s && Enabled(spec, src.kind) && Selected(spec, s, src) ::
      Key(src.kind, t, src.name);
    forall k
      ensures k in keys <==>
        k.ns in targets && Enabled(spec, k.kind) && Selected(spec, s, SourceOf(k, SourceNamespace(spec)))
    {
      var src := SourceOf(k, SourceNamespace(spec));
      assert k == Key(src.kind, k.ns, src.name);
    }
    assert AreWriteKeys(keys, spec, targets, s);
  }

  /** The keys a pass over the namespaces `targets` writes: enabled kinds, every target, every selected source. */
  ghost function WriteKeys(spec: Spec, targets: set<string>, s: Store): (keys: set<Key>)
    ensures AreWriteKeys(keys, spec, targets, s)
  {
    WriteKeysExist(spec, targets, s);
    var keys :| AreWriteKeys(keys, spec, targets, s);
    keys
  }

  ghost predicate HaveSources(keys: set<Key>, from: string, s: Store) {
    forall k | k in keys :: SourceOf(k, from) in s
  }

  function Writes(keys: set<Key>, from: string, owner: string, s: Store): Plan
    requires HaveSources(keys, from, s)
  {
    map k | k in keys :: Some(Project(s[SourceOf(k, from)], from, owner))
  }

  function Deletions(keys: set<Key>): Plan {
    map k | k in keys :: None
  }

  predicate IsStaleNamespace(spec: Spec, targets: set<string>, ns: string) {
    ns != SourceNamespace(spec) && !IsSystem(ns) && ns !in targets
  }

  /** Copies this ConfigSync made in namespaces that are no longer targets. */
  function StaleKeys(name: string, spec: Spec, targets: set<string>, s: Store): set<Key> {
    set k | k in s && OwnedBy(s[k], SourceNamespace(spec), name) && IsStaleNamespace(spec, targets, k.ns)
  }

  ghost function SyncPlan(name: string, spec: Spec, nss: set<string>, s: Store): (p: Plan)
    ensures ValidPlan(p)
  {
    var targets := Targets(spec, nss);
    Deletions(StaleKeys(name, spec, targets, s)) +
    Writes(WriteKeys(spec, targets, s), SourceNamespace(spec), name, s)
  }

  /** Copies of the enabled kinds this ConfigSync made in its current targets. */
  function FinalKeys(name: string, spec: Spec, targets: set<string>, s: Store): set<Key> {
    set k | k in s && OwnedBy(s[k], SourceNamespace(spec), name) && k.ns in targets && Enabled(spec, k.kind)
  }

  function FinalPlan(name: string, spec: Spec, nss: set<string>, s: Store): (p: Plan)
    ensures ValidPlan(p)
  {
    Deletions(FinalKeys(name, spec, Targets(spec, nss), s))
  }

  /** The copies of the source at `src`, whoever made them. */
  function CopyKeys(src: Key, s: Store): set<Key> {
    set k | k in s && k.kind == src.kind && k.name == src.name && Labelled(s[k]) && s[k].labels[SYNCED_FROM] == src.ns
  }

  function CascadePlan(src: Key, s: Store): (p: Plan)
    ensures ValidPlan(p)
  {
    Deletions(CopyKeys(src, s))
  }

  ghost function Synced(name: string, spec: Spec, nss: set<string>, s: Store): Store {
    Apply(SyncPlan(name, spec, nss, s), nss, s)
  }

  function Finalized(name: string, spec: Spec, nss: set<string>, s: Store): Store {
    Apply(FinalPlan(name, spec, nss, s), nss, s)
  }

  function Cascaded(src: Key, nss: set<string>, s: Store): Store {
    Apply(CascadePlan(src, s), nss, s)
  }

  // ---- What a pass does, key by key ----

  /** What a sync pass makes of one key, given what the key holds.  Only the users' objects in `s` matter. */
  function SyncValue(name: string, spec: Spec, nss: set<string>, s: Store, k: Key, held: Option<Object>)
    : Option<Object>
  {
    var from, targets := SourceNamespace(spec), Targets(spec, nss);
    var src := SourceOf(k, from);
    if k.ns in targets && Enabled(spec, k.kind) && Selected(spec, s, src) then
      if held.Some? && !Labelled(held.value) then held
      else if k.ns in nss then Some(Project(s[src], from, name))
      else None
    else if held.Some? && OwnedBy(held.value, from, name) && k.ns != from && !IsSystem(k.ns) && k.ns !in targets then
      None
    else
      held
  }

  lemma SyncPlanAt(name: string, spec: Spec, nss: set<string>, s: Store, k: Key)
    ensures var from, targets, p := SourceNamespace(spec), Targets(spec, nss), SyncPlan(name, spec, nss, s);
            if k.ns in targets && Enabled(spec, k.kind) && Selected(spec, s, SourceOf(k, from)) then
              k in p && p[k] == Some(Project(s[SourceOf(k, from)], from, name))
            else if k in s && OwnedBy(s[k], from, name) && k.ns != from && !IsSystem(k.ns) && k.ns !in targets then
              k in p && p[k] == None
            else
              k !in p
  {
  }

  /** A failure-free sync pass changes the store exactly as the per-key function says. */
  lemma SyncedAt(name: string, spec: Spec, nss: set<string>, s: Store, k: Key)
    requires Housed(s, nss)
    ensures Lookup(Synced(name, spec, nss, s), k) == SyncValue(name, spec, nss, s, k, Lookup(s, k))
  {
    SyncPlanAt(name, spec, nss, s, k);
    assert Lookup(Synced(name, spec, nss, s), k) == EffectAt(SyncPlan(name, spec, nss, s), nss, s, k);
    assert k in s ==> k.ns in nss;
  }

  /** A failure-free finalizing pass removes precisely the owned objects of enabled kinds in current targets. */
  lemma FinalizedAt(name: string, spec: Spec, nss: set<string>, s: Store, k: Key)
    ensures Lookup(Finalized(name, spec, nss, s), k) ==
              if k in s && OwnedBy(s[k], SourceNamespace(spec), name) &&
                 k.ns in Targets(spec, nss) && Enabled(spec, k.kind)
              then None else Lookup(s, k)
  {
    assert Lookup(Finalized(name, spec, nss, s), k) == EffectAt(FinalPlan(name, spec, nss, s), nss, s, k);
  }

  /** A failure-free cascade removes precisely the same-named copies of that kind made from that namespace. */
  lemma CascadedAt(src: Key, nss: set<string>, s: Store, k: Key)
    ensures Lookup(Cascaded(src, nss, s), k) ==
              if k in s && k.kind == src.kind && k.name == src.name && SYNCED_FROM in s[k].labels &&
                 s[k].labels[SYNCED_FROM] == src.ns
              then None else Lookup(s, k)
  {
    assert Lookup(Cascaded(src, nss, s), k) == EffectAt(CascadePlan(src, s), nss, s, k);
  }

  // ---- Sources do not move ----

  lemma SelectedByUnlabelled(spec: Spec, s: Store, t: Store, src: Key)
    requires Unlabelled(s) == Unlabelled(t)
    ensures Selected(spec, s, src) == Selected(spec, t, src)
    ensures Selected(spec, s, src) ==> s[src] == t[src]
  {
    assert src in Unlabelled(s) <==> src in s && !Labelled(s[src]);
    assert src in Unlabelled(t) <==> src in t && !Labelled(t[src]);
  }

  lemma WriteKeysByUnlabelled(spec: Spec, targets: set<string>, s: Store, t: Store)
    requires Unlabelled(s) == Unlabelled(t)
    ensures WriteKeys(spec, targets, s) == WriteKeys(spec, targets, t)
    ensures SameSources(WriteKeys(spec, targets, s), SourceNamespace(spec), s, t)
  {
    forall k
      ensures k in WriteKeys(spec, targets, s) <==> k in WriteKeys(spec, targets, t)
      ensures k in WriteKeys(spec, targets, s) ==>
        s[SourceOf(k, SourceNamespace(spec))] == t[SourceOf(k, SourceNamespace(spec))]
    {
      SelectedByUnlabelled(spec, s, t, SourceOf(k, SourceNamespace(spec)));
    }
  }

  ghost predicate SameSources(keys: set<Key>, from: string, s: Store, t: Store) {
    forall k | k in keys ::
      SourceOf(k, from) in s && SourceOf(k, from) in t && s[SourceOf(k, from)] == t[SourceOf(k, from)]
  }

  lemma SameWrites(keys: set<Key>, from: string, owner: string, s: Store, t: Store)
    requires SameSources(keys, from, s, t)
    ensures HaveSources(keys, from, s) && HaveSources(keys, from, t)
    ensures Writes(keys, from, owner, s) == Writes(keys, from, owner, t)
  {
  }

  /** What a pass writes depends on the users' objects only. */
  lemma WritesByUnlabelled(name: string, spec: Spec, targets: set<string>, s: Store, t: Store)
    requires Unlabelled(s) == Unlabelled(t)
    ensures WriteKeys(spec, targets, s) == WriteKeys(spec, targets, t)
    ensures Writes(WriteKeys(spec, targets, s), SourceNamespace(spec), name, s) ==
            Writes(WriteKeys(spec, targets, t), SourceNamespace(spec), name, t)
  {
    WriteKeysByUnlabelled(spec, targets, s, t);
    SameWrites(WriteKeys(spec, targets, s), SourceNamespace(spec), name, s, t);
  }

  // ---- What a status may count ----

  /** Nothing is left to be done at `k`: it holds the copy, or a user's object stands in the way. */
  ghost predicate InEffect(s: Store, k: Key, copy: Object) {
    k in s && (Labelled(s[k]) ==> s[k] == copy)
  }

  /** The keys of one kind a pass writes in `targets` at which nothing is left to be done. */
  ghost function InPlace(name: string, spec: Spec, targets: set<string>, kind: Kind, s: Store): set<Key> {
    var from := SourceNamespace(spec);
    set k | k in OfKind(WriteKeys(spec, targets, s), kind) && InEffect(s, k, Project(s[SourceOf(k, from)], from, name))
  }

  /** No more is counted for the namespace than is in place there. */
  ghost predicate BackedAt(name: string, spec: Spec, s: Store, st: NamespaceStatus) {
    && st.secrets <= |InPlace(name, spec, {st.ns}, SecretKind, s)|
    && st.configMaps <= |InPlace(name, spec, {st.ns}, ConfigMapKind, s)|
  }

  ghost predicate Backed(name: string, spec: Spec, s: Store, list: seq<NamespaceStatus>) {
    forall i | 0 <= i < |list| :: BackedAt(name, spec, s, list[i])
  }

  lemma SubsetSize<T>(a: set<T>, b: set<T>)
    requires a <= b
    ensures |a| <= |b|
  {
    assert b == a + (b - a);
  }

  /** What is in place stays in place while the same ConfigSync goes on writing. */
  lemma InPlaceKept(name: string, spec: Spec, ns: string, kind: Kind, keys: set<Key>, nss: set<string>,
                    base: Store, s0: Store, s1: Store)
    requires HaveSources(keys, SourceNamespace(spec), base) && Unlabelled(base) == Unlabelled(s0) == Unlabelled(s1)
    requires forall k | k in keys :: !Labelled(base[SourceOf(k, SourceNamespace(spec))])
    requires Partial(Writes(keys, SourceNamespace(spec), name, base), nss, s0, s1)
    ensures InPlace(name, spec, {ns}, kind, s0) <= InPlace(name, spec, {ns}, kind, s1)
  {
    var from, p := SourceNamespace(spec), Writes(keys, SourceNamespace(spec), name, base);
    WriteKeysByUnlabelled(spec, {ns}, s0, s1);
    WriteKeysByUnlabelled(spec, {ns}, s0, base);
    forall k | k in InPlace(name, spec, {ns}, kind, s0)
      ensures k in InPlace(name, spec, {ns}, kind, s1)
    {
      assert Lookup(s1, k) == Lookup(s0, k) || Lookup(s1, k) == EffectAt(p, nss, s0, k);
      assert base[SourceOf(k, from)] == s0[SourceOf(k, from)];
    }
  }

  // ---- Recovery ----

  lemma SyncValueBySource(name: string, spec: Spec, nss: set<string>, s: Store, t: Store, k: Key, held: Option<Object>)
    requires var src := SourceOf(k, SourceNamespace(spec));
             Selected(spec, t, src) == Selected(spec, s, src) && (Selected(spec, s, src) ==> t[src] == s[src])
    ensures SyncValue(name, spec, nss, t, k, held) == SyncValue(name, spec, nss, s, k, held)
  {
  }

  lemma SyncValueSettles(name: string, spec: Spec, nss: set<string>, s: Store, k: Key, held: Option<Object>)
    ensures var v := SyncValue(name, spec, nss, s, k, held);
            SyncValue(name, spec, nss, s, k, v) == v
  {
  }

  lemma SyncRecoversAt(name: string, spec: Spec, nss: set<string>, s0: Store, s1: Store, k: Key)
    requires Housed(s0, nss) && Housed(s1, nss) && Unlabelled(s1) == Unlabelled(s0)
    requires Lookup(s1, k) == Lookup(s0, k) || Lookup(s1, k) == Lookup(Synced(name, spec, nss, s0), k)
    ensures Lookup(Synced(name, spec, nss, s1), k) == Lookup(Synced(name, spec, nss, s0), k)
  {
    SyncedAt(name, spec, nss, s0, k);
    SyncedAt(name, spec, nss, s1, k);
    SelectedByUnlabelled(spec, s0, s1, SourceOf(k, SourceNamespace(spec)));
    SyncValueBySource(name, spec, nss, s0, s1, k, Lookup(s1, k));
    SyncValueSettles(name, spec, nss, s0, k, Lookup(s0, k));
  }

  /** A sync pass of which any part was carried out, followed by a failure-free pass, leaves the same store as
      the failure-free pass alone. */
  lemma SyncRecovers(name: string, spec: Spec, nss: set<string>, s0: Store, s1: Store)
    requires Housed(s0, nss) && Partial(SyncPlan(name, spec, nss, s0), nss, s0, s1)
    ensures Synced(name, spec, nss, s1) == Synced(name, spec, nss, s0)
  {
    UnlabelledKept(SyncPlan(name, spec, nss, s0), nss, s0, s1);
    HousedKept(SyncPlan(name, spec, nss, s0), nss, s0, s1);
    forall k
      ensures Lookup(Synced(name, spec, nss, s1), k) == Lookup(Synced(name, spec, nss, s0), k)
    {
      SyncRecoversAt(name, spec, nss, s0, s1, k);
    }
    SameStore(Synced(name, spec, nss, s1), Synced(name, spec, nss, s0));
  }

  lemma SyncIsIdempotent(name: string, spec: Spec, nss: set<string>, s: Store)
    requires Housed(s, nss)
    ensures Synced(name, spec, nss, Synced(name, spec, nss, s)) == Synced(name, spec, nss, s)
  {
    SyncRecovers(name, spec, nss, s, Synced(name, spec, nss, s));
  }

  lemma FinalRecovers(name: string, spec: Spec, nss: set<string>, s0: Store, s1: Store)
    requires Partial(FinalPlan(name, spec, nss, s0), nss, s0, s1)
    ensures Finalized(name, spec, nss, s1) == Finalized(name, spec, nss, s0)
  {
    forall k
      ensures Lookup(Finalized(name, spec, nss, s1), k) == Lookup(Finalized(name, spec, nss, s0), k)
    {
      FinalizedAt(name, spec, nss, s1, k);
      FinalizedAt(name, spec, nss, s0, k);
      assert Lookup(s1, k) == Lookup(s0, k) || Lookup(s1, k) == EffectAt(FinalPlan(name, spec, nss, s0), nss, s0, k);
    }
    SameStore(Finalized(name, spec, nss, s1), Finalized(name, spec, nss, s0));
  }
}
