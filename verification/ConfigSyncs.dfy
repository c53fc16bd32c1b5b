/** The ConfigSync resource, the namespaces it targets and the kinds it syncs. */
module ConfigSyncs {
  import opened Objects
  import opened Selectors

  const FINALIZER := "config.zyql.com/finalizer"
  const LAST_TRIGGER := "config.zyql.com/last-trigger"
  const DEFAULT_SOURCE := "default"
  const OPERATOR_NAMESPACE := "config-sync-system"

  datatype Spec = Spec(
    sourceNamespace: string,
    targetNamespaces: seq<string>,
    excludedNamespaces: seq<string>,
    syncSecrets: Option<bool>,
    syncConfigMaps: Option<bool>,
    secretSelector: Option<LabelSelector>,
    configMapSelector: Option<LabelSelector>)

  datatype NamespaceStatus = NamespaceStatus(ns: string, secrets: nat, configMaps: nat, succeeded: bool)

  datatype Status = Status(secrets: nat, configMaps: nat, namespaces: seq<NamespaceStatus>, ready: bool)

  datatype ConfigSync = ConfigSync(
    name: string,
    spec: Spec,
    finalizers: seq<string>,
    deleting: bool,
    annotations: map<string, string>,
    status: Status)

  function SourceNamespace(spec: Spec): string {
    if spec.sourceNamespace == "" then DEFAULT_SOURCE else spec.sourceNamespace
  }

  function EnabledFlag(flag: Option<bool>): bool {
    flag.Some? ==> flag.value
  }

  predicate Enabled(spec: Spec, kind: Kind) {
    EnabledFlag(if kind.SecretKind? then spec.syncSecrets else spec.syncConfigMaps)
  }

  function SelectorFor(spec: Spec, kind: Kind): Option<LabelSelector> {
    if kind.SecretKind? then spec.secretSelector else spec.configMapSelector
  }

  predicate IsSystem(ns: string) {
    ns == "kube-system" || ns == "kube-public" || ns == "kube-node-lease"
  }

  function Elements<T(==)>(s: seq<T>): set<T> {
    set x | x in s
  }

  predicate Excluded(spec: Spec, ns: string) {
    ns == SourceNamespace(spec) || IsSystem(ns) || ns in spec.excludedNamespaces
  }

  /** The namespaces a pass writes to, when the cluster's namespaces are `nss`. */
  function Targets(spec: Spec, nss: set<string>): (ts: set<string>)
    ensures SourceNamespace(spec) !in ts
  {
    if spec.targetNamespaces != []
    then set ns | ns in spec.targetNamespaces && !Excluded(spec, ns)
    else set ns | ns in nss && !Excluded(spec, ns)
  }

  function ExcludedSet(excluded: seq<string>, sourceNS: string): set<string> {
    {sourceNS, "kube-system", "kube-public", "kube-node-lease"} + Elements(excluded)
  }

  /** The namespaces in the order in which a pass visits them: the explicit list keeps its order and its
      repetitions, the cluster's own namespaces come once each, in any order. */
  ghost predicate IsTargetList(ts: seq<string>, spec: Spec, nss: set<string>) {
    && Elements(ts) == Targets(spec, nss)
    && (spec.targetNamespaces != [] ==>
          ts == Without(spec.targetNamespaces, ExcludedSet(spec.excludedNamespaces, SourceNamespace(spec))))
    && (spec.targetNamespaces == [] ==> |ts| == |Targets(spec, nss)|)
  }

  /** `s` without the members of `dropped`; the order and repetitions of the others are kept. */
  function Without(s: seq<string>, dropped: set<string>): (r: seq<string>)
    ensures forall x :: x in r <==> x in s && x !in dropped
  {
    if s == [] then []
    else (if s[0] in dropped then [] else [s[0]]) + Without(s[1..], dropped)
  }

  lemma {:induction false} WithoutConcat(s: seq<string>, t: seq<string>, dropped: set<string>)
    ensures Without(s + t, dropped) == Without(s, dropped) + Without(t, dropped)
  {
    if s == [] {
      assert s + t == t;
    } else {
      assert (s + t)[1..] == s[1..] + t;
      WithoutConcat(s[1..], t, dropped);
    }
  }

  /** The step of a filtering loop. */
  lemma WithoutNext(s: seq<string>, i: nat, dropped: set<string>)
    requires i < |s|
    ensures Without(s[..i + 1], dropped) == Without(s[..i], dropped) + (if s[i] in dropped then [] else [s[i]])
  {
    assert s[..i + 1] == s[..i] + [s[i]];
    WithoutConcat(s[..i], [s[i]], dropped);
  }

  /** `t` consists of the elements of `s` that are not dropped, at increasing positions `at` of `s`. */
  ghost predicate KeptAt(s: seq<string>, t: seq<string>, dropped: set<string>, at: seq<nat>) {
    && |at| == |t|
    && (forall i, j | 0 <= i < j < |at| :: at[i] < at[j])
    && (forall j | 0 <= j < |at| :: at[j] < |s| && t[j] == s[at[j]])
    && (forall i | 0 <= i < |s| :: i in at <==> s[i] !in dropped)
  }

  ghost predicate Filtered(s: seq<string>, t: seq<string>, dropped: set<string>) {
    exists at :: KeptAt(s, t, dropped, at)
  }

  /** Filtering keeps what is not dropped, each as often as it occurs and in the original order. */
  lemma {:induction false} WithoutFilters(s: seq<string>, dropped: set<string>)
    ensures Filtered(s, Without(s, dropped), dropped)
  {
    if s == [] {
      assert KeptAt(s, [], dropped, []);
    } else {
      var n := |s| - 1;
      WithoutFilters(s[..n], dropped);
      var at :| KeptAt(s[..n], Without(s[..n], dropped), dropped, at);
      WithoutNext(s, n, dropped);
      assert s[..n + 1] == s;
      KeptOneMore(s, n, Without(s[..n], dropped), dropped, at);
    }
  }

  lemma KeptOneMore(s: seq<string>, n: nat, t: seq<string>, dropped: set<string>, at: seq<nat>)
    requires |s| == n + 1 && KeptAt(s[..n], t, dropped, at)
    ensures Filtered(s, t + (if s[n] in dropped then [] else [s[n]]), dropped)
  {
    forall i | 0 <= i < n
      ensures i in at <==> s[i] !in dropped
    {
      assert s[..n][i] == s[i];
    }
    if s[n] in dropped {
      assert t + [] == t;
      assert KeptAt(s, t, dropped, at);
    } else {
      assert KeptAt(s, t + [s[n]], dropped, at + [n]);
    }
  }

  lemma {:induction false} WithoutCounts(s: seq<string>, dropped: set<string>, x: string)
    ensures multiset(Without(s, dropped))[x] == if x in dropped then 0 else multiset(s)[x]
  {
    if s != [] {
      assert s == [s[0]] + s[1..];
      WithoutCounts(s[1..], dropped, x);
    }
  }

  /** A list without repetitions stays one. */
  lemma {:induction false} WithoutLength(s: seq<string>, dropped: set<string>)
    requires |s| == |Elements(s)|
    ensures |Without(s, dropped)| == |Elements(Without(s, dropped))|
  {
    if s != [] {
      var rest := s[1..];
      assert Elements(s) == {s[0]} + Elements(rest);
      ElementsBound(rest);
      assert Elements(s) == if s[0] in Elements(rest) then Elements(rest) else {s[0]} + Elements(rest);
      WithoutLength(rest, dropped);
      var kept := Without(rest, dropped);
      if s[0] !in dropped {
        assert Elements(Without(s, dropped)) == {s[0]} + Elements(kept);
        assert s[0] !in Elements(kept);
      } else {
        assert Without(s, dropped) == kept;
      }
    }
  }

  lemma {:induction false} ElementsBound(s: seq<string>)
    ensures |Elements(s)| <= |s|
  {
    if s != [] {
      assert Elements(s) == {s[0]} + Elements(s[1..]);
      ElementsBound(s[1..]);
    }
  }

  lemma FilteredIsTargetList(names: seq<string>, spec: Spec, nss: set<string>)
    requires spec.targetNamespaces != [] ==> names == spec.targetNamespaces
    requires spec.targetNamespaces == [] ==> Elements(names) == nss && |names| == |nss|
    ensures IsTargetList(Without(names, ExcludedSet(spec.excludedNamespaces, SourceNamespace(spec))), spec, nss)
  {
    var dropped := ExcludedSet(spec.excludedNamespaces, SourceNamespace(spec));
    assert forall ns :: ns in dropped <==> Excluded(spec, ns);
    assert Elements(Without(names, dropped)) == Targets(spec, nss);
    if spec.targetNamespaces == [] {
      WithoutLength(names, dropped);
    }
  }

  /** The value the ConfigSync controller's watch reacts to. */
  function Mark(cs: ConfigSync, stamp: string): ConfigSync {
    cs.(annotations := cs.annotations[LAST_TRIGGER := stamp])
  }

  /** The per-namespace counts add up to the totals, and the namespaces are listed in target order. */
  ghost predicate Accounted(st: Status, targets: seq<string>) {
    && |st.namespaces| == |targets|
    && (forall i | 0 <= i < |targets| :: st.namespaces[i].ns == targets[i])
    && st.secrets == SumSecrets(st.namespaces)
    && st.configMaps == SumConfigMaps(st.namespaces)
  }

  function SumSecrets(ns: seq<NamespaceStatus>): nat {
    if ns == [] then 0 else SumSecrets(ns[..|ns| - 1]) + ns[|ns| - 1].secrets
  }

  function SumConfigMaps(ns: seq<NamespaceStatus>): nat {
    if ns == [] then 0 else SumConfigMaps(ns[..|ns| - 1]) + ns[|ns| - 1].configMaps
  }

  lemma AccountedOneMore(st: Status, targets: seq<string>, i: nat, last: NamespaceStatus)
    requires i < |targets| && Accounted(st, targets[..i]) && last.ns == targets[i]
    ensures Accounted(
      Status(st.secrets + last.secrets, st.configMaps + last.configMaps, st.namespaces + [last], st.ready),
      targets[..i + 1])
  {
    var longer := st.namespaces + [last];
    assert longer[..|longer| - 1] == st.namespaces;
  }
}
