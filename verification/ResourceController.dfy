/** The Secret and ConfigMap controllers: event filters, triggers, and the cascade that follows a source's
    deletion.  The two controllers do the same thing for their kind; only the comparison of contents differs. */
module ResourceController {
  import opened Objects
  import opened Selectors
  import opened ConfigSyncs
  import opened Plans
  import opened Passes
  import opened Clusters
  import opened Acts
  import opened Triggers

  // ---- Comparing contents ----

  lemma SubsetOfSameSize<T>(a: set<T>, b: set<T>)
    requires a <= b && |a| == |b|
    ensures a == b
  {
    assert |b - a| == |b| - |a|;
  }

  method BytesEqual(v: Bytes, bv: Bytes) returns (equal: bool)
    ensures equal == (v == bv)
  {
    if |v| != |bv| {
      return false;
    }
    for i := 0 to |v|
      invariant v[..i] == bv[..i]
    {
      if v[i] != bv[i] {
        return false;
      }
    }
    return true;
  }

  /** The comparison used for a Secret's data and for a ConfigMap's binary data: exact. */
  method BinaryDataEqual(a: map<string, Bytes>, b: map<string, Bytes>) returns (equal: bool)
    ensures equal == (a == b)
  {
    if |a| != |b| {
      return false;
    }
    var rest := a.Keys;
    while rest != {}
      invariant rest <= a.Keys
      invariant forall k | k in a.Keys - rest :: k in b && a[k] == b[k]
    {
      var k :| k in rest;
      if k !in b {
        return false;
      }
      var same := BytesEqual(a[k], b[k]);
      if !same {
        return false;
      }
      rest := rest - {k};
    }
    SubsetOfSameSize(a.Keys, b.Keys);
    return true;
  }

  /** A key that is missing on the right reads as the empty string. */
  predicate LooksEqual(a: map<string, string>, b: map<string, string>) {
    |a| == |b| && forall k | k in a :: a[k] == if k in b then b[k] else ""
  }

  /** The comparison used for a ConfigMap's text data. */
  method DataEqual(a: map<string, string>, b: map<string, string>) returns (equal: bool)
    ensures equal == LooksEqual(a, b)
  {
    if |a| != |b| {
      return false;
    }
    var rest := a.Keys;
    while rest != {}
      invariant rest <= a.Keys
      invariant forall k | k in a.Keys - rest :: a[k] == if k in b then b[k] else ""
    {
      var k :| k in rest;
      if (if k in b then b[k] else "") != a[k] {
        return false;
      }
      rest := rest - {k};
    }
    return true;
  }

  ghost predicate NoEmptyValue(a: map<string, string>) {
    forall k | k in a :: a[k] != ""
  }

  lemma LooksEqualIfNoEmptyValue(a: map<string, string>, b: map<string, string>)
    requires NoEmptyValue(a)
    ensures LooksEqual(a, b) <==> a == b
  {
    if LooksEqual(a, b) {
      assert forall k | k in a :: k in b;
      assert a.Keys <= b.Keys;
      SubsetOfSameSize(a.Keys, b.Keys);
    }
  }

  /** Longer than every member, hence unused strings exist. */
  lemma {:induction false} LongString(s: set<string>) returns (n: nat)
    ensures forall x | x in s :: |x| < n
  {
    if s == {} {
      n := 0;
    } else {
      var x :| x in s;
      var m := LongString(s - {x});
      n := if |x| < m then m else |x| + 1;
      assert forall y | y in s :: y == x || y in s - {x};
    }
  }

  /** When a value is empty, renaming its key is a change the comparison cannot see. */
  lemma RenamedKeyUnseen(a: map<string, string>, k: string) returns (b: map<string, string>)
    requires k in a && a[k] == ""
    ensures LooksEqual(a, b) && a != b
  {
    var n := LongString(a.Keys);
    var unused := seq(n, _ => 'x');
    assert unused !in a;
    var kept := a - {k};
    b := kept[unused := ""];
    assert a.Keys == kept.Keys + {k} && b.Keys == kept.Keys + {unused};
  }

  /** The text comparison is exact on every right-hand side if and only if the left-hand side has no empty value. */
  lemma DataEqualExactness(a: map<string, string>)
    ensures (forall b :: LooksEqual(a, b) <==> a == b) <==> NoEmptyValue(a)
  {
    if NoEmptyValue(a) {
      forall b
        ensures LooksEqual(a, b) <==> a == b
      {
        LooksEqualIfNoEmptyValue(a, b);
      }
    } else {
      var k :| k in a && a[k] == "";
      var b := RenamedKeyUnseen(a, k);
      assert LooksEqual(a, b) && a != b;
    }
  }

  // ---- Which events are worked on ----

  /** The test shared by the event filter and the trigger loop.  A selector without matchLabels is not consulted. */
  predicate Watches(spec: Spec, k: Key, o: Object) {
    var sel := SelectorFor(spec, k.kind);
    && SourceNamespace(spec) == k.ns
    && !IsServiceAccountToken(o)
    && (sel.None? || |sel.value.matchLabels| == 0 || (ValidSelector(sel.value) && Matches(sel.value, o.labels)))
  }

  function Watchers(css: map<string, ConfigSync>, k: Key, o: Object): set<string> {
    set n | n in css && Watches(css[n].spec, k, o)
  }

  predicate SameContent(before: Content, after: Content) {
    match (before, after)
    case (SecretContent(_, d0), SecretContent(_, d1)) => d0 == d1
    case (ConfigMapContent(t0, b0), ConfigMapContent(t1, b1)) => LooksEqual(t0, t1) && b0 == b1
    case _ => false
  }

  /** Whether the event filters let an event through to Reconcile, given the ConfigSyncs of the moment. */
  predicate Accepts(e: Event, css: map<string, ConfigSync>) {
    match e
    case Created(k, o) => !IsServiceAccountToken(o) && !Labelled(o) && Watchers(css, k, o) != {}
    case Updated(_, before, o) => !IsServiceAccountToken(o) && !Labelled(o) && !SameContent(before.content, o.content)
    case Deleted(_, o) => !IsServiceAccountToken(o) && !Labelled(o)
    case ConfigSyncWritten(_) => false
  }

  // ---- What one pass is, as a relation on cluster states ----

  function Stamp(k: Key, now: string): string {
    (if k.kind.SecretKind? then "secret-" else "configmap-") + k.name + "-" + now
  }

  /** The copies of the source are deleted.  An error means that they could not even be listed; errors of single
      deletions are only logged. */
  ghost predicate CascadeStep(pre: ClusterState, post: ClusterState, k: Key, clean: bool, failed: bool) {
    Acted(CascadePlan(k, pre.objects), pre, post, clean) && (failed ==> !clean && post == pre)
  }

  /** One call of Reconcile for the Secret or ConfigMap at `k`; `failed` says that it returned an error. */
  ghost predicate ResourceStep(pre: ClusterState, post: ClusterState, k: Key, now: string, clean: bool, failed: bool) {
    if k !in pre.objects then CascadeStep(pre, post, k, clean, failed)
    else
      && failed == !clean
      && if Labelled(pre.objects[k]) || IsServiceAccountToken(pre.objects[k]) then post == pre
         else TriggerStep(pre, post, Watchers(pre.configSyncs, k, pre.objects[k]), Stamp(k, now), clean)
  }

  lemma GaveUp(k: Key, now: string, st: ClusterState)
    ensures ResourceStep(st, st, k, now, false, true)
  {
  }

  lemma NoWatcher(list: seq<ConfigSync>, css: map<string, ConfigSync>, k: Key, o: Object)
    requires ConfigSyncListing(list, css) && forall j | 0 <= j < |list| :: !Watches(list[j].spec, k, o)
    ensures Watchers(css, k, o) == {}
  {
    forall n | n in css
      ensures !Watches(css[n].spec, k, o)
    {
      assert n in Names(list);
      var cs :| cs in list && cs.name == n;
    }
  }

  /** What a scan of all objects of the kind takes to be a copy. */
  lemma CopyIfMarked(items: seq<Item>, i: nat, listed: set<Key>, src: Key, s: Store)
    requires i < |items| && Listing(items, listed, s) && forall k | k in listed :: k.kind == src.kind
    ensures var k, o := items[i].key, items[i].obj;
            k in CopyKeys(src, s) <==> k.name == src.name && Labelled(o) && o.labels[SYNCED_FROM] == src.ns
  {
    NextItem(items, i, listed, s);
  }

  class ResourceReconciler {
    const client: Cluster

    constructor (client: Cluster)
      ensures this.client == client
    {
      this.client := client;
    }

    method MatchesAnyConfigSync(k: Key, o: Object) returns (matches: bool)
      requires client.Valid()
      modifies client`faults
      ensures client.faults >= old(client.faults)
      ensures matches ==> Watchers(client.configSyncs, k, o) != {}
      ensures client.faults == old(client.faults) ==> matches == (Watchers(client.configSyncs, k, o) != {})
    {
      var listed := client.ListConfigSyncs();
      if listed.Err? {
        return false;
      }
      var list := listed.value;
      for i := 0 to |list|
        invariant forall j | 0 <= j < i :: !Watches(list[j].spec, k, o)
      {
        var sourceNS := SourceNamespace(list[i].spec);
        if k.ns != sourceNS || IsServiceAccountToken(o) {
          continue;
        }
        var sel := SelectorFor(list[i].spec, k.kind);
        if sel.None? || |sel.value.matchLabels| == 0 {
          assert list[i].name in Watchers(client.configSyncs, k, o);
          return true;
        }
        if !ValidSelector(sel.value) {
          continue;
        }
        if Matches(sel.value, o.labels) {
          assert list[i].name in Watchers(client.configSyncs, k, o);
          return true;
        }
      }
      NoWatcher(list, client.configSyncs, k, o);
      return false;
    }

    method AcceptsCreate(k: Key, o: Object) returns (accepted: bool)
      requires client.Valid()
      modifies client`faults
      ensures client.faults >= old(client.faults)
      ensures accepted ==> Accepts(Created(k, o), client.configSyncs)
      ensures client.faults == old(client.faults) ==> accepted == Accepts(Created(k, o), client.configSyncs)
    {
      if IsServiceAccountToken(o) || SYNCED_FROM in o.labels {
        return false;
      }
      accepted := MatchesAnyConfigSync(k, o);
    }

    method AcceptsUpdate(k: Key, before: Object, o: Object) returns (accepted: bool)
      requires before.content.SecretContent? == o.content.SecretContent?
      ensures accepted == Accepts(Updated(k, before, o), map[])
      ensures accepted <==>
              && "config.zyql.com/synced-from" !in o.labels
              && match o.content
                 case SecretContent(typ, data) =>
                   typ != "kubernetes.io/service-account-token" && before.content.data != data
                 case ConfigMapContent(text, binary) =>
                   || before.content.binary != binary
                   || |before.content.text| != |text|
                   || exists t | t in before.content.text ::
                        before.content.text[t] != if t in text then text[t] else ""
    {
      if IsServiceAccountToken(o) || SYNCED_FROM in o.labels {
        return false;
      }
      if o.content.SecretContent? {
        var same := BinaryDataEqual(before.content.data, o.content.data);
        return !same;
      }
      var sameText := DataEqual(before.content.text, o.content.text);
      var sameBinary := BinaryDataEqual(before.content.binary, o.content.binary);
      return !sameText || !sameBinary;
    }

    method ShouldTrigger(spec: Spec, k: Key, o: Object) returns (selected: bool)
      requires !IsServiceAccountToken(o)
      ensures selected == Watches(spec, k, o)
    {
      if SourceNamespace(spec) != k.ns {
        return false;
      }
      var sel := SelectorFor(spec, k.kind);
      if sel.Some? && |sel.value.matchLabels| > 0 {
        if !ValidSelector(sel.value) {
          return false;
        }
        if !Matches(sel.value, o.labels) {
          return false;
        }
      }
      return true;
    }

    /** Marks every ConfigSync of the list that watches the object, until a call fails. */
    method MarkWatchers(k: Key, o: Object, now: string, list: seq<ConfigSync>) returns (r: Result<bool>)
      requires client.Valid() && ConfigSyncListing(list, client.configSyncs) && !IsServiceAccountToken(o)
      modifies client`configSyncs, client`events, client`faults
      ensures client.Valid() && client.faults == old(client.faults) + if r.Err? then 1 else 0
      ensures TriggerStep(old(client.View()), client.View(), Watchers(old(client.configSyncs), k, o),
                          Stamp(k, now), r.Ok?)
      ensures r.Ok? ==> r.value == (Watchers(old(client.configSyncs), k, o) != {})
    {
      ghost var st0, f0 := client.View(), client.faults;
      ghost var watching := Watchers(st0.configSyncs, k, o);
      var triggered := false;
      NothingTriggered(st0, {}, Stamp(k, now));
      assert Names(list[..0]) == {};
      for i := 0 to |list|
        invariant client.Valid() && client.faults == f0
        invariant TriggerStep(st0, client.View(), Names(list[..i]) * watching, Stamp(k, now), true)
        invariant triggered == (Names(list[..i]) * watching != {})
      {
        NextOfThese(list, i, st0.configSyncs, watching);
        var cs := list[i];
        var selected := ShouldTrigger(cs.spec, k, o);
        if !selected {
          continue;
        }
        var err := MarkConfigSync(client, cs, Stamp(k, now), st0, Names(list[..i]) * watching);
        if err.Some? {
          TriggerWider(st0, client.View(), Names(list[..i + 1]) * watching, watching, Stamp(k, now));
          return Err(err.value);
        }
        triggered := true;
      }
      assert list[..|list|] == list;
      assert Names(list) * watching == watching;
      return Ok(triggered);
    }

    /** The ConfigSyncs to be marked for what `k` holds: none if it is empty or holds a token. */
    ghost function Watching(k: Key): set<string>
      reads client
    {
      if k in client.objects then Watchers(client.configSyncs, k, client.objects[k]) else {}
    }

    /** Reads the object again, then marks the ConfigSyncs that watch it. */
    method TriggerConfigSyncReconciliation(k: Key, now: string) returns (r: Result<bool>)
      requires client.Valid()
      modifies client`configSyncs, client`events, client`faults
      ensures client.Valid() && client.faults == old(client.faults) + if r.Err? then 1 else 0
      ensures TriggerStep(old(client.View()), client.View(), old(Watching(k)), Stamp(k, now), r.Ok?)
      ensures r.Ok? ==> r.value == (old(Watching(k)) != {})
    {
      NothingTriggered(client.View(), Watching(k), Stamp(k, now));
      var got := client.Get(k);
      if got == Err(NotFound) {
        return Ok(false);
      }
      if got.Err? {
        return Err(got.error);
      }
      if IsServiceAccountToken(got.value) {
        assert Watching(k) == {};
        return Ok(false);
      }
      var listed := client.ListConfigSyncs();
      if listed.Err? {
        return Err(listed.error);
      }
      r := MarkWatchers(k, got.value, now, listed.value);
    }

    /** Deletes every same-named copy that came from the source's namespace, whoever made it.  Without an error each
        copy that is still there has cost a call. */
    method DeleteSyncedCopies(k: Key) returns (err: Option<Error>)
      requires client.Valid()
      modifies client`objects, client`events, client`faults
      ensures client.Valid() && client.faults >= old(client.faults)
      ensures err.Some? ==> client.faults > old(client.faults)
      ensures CascadeStep(old(client.View()), client.View(), k, client.faults == old(client.faults), err.Some?)
      ensures err.None? ==>
        |Missed(CopyKeys(k, old(client.objects)), client.objects)| <= client.faults - old(client.faults)
    {
      ghost var st0, f0 := client.View(), client.faults;
      ghost var copies := CopyKeys(k, st0.objects);
      var listed := client.List(k.kind, None, None);
      if listed.Err? {
        ActedFailed(Deletions(copies), st0);
        return Some(listed.error);
      }
      var items := listed.value;
      ghost var keys := client.Matching(k.kind, None, None);
      assert keys * copies == copies;
      DeletingNothing(st0);
      for i := 0 to |items|
        invariant client.Valid() && client.faults >= f0
        invariant Deleting(ItemKeys(items[..i]) * copies, st0, client.View(), client.faults - f0)
      {
        CopyIfMarked(items, i, keys, k, st0.objects);
        var c, labels := items[i].key, items[i].obj.labels;
        var isCopy := SYNCED_FROM in labels && labels[SYNCED_FROM] == k.ns && c.name == k.name;
        DeleteIfChosen(client, items, i, isCopy, keys, copies, st0, f0);
      }
      assert items[..|items|] == items;
      err := None;
    }

    method Reconcile(k: Key, now: string) returns (err: Option<Error>)
      requires client.Valid()
      modifies client`objects, client`configSyncs, client`events, client`faults
      ensures client.Valid() && client.faults >= old(client.faults)
      ensures err.Some? ==> client.faults > old(client.faults)
      ensures ResourceStep(old(client.View()), client.View(), k, now, client.faults == old(client.faults), err.Some?)
    {
      var got := client.Get(k);
      if got == Err(NotFound) {
        err := DeleteSyncedCopies(k);
        return;
      }
      if got.Err? {
        GaveUp(k, now, client.View());
        return Some(got.error);
      }
      if SYNCED_FROM in got.value.labels || IsServiceAccountToken(got.value) {
        return None;
      }
      var triggered := TriggerConfigSyncReconciliation(k, now);
      err := if triggered.Err? then Some(triggered.error) else None;
    }
  }
}
