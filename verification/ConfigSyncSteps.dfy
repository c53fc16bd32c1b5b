/** A pass of the main controller as a relation on cluster states, and how its loops arrive at it. */
module ConfigSyncSteps {
  import opened Objects
  import opened Selectors
  import opened ConfigSyncs
  import opened Plans
  import opened Passes
  import opened Clusters
  import opened Acts

  /** What a pass was about to do when it gave up. */
  datatype Stage = Fetching | Targeting | Cleaning | ReleasingFinalizer | TakingFinalizer | StoringStatus

  datatype Outcome = Done | Requeue | RequeueAfterInterval | Failed(at: Stage)

  // ---- Bookkeeping of the loops ----

  lemma StaleOfKindLater(kind: Kind, gone: set<Key>, name: string, spec: Spec, targets: set<string>,
                         nss: set<string>, s0: Store, s1: Store)
    requires Partial(Deletions(gone), nss, s0, s1)
    requires forall k | k in gone :: k.kind != kind
    ensures OfKind(StaleKeys(name, spec, targets, s1), kind) == OfKind(StaleKeys(name, spec, targets, s0), kind)
  {
    forall k: Key | k.kind == kind
      ensures k in StaleKeys(name, spec, targets, s1) <==> k in StaleKeys(name, spec, targets, s0)
    {
      DeletionsLeave(gone, nss, s0, s1, k);
    }
  }

  /** What a scan of all objects takes to be a copy in a removed namespace. */
  lemma StaleIfOurs(items: seq<Item>, i: nat, listed: set<Key>, name: string, spec: Spec, targets: set<string>,
                    s: Store)
    requires i < |items| && Listing(items, listed, s)
    ensures var k, o := items[i].key, items[i].obj;
            k in StaleKeys(name, spec, targets, s) <==>
            OwnedBy(o, SourceNamespace(spec), name) && IsStaleNamespace(spec, targets, k.ns)
  {
    NextItem(items, i, listed, s);
  }

  /** What a scan of one target takes to be a copy to be cleaned up. */
  lemma FinalIfOurs(items: seq<Item>, i: nat, listed: set<Key>, kind: Kind, name: string, spec: Spec, ns: string,
                    s: Store)
    requires i < |items| && Listing(items, listed, s) && Enabled(spec, kind)
    requires forall k | k in listed :: k.kind == kind && k.ns == ns
    ensures items[i].key in FinalKeys(name, spec, {ns}, s) <==> OwnedBy(items[i].obj, SourceNamespace(spec), name)
  {
    NextItem(items, i, listed, s);
  }

  function Retarget(keys: set<Key>, ns: string): set<Key> {
    set k | k in keys :: Key(k.kind, ns, k.name)
  }

  lemma RetargetSources(spec: Spec, s: Store, kind: Kind, ns: string)
    requires Enabled(spec, kind)
    ensures Retarget(SourceKeys(spec, s, kind), ns) == OfKind(WriteKeys(spec, {ns}, s), kind)
  {
    forall k
      ensures k in Retarget(SourceKeys(spec, s, kind), ns) <==> k in OfKind(WriteKeys(spec, {ns}, s), kind)
    {
      var src := SourceOf(k, SourceNamespace(spec));
      if k in OfKind(WriteKeys(spec, {ns}, s), kind) {
        assert src in SourceKeys(spec, s, kind) && k == Key(src.kind, ns, src.name);
      }
      if k in Retarget(SourceKeys(spec, s, kind), ns) {
        var k0 :| k0 in SourceKeys(spec, s, kind) && k == Key(k0.kind, ns, k0.name);
        assert k0 == src;
      }
    }
  }

  /** The calls one copy may end in. */
  lemma OneWrite(k: Key, copy: Object, pre: ClusterState, post: ClusterState, clean: bool)
    requires Labelled(copy) && WellFormed(pre)
    requires post.namespaces == pre.namespaces && post.configSyncs == pre.configSyncs
    requires
      || (post.objects == pre.objects && post.events == pre.events)
      || (k !in pre.objects && k.ns in pre.namespaces && post.objects == pre.objects[k := copy] &&
          post.events == pre.events + [Created(k, copy)])
      || (k in pre.objects && Labelled(pre.objects[k]) && post.objects == pre.objects[k := copy] &&
          post.events == pre.events + [Updated(k, pre.objects[k], copy)])
    requires clean && post.objects == pre.objects ==>
      if k in pre.objects then !Labelled(pre.objects[k]) || pre.objects[k] == copy else k.ns !in pre.namespaces
    ensures Acted(map[k := Some(copy)], pre, post, clean) && WellFormed(post)
  {
    var p := map[k := Some(copy)];
    if clean {
      SameStore(post.objects, Apply(p, pre.namespaces, pre.objects));
    }
    ActedKeeps(p, pre, post, clean);
  }

  lemma WroteOneMore(items: seq<Item>, i: nat, sources: set<Key>, targetNS: string, from: string, name: string,
                     st0: ClusterState, st1: ClusterState, st2: ClusterState, c1: bool, c2: bool)
    requires i < |items| && Listing(items, sources, st0.objects) && (forall src | src in sources :: src.ns == from)
    requires HaveSources(Retarget(ItemKeys(items[..i]), targetNS), from, st0.objects)
    requires Acted(Writes(Retarget(ItemKeys(items[..i]), targetNS), from, name, st0.objects), st0, st1, c1)
    requires Acted(map[Key(items[i].key.kind, targetNS, items[i].key.name) := Some(Project(items[i].obj, from, name))],
                   st1, st2, c2)
    ensures ItemKeys(items[..i + 1]) == ItemKeys(items[..i]) + {items[i].key}
    ensures HaveSources(Retarget(ItemKeys(items[..i + 1]), targetNS), from, st0.objects)
    ensures Acted(Writes(Retarget(ItemKeys(items[..i + 1]), targetNS), from, name, st0.objects), st0, st2, c1 && c2)
  {
    ItemKeysSnoc(items, i);
    var src := items[i].key;
    var done, k := Retarget(ItemKeys(items[..i]), targetNS), Key(src.kind, targetNS, src.name);
    assert src in ItemKeys(items);
    assert SourceOf(k, from) == src;
    RetargetOneMore(ItemKeys(items[..i]), src, targetNS);
    WroteKey(done, k, from, name, st0, st1, st2, c1, c2);
  }

  /** The copies a loop counted are in effect. */
  ghost predicate Counted(copied: set<Key>, done: set<Key>, ns: string, from: string, name: string,
                          s0: Store, s1: Store) {
    && copied <= Retarget(done, ns)
    && HaveSources(copied, from, s0)
    && forall k | k in copied :: InEffect(s1, k, Project(s0[SourceOf(k, from)], from, name))
  }

  /** One more copy is counted if its call reported no error. */
  lemma CountedOneMore(items: seq<Item>, i: nat, sources: set<Key>, targetNS: string, from: string, name: string,
                       copied: set<Key>, ok: bool, s0: Store, st1: ClusterState, st2: ClusterState, c2: bool)
    requires i < |items| && Listing(items, sources, s0) && (forall src | src in sources :: src.ns == from)
    requires Counted(copied, ItemKeys(items[..i]), targetNS, from, name, s0, st1.objects)
    requires var k, copy := Key(items[i].key.kind, targetNS, items[i].key.name), Project(items[i].obj, from, name);
             Acted(map[k := Some(copy)], st1, st2, c2) && (ok ==> InEffect(st2.objects, k, copy))
    ensures var k := Key(items[i].key.kind, targetNS, items[i].key.name);
            k !in copied && Counted(if ok then copied + {k} else copied, ItemKeys(items[..i + 1]), targetNS, from, name,
                                    s0, st2.objects)
  {
    NextItem(items, i, sources, s0);
    var src := items[i].key;
    var k, copy := Key(src.kind, targetNS, src.name), Project(items[i].obj, from, name);
    RetargetOneMore(ItemKeys(items[..i]), src, targetNS);
    NotRetargeted(ItemKeys(items[..i]), src, sources, from, targetNS);
    assert SourceOf(k, from) == src;
    forall j | j in copied
      ensures Lookup(st2.objects, j) == Lookup(st1.objects, j)
    {
      assert Lookup(st2.objects, j) == Lookup(st1.objects, j) ||
             Lookup(st2.objects, j) == EffectAt(map[k := Some(copy)], st1.namespaces, st1.objects, j);
    }
  }

  /** The state of the inner loop: the sources in `done` have been copied to `ns`.  As many copies as are counted are
      in effect; the others met a failed call or a namespace that does not exist. */
  ghost predicate ItemsDone(done: set<Key>, count: nat, ns: string, from: string, name: string,
                            st0: ClusterState, st: ClusterState, failures: nat) {
    && HaveSources(Retarget(done, ns), from, st0.objects)
    && Acted(Writes(Retarget(done, ns), from, name, st0.objects), st0, st, failures == 0)
    && CountedAll(count, done, ns, from, name, st0.objects, st.objects)
    && count <= (if ns in st0.namespaces then |done| else 0) <= count + failures
  }

  ghost predicate CountedAll(count: nat, done: set<Key>, ns: string, from: string, name: string, s0: Store, s1: Store) {
    exists copied :: |copied| == count && Counted(copied, done, ns, from, name, s0, s1)
  }

  lemma CountedAllOneMore(items: seq<Item>, i: nat, sources: set<Key>, targetNS: string, from: string, name: string,
                          count: nat, ok: bool, s0: Store, st1: ClusterState, st2: ClusterState, c2: bool)
    requires i < |items| && Listing(items, sources, s0) && (forall src | src in sources :: src.ns == from)
    requires CountedAll(count, ItemKeys(items[..i]), targetNS, from, name, s0, st1.objects)
    requires var k, copy := Key(items[i].key.kind, targetNS, items[i].key.name), Project(items[i].obj, from, name);
             Acted(map[k := Some(copy)], st1, st2, c2) && (ok ==> InEffect(st2.objects, k, copy))
    ensures CountedAll(if ok then count + 1 else count, ItemKeys(items[..i + 1]), targetNS, from, name, s0, st2.objects)
  {
    var copied :| |copied| == count && Counted(copied, ItemKeys(items[..i]), targetNS, from, name, s0, st1.objects);
    var k := Key(items[i].key.kind, targetNS, items[i].key.name);
    CountedOneMore(items, i, sources, targetNS, from, name, copied, ok, s0, st1, st2, c2);
    OneBigger(copied, k);
    IsCountedAll(if ok then copied + {k} else copied, ItemKeys(items[..i + 1]), targetNS, from, name, s0, st2.objects);
  }

  lemma OneBigger<T>(a: set<T>, x: T)
    requires x !in a
    ensures |a + {x}| == |a| + 1
  {
  }

  lemma IsCountedAll(copied: set<Key>, done: set<Key>, ns: string, from: string, name: string, s0: Store, s1: Store)
    requires Counted(copied, done, ns, from, name, s0, s1)
    ensures CountedAll(|copied|, done, ns, from, name, s0, s1)
  {
  }

  lemma OneMoreDone(items: seq<Item>, i: nat, keys: set<Key>, s: Store)
    requires i < |items| && Listing(items, keys, s)
    ensures |ItemKeys(items[..i + 1])| == |ItemKeys(items[..i])| + 1
  {
    NextItem(items, i, keys, s);
    OneBigger(ItemKeys(items[..i]), items[i].key);
  }

  /** One more turn of the inner loop: a copy that reported no error is counted. */
  lemma ItemDone(items: seq<Item>, i: nat, sources: set<Key>, count: nat, ok: bool, ns: string, from: string,
                 name: string, st0: ClusterState, st1: ClusterState, st2: ClusterState, f0: nat, f1: nat, f2: nat)
    requires i < |items| && Listing(items, sources, st0.objects) && (forall src | src in sources :: src.ns == from)
    requires f0 <= f1 <= f2 && ItemsDone(ItemKeys(items[..i]), count, ns, from, name, st0, st1, f1 - f0)
    requires var k, copy := Key(items[i].key.kind, ns, items[i].key.name), Project(items[i].obj, from, name);
             Acted(map[k := Some(copy)], st1, st2, f2 == f1) && (ok ==> InEffect(st2.objects, k, copy))
    requires if ok then ns in st0.namespaces else ns in st0.namespaces ==> f2 > f1
    ensures ItemsDone(ItemKeys(items[..i + 1]), if ok then count + 1 else count, ns, from, name, st0, st2, f2 - f0)
  {
    WroteOneMore(items, i, sources, ns, from, name, st0, st1, st2, f1 == f0, f2 == f1);
    CountedAllOneMore(items, i, sources, ns, from, name, count, ok, st0.objects, st1, st2, f2 == f1);
    OneMoreDone(items, i, sources, st0.objects);
  }

  lemma NotRetargeted(done: set<Key>, src: Key, sources: set<Key>, from: string, ns: string)
    requires done <= sources && src in sources && src !in done && forall k | k in sources :: k.ns == from
    ensures Key(src.kind, ns, src.name) !in Retarget(done, ns)
  {
  }

  lemma CountedInPlace(name: string, spec: Spec, ns: string, kind: Kind, copied: set<Key>, s0: Store, s1: Store)
    requires Enabled(spec, kind) && Unlabelled(s0) == Unlabelled(s1)
    requires Counted(copied, SourceKeys(spec, s0, kind), ns, SourceNamespace(spec), name, s0, s1)
    ensures |copied| <= |InPlace(name, spec, {ns}, kind, s1)|
  {
    RetargetSources(spec, s0, kind, ns);
    WriteKeysByUnlabelled(spec, {ns}, s0, s1);
    SubsetSize(copied, InPlace(name, spec, {ns}, kind, s1));
  }

  lemma KindCopied(kind: Kind, name: string, spec: Spec, ns: string, count: nat,
                   st0: ClusterState, st1: ClusterState, failures: nat)
    requires Enabled(spec, kind) && Usable(SelectorFor(spec, kind))
    requires ItemsDone(SourceKeys(spec, st0.objects, kind), count, ns, SourceNamespace(spec), name, st0, st1, failures)
    ensures KindReport(kind, name, spec, ns, true, count, st0, st1, failures)
  {
    RetargetSources(spec, st0.objects, kind, ns);
    var copied :| |copied| == count &&
      Counted(copied, SourceKeys(spec, st0.objects, kind), ns, SourceNamespace(spec), name, st0.objects, st1.objects);
    ActedKeeps(Writes(OfKind(WriteKeys(spec, {ns}, st0.objects), kind), SourceNamespace(spec), name, st0.objects),
               st0, st1, failures == 0);
    CountedInPlace(name, spec, ns, kind, copied, st0.objects, st1.objects);
  }

  /** What is in place outlasts further writes of the same ConfigSync. */
  lemma InPlaceThrough(name: string, spec: Spec, ns: string, kind: Kind, targets: set<string>, keys: set<Key>,
                       base: Store, st1: ClusterState, st2: ClusterState, c: bool)
    requires keys <= WriteKeys(spec, targets, base) && Unlabelled(base) == Unlabelled(st1.objects)
    requires HaveSources(keys, SourceNamespace(spec), base)
    requires Acted(Writes(keys, SourceNamespace(spec), name, base), st1, st2, c)
    ensures |InPlace(name, spec, {ns}, kind, st1.objects)| <= |InPlace(name, spec, {ns}, kind, st2.objects)|
  {
    var p := Writes(keys, SourceNamespace(spec), name, base);
    ActedKeeps(p, st1, st2, c);
    InPlaceKept(name, spec, ns, kind, keys, st1.namespaces, base, st1.objects, st2.objects);
    SubsetSize(InPlace(name, spec, {ns}, kind, st1.objects), InPlace(name, spec, {ns}, kind, st2.objects));
  }

  lemma BackedThrough(name: string, spec: Spec, list: seq<NamespaceStatus>, ns: string,
                      st1: ClusterState, st2: ClusterState, c: bool)
    requires Backed(name, spec, st1.objects, list)
    requires Acted(Writes(WriteKeys(spec, {ns}, st1.objects), SourceNamespace(spec), name, st1.objects), st1, st2, c)
    ensures Backed(name, spec, st2.objects, list)
  {
    forall i | 0 <= i < |list|
      ensures BackedAt(name, spec, st2.objects, list[i])
    {
      var keys := WriteKeys(spec, {ns}, st1.objects);
      InPlaceThrough(name, spec, list[i].ns, SecretKind, {ns}, keys, st1.objects, st1, st2, c);
      InPlaceThrough(name, spec, list[i].ns, ConfigMapKind, {ns}, keys, st1.objects, st1, st2, c);
    }
  }

  /** A target's report against what a failure-free pass would report: never more, and short by at most the failed
      calls unless the target is reported failed. */
  ghost predicate CloseTo(st: NamespaceStatus, expected: NamespaceStatus, failures: nat) {
    && st.ns == expected.ns
    && st.secrets <= expected.secrets && st.configMaps <= expected.configMaps
    && (st.succeeded || failures == 0 ==>
          expected.secrets + expected.configMaps <= st.secrets + st.configMaps + failures)
    && (if st.succeeded then expected.succeeded else expected.succeeded ==> failures > 0)
  }

  ghost predicate AllCloseTo(list: seq<NamespaceStatus>, spec: Spec, nss: set<string>, s: Store, failures: nat) {
    forall i | 0 <= i < |list| :: CloseTo(list[i], ExpectedStatus(spec, nss, s, list[i].ns), failures)
  }

  lemma CloseOneMore(list: seq<NamespaceStatus>, st: NamespaceStatus, spec: Spec, nss: set<string>, s: Store,
                     f1: nat, f2: nat)
    requires AllCloseTo(list, spec, nss, s, f1) && CloseTo(st, ExpectedStatus(spec, nss, s, st.ns), f2)
    ensures AllCloseTo(list + [st], spec, nss, s, f1 + f2)
  {
    forall i | 0 <= i < |list| + 1
      ensures CloseTo((list + [st])[i], ExpectedStatus(spec, nss, s, (list + [st])[i].ns), f1 + f2)
    {
    }
  }

  lemma RetargetOneMore(keys: set<Key>, src: Key, ns: string)
    ensures Retarget(keys + {src}, ns) == Retarget(keys, ns) + {Key(src.kind, ns, src.name)}
  {
  }

  lemma WroteKey(done: set<Key>, k: Key, from: string, name: string,
                 st0: ClusterState, st1: ClusterState, st2: ClusterState, c1: bool, c2: bool)
    requires HaveSources(done, from, st0.objects) && SourceOf(k, from) in st0.objects
    requires Acted(Writes(done, from, name, st0.objects), st0, st1, c1)
    requires Acted(map[k := Some(Project(st0.objects[SourceOf(k, from)], from, name))], st1, st2, c2)
    ensures HaveSources(done + {k}, from, st0.objects)
    ensures Acted(Writes(done + {k}, from, name, st0.objects), st0, st2, c1 && c2)
  {
    assert map[k := Some(Project(st0.objects[SourceOf(k, from)], from, name))] == Writes({k}, from, name, st0.objects);
    WritesJoin(done, {k}, from, name, st0.objects);
    ActedInTurn(Writes(done, from, name, st0.objects), Writes({k}, from, name, st0.objects), st0, st1, st2, c1, c2);
  }

  lemma NothingWritten(targetNS: string, from: string, name: string, st: ClusterState)
    ensures ItemsDone({}, 0, targetNS, from, name, st, st, 0)
  {
    var none: set<Key> := {};
    assert |none| == 0 && Counted(none, {}, targetNS, from, name, st.objects, st.objects);
    assert Writes(Retarget({}, targetNS), from, name, st.objects) == map[];
    ActedNothing(st, true);
  }

  ghost predicate ActedOnKind(kind: Kind, name: string, spec: Spec, ns: string, base: Store,
                              pre: ClusterState, post: ClusterState, clean: bool) {
    var keys := OfKind(WriteKeys(spec, {ns}, base), kind);
    HaveSources(keys, SourceNamespace(spec), base) &&
    Acted(Writes(keys, SourceNamespace(spec), name, base), pre, post, clean)
  }

  /** What one kind adds to a target's report: what is counted is in place, and it falls short of the sources only by
      failed calls, unless they could not be listed. */
  ghost predicate KindReport(kind: Kind, name: string, spec: Spec, ns: string, listed: bool, count: nat,
                             pre: ClusterState, post: ClusterState, failures: nat) {
    var expected := ExpectedCount(spec, pre.namespaces, pre.objects, kind, ns);
    && ActedOnKind(kind, name, spec, ns, pre.objects, pre, post, failures == 0)
    && count <= |InPlace(name, spec, {ns}, kind, post.objects)|
    && count <= expected
    && (listed || failures == 0 ==> expected <= count + failures)
    && (Enabled(spec, kind) ==>
          if listed then Usable(SelectorFor(spec, kind)) else Usable(SelectorFor(spec, kind)) ==> failures > 0)
    && (!listed ==> Enabled(spec, kind) && count == 0 && post == pre)
  }

  /** The sources could not be listed: a failed call, or a selector that cannot be used and so selects nothing. */
  lemma KindNotListed(kind: Kind, name: string, spec: Spec, ns: string, st: ClusterState, failures: nat)
    requires Enabled(spec, kind) && (Usable(SelectorFor(spec, kind)) ==> failures > 0)
    ensures KindReport(kind, name, spec, ns, false, 0, st, st, failures)
  {
    var keys := OfKind(WriteKeys(spec, {ns}, st.objects), kind);
    RetargetSources(spec, st.objects, kind, ns);
    if failures == 0 {
      assert SourceKeys(spec, st.objects, kind) == {};
      assert Writes(keys, SourceNamespace(spec), name, st.objects) == map[];
      ActedNothing(st, true);
    } else {
      ActedFailed(Writes(keys, SourceNamespace(spec), name, st.objects), st);
    }
  }

  lemma KindsReported(name: string, spec: Spec, ns: string, l1: bool, n1: nat, l2: bool, n2: nat,
                      st0: ClusterState, st1: ClusterState, st2: ClusterState, f0: nat, f1: nat, f2: nat)
    requires f0 <= f1 <= f2 && KindReport(SecretKind, name, spec, ns, l1, n1, st0, st1, f1 - f0)
    requires KindReport(ConfigMapKind, name, spec, ns, l2, n2, st1, st2, f2 - f1)
    ensures TargetSynced(name, spec, ns, NamespaceStatus(ns, n1, n2, l1 && l2), st0, st2, f2 - f0)
  {
    KindsTogether(name, spec, ns, st0, st1, st2, f1 == f0, f2 == f1);
    KindsInTurn(name, spec, ns, st0, st1, f1 == f0);
    KindsCloseTo(name, spec, ns, l1, n1, l2, n2, st0, st1, st2, f1 - f0, f2 - f1);
    InPlaceThrough(name, spec, ns, SecretKind, {ns}, OfKind(WriteKeys(spec, {ns}, st1.objects), ConfigMapKind),
                   st1.objects, st1, st2, f2 == f1);
  }

  lemma KindsCloseTo(name: string, spec: Spec, ns: string, l1: bool, n1: nat, l2: bool, n2: nat,
                     st0: ClusterState, st1: ClusterState, st2: ClusterState, f1: nat, f2: nat)
    requires KindReport(SecretKind, name, spec, ns, l1, n1, st0, st1, f1)
    requires KindReport(ConfigMapKind, name, spec, ns, l2, n2, st1, st2, f2)
    requires SourceKeys(spec, st1.objects, ConfigMapKind) == SourceKeys(spec, st0.objects, ConfigMapKind)
    ensures CloseTo(NamespaceStatus(ns, n1, n2, l1 && l2), ExpectedStatus(spec, st0.namespaces, st0.objects, ns),
                    f1 + f2)
  {
    assert ExpectedCount(spec, st1.namespaces, st1.objects, ConfigMapKind, ns) ==
           ExpectedCount(spec, st0.namespaces, st0.objects, ConfigMapKind, ns);
  }

  lemma KindDisabled(kind: Kind, name: string, spec: Spec, ns: string, st: ClusterState)
    requires !Enabled(spec, kind)
    ensures KindReport(kind, name, spec, ns, true, 0, st, st, 0)
  {
    assert OfKind(WriteKeys(spec, {ns}, st.objects), kind) == {};
    assert Writes({}, SourceNamespace(spec), name, st.objects) == map[];
    ActedNothing(st, true);
  }

  /** The second kind finds the sources the first one found. */
  lemma KindsInTurn(name: string, spec: Spec, ns: string, st0: ClusterState, st1: ClusterState, clean: bool)
    requires ActedOnKind(SecretKind, name, spec, ns, st0.objects, st0, st1, clean)
    ensures Unlabelled(st1.objects) == Unlabelled(st0.objects)
    ensures SourceKeys(spec, st1.objects, ConfigMapKind) == SourceKeys(spec, st0.objects, ConfigMapKind)
  {
    var keys := OfKind(WriteKeys(spec, {ns}, st0.objects), SecretKind);
    ActedKeeps(Writes(keys, SourceNamespace(spec), name, st0.objects), st0, st1, clean);
    SourceKeysByUnlabelled(spec, st1.objects, st0.objects, ConfigMapKind);
  }

  lemma KindsTogether(name: string, spec: Spec, ns: string, st0: ClusterState, st1: ClusterState, st2: ClusterState,
                      c1: bool, c2: bool)
    requires ActedOnKind(SecretKind, name, spec, ns, st0.objects, st0, st1, c1)
    requires ActedOnKind(ConfigMapKind, name, spec, ns, st1.objects, st1, st2, c2)
    ensures var keys := WriteKeys(spec, {ns}, st0.objects);
            HaveSources(keys, SourceNamespace(spec), st0.objects) &&
            Acted(Writes(keys, SourceNamespace(spec), name, st0.objects), st0, st2, c1 && c2)
  {
    var from, keys := SourceNamespace(spec), WriteKeys(spec, {ns}, st0.objects);
    var secrets, configMaps := OfKind(keys, SecretKind), OfKind(keys, ConfigMapKind);
    KindsInTurn(name, spec, ns, st0, st1, c1);
    WriteKeysByUnlabelled(spec, {ns}, st0.objects, st1.objects);
    SameWrites(configMaps, from, name, st0.objects, st1.objects);
    assert keys == secrets + configMaps;
    WritesJoin(secrets, configMaps, from, name, st0.objects);
    ActedInTurn(Writes(secrets, from, name, st0.objects), Writes(configMaps, from, name, st0.objects),
                st0, st1, st2, c1, c2);
  }

  lemma WroteOneTarget(name: string, spec: Spec, done: set<string>, ns: string,
                       st0: ClusterState, st1: ClusterState, st2: ClusterState, c1: bool, c2: bool)
    requires Unlabelled(st1.objects) == Unlabelled(st0.objects)
    requires Acted(Writes(WriteKeys(spec, done, st0.objects), SourceNamespace(spec), name, st0.objects), st0, st1, c1)
    requires Acted(Writes(WriteKeys(spec, {ns}, st1.objects), SourceNamespace(spec), name, st1.objects), st1, st2, c2)
    ensures Acted(Writes(WriteKeys(spec, done + {ns}, st0.objects), SourceNamespace(spec), name, st0.objects),
                  st0, st2, c1 && c2)
    ensures Unlabelled(st2.objects) == Unlabelled(st0.objects)
  {
    var from, a, b := SourceNamespace(spec), WriteKeys(spec, done, st0.objects), WriteKeys(spec, {ns}, st0.objects);
    WritesByUnlabelled(name, spec, {ns}, st0.objects, st1.objects);
    WritesJoin(a, b, from, name, st0.objects);
    assert WriteKeys(spec, done + {ns}, st0.objects) == a + b;
    ActedInTurn(Writes(a, from, name, st0.objects), Writes(b, from, name, st0.objects), st0, st1, st2, c1, c2);
    ActedKeeps(Writes(a + b, from, name, st0.objects), st0, st2, c1 && c2);
  }

  lemma NoTargetYet(name: string, spec: Spec, st: ClusterState)
    ensures TargetsDone(name, spec, [], 0, 0, [], st, st, 0)
  {
    assert Writes(WriteKeys(spec, {}, st.objects), SourceNamespace(spec), name, st.objects) == map[];
    ActedNothing(st, true);
  }

  /** The state of the outer loop after the targets in `done`. */
  ghost predicate TargetsDone(name: string, spec: Spec, done: seq<string>, secrets: nat, configMaps: nat,
                              list: seq<NamespaceStatus>, st0: ClusterState, st: ClusterState, failures: nat) {
    && TargetsWritten(name, spec, done, st0, st, failures == 0)
    && Accounted(Status(secrets, configMaps, list, true), done)
    && TargetsReported(name, spec, list, st0, st, failures)
  }

  ghost predicate TargetsWritten(name: string, spec: Spec, done: seq<string>,
                                 st0: ClusterState, st: ClusterState, clean: bool) {
    && Unlabelled(st.objects) == Unlabelled(st0.objects)
    && Acted(Writes(WriteKeys(spec, Elements(done), st0.objects), SourceNamespace(spec), name, st0.objects),
             st0, st, clean)
  }

  ghost predicate TargetsReported(name: string, spec: Spec, list: seq<NamespaceStatus>,
                                  st0: ClusterState, st: ClusterState, failures: nat) {
    && Backed(name, spec, st.objects, list)
    && AllCloseTo(list, spec, st0.namespaces, st0.objects, failures)
  }

  /** One turn of the outer loop: both kinds are written into one target and reported for it. */
  ghost predicate TargetSynced(name: string, spec: Spec, ns: string, last: NamespaceStatus,
                               st1: ClusterState, st2: ClusterState, failures: nat) {
    && HaveSources(WriteKeys(spec, {ns}, st1.objects), SourceNamespace(spec), st1.objects)
    && Acted(Writes(WriteKeys(spec, {ns}, st1.objects), SourceNamespace(spec), name, st1.objects),
             st1, st2, failures == 0)
    && last.ns == ns
    && TargetsReported(name, spec, [last], st1, st2, failures)
  }

  lemma TargetDone(name: string, spec: Spec, targets: seq<string>, i: nat, secrets: nat, configMaps: nat,
                   list: seq<NamespaceStatus>, last: NamespaceStatus,
                   st0: ClusterState, st1: ClusterState, st2: ClusterState, f0: nat, f1: nat, f2: nat)
    requires i < |targets| && f0 <= f1 <= f2
    requires TargetsDone(name, spec, targets[..i], secrets, configMaps, list, st0, st1, f1 - f0)
    requires TargetSynced(name, spec, targets[i], last, st1, st2, f2 - f1)
    ensures TargetsDone(name, spec, targets[..i + 1], secrets + last.secrets, configMaps + last.configMaps,
                        list + [last], st0, st2, f2 - f0)
  {
    TargetWritten(name, spec, targets, i, st0, st1, st2, f0, f1, f2);
    AccountedOneMore(Status(secrets, configMaps, list, true), targets, i, last);
    TargetReported(name, spec, targets[i], list, last, st0, st1, st2, f1 - f0, f2 - f1);
  }

  lemma TargetWritten(name: string, spec: Spec, targets: seq<string>, i: nat,
                      st0: ClusterState, st1: ClusterState, st2: ClusterState, f0: nat, f1: nat, f2: nat)
    requires i < |targets| && f0 <= f1 <= f2 && TargetsWritten(name, spec, targets[..i], st0, st1, f1 - f0 == 0)
    requires Acted(Writes(WriteKeys(spec, {targets[i]}, st1.objects), SourceNamespace(spec), name, st1.objects),
                   st1, st2, f2 - f1 == 0)
    ensures TargetsWritten(name, spec, targets[..i + 1], st0, st2, f2 - f0 == 0)
  {
    WroteOneTarget(name, spec, Elements(targets[..i]), targets[i], st0, st1, st2, f1 - f0 == 0, f2 - f1 == 0);
    assert Elements(targets[..i + 1]) == Elements(targets[..i]) + {targets[i]};
  }

  lemma TargetReported(name: string, spec: Spec, ns: string, list: seq<NamespaceStatus>, last: NamespaceStatus,
                       st0: ClusterState, st1: ClusterState, st2: ClusterState, f1: nat, f2: nat)
    requires TargetsReported(name, spec, list, st0, st1, f1) && TargetSynced(name, spec, ns, last, st1, st2, f2)
    requires Unlabelled(st1.objects) == Unlabelled(st0.objects) && st1.namespaces == st0.namespaces
    ensures TargetsReported(name, spec, list + [last], st0, st2, f1 + f2)
  {
    BackedThrough(name, spec, list, ns, st1, st2, f2 == 0);
    assert [last][0] == last;
    BackedOneMore(name, spec, st2.objects, list, last);
    ExpectedStatusByUnlabelled(spec, st0.namespaces, st1.objects, st0.objects, ns);
    CloseOneMore(list, last, spec, st0.namespaces, st0.objects, f1, f2);
  }

  lemma BackedOneMore(name: string, spec: Spec, s: Store, list: seq<NamespaceStatus>, last: NamespaceStatus)
    requires Backed(name, spec, s, list) && BackedAt(name, spec, s, last)
    ensures Backed(name, spec, s, list + [last])
  {
  }

  lemma ExpectedStatusByUnlabelled(spec: Spec, nss: set<string>, s: Store, t: Store, ns: string)
    requires Unlabelled(s) == Unlabelled(t)
    ensures ExpectedStatus(spec, nss, s, ns) == ExpectedStatus(spec, nss, t, ns)
  {
    SourceKeysByUnlabelled(spec, s, t, SecretKind);
    SourceKeysByUnlabelled(spec, s, t, ConfigMapKind);
  }

  /** Clean-up of removed namespaces, then the loop over the targets. */
  lemma CleanedThenWritten(name: string, spec: Spec, st0: ClusterState, st1: ClusterState, st2: ClusterState,
                           c1: bool, c2: bool)
    requires Acted(Deletions(StaleKeys(name, spec, Targets(spec, st0.namespaces), st0.objects)), st0, st1, c1)
    requires Acted(Writes(WriteKeys(spec, Targets(spec, st0.namespaces), st1.objects),
                          SourceNamespace(spec), name, st1.objects),
                   st1, st2, c2)
    ensures Acted(SyncPlan(name, spec, st0.namespaces, st0.objects), st0, st2, c1 && c2)
    ensures Unlabelled(st1.objects) == Unlabelled(st0.objects)
  {
    var from, targets := SourceNamespace(spec), Targets(spec, st0.namespaces);
    var p := Deletions(StaleKeys(name, spec, targets, st0.objects));
    ActedKeeps(p, st0, st1, c1);
    WritesByUnlabelled(name, spec, targets, st0.objects, st1.objects);
    var q := Writes(WriteKeys(spec, targets, st0.objects), from, name, st0.objects);
    ActedInTurn(p, q, st0, st1, st2, c1, c2);
  }

  /** Copies that are still in removed namespaces at the end of a pass: their deletion was missed. */
  lemma StaleWasMissed(name: string, spec: Spec, st0: ClusterState, st1: ClusterState, st2: ClusterState,
                       c1: bool, c2: bool)
    requires Acted(Deletions(StaleKeys(name, spec, Targets(spec, st0.namespaces), st0.objects)), st0, st1, c1)
    requires Acted(Writes(WriteKeys(spec, Targets(spec, st0.namespaces), st1.objects),
                          SourceNamespace(spec), name, st1.objects),
                   st1, st2, c2)
    ensures var targets := Targets(spec, st0.namespaces);
            |StaleKeys(name, spec, targets, st2.objects)| <=
            |Missed(StaleKeys(name, spec, targets, st0.objects), st1.objects)|
  {
    var targets := Targets(spec, st0.namespaces);
    var p := Writes(WriteKeys(spec, targets, st1.objects), SourceNamespace(spec), name, st1.objects);
    var stale := StaleKeys(name, spec, targets, st2.objects);
    var missed := Missed(StaleKeys(name, spec, targets, st0.objects), st1.objects);
    forall k | k in stale
      ensures k in missed
    {
      assert Lookup(st2.objects, k) == Lookup(st1.objects, k) ||
             Lookup(st2.objects, k) == EffectAt(p, st1.namespaces, st1.objects, k);
      DeletionsLeave(StaleKeys(name, spec, targets, st0.objects), st0.namespaces, st0.objects, st1.objects, k);
    }
    SubsetSize(stale, missed);
  }

  /** What is still to be deleted after part of the work. */
  lemma FinalKeysLater(name: string, spec: Spec, targets: set<string>, gone: set<Key>,
                       nss: set<string>, s0: Store, s1: Store)
    requires Partial(Deletions(gone), nss, s0, s1)
    ensures FinalKeys(name, spec, targets, s1) <= FinalKeys(name, spec, targets, s0)
    ensures FinalKeys(name, spec, targets, s0) <= gone + FinalKeys(name, spec, targets, s1)
  {
    forall k
      ensures k in s1 ==> k in s0 && s1[k] == s0[k]
      ensures k in s0 && k !in s1 ==> k in gone
    {
      DeletionsLeave(gone, nss, s0, s1, k);
    }
  }

  /** What a clean-up leaves is accounted for by its failed calls: each costs at most one target, whose copies could
      not be listed, or one copy. */
  ghost predicate CleanedBut(kind: Kind, name: string, spec: Spec, targets: set<string>, s: Store, failures: nat) {
    exists skipped: set<string> ::
      |skipped| + |OfKind(FinalKeys(name, spec, targets - skipped, s), kind)| <= failures
  }

  ghost predicate Shrunk(s1: Store, s2: Store) {
    forall k | k in s2 :: k in s1 && s2[k] == s1[k]
  }

  lemma TargetSkipped(kind: Kind, name: string, spec: Spec, ns: string, s: Store, failures: nat)
    requires failures > 0
    ensures CleanedBut(kind, name, spec, {ns}, s, failures)
  {
    assert {ns} - {ns} == {};
    assert OfKind(FinalKeys(name, spec, {ns} - {ns}, s), kind) == {};
  }

  lemma TargetCleaned(kind: Kind, name: string, spec: Spec, ns: string, pre: ClusterState, post: ClusterState,
                      failures: nat)
    requires Deleting(OfKind(FinalKeys(name, spec, {ns}, pre.objects), kind), pre, post, failures)
    ensures CleanedBut(kind, name, spec, {ns}, post.objects, failures)
  {
    var gone := OfKind(FinalKeys(name, spec, {ns}, pre.objects), kind);
    var left := OfKind(FinalKeys(name, spec, {ns}, post.objects), kind);
    DeletionsOnlyShrink(gone, pre, post, failures == 0);
    assert left <= Missed(gone, post.objects);
    SubsetSize(left, Missed(gone, post.objects));
    var none: set<string> := {};
    assert {ns} - none == {ns} && |none| == 0;
  }

  lemma DeletionsOnlyShrink(gone: set<Key>, pre: ClusterState, post: ClusterState, clean: bool)
    requires Acted(Deletions(gone), pre, post, clean)
    ensures Shrunk(pre.objects, post.objects)
  {
    forall k | k in post.objects
      ensures k in pre.objects && post.objects[k] == pre.objects[k]
    {
      DeletionsLeave(gone, pre.namespaces, pre.objects, post.objects, k);
    }
  }

  lemma CleanedButOneMore(kind: Kind, name: string, spec: Spec, a: set<string>, b: set<string>, s1: Store, s2: Store,
                          f0: nat, f1: nat, f2: nat)
    requires f0 <= f1 <= f2 && Shrunk(s1, s2)
    requires CleanedBut(kind, name, spec, a, s1, f1 - f0) && CleanedBut(kind, name, spec, b, s2, f2 - f1)
    ensures CleanedBut(kind, name, spec, a + b, s2, f2 - f0)
  {
    var sa :| |sa| + |OfKind(FinalKeys(name, spec, a - sa, s1), kind)| <= f1 - f0;
    var sb :| |sb| + |OfKind(FinalKeys(name, spec, b - sb, s2), kind)| <= f2 - f1;
    var la, lb := OfKind(FinalKeys(name, spec, a - sa, s1), kind), OfKind(FinalKeys(name, spec, b - sb, s2), kind);
    var left := OfKind(FinalKeys(name, spec, a + b - (sa + sb), s2), kind);
    assert left <= la + lb;
    SubsetSize(left, la + lb);
    SumSize(la, lb);
    SumSize(sa, sb);
  }

  lemma SumSize<T>(a: set<T>, b: set<T>)
    ensures |a + b| <= |a| + |b|
  {
    assert a + b == a + (b - a);
    SubsetSize(b - a, b);
  }

  lemma CleanedButStill(kind: Kind, name: string, spec: Spec, targets: set<string>, s1: Store, s2: Store, f: nat)
    requires CleanedBut(kind, name, spec, targets, s1, f) && Shrunk(s1, s2)
    ensures CleanedBut(kind, name, spec, targets, s2, f)
  {
    var skipped :| |skipped| + |OfKind(FinalKeys(name, spec, targets - skipped, s1), kind)| <= f;
    SubsetSize(OfKind(FinalKeys(name, spec, targets - skipped, s2), kind),
               OfKind(FinalKeys(name, spec, targets - skipped, s1), kind));
  }

  /** One kind has been cleaned up in the targets. */
  ghost predicate KindCleaned(kind: Kind, name: string, spec: Spec, targets: set<string>,
                              pre: ClusterState, post: ClusterState, failures: nat) {
    && Acted(Deletions(OfKind(FinalKeys(name, spec, targets, pre.objects), kind)), pre, post, failures == 0)
    && CleanedBut(kind, name, spec, targets, post.objects, failures)
  }

  lemma KindNotCleaned(kind: Kind, name: string, spec: Spec, targets: set<string>, st: ClusterState)
    ensures KindCleaned(kind, name, spec, {}, st, st, 0)
    ensures !Enabled(spec, kind) ==> KindCleaned(kind, name, spec, targets, st, st, 0)
  {
    var none: set<string> := {};
    assert |none| == 0 && none - none == none && targets - none == targets;
    assert OfKind(FinalKeys(name, spec, none, st.objects), kind) == {};
    assert !Enabled(spec, kind) ==> OfKind(FinalKeys(name, spec, targets, st.objects), kind) == {};
    assert Deletions({}) == map[];
    ActedNothing(st, true);
  }

  lemma CleanedOneMore(kind: Kind, name: string, spec: Spec, done: set<string>, ns: string,
                       st0: ClusterState, st1: ClusterState, st2: ClusterState, f0: nat, f1: nat, f2: nat)
    requires f0 <= f1 <= f2 && KindCleaned(kind, name, spec, done, st0, st1, f1 - f0)
    requires KindCleaned(kind, name, spec, {ns}, st1, st2, f2 - f1)
    ensures KindCleaned(kind, name, spec, done + {ns}, st0, st2, f2 - f0)
  {
    FinalKeysOneMore(kind, name, spec, done, ns, st0, st1, st2, f1 - f0 == 0, f2 - f1 == 0);
    DeletionsOnlyShrink(OfKind(FinalKeys(name, spec, {ns}, st1.objects), kind), st1, st2, f2 - f1 == 0);
    CleanedButOneMore(kind, name, spec, done, {ns}, st1.objects, st2.objects, f0, f1, f2);
  }

  lemma FinalKeysOneMore(kind: Kind, name: string, spec: Spec, done: set<string>, ns: string,
                         st0: ClusterState, st1: ClusterState, st2: ClusterState, c1: bool, c2: bool)
    requires Acted(Deletions(OfKind(FinalKeys(name, spec, done, st0.objects), kind)), st0, st1, c1)
    requires Acted(Deletions(OfKind(FinalKeys(name, spec, {ns}, st1.objects), kind)), st1, st2, c2)
    ensures Acted(Deletions(OfKind(FinalKeys(name, spec, done + {ns}, st0.objects), kind)), st0, st2, c1 && c2)
  {
    var a := OfKind(FinalKeys(name, spec, done, st0.objects), kind);
    var b := OfKind(FinalKeys(name, spec, {ns}, st1.objects), kind);
    DeletedInTurn(a, b, st0, st1, st2, c1, c2);
    assert a + b == OfKind(FinalKeys(name, spec, done + {ns}, st0.objects), kind) by {
      FinalKeysLater(name, spec, {ns}, a, st0.namespaces, st0.objects, st1.objects);
      assert FinalKeys(name, spec, done + {ns}, st0.objects) ==
             FinalKeys(name, spec, done, st0.objects) + FinalKeys(name, spec, {ns}, st0.objects);
    }
  }

  /** The failed calls of a clean-up of both kinds. */
  ghost predicate BothCleanedBut(name: string, spec: Spec, targets: set<string>, s: Store, failures: nat) {
    exists f: nat ::
      f <= failures && CleanedBut(SecretKind, name, spec, targets, s, f) &&
      CleanedBut(ConfigMapKind, name, spec, targets, s, failures - f)
  }

  lemma BothCleanedButMore(name: string, spec: Spec, targets: set<string>, s: Store, f1: nat, f2: nat)
    requires BothCleanedBut(name, spec, targets, s, f1) && f1 <= f2
    ensures BothCleanedBut(name, spec, targets, s, f2)
  {
    var f: nat :| f <= f1 && CleanedBut(SecretKind, name, spec, targets, s, f) &&
      CleanedBut(ConfigMapKind, name, spec, targets, s, f1 - f);
    var skipped :|
      |skipped| + |OfKind(FinalKeys(name, spec, targets - skipped, s), ConfigMapKind)| <= f1 - f;
    assert CleanedBut(ConfigMapKind, name, spec, targets, s, f2 - f);
  }

  lemma FinalKindsTogether(name: string, spec: Spec, targets: set<string>,
                           st0: ClusterState, st1: ClusterState, st2: ClusterState, f0: nat, f1: nat, f2: nat)
    requires f0 <= f1 <= f2 && KindCleaned(SecretKind, name, spec, targets, st0, st1, f1 - f0)
    requires KindCleaned(ConfigMapKind, name, spec, targets, st1, st2, f2 - f1)
    ensures Acted(Deletions(FinalKeys(name, spec, targets, st0.objects)), st0, st2, f2 == f0)
    ensures BothCleanedBut(name, spec, targets, st2.objects, f2 - f0)
  {
    FinalKeysTogether(name, spec, targets, st0, st1, st2, f1 - f0 == 0, f2 - f1 == 0);
    DeletionsOnlyShrink(OfKind(FinalKeys(name, spec, targets, st1.objects), ConfigMapKind), st1, st2, f2 - f1 == 0);
    CleanedButStill(SecretKind, name, spec, targets, st1.objects, st2.objects, f1 - f0);
  }

  lemma FinalKeysTogether(name: string, spec: Spec, targets: set<string>,
                          st0: ClusterState, st1: ClusterState, st2: ClusterState, c1: bool, c2: bool)
    requires Acted(Deletions(OfKind(FinalKeys(name, spec, targets, st0.objects), SecretKind)), st0, st1, c1)
    requires Acted(Deletions(OfKind(FinalKeys(name, spec, targets, st1.objects), ConfigMapKind)), st1, st2, c2)
    ensures Acted(Deletions(FinalKeys(name, spec, targets, st0.objects)), st0, st2, c1 && c2)
  {
    var all := FinalKeys(name, spec, targets, st0.objects);
    var a := OfKind(all, SecretKind);
    var b := OfKind(FinalKeys(name, spec, targets, st1.objects), ConfigMapKind);
    DeletedInTurn(a, b, st0, st1, st2, c1, c2);
    assert a + b == all by {
      FinalKeysLater(name, spec, targets, a, st0.namespaces, st0.objects, st1.objects);
    }
  }

  // ---- What one pass of this controller is, as a relation on cluster states ----

  /** The status a pass writes: it accounts for the targets, and with no failed call each target is reported
      as it was found.  Ready is always true. */
  ghost predicate Reported(spec: Spec, nss: set<string>, s: Store, st: Status, clean: bool) {
    exists targets ::
      && IsTargetList(targets, spec, nss)
      && Accounted(st, targets)
      && st.ready
      && (clean ==> forall i | 0 <= i < |targets| :: st.namespaces[i] == ExpectedStatus(spec, nss, s, targets[i]))
  }

  ghost predicate ReportStored(pre: ClusterState, post: ClusterState, name: string, clean: bool)
    requires name in pre.configSyncs
  {
    && name in post.configSyncs
    && var spec, status := pre.configSyncs[name].spec, post.configSyncs[name].status;
    && Reported(spec, pre.namespaces, pre.objects, status, clean)
    && Backed(name, spec, post.objects, status.namespaces)
  }

  lemma Reports(spec: Spec, targets: seq<string>, status: Status, st0: ClusterState, st1: ClusterState, clean: bool)
    requires IsTargetList(targets, spec, st0.namespaces) && Accounted(status, targets) && status.ready
    requires Unlabelled(st1.objects) == Unlabelled(st0.objects)
    requires clean ==> AllCloseTo(status.namespaces, spec, st0.namespaces, st1.objects, 0)
    ensures Reported(spec, st0.namespaces, st0.objects, status, clean)
  {
    forall i | clean && 0 <= i < |targets|
      ensures status.namespaces[i] == ExpectedStatus(spec, st0.namespaces, st0.objects, targets[i])
    {
      assert status.namespaces[i].ns == targets[i];
      ExpectedStatusByUnlabelled(spec, st0.namespaces, st0.objects, st1.objects, targets[i]);
    }
  }

  ghost predicate SyncStep(pre: ClusterState, post: ClusterState, name: string, clean: bool)
    requires name in pre.configSyncs
  {
    var cs := pre.configSyncs[name];
    && post.namespaces == pre.namespaces
    && Performed(SyncPlan(name, cs.spec, pre.namespaces, pre.objects), pre.namespaces, pre.objects, post.objects, clean)
    && OperatorEvents(pre.events, post.events)
    && name in post.configSyncs
    && post.configSyncs == pre.configSyncs[name := cs.(status := post.configSyncs[name].status)]
    && (clean || post.configSyncs[name].status != cs.status ==> ReportStored(pre, post, name, clean))
  }

  /** The ConfigSyncs after `name` gave up our finalizer; it is gone if no other finalizer holds it. */
  function Released(css: map<string, ConfigSync>, name: string): map<string, ConfigSync>
    requires name in css
  {
    StoredUpdate(css, css[name].(name := name, finalizers := Without(css[name].finalizers, {FINALIZER})))
  }

  /** A finalizing pass.  The finalizer can go even if deletions failed: their errors are only logged. */
  ghost predicate FinalStep(pre: ClusterState, post: ClusterState, name: string, clean: bool)
    requires name in pre.configSyncs
  {
    var cs := pre.configSyncs[name];
    && post.namespaces == pre.namespaces
    && Performed(FinalPlan(name, cs.spec, pre.namespaces, pre.objects), pre.namespaces,
                 pre.objects, post.objects, clean)
    && OperatorEvents(pre.events, post.events)
    && (post.configSyncs == pre.configSyncs || post.configSyncs == Released(pre.configSyncs, name))
    && (clean ==> post.configSyncs == Released(pre.configSyncs, name))
  }

  function Held(css: map<string, ConfigSync>, name: string): map<string, ConfigSync>
    requires name in css
  {
    css[name := css[name].(finalizers := css[name].finalizers + [FINALIZER])]
  }

  ghost predicate HoldStep(pre: ClusterState, post: ClusterState, name: string, clean: bool)
    requires name in pre.configSyncs
  {
    && post.namespaces == pre.namespaces
    && post.objects == pre.objects
    && OperatorEvents(pre.events, post.events)
    && (post.configSyncs == pre.configSyncs || post.configSyncs == Held(pre.configSyncs, name))
    && (clean ==> post.configSyncs == Held(pre.configSyncs, name))
  }

  /** One call of Reconcile for the ConfigSync called `name`; `clean` says that none of its calls failed. */
  ghost predicate ConfigSyncStep(pre: ClusterState, post: ClusterState, name: string, clean: bool) {
    if name !in pre.configSyncs then post == pre
    else if pre.configSyncs[name].deleting then
      if FINALIZER in pre.configSyncs[name].finalizers then FinalStep(pre, post, name, clean) else post == pre
    else if FINALIZER in pre.configSyncs[name].finalizers then SyncStep(pre, post, name, clean)
    else HoldStep(pre, post, name, clean)
  }

  /** When the controller wants to run again for `name`, if it does not fail. */
  function NextRun(css: map<string, ConfigSync>, name: string): Outcome {
    if name !in css || css[name].deleting then Done
    else if FINALIZER in css[name].finalizers then RequeueAfterInterval
    else Requeue
  }

  /** How far a pass got that gave up: nothing was touched before the clean-up of removed namespaces, and if that
      could not list the copies only deletions of it happened. */
  ghost predicate GaveUpAt(pre: ClusterState, post: ClusterState, name: string, stage: Stage) {
    match stage
    case Fetching | Targeting => post == pre
    case Cleaning =>
      && name in pre.configSyncs && Live(pre.configSyncs[name])
      && var spec := pre.configSyncs[name].spec;
      && Acted(Deletions(StaleKeys(name, spec, Targets(spec, pre.namespaces), pre.objects)), pre, post, false)
    case ReleasingFinalizer => name in pre.configSyncs && pre.configSyncs[name].deleting
    case TakingFinalizer => name in pre.configSyncs && post.objects == pre.objects
    case StoringStatus => name in pre.configSyncs && Live(pre.configSyncs[name])
  }

  /** A pass for it syncs. */
  predicate Live(cs: ConfigSync) {
    !cs.deleting && FINALIZER in cs.finalizers
  }

  lemma GaveUp(name: string, st: ClusterState)
    ensures ConfigSyncStep(st, st, name, false)
  {
  }

  /** The deletions are done; the finalizer may be given up. */
  lemma FinalizerDropped(cs: ConfigSync, pre: ClusterState, mid: ClusterState, post: ClusterState, c1: bool, c2: bool)
    requires WellFormed(pre) && WellFormed(mid) && cs.name in pre.configSyncs && pre.configSyncs[cs.name] == cs
    requires Acted(FinalPlan(cs.name, cs.spec, pre.namespaces, pre.objects), pre, mid, c1)
    requires post.objects == mid.objects && post.namespaces == mid.namespaces
    requires (post.configSyncs == mid.configSyncs && post.events == mid.events && !c2) ||
             (post.configSyncs == Released(mid.configSyncs, cs.name) &&
              post.events == mid.events + [ConfigSyncWritten(cs.name)])
    ensures FinalStep(pre, post, cs.name, c1 && c2)
    ensures WellFormed(post)
  {
    WroteConfigSync(pre.events, mid.events, cs.name);
    forall n | n in post.configSyncs
      ensures NamedAndHeld(n, post.configSyncs[n])
    {
      assert NamedAndHeld(n, mid.configSyncs[n]);
    }
  }

  /** The objects are synced; the status may be stored. */
  lemma StatusStored(cs: ConfigSync, status: Status, pre: ClusterState, mid: ClusterState, post: ClusterState,
                     f0: nat, f1: nat, f2: nat)
    requires cs.name in pre.configSyncs && pre.configSyncs[cs.name] == cs && f0 <= f1 <= f2
    requires Acted(SyncPlan(cs.name, cs.spec, pre.namespaces, pre.objects), pre, mid, f1 == f0)
    requires Reported(cs.spec, pre.namespaces, pre.objects, status, f1 == f0)
    requires Backed(cs.name, cs.spec, mid.objects, status.namespaces)
    requires post.objects == mid.objects && post.namespaces == mid.namespaces
    requires (post.configSyncs == mid.configSyncs && post.events == mid.events && f2 > f1) ||
             (post.configSyncs == StoredStatus(mid.configSyncs, cs.(status := status)) &&
              post.events == mid.events + [ConfigSyncWritten(cs.name)])
    ensures SyncStep(pre, post, cs.name, f2 == f0)
    ensures post.configSyncs == StoredStatus(mid.configSyncs, cs.(status := status)) ==>
      ReportStored(pre, post, cs.name, f2 == f0)
  {
    ReportedStill(cs.spec, pre.namespaces, pre.objects, status, f1 == f0, f2 == f0);
    WroteConfigSync(pre.events, mid.events, cs.name);
  }

  lemma StatusKeepsWellFormed(cs: ConfigSync, pre: ClusterState, post: ClusterState)
    requires WellFormed(pre) && cs.name in pre.configSyncs
    requires post.objects == pre.objects && post.namespaces == pre.namespaces
    requires post.configSyncs == pre.configSyncs || post.configSyncs == StoredStatus(pre.configSyncs, cs)
    ensures WellFormed(post)
  {
    forall n | n in post.configSyncs
      ensures NamedAndHeld(n, post.configSyncs[n])
    {
      assert NamedAndHeld(n, pre.configSyncs[n]);
    }
  }

  lemma ReportedStill(spec: Spec, nss: set<string>, s: Store, st: Status, clean: bool, cleaner: bool)
    requires Reported(spec, nss, s, st, clean) && (cleaner ==> clean)
    ensures Reported(spec, nss, s, st, cleaner)
  {
  }

  lemma WroteConfigSync(before: seq<Event>, after: seq<Event>, name: string)
    requires OperatorEvents(before, after)
    ensures OperatorEvents(before, after + [ConfigSyncWritten(name)])
  {
  }

  lemma StatusNotStored(name: string, pre: ClusterState, post: ClusterState, f0: nat, f1: nat)
    requires name in pre.configSyncs && f0 < f1
    requires Acted(SyncPlan(name, pre.configSyncs[name].spec, pre.namespaces, pre.objects), pre, post, f1 == f0)
    ensures SyncStep(pre, post, name, f1 == f0)
  {
  }

  lemma CleanedPartly(name: string, spec: Spec, st0: ClusterState, st1: ClusterState, clean: bool)
    requires Acted(Deletions(StaleKeys(name, spec, Targets(spec, st0.namespaces), st0.objects)), st0, st1, clean)
    ensures Acted(SyncPlan(name, spec, st0.namespaces, st0.objects), st0, st1, false)
  {
    var targets := Targets(spec, st0.namespaces);
    var stale := StaleKeys(name, spec, targets, st0.objects);
    forall k
      ensures Lookup(st1.objects, k) == Lookup(st0.objects, k) ||
              Lookup(st1.objects, k) ==
              EffectAt(SyncPlan(name, spec, st0.namespaces, st0.objects), st0.namespaces, st0.objects, k)
    {
      assert Lookup(st1.objects, k) == Lookup(st0.objects, k) ||
             Lookup(st1.objects, k) == EffectAt(Deletions(stale), st0.namespaces, st0.objects, k);
      assert k in stale ==> k !in WriteKeys(spec, targets, st0.objects);
    }
  }
}
