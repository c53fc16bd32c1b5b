/** Concrete inputs on which expectations one may have of the operator fail.  The exact conditions are in
    PassTheorems and Runs. */
module Counterexamples {
  import opened Objects
  import opened ConfigSyncs
  import opened Plans
  import opened Passes
  import opened Clusters
  import opened ConfigSyncSteps
  import opened ResourceController
  import opened NamespaceController
  import opened PassTheorems
  import opened Runs

  function Copying(from: string, to: seq<string>): Spec {
    Spec(from, to, [], None, None, None, None)
  }

  const PLAIN := Object(map[], map[], SecretContent("Opaque", map[]))

  function Secret(ns: string): Key {
    Key(SecretKind, ns, "token")
  }

  /** Two ConfigSyncs that copy the same name into one namespace do not commute: the last one wins. */
  lemma OverlapDoesNotCommute()
    ensures var nss, s := {"a", "b", "c"}, map[Secret("a") := PLAIN, Secret("c") := PLAIN];
            Synced("two", Copying("c", ["b"]), nss, Synced("one", Copying("a", ["b"]), nss, s)) !=
            Synced("one", Copying("a", ["b"]), nss, Synced("two", Copying("c", ["b"]), nss, s))
  {
    var nss, s := {"a", "b", "c"}, map[Secret("a") := PLAIN, Secret("c") := PLAIN];
    var k := Secret("b");
    assert SourceOf(k, "a") == Secret("a") && SourceOf(k, "c") == Secret("c");
    assert k in WriteSet(Copying("a", ["b"]), nss, s) && k in WriteSet(Copying("c", ["b"]), nss, s);
    assert k in Contested(Copying("a", ["b"]), Copying("c", ["b"]), nss, s);
    PassesCommuteExactly("one", Copying("a", ["b"]), "two", Copying("c", ["b"]), nss, s);
  }

  /** A copy whose source is gone, in a namespace that is still a target, is left alone by every pass. */
  lemma LeftoverSurvives()
    ensures var nss, s := {"a", "b"}, map[Secret("b") := Project(PLAIN, "a", "one")];
            Settled("one", Copying("a", ["b"]), nss, s) && Secret("b") in Leftovers("one", Copying("a", ["b"]), nss, s)
  {
    var nss, s, spec := {"a", "b"}, map[Secret("b") := Project(PLAIN, "a", "one")], Copying("a", ["b"]);
    assert Targets(spec, nss) == {"b"};
    assert forall src :: !Selected(spec, s, src);
  }

  /** Copies of a kind that was switched off after they were made survive finalization. */
  lemma DisabledKindSurvivesFinalization()
    ensures var nss, s := {"a", "b"}, map[Secret("b") := Project(PLAIN, "a", "one")];
            Finalized("one", Copying("a", ["b"]).(syncSecrets := Some(false)), nss, s) == s
  {
    var nss, s := {"a", "b"}, map[Secret("b") := Project(PLAIN, "a", "one")];
    var spec := Copying("a", ["b"]).(syncSecrets := Some(false));
    forall k
      ensures Lookup(Finalized("one", spec, nss, s), k) == Lookup(s, k)
    {
      FinalizedAt("one", spec, nss, s, k);
    }
    SameStore(Finalized("one", spec, nss, s), s);
  }

  /** A copy made from a former source namespace, in a current target and of an enabled kind, survives sync passes and
      finalization alike. */
  lemma FormerSourceSurvives()
    ensures var nss, s := {"a", "b", "c"}, map[Secret("b") := Project(PLAIN, "a", "one")];
            var spec := Copying("c", ["b"]);
            && "b" in Targets(spec, nss) && Enabled(spec, SecretKind)
            && Settled("one", spec, nss, s) && Finalized("one", spec, nss, s) == s
  {
    var nss, s, spec := {"a", "b", "c"}, map[Secret("b") := Project(PLAIN, "a", "one")], Copying("c", ["b"]);
    assert Targets(spec, nss) == {"b"} && SourceNamespace(spec) == "c";
    assert forall src :: !Selected(spec, s, src);
    forall k
      ensures Lookup(Finalized("one", spec, nss, s), k) == Lookup(s, k)
    {
      FinalizedAt("one", spec, nss, s, k);
    }
    SameStore(Finalized("one", spec, nss, s), s);
  }

  /** A pass that targets every namespace writes into the operator's own. */
  lemma OperatorNamespaceIsWritten()
    ensures var nss, s := {"a", OPERATOR_NAMESPACE}, map[Secret("a") := PLAIN];
            var t := Synced("one", Copying("a", []), nss, s);
            Lookup(t, Secret(OPERATOR_NAMESPACE)) == Some(Project(PLAIN, "a", "one"))
  {
    var nss, s, spec := {"a", OPERATOR_NAMESPACE}, map[Secret("a") := PLAIN], Copying("a", []);
    OperatorNamespaceTargetedExactly(spec, nss);
    assert SourceOf(Secret(OPERATOR_NAMESPACE), "a") == Secret("a");
    SyncedAt("one", spec, nss, s, Secret(OPERATOR_NAMESPACE));
  }

  /** A new label on a source is due for its copies, and no event filter lets the update through. */
  lemma RelabelledSourceIsMissed(css: map<string, ConfigSync>)
    ensures var relabelled := PLAIN.(labels := map["tier" := "web"]);
            Due(Copying("a", ["b"]), Secret("a"), PLAIN, relabelled) &&
            !Accepts(Updated(Secret("a"), PLAIN, relabelled), css)
  {
    var relabelled := PLAIN.(labels := map["tier" := "web"]);
    assert "tier" in relabelled.labels - {SYNCED_FROM, SYNCED_BY};
    assert "tier" !in PLAIN.labels - {SYNCED_FROM, SYNCED_BY};
  }

  /** A ConfigSync that targets every namespace is not triggered by a new one. */
  lemma EmptyTargetListIsNotTriggered()
    ensures "b" in Targets(Copying("a", []), {"a", "b"}) && !ListsNamespace(Copying("a", []), "b")
  {
    assert !IsSystem("b");
  }

  /** The source in namespace a is deleted, another ConfigSync puts a copy in its place, and only then does the
      controller look: the copy in b stays. */
  lemma CascadeIsKeptAway(now: string)
    ensures var copies := map[Secret("a") := Project(PLAIN, "c", "two"), Secret("b") := Project(PLAIN, "a", "one")];
            var st := ClusterState(copies, {"a", "b", "c"}, map[], []);
            forall post, clean, failed | ResourceStep(st, post, Secret("a"), now, clean, failed) ::
              Secret("b") in post.objects && IsCopyOf(Secret("b"), post.objects[Secret("b")], Secret("a"))
  {
  }
}
