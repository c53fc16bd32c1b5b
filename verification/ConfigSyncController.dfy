/** The main controller: finalizer, targets, clean-up of removed namespaces, and the targets-by-sources loop. */
module ConfigSyncController {
  import opened Objects
  import opened Selectors
  import opened ConfigSyncs
  import opened Plans
  import opened Passes
  import opened Clusters
  import opened Acts
  import opened ConfigSyncSteps

  /** The listed items that are sources. */
  method KeepSources(items: seq<Item>, keys: set<Key>, s: Store) returns (filtered: seq<Item>)
    requires Listing(items, keys, s)
    ensures Listing(filtered, (set k | k in keys && IsSource(s[k])), s)
  {
    filtered := [];
    for i := 0 to |items|
      invariant forall k | k in ItemKeys(items[..i]) :: k in s
      invariant Listing(filtered, (set k | k in ItemKeys(items[..i]) && IsSource(s[k])), s)
    {
      ItemKeysSnoc(items, i);
      ghost var kept := set k | k in ItemKeys(items[..i]) && IsSource(s[k]);
      ghost var longer := set k | k in ItemKeys(items[..i + 1]) && IsSource(s[k]);
      if !IsServiceAccountToken(items[i].obj) && SYNCED_FROM !in items[i].obj.labels {
        assert longer == kept + {items[i].key};
        assert items[i].key !in ItemKeys(items[..i]);
        ListingSnoc(filtered, kept, s, items[i]);
        filtered := filtered + [items[i]];
      } else {
        assert longer == kept;
      }
    }
    assert items[..|items|] == items;
  }

  class ConfigSyncReconciler {
    const client: Cluster

    constructor (client: Cluster)
      ensures this.client == client
    {
      this.client := client;
    }

    method FilterNamespaces(namespaces: seq<string>, excluded: seq<string>, sourceNS: string)
      returns (result: seq<string>)
      ensures result == Without(namespaces, ExcludedSet(excluded, sourceNS))
    {
      var excludedSet := {sourceNS, "kube-system", "kube-public", "kube-node-lease"};
      for i := 0 to |excluded|
        invariant excludedSet == ExcludedSet(excluded[..i], sourceNS)
      {
        assert excluded[..i + 1] == excluded[..i] + [excluded[i]];
        excludedSet := excludedSet + {excluded[i]};
      }
      assert excluded[..|excluded|] == excluded;
      result := [];
      for i := 0 to |namespaces|
        invariant result == Without(namespaces[..i], excludedSet)
      {
        WithoutNext(namespaces, i, excludedSet);
        if namespaces[i] !in excludedSet {
          result := result + [namespaces[i]];
        }
      }
      assert namespaces[..|namespaces|] == namespaces;
    }

    method GetTargetNamespaces(spec: Spec, sourceNS: string) returns (r: Result<seq<string>>)
      requires sourceNS == SourceNamespace(spec)
      modifies client`faults, client`unlisted
      ensures r.Ok? ==> IsTargetList(r.value, spec, client.namespaces)
      ensures client.faults == old(client.faults) + if r.Err? then 1 else 0
      ensures client.unlisted == old(client.unlisted) + if r.Err? then 1 else 0
    {
      if |spec.targetNamespaces| > 0 {
        var filtered := FilterNamespaces(spec.targetNamespaces, spec.excludedNamespaces, sourceNS);
        FilteredIsTargetList(spec.targetNamespaces, spec, client.namespaces);
        return Ok(filtered);
      }
      var listed := client.ListNamespaces();
      if listed.Err? {
        return Err(listed.error);
      }
      var filtered := FilterNamespaces(listed.value, spec.excludedNamespaces, sourceNS);
      FilteredIsTargetList(listed.value, spec, client.namespaces);
      return Ok(filtered);
    }

    // ---- Clean-up of namespaces that are no longer targets ----

    /** Deletes, kind by kind, what this ConfigSync copied into namespaces that are no longer targets. */
    method CleanupRemovedKind(kind: Kind, name: string, spec: Spec, sourceNS: string, targetSet: set<string>)
      returns (err: Option<Error>)
      requires client.Valid() && sourceNS == SourceNamespace(spec)
      modifies client`objects, client`events, client`faults
      ensures client.Valid() && client.faults >= old(client.faults)
      ensures err.Some? ==> client.faults > old(client.faults)
      ensures Acted(Deletions(OfKind(StaleKeys(name, spec, targetSet, old(client.objects)), kind)),
                    old(client.View()), client.View(), client.faults == old(client.faults))
      ensures err.None? ==>
        |Missed(OfKind(StaleKeys(name, spec, targetSet, old(client.objects)), kind), client.objects)| <=
        client.faults - old(client.faults)
    {
      ghost var st0, f0 := client.View(), client.faults;
      ghost var stale := StaleKeys(name, spec, targetSet, st0.objects);
      var listed := client.List(kind, None, None);
      if listed.Err? {
        ActedFailed(Deletions(OfKind(stale, kind)), st0);
        return Some(listed.error);
      }
      var items := listed.value;
      ghost var keys := client.Matching(kind, None, None);
      DeletingNothing(st0);
      for i := 0 to |items|
        invariant client.Valid() && client.faults >= f0
        invariant Deleting(ItemKeys(items[..i]) * stale, st0, client.View(), client.faults - f0)
      {
        StaleIfOurs(items, i, keys, name, spec, targetSet, st0.objects);
        var k, labels := items[i].key, items[i].obj.labels;
        var managed := SYNCED_FROM in labels && SYNCED_BY in labels;
        var ours := managed && labels[SYNCED_FROM] == sourceNS && labels[SYNCED_BY] == name;
        var shouldDelete := ours && IsStaleNamespace(spec, targetSet, k.ns);
        DeleteIfChosen(client, items, i, shouldDelete, keys, stale, st0, f0);
      }
      assert items[..|items|] == items;
      assert ItemKeys(items) * stale == OfKind(stale, kind);
      err := None;
    }

    method CleanupRemovedNamespaces(name: string, spec: Spec, sourceNS: string, currentTargets: seq<string>)
      returns (err: Option<Error>)
      requires client.Valid() && sourceNS == SourceNamespace(spec)
      modifies client`objects, client`events, client`faults
      ensures client.Valid() && client.faults >= old(client.faults)
      ensures err.Some? ==> client.faults > old(client.faults)
      ensures Acted(Deletions(StaleKeys(name, spec, Elements(currentTargets), old(client.objects))),
                    old(client.View()), client.View(), client.faults == old(client.faults))
      ensures err.None? ==>
        |Missed(StaleKeys(name, spec, Elements(currentTargets), old(client.objects)), client.objects)| <=
        client.faults - old(client.faults)
    {
      ghost var st0, f0 := client.View(), client.faults;
      var targetSet := Elements(currentTargets);
      ghost var stale := StaleKeys(name, spec, targetSet, st0.objects);
      ghost var secrets, configMaps := OfKind(stale, SecretKind), OfKind(stale, ConfigMapKind);
      assert stale == secrets + configMaps;
      DeletionsJoin(secrets, configMaps);
      err := CleanupRemovedKind(SecretKind, name, spec, sourceNS, targetSet);
      ghost var st1, f1 := client.View(), client.faults;
      if err.Some? {
        ActedFailed(Deletions(configMaps), st1);
        ActedInTurn(Deletions(secrets), Deletions(configMaps), st0, st1, st1, f1 == f0, false);
        return;
      }
      StaleOfKindLater(ConfigMapKind, secrets, name, spec, targetSet, st0.namespaces, st0.objects, st1.objects);
      err := CleanupRemovedKind(ConfigMapKind, name, spec, sourceNS, targetSet);
      ActedInTurn(Deletions(secrets), Deletions(configMaps), st0, st1, client.View(), f1 == f0, client.faults == f1);
      DeletionsShrink(configMaps, st1, client.View(), client.faults == f1);
      MissedTogether(secrets, configMaps, st1.objects, client.objects);
    }

    // ---- The targets-by-sources loop ----

    /** Lists what the selector accepts in the source namespace, less service account tokens and copies. */
    method ListSources(kind: Kind, spec: Spec, sourceNS: string) returns (r: Result<seq<Item>>)
      requires sourceNS == SourceNamespace(spec)
      modifies client`faults
      ensures r.Ok? ==> Usable(SelectorFor(spec, kind)) &&
                        Listing(r.value, SourceKeys(spec, client.objects, kind), client.objects)
      ensures r.Ok? ==> forall k :: k in ItemKeys(r.value) <==> k.kind == kind && IsToBeCopied(spec, client.objects, k)
      ensures r.Err? ==> r.error == Fault || (r.error == InvalidSelector && !Usable(SelectorFor(spec, kind)))
      ensures client.faults == old(client.faults) + if r == Err(Fault) then 1 else 0
    {
      var selector := SelectorFor(spec, kind);
      if !Usable(selector) {
        return Err(InvalidSelector);
      }
      var listed := client.List(kind, Some(sourceNS), selector);
      if listed.Err? {
        return listed;
      }
      var filtered := KeepSources(listed.value, client.Matching(kind, Some(sourceNS), selector), client.objects);
      assert (set k | k in client.Matching(kind, Some(sourceNS), selector) && IsSource(client.objects[k])) ==
             SourceKeys(spec, client.objects, kind);
      forall k
        ensures Selected(spec, client.objects, k) <==> IsToBeCopied(spec, client.objects, k)
      {
        SelectedExactly(spec, client.objects, k);
      }
      return Ok(filtered);
    }

    /** One copy: create it, overwrite it if it is managed, or leave a user's object of that name alone. */
    method SyncObject(source: Item, targetNS: string, sourceNS: string, name: string) returns (err: Option<Error>)
      requires client.Valid()
      modifies client`objects, client`events, client`faults
      ensures client.Valid() && client.faults >= old(client.faults)
      ensures var k, copy := Key(source.key.kind, targetNS, source.key.name), Project(source.obj, sourceNS, name);
              && Acted(map[k := Some(copy)], old(client.View()), client.View(), client.faults == old(client.faults))
              && (err.None? ==> targetNS in client.namespaces && InEffect(client.objects, k, copy))
      ensures err.None? ==>
        var k := Key(source.key.kind, targetNS, source.key.name);
        k in client.objects && (Labelled(client.objects[k]) ==> IsCopy(client.objects[k], source.obj, sourceNS, name))
      ensures err.Some? ==> client.faults > old(client.faults) || targetNS !in client.namespaces
    {
      ghost var st0, f0 := client.View(), client.faults;
      var target := Project(source.obj, sourceNS, name);
      var k := Key(source.key.kind, targetNS, source.key.name);
      IsCopyExactly(target, source.obj, sourceNS, name);
      var got := client.Get(k);
      if got == Err(NotFound) {
        err := client.Create(k, target);
        OneWrite(k, target, st0, client.View(), client.faults == f0);
        return;
      }
      if got.Err? {
        ActedFailed(map[k := Some(target)], st0);
        return Some(got.error);
      }
      if SYNCED_FROM in got.value.labels {
        var existing := got.value.(content := target.content,
                                   labels := target.labels,
                                   annotations := target.annotations);
        err := client.Update(k, existing);
        OneWrite(k, target, st0, client.View(), client.faults == f0);
        return;
      }
      OneWrite(k, target, st0, client.View(), client.faults == f0);
      return None;
    }

    /** The inner loop: the listed sources into one target.  It counts the copies that reported no error; these are
        in effect, and the others met a failed call or a namespace that does not exist. */
    method SyncItems(items: seq<Item>, ghost sources: set<Key>, name: string, sourceNS: string, targetNS: string)
      returns (count: nat)
      requires client.Valid() && Listing(items, sources, client.objects)
      requires forall src | src in sources :: src.ns == sourceNS
      modifies client`objects, client`events, client`faults
      ensures client.Valid() && client.faults >= old(client.faults)
      ensures ItemsDone(sources, count, targetNS, sourceNS, name,
                        old(client.View()), client.View(), client.faults - old(client.faults))
    {
      ghost var st0, f0 := client.View(), client.faults;
      count := 0;
      NothingWritten(targetNS, sourceNS, name, st0);
      for i := 0 to |items|
        invariant client.Valid() && client.faults >= f0
        invariant ItemsDone(ItemKeys(items[..i]), count, targetNS, sourceNS, name,
                            st0, client.View(), client.faults - f0)
      {
        ghost var st1, f1 := client.View(), client.faults;
        var err := SyncObject(items[i], targetNS, sourceNS, name);
        ItemDone(items, i, sources, count, err.None?, targetNS, sourceNS, name, st0, st1, client.View(),
                 f0, f1, client.faults);
        if err.None? {
          count := count + 1;
        }
      }
      assert items[..|items|] == items;
    }

    /** All sources of one kind into one target, if the kind is enabled. */
    method SyncKind(kind: Kind, name: string, spec: Spec, sourceNS: string, targetNS: string)
      returns (listed: bool, count: nat)
      requires client.Valid() && sourceNS == SourceNamespace(spec) && targetNS != sourceNS
      modifies client`objects, client`events, client`faults
      ensures client.Valid() && client.faults >= old(client.faults)
      ensures KindReport(kind, name, spec, targetNS, listed, count,
                         old(client.View()), client.View(), client.faults - old(client.faults))
    {
      ghost var st0, f0 := client.View(), client.faults;
      if !Enabled(spec, kind) {
        KindDisabled(kind, name, spec, targetNS, st0);
        return true, 0;
      }
      RetargetSources(spec, st0.objects, kind, targetNS);
      var got := ListSources(kind, spec, sourceNS);
      if got.Err? {
        KindNotListed(kind, name, spec, targetNS, st0, client.faults - f0);
        return false, 0;
      }
      listed := true;
      count := SyncItems(got.value, SourceKeys(spec, st0.objects, kind), name, sourceNS, targetNS);
      KindCopied(kind, name, spec, targetNS, count, st0, client.View(), client.faults - f0);
    }

    /** One turn of the outer loop: both kinds into one target. */
    method SyncTarget(name: string, spec: Spec, sourceNS: string, targetNS: string) returns (status: NamespaceStatus)
      requires client.Valid() && sourceNS == SourceNamespace(spec) && targetNS != sourceNS
      modifies client`objects, client`events, client`faults
      ensures client.Valid() && client.faults >= old(client.faults)
      ensures TargetSynced(name, spec, targetNS, status,
                           old(client.View()), client.View(), client.faults - old(client.faults))
    {
      ghost var st0, f0 := client.View(), client.faults;
      var secretsListed, secrets := SyncKind(SecretKind, name, spec, sourceNS, targetNS);
      ghost var st1, f1 := client.View(), client.faults;
      var configMapsListed, configMaps := SyncKind(ConfigMapKind, name, spec, sourceNS, targetNS);
      KindsReported(name, spec, targetNS, secretsListed, secrets, configMapsListed, configMaps, st0, st1, client.View(),
                    f0, f1, client.faults);
      status := NamespaceStatus(targetNS, secrets, configMaps, secretsListed && configMapsListed);
    }

    method SyncTargets(name: string, spec: Spec, sourceNS: string, targets: seq<string>) returns (status: Status)
      requires client.Valid() && sourceNS == SourceNamespace(spec) && sourceNS !in targets
      modifies client`objects, client`events, client`faults
      ensures client.Valid() && client.faults >= old(client.faults) && status.ready
      ensures TargetsDone(name, spec, targets, status.secrets, status.configMaps, status.namespaces,
                          old(client.View()), client.View(), client.faults - old(client.faults))
    {
      ghost var st0, f0 := client.View(), client.faults;
      var namespaceStatuses: seq<NamespaceStatus> := [];
      var totalSecrets: nat, totalConfigMaps: nat := 0, 0;
      NoTargetYet(name, spec, st0);
      for i := 0 to |targets|
        invariant client.Valid() && client.faults >= f0
        invariant TargetsDone(name, spec, targets[..i], totalSecrets, totalConfigMaps, namespaceStatuses,
                              st0, client.View(), client.faults - f0)
      {
        ghost var st1, f1 := client.View(), client.faults;
        var nsStatus := SyncTarget(name, spec, sourceNS, targets[i]);
        TargetDone(name, spec, targets, i, totalSecrets, totalConfigMaps, namespaceStatuses, nsStatus,
                   st0, st1, client.View(), f0, f1, client.faults);
        totalSecrets := totalSecrets + nsStatus.secrets;
        totalConfigMaps := totalConfigMaps + nsStatus.configMaps;
        namespaceStatuses := namespaceStatuses + [nsStatus];
      }
      assert targets[..|targets|] == targets;
      status := Status(totalSecrets, totalConfigMaps, namespaceStatuses, true);
    }

    // ---- Finalization ----

    /** Deletes this ConfigSync's copies of one kind from one target. */
    method CleanupTarget(kind: Kind, name: string, spec: Spec, sourceNS: string, targetNS: string)
      requires client.Valid() && sourceNS == SourceNamespace(spec) && Enabled(spec, kind)
      modifies client`objects, client`events, client`faults
      ensures client.Valid() && client.faults >= old(client.faults)
      ensures KindCleaned(kind, name, spec, {targetNS}, old(client.View()), client.View(),
                          client.faults - old(client.faults))
    {
      ghost var st0, f0 := client.View(), client.faults;
      ghost var final := FinalKeys(name, spec, {targetNS}, st0.objects);
      var listed := client.List(kind, Some(targetNS), None);
      if listed.Err? {
        ActedFailed(Deletions(OfKind(final, kind)), st0);
        TargetSkipped(kind, name, spec, targetNS, st0.objects, client.faults - f0);
        return;
      }
      var items := listed.value;
      ghost var keys := client.Matching(kind, Some(targetNS), None);
      assert keys * final == OfKind(final, kind);
      DeletingNothing(st0);
      for i := 0 to |items|
        invariant client.Valid() && client.faults >= f0
        invariant Deleting(ItemKeys(items[..i]) * final, st0, client.View(), client.faults - f0)
      {
        FinalIfOurs(items, i, keys, kind, name, spec, targetNS, st0.objects);
        var labels := items[i].obj.labels;
        var hasSyncedFrom, hasSyncedBy := SYNCED_FROM in labels, SYNCED_BY in labels;
        var ours := hasSyncedFrom && hasSyncedBy && labels[SYNCED_FROM] == sourceNS && labels[SYNCED_BY] == name;
        DeleteIfChosen(client, items, i, ours, keys, final, st0, f0);
      }
      assert items[..|items|] == items;
      TargetCleaned(kind, name, spec, targetNS, st0, client.View(), client.faults - f0);
    }

    /** The same for all targets, if the kind is enabled. */
    method CleanupKind(kind: Kind, name: string, spec: Spec, sourceNS: string, targets: seq<string>)
      requires client.Valid() && sourceNS == SourceNamespace(spec)
      modifies client`objects, client`events, client`faults
      ensures client.Valid() && client.faults >= old(client.faults)
      ensures KindCleaned(kind, name, spec, Elements(targets), old(client.View()), client.View(),
                          client.faults - old(client.faults))
    {
      ghost var st0, f0 := client.View(), client.faults;
      KindNotCleaned(kind, name, spec, Elements(targets), st0);
      if !Enabled(spec, kind) {
        return;
      }
      assert Elements(targets[..0]) == {};
      for i := 0 to |targets|
        invariant client.Valid() && client.faults >= f0
        invariant KindCleaned(kind, name, spec, Elements(targets[..i]), st0, client.View(), client.faults - f0)
      {
        ghost var st1, f1 := client.View(), client.faults;
        CleanupTarget(kind, name, spec, sourceNS, targets[i]);
        assert Elements(targets[..i + 1]) == Elements(targets[..i]) + {targets[i]};
        CleanedOneMore(kind, name, spec, Elements(targets[..i]), targets[i], st0, st1, client.View(),
                       f0, f1, client.faults);
      }
      assert targets[..|targets|] == targets;
    }

    /** Both kinds, one after the other. */
    method CleanupTargets(name: string, spec: Spec, sourceNS: string, targets: seq<string>)
      requires client.Valid() && sourceNS == SourceNamespace(spec)
      modifies client`objects, client`events, client`faults
      ensures client.Valid() && client.faults >= old(client.faults)
      ensures Acted(Deletions(FinalKeys(name, spec, Elements(targets), old(client.objects))),
                    old(client.View()), client.View(), client.faults == old(client.faults))
      ensures BothCleanedBut(name, spec, Elements(targets), client.objects, client.faults - old(client.faults))
    {
      ghost var st0, f0 := client.View(), client.faults;
      CleanupKind(SecretKind, name, spec, sourceNS, targets);
      ghost var st1, f1 := client.View(), client.faults;
      CleanupKind(ConfigMapKind, name, spec, sourceNS, targets);
      FinalKindsTogether(name, spec, Elements(targets), st0, st1, client.View(), f0, f1, client.faults);
    }

    method CleanupSyncedResources(name: string, spec: Spec) returns (err: Option<Error>)
      requires client.Valid()
      modifies client`objects, client`events, client`faults, client`unlisted
      ensures client.Valid() && client.faults >= old(client.faults)
      ensures err.Some? <==> client.unlisted != old(client.unlisted)
      ensures err.Some? ==> client.faults > old(client.faults) && client.View() == old(client.View())
      ensures Acted(FinalPlan(name, spec, client.namespaces, old(client.objects)),
                    old(client.View()), client.View(), client.faults == old(client.faults))
      ensures err.None? ==> BothCleanedBut(name, spec, Targets(spec, client.namespaces), client.objects,
                                           client.faults - old(client.faults))
    {
      ghost var st0, f0 := client.View(), client.faults;
      var sourceNS := SourceNamespace(spec);
      var targets := GetTargetNamespaces(spec, sourceNS);
      if targets.Err? {
        ActedFailed(FinalPlan(name, spec, client.namespaces, st0.objects), st0);
        return Some(targets.error);
      }
      CleanupTargets(name, spec, sourceNS, targets.value);
      err := None;
    }

    // ---- One pass ----

    /** The part of a pass that works on the copies, and the status it arrives at unless it has to give up. */
    method SyncObjects(name: string, spec: Spec) returns (gaveUp: Option<Stage>, status: Status)
      requires client.Valid()
      modifies client`objects, client`events, client`faults, client`unlisted
      ensures client.Valid() && client.faults >= old(client.faults)
      ensures client.unlisted != old(client.unlisted) <==> gaveUp == Some(Targeting)
      ensures gaveUp.Some? ==> client.faults > old(client.faults)
      ensures match gaveUp
              case None =>
                && Reported(spec, client.namespaces, old(client.objects), status, client.faults == old(client.faults))
                && Backed(name, spec, client.objects, status.namespaces)
                && |StaleKeys(name, spec, Targets(spec, client.namespaces), client.objects)| <=
                   client.faults - old(client.faults)
              case Some(Targeting) => client.View() == old(client.View())
              case Some(stage) =>
                && stage == Cleaning
                && Acted(Deletions(StaleKeys(name, spec, Targets(spec, client.namespaces), old(client.objects))),
                         old(client.View()), client.View(), false)
      ensures Acted(SyncPlan(name, spec, client.namespaces, old(client.objects)),
                    old(client.View()), client.View(), client.faults == old(client.faults))
    {
      ghost var st0, f0 := client.View(), client.faults;
      status := Status(0, 0, [], true);
      var sourceNS := SourceNamespace(spec);
      var listed := GetTargetNamespaces(spec, sourceNS);
      if listed.Err? {
        ActedFailed(SyncPlan(name, spec, client.namespaces, st0.objects), st0);
        return Some(Targeting), status;
      }
      var targets := listed.value;
      var err := CleanupRemovedNamespaces(name, spec, sourceNS, targets);
      ghost var st1, f1 := client.View(), client.faults;
      if err.Some? {
        CleanedPartly(name, spec, st0, st1, false);
        return Some(Cleaning), status;
      }
      status := SyncTargets(name, spec, sourceNS, targets);
      ghost var st2, f2 := client.View(), client.faults;
      CleanedThenWritten(name, spec, st0, st1, st2, f1 == f0, f2 == f1);
      StaleWasMissed(name, spec, st0, st1, st2, f1 == f0, f2 == f1);
      Reports(spec, targets, status, st0, st1, f1 == f0 && f2 == f1);
      gaveUp := None;
    }

    /** The end of a pass that began in `st0`. */
    method StoreStatus(cs: ConfigSync, status: Status, ghost st0: ClusterState, ghost f0: nat)
      returns (err: Option<Error>)
      requires client.Valid() && cs.name in st0.configSyncs && st0.configSyncs[cs.name] == cs && f0 <= client.faults
      requires Acted(SyncPlan(cs.name, cs.spec, st0.namespaces, st0.objects), st0, client.View(), client.faults == f0)
      requires Reported(cs.spec, st0.namespaces, st0.objects, status, client.faults == f0)
      requires Backed(cs.name, cs.spec, client.objects, status.namespaces)
      modifies client`configSyncs, client`events, client`faults
      ensures client.Valid() && client.faults >= old(client.faults) && client.objects == old(client.objects)
      ensures err.Some? ==> client.faults > old(client.faults)
      ensures SyncStep(st0, client.View(), cs.name, client.faults == f0)
      ensures err.None? ==> ReportStored(st0, client.View(), cs.name, client.faults == f0)
    {
      ghost var st1, f1 := client.View(), client.faults;
      err := client.UpdateConfigSyncStatus(cs.(status := status));
      StatusStored(cs, status, st0, st1, client.View(), f0, f1, client.faults);
      StatusKeepsWellFormed(cs.(status := status), st1, client.View());
    }

    /** A pass over a live ConfigSync that already carries the finalizer. */
    method SyncPass(cs: ConfigSync) returns (outcome: Outcome)
      requires client.Valid() && cs.name in client.configSyncs && client.configSyncs[cs.name] == cs && Live(cs)
      modifies client`objects, client`configSyncs, client`events, client`faults, client`unlisted
      ensures client.Valid() && client.faults >= old(client.faults)
      ensures client.unlisted != old(client.unlisted) <==> outcome == Failed(Targeting)
      ensures SyncStep(old(client.View()), client.View(), cs.name, client.faults == old(client.faults))
      ensures outcome == RequeueAfterInterval || (outcome.Failed? && client.faults > old(client.faults))
      ensures outcome == RequeueAfterInterval ==>
        ReportStored(old(client.View()), client.View(), cs.name, client.faults == old(client.faults))
      ensures outcome in {RequeueAfterInterval, Failed(StoringStatus)} ==>
        |StaleKeys(cs.name, cs.spec, Targets(cs.spec, client.namespaces), client.objects)| <=
        client.faults - old(client.faults)
      ensures outcome.Failed? ==> outcome.at in {Targeting, Cleaning, StoringStatus} &&
                                  GaveUpAt(old(client.View()), client.View(), cs.name, outcome.at)
    {
      ghost var st0, f0 := client.View(), client.faults;
      var gaveUp, status := SyncObjects(cs.name, cs.spec);
      ghost var st1, f1 := client.View(), client.faults;
      if gaveUp.Some? {
        StatusNotStored(cs.name, st0, st1, f0, f1);
        return Failed(gaveUp.value);
      }
      var err := StoreStatus(cs, status, st0, f0);
      outcome := if err.Some? then Failed(StoringStatus) else RequeueAfterInterval;
    }

    method ContainsString(slice: seq<string>, s: string) returns (found: bool)
      ensures found == (s in slice)
    {
      for i := 0 to |slice|
        invariant s !in slice[..i]
      {
        if slice[i] == s {
          return true;
        }
      }
      return false;
    }

    method RemoveString(slice: seq<string>, s: string) returns (result: seq<string>)
      ensures result == Without(slice, {s})
    {
      result := [];
      for i := 0 to |slice|
        invariant result == Without(slice[..i], {s})
      {
        WithoutNext(slice, i, {s});
        if slice[i] != s {
          result := result + [slice[i]];
        }
      }
      assert slice[..|slice|] == slice;
    }

    /** A pass over a ConfigSync that is being deleted and still carries the finalizer. */
    method FinalPass(cs: ConfigSync) returns (outcome: Outcome)
      requires client.Valid() && cs.name in client.configSyncs && client.configSyncs[cs.name] == cs
      modifies client`objects, client`configSyncs, client`events, client`faults, client`unlisted
      ensures client.Valid() && client.faults >= old(client.faults)
      ensures client.unlisted != old(client.unlisted) <==> outcome == Failed(Targeting)
      ensures outcome == Failed(Targeting) ==> client.View() == old(client.View())
      ensures FinalStep(old(client.View()), client.View(), cs.name, client.faults == old(client.faults))
      ensures outcome == Done ||
              (outcome in {Failed(Targeting), Failed(ReleasingFinalizer)} && client.faults > old(client.faults))
      ensures outcome == Done ==> client.configSyncs == Released(old(client.configSyncs), cs.name)
      ensures outcome != Failed(Targeting) ==>
        BothCleanedBut(cs.name, cs.spec, Targets(cs.spec, client.namespaces), client.objects,
                       client.faults - old(client.faults))
    {
      ghost var st0, f0 := client.View(), client.faults;
      var err := CleanupSyncedResources(cs.name, cs.spec);
      ghost var st1, f1 := client.View(), client.faults;
      if err.Some? {
        return Failed(Targeting);
      }
      var remaining := RemoveString(cs.finalizers, FINALIZER);
      err := client.UpdateConfigSync(cs.(finalizers := remaining));
      FinalizerDropped(cs, st0, st1, client.View(), f1 == f0, client.faults == f1);
      BothCleanedButMore(cs.name, cs.spec, Targets(cs.spec, client.namespaces), st1.objects,
                         f1 - f0, client.faults - f0);
      outcome := if err.Some? then Failed(ReleasingFinalizer) else Done;
    }

    method HoldPass(cs: ConfigSync) returns (outcome: Outcome)
      requires client.Valid() && cs.name in client.configSyncs && client.configSyncs[cs.name] == cs
      modifies client`configSyncs, client`events, client`faults
      ensures client.Valid() && client.faults >= old(client.faults)
      ensures HoldStep(old(client.View()), client.View(), cs.name, client.faults == old(client.faults))
      ensures outcome == Requeue || (outcome == Failed(TakingFinalizer) && client.faults > old(client.faults))
      ensures outcome == Requeue ==> client.configSyncs == Held(old(client.configSyncs), cs.name)
    {
      ghost var css := client.configSyncs;
      assert forall n | n in css :: NamedAndHeld(n, css[n]);
      var err := client.UpdateConfigSync(cs.(finalizers := cs.finalizers + [FINALIZER]));
      forall n | n in client.configSyncs
        ensures NamedAndHeld(n, client.configSyncs[n])
      {
        assert NamedAndHeld(n, css[n]);
      }
      outcome := if err.Some? then Failed(TakingFinalizer) else Requeue;
    }

    /** One pass for the ConfigSync called `name`. */
    method Reconcile(name: string) returns (outcome: Outcome)
      requires client.Valid()
      modifies client`objects, client`configSyncs, client`events, client`faults, client`unlisted
      ensures client.Valid() && client.faults >= old(client.faults)
      ensures client.unlisted != old(client.unlisted) <==> outcome == Failed(Targeting)
      ensures outcome == NextRun(old(client.configSyncs), name) ||
              (outcome.Failed? && client.faults > old(client.faults))
      ensures outcome.Failed? ==> GaveUpAt(old(client.View()), client.View(), name, outcome.at)
      ensures ConfigSyncStep(old(client.View()), client.View(), name, client.faults == old(client.faults))
    {
      ghost var css := client.configSyncs;
      assert forall n | n in css :: NamedAndHeld(n, css[n]);
      var got := client.GetConfigSync(name);
      if got == Err(NotFound) {
        return Done;
      }
      if got.Err? {
        GaveUp(name, client.View());
        return Failed(Fetching);
      }
      var cs := got.value;
      var held := ContainsString(cs.finalizers, FINALIZER);
      if cs.deleting {
        if held {
          outcome := FinalPass(cs);
          return;
        }
        return Done;
      }
      if !held {
        outcome := HoldPass(cs);
        return;
      }
      outcome := SyncPass(cs);
    }
  }
}
