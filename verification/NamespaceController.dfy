/** The namespace controller: a new namespace triggers the ConfigSyncs that list it. */
module NamespaceController {
  import opened Objects
  import opened ConfigSyncs
  import opened Clusters
  import opened Triggers

  predicate ListsNamespace(spec: Spec, ns: string) {
    ns in spec.targetNamespaces && ns !in spec.excludedNamespaces
  }

  function Listers(css: map<string, ConfigSync>, ns: string): set<string> {
    set n | n in css && ListsNamespace(css[n].spec, ns)
  }

  function NamespaceStamp(ns: string, now: string): string {
    "namespace-created-" + ns + "-" + now
  }

  /** One call of Reconcile for the namespace `ns`. */
  ghost predicate NamespaceStep(pre: ClusterState, post: ClusterState, ns: string, now: string, clean: bool) {
    if ns in pre.namespaces && !IsSystem(ns)
    then TriggerStep(pre, post, Listers(pre.configSyncs, ns), NamespaceStamp(ns, now), clean)
    else post == pre
  }

  /** The filter on namespace events. */
  predicate AcceptsNamespace(created: bool, ns: string) {
    created && !IsSystem(ns)
  }

  class NamespaceReconciler {
    const client: Cluster

    constructor (client: Cluster)
      ensures this.client == client
    {
      this.client := client;
    }

    method ShouldSync(spec: Spec, ns: string) returns (shouldSync: bool)
      ensures shouldSync == ListsNamespace(spec, ns)
    {
      shouldSync := false;
      if |spec.targetNamespaces| > 0 {
        for i := 0 to |spec.targetNamespaces|
          invariant !shouldSync && ns !in spec.targetNamespaces[..i]
        {
          if spec.targetNamespaces[i] == ns {
            shouldSync := true;
            break;
          }
        }
      }
      if shouldSync {
        for i := 0 to |spec.excludedNamespaces|
          invariant shouldSync && ns !in spec.excludedNamespaces[..i]
        {
          if spec.excludedNamespaces[i] == ns {
            shouldSync := false;
            break;
          }
        }
      }
    }

    method TriggerConfigSyncForNamespace(ns: string, now: string) returns (err: Option<Error>)
      requires client.Valid()
      modifies client`configSyncs, client`events, client`faults
      ensures client.Valid() && client.faults == old(client.faults) + if err.Some? then 1 else 0
      ensures TriggerStep(old(client.View()), client.View(), Listers(old(client.configSyncs), ns),
                          NamespaceStamp(ns, now), client.faults == old(client.faults))
    {
      ghost var st0, f0 := client.View(), client.faults;
      ghost var listers := Listers(st0.configSyncs, ns);
      var stamp := NamespaceStamp(ns, now);
      var listed := client.ListConfigSyncs();
      if listed.Err? {
        NothingTriggered(st0, listers, stamp);
        return Some(listed.error);
      }
      var list := listed.value;
      NothingTriggered(st0, {}, stamp);
      assert Names(list[..0]) == {};
      for i := 0 to |list|
        invariant client.Valid() && client.faults == f0
        invariant TriggerStep(st0, client.View(), Names(list[..i]) * listers, stamp, true)
      {
        NextOfThese(list, i, st0.configSyncs, listers);
        var cs := list[i];
        var shouldSync := ShouldSync(cs.spec, ns);
        if shouldSync {
          err := MarkConfigSync(client, cs, stamp, st0, Names(list[..i]) * listers);
          if err.Some? {
            TriggerWider(st0, client.View(), Names(list[..i + 1]) * listers, listers, stamp);
            return;
          }
        }
      }
      assert list[..|list|] == list;
      assert Names(list) * listers == listers;
      err := None;
    }

    method Reconcile(ns: string, now: string) returns (err: Option<Error>)
      requires client.Valid()
      modifies client`configSyncs, client`events, client`faults
      ensures client.Valid() && client.faults == old(client.faults) + if err.Some? then 1 else 0
      ensures NamespaceStep(old(client.View()), client.View(), ns, now, client.faults == old(client.faults))
    {
      err := client.GetNamespace(ns);
      if err.Some? {
        NothingTriggered(client.View(), Listers(client.configSyncs, ns), NamespaceStamp(ns, now));
        return if err.value == NotFound then None else err;
      }
      if ns == "kube-system" || ns == "kube-public" || ns == "kube-node-lease" {
        return None;
      }
      err := TriggerConfigSyncForNamespace(ns, now);
    }
  }
}
