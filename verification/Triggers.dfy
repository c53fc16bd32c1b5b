/** Marking ConfigSyncs so that the main controller runs for them again. */
module Triggers {
  import opened Objects
  import opened ConfigSyncs
  import opened Clusters

  /** Only marks were written, each on a watching ConfigSync, at most one each, and all of them if no call failed. */
  ghost predicate TriggerStep(pre: ClusterState, post: ClusterState, watching: set<string>, stamp: string,
                              clean: bool) {
    && post.objects == pre.objects
    && post.namespaces == pre.namespaces
    && MarkedWithin(pre.configSyncs, post.configSyncs, watching, stamp)
    && (clean ==> forall n | n in watching && n in pre.configSyncs ::
          post.configSyncs[n] == Mark(pre.configSyncs[n], stamp))
    && WroteOnceEach(pre.events, post.events, watching)
  }

  ghost predicate MarkedWithin(css0: map<string, ConfigSync>, css1: map<string, ConfigSync>, names: set<string>,
                               stamp: string) {
    && css1.Keys == css0.Keys
    && forall n | n in css0 :: css1[n] == css0[n] || (n in names && css1[n] == Mark(css0[n], stamp))
  }

  ghost predicate WroteOnceEach(before: seq<Event>, after: seq<Event>, names: set<string>) {
    && before <= after
    && (forall i | |before| <= i < |after| :: after[i].ConfigSyncWritten? && after[i].name in names)
    && (forall i, j | |before| <= i < j < |after| :: after[i] != after[j])
  }

  lemma NothingTriggered(st: ClusterState, watching: set<string>, stamp: string)
    ensures TriggerStep(st, st, watching, stamp, false)
    ensures TriggerStep(st, st, {}, stamp, true)
  {
  }

  /** One more ConfigSync of the list is marked, or its mark is lost. */
  lemma MarkedOneMore(cs: ConfigSync, seen: set<string>, stamp: string,
                      st0: ClusterState, st1: ClusterState, st2: ClusterState, c1: bool, c2: bool)
    requires WellFormed(st0) && WellFormed(st1) && TriggerStep(st0, st1, seen, stamp, c1)
    requires cs.name in st0.configSyncs && st0.configSyncs[cs.name] == cs && cs.name !in seen
    requires st2.objects == st1.objects && st2.namespaces == st1.namespaces
    requires (st2.configSyncs == st1.configSyncs && st2.events == st1.events && !c2) ||
             (st2.configSyncs == StoredUpdate(st1.configSyncs, Mark(cs, stamp)) &&
              st2.events == st1.events + [ConfigSyncWritten(cs.name)])
    ensures TriggerStep(st0, st2, seen + {cs.name}, stamp, c1 && c2)
    ensures WellFormed(st2)
  {
    assert NamedAndHeld(cs.name, st0.configSyncs[cs.name]);
    assert st1.configSyncs[cs.name] == cs;
    if st2.configSyncs != st1.configSyncs || st2.events != st1.events {
      assert StoredUpdate(st1.configSyncs, Mark(cs, stamp)) == st1.configSyncs[cs.name := Mark(cs, stamp)];
      forall n | n in st2.configSyncs
        ensures NamedAndHeld(n, st2.configSyncs[n])
      {
        assert NamedAndHeld(n, st1.configSyncs[n]);
      }
    }
  }

  lemma TriggerWider(pre: ClusterState, post: ClusterState, seen: set<string>, watching: set<string>, stamp: string)
    requires TriggerStep(pre, post, seen, stamp, false) && seen <= watching
    ensures TriggerStep(pre, post, watching, stamp, false)
  {
  }

  /** Writes the mark on one ConfigSync of a list that is being scanned; `seen` are those marked so far. */
  method MarkConfigSync(client: Cluster, cs: ConfigSync, stamp: string,
                        ghost st0: ClusterState, ghost seen: set<string>)
    returns (err: Option<Error>)
    requires client.Valid() && WellFormed(st0) && TriggerStep(st0, client.View(), seen, stamp, true)
    requires cs.name in st0.configSyncs && st0.configSyncs[cs.name] == cs && cs.name !in seen
    modifies client`configSyncs, client`events, client`faults
    ensures client.Valid() && client.faults == old(client.faults) + if err.Some? then 1 else 0
    ensures TriggerStep(st0, client.View(), seen + {cs.name}, stamp, err.None?)
  {
    ghost var st1, f1 := client.View(), client.faults;
    err := client.UpdateConfigSync(Mark(cs, stamp));
    MarkedOneMore(cs, seen, stamp, st0, st1, client.View(), true, client.faults == f1);
  }
}
