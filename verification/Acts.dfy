/** Carrying a plan out on the cluster: how the calls of a pass add up. */
module Acts {
  import opened Objects
  import opened ConfigSyncs
  import opened Plans
  import opened Passes
  import opened Clusters

  /** The pass worked on the plan; its calls took effect in part, or in full when none of them failed. */
  ghost predicate Acted(p: Plan, pre: ClusterState, post: ClusterState, clean: bool) {
    && post.namespaces == pre.namespaces
    && post.configSyncs == pre.configSyncs
    && Performed(p, pre.namespaces, pre.objects, post.objects, clean)
    && CopyEvents(pre.events, post.events)
  }

  lemma ActedNothing(st: ClusterState, clean: bool)
    ensures Acted(map[], st, st, clean)
  {
    PerformedNothing(st.namespaces, st.objects, clean);
  }

  lemma ActedInTurn(p: Plan, q: Plan, st0: ClusterState, st1: ClusterState, st2: ClusterState, c1: bool, c2: bool)
    requires ValidPlan(p) && ValidPlan(q) && Agree(p, q)
    requires Acted(p, st0, st1, c1) && Acted(q, st1, st2, c2)
    ensures Acted(p + q, st0, st2, c1 && c2)
  {
    PerformedInTurn(p, q, st0.namespaces, st0.objects, st1.objects, st2.objects, c1, c2);
    assert forall i | |st1.events| <= i < |st2.events| ::
      OperatorEvent(st2.events[i]) && !st2.events[i].ConfigSyncWritten?;
    assert forall i | |st0.events| <= i < |st1.events| :: st2.events[i] == st1.events[i];
  }

  lemma ActedKeeps(p: Plan, pre: ClusterState, post: ClusterState, clean: bool)
    requires ValidPlan(p) && Acted(p, pre, post, clean)
    ensures WellFormed(pre) ==> WellFormed(post)
    ensures Unlabelled(post.objects) == Unlabelled(pre.objects)
  {
    UnlabelledKept(p, pre.namespaces, pre.objects, post.objects);
    if WellFormed(pre) {
      HousedKept(p, pre.namespaces, pre.objects, post.objects);
    }
  }

  lemma DeletionsJoin(a: set<Key>, b: set<Key>)
    ensures Deletions(a) + Deletions(b) == Deletions(a + b)
    ensures ValidPlan(Deletions(a)) && ValidPlan(Deletions(b)) && Agree(Deletions(a), Deletions(b))
  {
  }

  lemma WritesJoin(a: set<Key>, b: set<Key>, from: string, owner: string, s: Store)
    requires HaveSources(a, from, s) && HaveSources(b, from, s)
    ensures var p, q := Writes(a, from, owner, s), Writes(b, from, owner, s);
            HaveSources(a + b, from, s) && p + q == Writes(a + b, from, owner, s) &&
            ValidPlan(p) && ValidPlan(q) && Agree(p, q)
  {
  }

  /** A pass that gave up before it began. */
  lemma ActedFailed(p: Plan, st: ClusterState)
    ensures Acted(p, st, st, false)
  {
  }

  /** Deletions leave the rest as it was. */
  lemma DeletionsLeave(gone: set<Key>, nss: set<string>, s0: Store, s1: Store, k: Key)
    requires Partial(Deletions(gone), nss, s0, s1)
    ensures k in s1 ==> k in s0 && s1[k] == s0[k]
    ensures k in s0 && k !in s1 ==> k in gone
  {
    assert Lookup(s1, k) == Lookup(s0, k) || Lookup(s1, k) == EffectAt(Deletions(gone), nss, s0, k);
  }

  /** Deleting some keys and then some more. */
  lemma DeletedInTurn(a: set<Key>, b: set<Key>, st0: ClusterState, st1: ClusterState, st2: ClusterState,
                      c1: bool, c2: bool)
    requires Acted(Deletions(a), st0, st1, c1) && Acted(Deletions(b), st1, st2, c2)
    ensures Acted(Deletions(a + b), st0, st2, c1 && c2)
  {
    DeletionsJoin(a, b);
    ActedInTurn(Deletions(a), Deletions(b), st0, st1, st2, c1, c2);
  }

  /** A turn of a loop that deletes the listed keys that are in `chosen`; this one was not or has been deleted. */
  lemma DeletedOneMore(items: seq<Item>, i: nat, listed: set<Key>, chosen: set<Key>,
                       st0: ClusterState, st1: ClusterState, st2: ClusterState, c1: bool, c2: bool)
    requires i < |items| && Listing(items, listed, st0.objects)
    requires Acted(Deletions(ItemKeys(items[..i]) * chosen), st0, st1, c1)
    requires if items[i].key in chosen then Acted(Deletions({items[i].key}), st1, st2, c2) else st2 == st1 && c2
    ensures Acted(Deletions(ItemKeys(items[..i + 1]) * chosen), st0, st2, c1 && c2)
  {
    NextItem(items, i, listed, st0.objects);
    var gone, k := ItemKeys(items[..i]) * chosen, items[i].key;
    if k in chosen {
      assert ItemKeys(items[..i + 1]) * chosen == gone + {k};
      DeletedInTurn(gone, {k}, st0, st1, st2, c1, c2);
    } else {
      assert ItemKeys(items[..i + 1]) * chosen == gone;
    }
  }

  /** What a listing named is still as it was listed, or is gone. */
  lemma ListedStill(items: seq<Item>, i: nat, listed: set<Key>, chosen: set<Key>,
                    st0: ClusterState, st1: ClusterState, c: bool)
    requires i < |items| && Listing(items, listed, st0.objects)
    requires Acted(Deletions(ItemKeys(items[..i]) * chosen), st0, st1, c)
    ensures items[i].key in listed && items[i].key in st0.objects && items[i].obj == st0.objects[items[i].key]
    ensures items[i].key in st1.objects ==> st1.objects[items[i].key] == items[i].obj
  {
    NextItem(items, i, listed, st0.objects);
    DeletionsLeave(ItemKeys(items[..i]) * chosen, st0.namespaces, st0.objects, st1.objects, items[i].key);
  }

  /** Deleting under a label test that held when the key was listed. */
  method DeleteCopy(client: Cluster, k: Key)
    requires client.Valid()
    requires k in client.objects ==> Labelled(client.objects[k])
    modifies client`objects, client`events, client`faults
    ensures client.Valid() && client.faults >= old(client.faults)
    ensures Acted(Deletions({k}), old(client.View()), client.View(), client.faults == old(client.faults))
    ensures k in client.objects ==> client.faults > old(client.faults)
  {
    ghost var st0 := client.View();
    var err := client.Delete(k);
    forall j
      ensures Lookup(client.objects, j) == Lookup(st0.objects, j) ||
              Lookup(client.objects, j) == EffectAt(Deletions({k}), st0.namespaces, st0.objects, j)
      ensures err != Some(Fault) ==>
        Lookup(client.objects, j) == EffectAt(Deletions({k}), st0.namespaces, st0.objects, j)
    {
    }
    if err != Some(Fault) {
      SameStore(client.objects, Apply(Deletions({k}), st0.namespaces, st0.objects));
    }
    ActedKeeps(Deletions({k}), st0, client.View(), client.faults == old(client.faults));
  }

  /** What was to be deleted and is still there. */
  function Missed(gone: set<Key>, s: Store): set<Key> {
    set k | k in gone && k in s
  }

  /** The deletions of a loop: each one that is missed costs a call. */
  ghost predicate Deleting(gone: set<Key>, pre: ClusterState, post: ClusterState, failures: nat) {
    && Acted(Deletions(gone), pre, post, failures == 0)
    && |Missed(gone, post.objects)| <= failures
  }

  lemma DeletingNothing(st: ClusterState)
    ensures Deleting({}, st, st, 0)
  {
    assert Deletions({}) == map[];
    assert Missed({}, st.objects) == {};
    ActedNothing(st, true);
  }

  /** One turn of a loop that deletes the listed copies that are in `chosen`. */
  method DeleteIfChosen(client: Cluster, items: seq<Item>, i: nat, test: bool,
                        ghost listed: set<Key>, ghost chosen: set<Key>, ghost st0: ClusterState, ghost f0: nat)
    requires client.Valid() && i < |items| && Listing(items, listed, st0.objects) && f0 <= client.faults
    requires test == (items[i].key in chosen) && (test ==> Labelled(items[i].obj))
    requires Deleting(ItemKeys(items[..i]) * chosen, st0, client.View(), client.faults - f0)
    modifies client`objects, client`events, client`faults
    ensures client.Valid() && client.faults >= old(client.faults)
    ensures Deleting(ItemKeys(items[..i + 1]) * chosen, st0, client.View(), client.faults - f0)
  {
    ghost var st1, f1 := client.View(), client.faults;
    ListedStill(items, i, listed, chosen, st0, st1, f1 == f0);
    if test {
      DeleteCopy(client, items[i].key);
      DeletionsShrink({items[i].key}, st1, client.View(), client.faults == f1);
    }
    DeletedOneMore(items, i, listed, chosen, st0, st1, client.View(), f1 == f0, client.faults == f1);
    MissedOneMore(items, i, listed, chosen, st0.objects, st1.objects, client.objects);
  }

  lemma DeletionsShrink(gone: set<Key>, pre: ClusterState, post: ClusterState, clean: bool)
    requires Acted(Deletions(gone), pre, post, clean)
    ensures post.objects.Keys <= pre.objects.Keys
  {
    forall k | k in post.objects
      ensures k in pre.objects
    {
      DeletionsLeave(gone, pre.namespaces, pre.objects, post.objects, k);
    }
  }

  lemma MissedTogether(a: set<Key>, b: set<Key>, s1: Store, s2: Store)
    requires s2.Keys <= s1.Keys
    ensures |Missed(a + b, s2)| <= |Missed(a, s1)| + |Missed(b, s2)|
  {
    var both := Missed(a, s1) + Missed(b, s2);
    SubsetSize(Missed(a + b, s2), both);
    assert both == Missed(a, s1) + (Missed(b, s2) - Missed(a, s1));
    SubsetSize(Missed(b, s2) - Missed(a, s1), Missed(b, s2));
  }

  lemma MissedOneMore(items: seq<Item>, i: nat, listed: set<Key>, chosen: set<Key>, s0: Store, s1: Store, s2: Store)
    requires i < |items| && Listing(items, listed, s0) && s2.Keys <= s1.Keys
    ensures var before := Missed(ItemKeys(items[..i]) * chosen, s1);
            var after := Missed(ItemKeys(items[..i + 1]) * chosen, s2);
            |after| <= |before| + if items[i].key in chosen && items[i].key in s2 then 1 else 0
  {
    NextItem(items, i, listed, s0);
    var k := items[i].key;
    var before := Missed(ItemKeys(items[..i]) * chosen, s1);
    var after := Missed(ItemKeys(items[..i + 1]) * chosen, s2);
    if k in chosen && k in s2 {
      assert after <= before + {k};
      SubsetSize(after, before + {k});
    } else {
      assert after <= before;
      SubsetSize(after, before);
    }
  }
}
