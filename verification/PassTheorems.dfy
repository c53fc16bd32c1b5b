/** What the passes of the operator do to each other's work, to outside changes, and to what they report. */
module PassTheorems {
  import opened Objects
  import opened Selectors
  import opened ConfigSyncs
  import opened Plans
  import opened Passes
  import opened Clusters
  import opened Acts
  import opened ConfigSyncSteps
  import opened ResourceController
  import opened NamespaceController
  import opened Webhook

  ghost function WriteSet(spec: Spec, nss: set<string>, s: Store): set<Key> {
    WriteKeys(spec, Targets(spec, nss), s)
  }

  lemma SyncKeepsUsers(name: string, spec: Spec, nss: set<string>, s: Store)
    ensures Unlabelled(Synced(name, spec, nss, s)) == Unlabelled(s)
    ensures Housed(s, nss) ==> Housed(Synced(name, spec, nss, s), nss)
  {
    UnlabelledKept(SyncPlan(name, spec, nss, s), nss, s, Synced(name, spec, nss, s));
    if Housed(s, nss) {
      HousedKept(SyncPlan(name, spec, nss, s), nss, s, Synced(name, spec, nss, s));
    }
  }

  /** A sync pass has nothing left to do at any key. */
  ghost predicate Settled(name: string, spec: Spec, nss: set<string>, s: Store) {
    forall k :: SyncValue(name, spec, nss, s, k, Lookup(s, k)) == Lookup(s, k)
  }

  lemma SettledExactly(name: string, spec: Spec, nss: set<string>, s: Store)
    requires Housed(s, nss)
    ensures Settled(name, spec, nss, s) <==> Synced(name, spec, nss, s) == s
  {
    forall k
      ensures Lookup(Synced(name, spec, nss, s), k) == SyncValue(name, spec, nss, s, k, Lookup(s, k))
    {
      SyncedAt(name, spec, nss, s, k);
    }
    if Settled(name, spec, nss, s) {
      SameStore(Synced(name, spec, nss, s), s);
    }
  }

  /** One failure-free pass settles its ConfigSync. */
  lemma PassLeavesSettled(name: string, spec: Spec, nss: set<string>, s: Store)
    requires Housed(s, nss)
    ensures Settled(name, spec, nss, Synced(name, spec, nss, s))
  {
    SyncKeepsUsers(name, spec, nss, s);
    SyncIsIdempotent(name, spec, nss, s);
    SettledExactly(name, spec, nss, Synced(name, spec, nss, s));
  }

  // ---- Commutation ----

  /** Keys both ConfigSyncs write and neither is kept from writing. */
  ghost function Contested(spec1: Spec, spec2: Spec, nss: set<string>, s: Store): set<Key> {
    set k | k in WriteSet(spec1, nss, s) * WriteSet(spec2, nss, s) && k.ns in nss && (k in s ==> Labelled(s[k]))
  }

  lemma TwoPassesAt(n1: string, spec1: Spec, n2: string, spec2: Spec, nss: set<string>, s: Store, k: Key)
    requires Housed(s, nss)
    ensures Lookup(Synced(n2, spec2, nss, Synced(n1, spec1, nss, s)), k) ==
            SyncValue(n2, spec2, nss, s, k, SyncValue(n1, spec1, nss, s, k, Lookup(s, k)))
  {
    var s1 := Synced(n1, spec1, nss, s);
    SyncKeepsUsers(n1, spec1, nss, s);
    SyncedAt(n1, spec1, nss, s, k);
    SyncedAt(n2, spec2, nss, s1, k);
    SelectedByUnlabelled(spec2, s, s1, SourceOf(k, SourceNamespace(spec2)));
  }

  lemma ValuesCommuteExactly(n1: string, spec1: Spec, n2: string, spec2: Spec, nss: set<string>, s: Store, k: Key)
    requires Housed(s, nss) && n1 != n2
    ensures SyncValue(n2, spec2, nss, s, k, SyncValue(n1, spec1, nss, s, k, Lookup(s, k))) ==
            SyncValue(n1, spec1, nss, s, k, SyncValue(n2, spec2, nss, s, k, Lookup(s, k))) <==>
            k !in Contested(spec1, spec2, nss, s)
  {
  }

  lemma OrdersAgreeAt(n1: string, spec1: Spec, n2: string, spec2: Spec, nss: set<string>, s: Store, k: Key)
    requires Housed(s, nss) && n1 != n2
    ensures Lookup(Synced(n2, spec2, nss, Synced(n1, spec1, nss, s)), k) ==
            Lookup(Synced(n1, spec1, nss, Synced(n2, spec2, nss, s)), k) <==>
            k !in Contested(spec1, spec2, nss, s)
  {
    TwoPassesAt(n1, spec1, n2, spec2, nss, s, k);
    TwoPassesAt(n2, spec2, n1, spec1, nss, s, k);
    ValuesCommuteExactly(n1, spec1, n2, spec2, nss, s, k);
  }

  /** Failure-free passes of two ConfigSyncs commute if and only if they have no contested key. */
  lemma PassesCommuteExactly(n1: string, spec1: Spec, n2: string, spec2: Spec, nss: set<string>, s: Store)
    requires Housed(s, nss) && n1 != n2
    ensures Synced(n2, spec2, nss, Synced(n1, spec1, nss, s)) == Synced(n1, spec1, nss, Synced(n2, spec2, nss, s)) <==>
            Contested(spec1, spec2, nss, s) == {}
  {
    forall k
      ensures Lookup(Synced(n2, spec2, nss, Synced(n1, spec1, nss, s)), k) ==
              Lookup(Synced(n1, spec1, nss, Synced(n2, spec2, nss, s)), k) <==>
              k !in Contested(spec1, spec2, nss, s)
    {
      OrdersAgreeAt(n1, spec1, n2, spec2, nss, s, k);
    }
    DifferExactly(Synced(n2, spec2, nss, Synced(n1, spec1, nss, s)), Synced(n1, spec1, nss, Synced(n2, spec2, nss, s)),
                  Contested(spec1, spec2, nss, s));
  }

  /** Two ConfigSyncs with a contested key can never both be settled. */
  lemma ContestedNeverSettles(n1: string, spec1: Spec, n2: string, spec2: Spec, nss: set<string>, s: Store)
    requires n1 != n2 && Settled(n1, spec1, nss, s) && Settled(n2, spec2, nss, s)
    ensures Contested(spec1, spec2, nss, s) == {}
  {
    if k :| k in Contested(spec1, spec2, nss, s) {
      WrittenValue(n1, spec1, nss, s, k, Lookup(s, k));
      WrittenValue(n2, spec2, nss, s, k, Lookup(s, k));
    }
  }

  lemma FinalizedKeeps(name: string, spec: Spec, nss: set<string>, s: Store)
    ensures Unlabelled(Finalized(name, spec, nss, s)) == Unlabelled(s)
    ensures Housed(s, nss) ==> Housed(Finalized(name, spec, nss, s), nss)
  {
    UnlabelledKept(FinalPlan(name, spec, nss, s), nss, s, Finalized(name, spec, nss, s));
    if Housed(s, nss) {
      HousedKept(FinalPlan(name, spec, nss, s), nss, s, Finalized(name, spec, nss, s));
    }
  }

  lemma CascadedKeeps(src: Key, nss: set<string>, s: Store)
    ensures Unlabelled(Cascaded(src, nss, s)) == Unlabelled(s)
    ensures Housed(s, nss) ==> Housed(Cascaded(src, nss, s), nss)
  {
    UnlabelledKept(CascadePlan(src, s), nss, s, Cascaded(src, nss, s));
    if Housed(s, nss) {
      HousedKept(CascadePlan(src, s), nss, s, Cascaded(src, nss, s));
    }
  }

  /** Finalizations commute with each other. */
  lemma FinalsCommute(n1: string, spec1: Spec, n2: string, spec2: Spec, nss: set<string>, s: Store)
    ensures Finalized(n2, spec2, nss, Finalized(n1, spec1, nss, s)) ==
            Finalized(n1, spec1, nss, Finalized(n2, spec2, nss, s))
  {
    var s1, s2 := Finalized(n1, spec1, nss, s), Finalized(n2, spec2, nss, s);
    forall k
      ensures Lookup(Finalized(n2, spec2, nss, s1), k) == Lookup(Finalized(n1, spec1, nss, s2), k)
    {
      FinalizedAt(n1, spec1, nss, s, k);
      FinalizedAt(n2, spec2, nss, s1, k);
      FinalizedAt(n2, spec2, nss, s, k);
      FinalizedAt(n1, spec1, nss, s2, k);
    }
    SameStore(Finalized(n2, spec2, nss, s1), Finalized(n1, spec1, nss, s2));
  }

  /** A sync pass after a pass that keeps the users' objects, key by key. */
  lemma SyncedAfter(name: string, spec: Spec, nss: set<string>, s: Store, t: Store, k: Key)
    requires Housed(t, nss) && Unlabelled(t) == Unlabelled(s)
    ensures Lookup(Synced(name, spec, nss, t), k) == SyncValue(name, spec, nss, s, k, Lookup(t, k))
  {
    SyncedAt(name, spec, nss, t, k);
    SelectedByUnlabelled(spec, s, t, SourceOf(k, SourceNamespace(spec)));
    SyncValueBySource(name, spec, nss, s, t, k, Lookup(t, k));
  }

  /** A finalization does not interfere with the sync passes of other ConfigSyncs, contested keys or not. */
  lemma SyncAndFinalCommute(n1: string, spec1: Spec, n2: string, spec2: Spec, nss: set<string>, s: Store)
    requires Housed(s, nss) && n1 != n2
    ensures Finalized(n2, spec2, nss, Synced(n1, spec1, nss, s)) == Synced(n1, spec1, nss, Finalized(n2, spec2, nss, s))
  {
    var s1, s2 := Synced(n1, spec1, nss, s), Finalized(n2, spec2, nss, s);
    FinalizedKeeps(n2, spec2, nss, s);
    forall k
      ensures Lookup(Finalized(n2, spec2, nss, s1), k) == Lookup(Synced(n1, spec1, nss, s2), k)
    {
      SyncedAfter(n1, spec1, nss, s, s, k);
      SyncedAfter(n1, spec1, nss, s, s2, k);
      FinalizedAt(n2, spec2, nss, s, k);
      FinalizedAt(n2, spec2, nss, s1, k);
    }
    SameStore(Finalized(n2, spec2, nss, s1), Synced(n1, spec1, nss, s2));
  }

  /** Nor does it interfere with the cascades. */
  lemma FinalAndCascadeCommute(name: string, spec: Spec, src: Key, nss: set<string>, s: Store)
    ensures Cascaded(src, nss, Finalized(name, spec, nss, s)) == Finalized(name, spec, nss, Cascaded(src, nss, s))
  {
    var s1, s2 := Finalized(name, spec, nss, s), Cascaded(src, nss, s);
    forall k
      ensures Lookup(Cascaded(src, nss, s1), k) == Lookup(Finalized(name, spec, nss, s2), k)
    {
      FinalizedAt(name, spec, nss, s, k);
      CascadedAt(src, nss, s1, k);
      CascadedAt(src, nss, s, k);
      FinalizedAt(name, spec, nss, s2, k);
    }
    SameStore(Cascaded(src, nss, s1), Finalized(name, spec, nss, s2));
  }

  /** The copies of `src` that a sync pass writes anew. */
  ghost function Retraced(spec: Spec, src: Key, nss: set<string>, s: Store): set<Key> {
    set k | && k in WriteSet(spec, nss, s) && SourceOf(k, SourceNamespace(spec)) == src
            && k.ns in nss && (k in s ==> Labelled(s[k]))
  }

  /** A sync pass and a cascade commute if and only if the pass does not copy the very source: in particular once
      the source is gone. */
  lemma SyncAndCascadeCommuteExactly(name: string, spec: Spec, src: Key, nss: set<string>, s: Store)
    requires Housed(s, nss)
    ensures Cascaded(src, nss, Synced(name, spec, nss, s)) == Synced(name, spec, nss, Cascaded(src, nss, s)) <==>
            Retraced(spec, src, nss, s) == {}
    ensures src !in s ==> Retraced(spec, src, nss, s) == {}
  {
    var s1, s2 := Synced(name, spec, nss, s), Cascaded(src, nss, s);
    CascadedKeeps(src, nss, s);
    forall k
      ensures Lookup(Cascaded(src, nss, s1), k) == Lookup(Synced(name, spec, nss, s2), k) <==>
              k !in Retraced(spec, src, nss, s)
    {
      SyncedAfter(name, spec, nss, s, s, k);
      SyncedAfter(name, spec, nss, s, s2, k);
      CascadedAt(src, nss, s, k);
      CascadedAt(src, nss, s1, k);
    }
    DifferExactly(Cascaded(src, nss, s1), Synced(name, spec, nss, s2), Retraced(spec, src, nss, s));
  }

  // ---- Convergence and self-healing ----

  /** The keys a failure-free pass would still change. */
  ghost function Unsettled(name: string, spec: Spec, nss: set<string>, s: Store): (keys: set<Key>)
    ensures forall k :: k in keys <==> Lookup(Synced(name, spec, nss, s), k) != Lookup(s, k)
  {
    var t := Synced(name, spec, nss, s);
    set k | k in s.Keys + t.Keys && Lookup(t, k) != Lookup(s, k)
  }

  lemma UnsettledAfter(name: string, spec: Spec, nss: set<string>, s0: Store, s1: Store, k: Key)
    requires Housed(s0, nss) && Partial(SyncPlan(name, spec, nss, s0), nss, s0, s1)
    ensures k in Unsettled(name, spec, nss, s1) <==>
            k in Unsettled(name, spec, nss, s0) && Lookup(s1, k) == Lookup(s0, k)
  {
    SyncRecovers(name, spec, nss, s0, s1);
    assert Lookup(s1, k) == Lookup(s0, k) || Lookup(s1, k) == EffectAt(SyncPlan(name, spec, nss, s0), nss, s0, k);
  }

  function ChangedAmong(keys: set<Key>, s0: Store, s1: Store): set<Key> {
    set k | k in keys && Lookup(s1, k) != Lookup(s0, k)
  }

  lemma RemovedExactly(before: set<Key>, after: set<Key>, removed: set<Key>)
    requires removed <= before && forall k :: k in after <==> k in before && k !in removed
    ensures after == before - removed && |after| == |before| - |removed|
  {
    assert before == after + removed;
  }

  /** A pass with any failures settles exactly the keys it changes and unsettles none; a failure-free one
      settles them all. */
  lemma PassSettles(name: string, spec: Spec, nss: set<string>, s0: Store, s1: Store, clean: bool)
    requires Housed(s0, nss) && Performed(SyncPlan(name, spec, nss, s0), nss, s0, s1, clean)
    ensures var u0, u1 := Unsettled(name, spec, nss, s0), Unsettled(name, spec, nss, s1);
            u1 == u0 - ChangedAmong(u0, s0, s1) && |u1| == |u0| - |ChangedAmong(u0, s0, s1)|
    ensures clean ==> Unsettled(name, spec, nss, s1) == {}
  {
    var u0, u1 := Unsettled(name, spec, nss, s0), Unsettled(name, spec, nss, s1);
    forall k
      ensures k in u1 <==> k in u0 && k !in ChangedAmong(u0, s0, s1)
    {
      UnsettledAfter(name, spec, nss, s0, s1, k);
    }
    RemovedExactly(u0, u1, ChangedAmong(u0, s0, s1));
    if clean {
      SyncIsIdempotent(name, spec, nss, s0);
      assert Synced(name, spec, nss, s1) == s1;
    }
  }

  lemma WrittenValue(name: string, spec: Spec, nss: set<string>, s: Store, k: Key, held: Option<Object>)
    requires k in WriteSet(spec, nss, s) && k.ns in nss
    ensures var copy := Project(s[SourceOf(k, SourceNamespace(spec))], SourceNamespace(spec), name);
            SyncValue(name, spec, nss, s, k, held) ==
            if held.Some? && !Labelled(held.value) then held else Some(copy)
  {
  }

  lemma HealedAt(name: string, spec: Spec, nss: set<string>, s: Store, k: Key, tampered: Store, j: Key)
    requires Housed(s, nss) && Housed(tampered, nss) && Settled(name, spec, nss, s)
    requires k in WriteSet(spec, nss, s) && k in s && Labelled(s[k])
    requires forall j | j != k :: Lookup(tampered, j) == Lookup(s, j)
    ensures Lookup(Synced(name, spec, nss, tampered), j) == Lookup(s, j) <==>
            j !in (if k in tampered && !Labelled(tampered[k]) then {k} else {})
  {
    SyncedAt(name, spec, nss, tampered, j);
    SourceUntouched(spec, nss, s, tampered, k, SourceOf(j, SourceNamespace(spec)));
    SyncValueBySource(name, spec, nss, s, tampered, j, Lookup(tampered, j));
    if j == k {
      WrittenValue(name, spec, nss, s, k, Lookup(s, k));
      WrittenValue(name, spec, nss, s, k, Lookup(tampered, k));
    }
  }

  /** A copy that an outsider changed or deleted is restored by the next failure-free pass if and only if it was
      deleted or still carries synced-from. */
  lemma SelfHealsExactly(name: string, spec: Spec, nss: set<string>, s: Store, k: Key, tampered: Store)
    requires Housed(s, nss) && Housed(tampered, nss) && Settled(name, spec, nss, s)
    requires k in WriteSet(spec, nss, s) && k in s && Labelled(s[k])
    requires forall j | j != k :: Lookup(tampered, j) == Lookup(s, j)
    ensures Synced(name, spec, nss, tampered) == s <==> (k in tampered ==> Labelled(tampered[k]))
  {
    var lost := if k in tampered && !Labelled(tampered[k]) then {k} else {};
    forall j
      ensures Lookup(Synced(name, spec, nss, tampered), j) == Lookup(s, j) <==> j !in lost
    {
      HealedAt(name, spec, nss, s, k, tampered, j);
    }
    DifferExactly(Synced(name, spec, nss, tampered), s, lost);
  }

  lemma SourceUntouched(spec: Spec, nss: set<string>, s: Store, t: Store, k: Key, src: Key)
    requires k.ns in Targets(spec, nss) && src.ns == SourceNamespace(spec)
    requires forall j | j != k :: Lookup(t, j) == Lookup(s, j)
    ensures Selected(spec, t, src) == Selected(spec, s, src)
    ensures Selected(spec, s, src) ==> t[src] == s[src]
  {
    assert Lookup(t, src) == Lookup(s, src);
  }

  /** What the store is after a user's update of the object at `k`, the admission check having had its say. */
  function AfterUpdate(user: User, s: Store, k: Key, o: Object): Store {
    if Handle(Request(user, UPDATE, Some(o), Lookup(s, k))) == Allowed then s[k := o] else s
  }

  /** The admission check and the next pass together undo a non-exempt user's update of a copy if and only if the
      update leaves synced-from in place: the check looks at the new object only. */
  lemma ProtectionExactly(name: string, spec: Spec, nss: set<string>, s: Store, k: Key, user: User, o: Object)
    requires Housed(s, nss) && Settled(name, spec, nss, s) && !IsExempt(user)
    requires k in WriteSet(spec, nss, s) && k in s && Labelled(s[k])
    ensures Synced(name, spec, nss, AfterUpdate(user, s, k, o)) == s <==> Labelled(o)
  {
    UpdateJudgedByNewObject(user, s, k, o);
    if BothLabelled(o) {
      SettledExactly(name, spec, nss, s);
    } else {
      OverwrittenHealsExactly(name, spec, nss, s, k, o);
    }
  }

  lemma UpdateJudgedByNewObject(user: User, s: Store, k: Key, o: Object)
    requires !IsExempt(user)
    ensures AfterUpdate(user, s, k, o) == if BothLabelled(o) then s else s[k := o]
  {
  }

  lemma OverwrittenHealsExactly(name: string, spec: Spec, nss: set<string>, s: Store, k: Key, o: Object)
    requires Housed(s, nss) && Settled(name, spec, nss, s)
    requires k in WriteSet(spec, nss, s) && k in s && Labelled(s[k])
    ensures Synced(name, spec, nss, s[k := o]) == s <==> Labelled(o)
  {
    OverwrittenStore(s, nss, k, o);
    SelfHealsExactly(name, spec, nss, s, k, s[k := o]);
  }

  lemma OverwrittenStore(s: Store, nss: set<string>, k: Key, o: Object)
    requires Housed(s, nss) && k in s
    ensures Housed(s[k := o], nss) && s[k := o][k] == o
    ensures forall j | j != k :: Lookup(s[k := o], j) == Lookup(s, j)
  {
  }

  /** For instance: taking synced-from off a copy is allowed, and no pass puts it back. */
  lemma StrippedCopyIsKept(name: string, spec: Spec, nss: set<string>, s: Store, k: Key, user: User)
    requires Housed(s, nss) && k in s && !IsExempt(user)
    ensures var stripped := s[k].(labels := s[k].labels - {SYNCED_FROM});
            Lookup(Synced(name, spec, nss, AfterUpdate(user, s, k, stripped)), k) == Some(stripped)
  {
    var stripped := s[k].(labels := s[k].labels - {SYNCED_FROM});
    UpdateJudgedByNewObject(user, s, k, stripped);
    OverwrittenStore(s, nss, k, stripped);
    SyncedAt(name, spec, nss, s[k := stripped], k);
  }

  /** Copies of a settled ConfigSync carry both labels, so a non-exempt user cannot delete them. */
  lemma CopiesCannotBeDeleted(name: string, spec: Spec, nss: set<string>, s: Store, k: Key, user: User,
                              unread: Option<Object>)
    requires Housed(s, nss) && Settled(name, spec, nss, s) && !IsExempt(user)
    requires k in WriteSet(spec, nss, s) && k in s && Labelled(s[k])
    ensures Handle(Request(user, DELETE, unread, Lookup(s, k))) == Denied
  {
    WrittenValue(name, spec, nss, s, k, Lookup(s, k));
  }

  // ---- What a pass leaves behind ----

  /** Every copy this ConfigSync made is the projection of a source it selects now, at a key it writes. */
  ghost predicate Mirrors(name: string, spec: Spec, nss: set<string>, s: Store, t: Store) {
    var from := SourceNamespace(spec);
    forall k | k in t && MadeBy(t[k], name) ::
      k in WriteSet(spec, nss, s) && t[k] == Project(s[SourceOf(k, from)], from, name)
  }

  /** Copies of this ConfigSync that a pass neither overwrites nor removes: in a current target, but their source is not
      selected any more or their kind is switched off; or made from another source namespace; or in the source or a
      system namespace. */
  ghost function Leftovers(name: string, spec: Spec, nss: set<string>, s: Store): set<Key> {
    set k | && k in s && MadeBy(s[k], name) && k !in WriteSet(spec, nss, s)
            && !(s[k].labels[SYNCED_FROM] == SourceNamespace(spec) && IsStaleNamespace(spec, Targets(spec, nss), k.ns))
  }

  lemma MirroredAt(name: string, spec: Spec, nss: set<string>, s: Store, k: Key)
    requires Housed(s, nss)
    ensures var t, from := Synced(name, spec, nss, s), SourceNamespace(spec);
            (k in t && MadeBy(t[k], name) ==>
               k in WriteSet(spec, nss, s) && t[k] == Project(s[SourceOf(k, from)], from, name)) <==>
            k !in Leftovers(name, spec, nss, s)
  {
    SyncedAt(name, spec, nss, s, k);
    assert k in Synced(name, spec, nss, s) <==> Lookup(Synced(name, spec, nss, s), k).Some?;
  }

  /** A failure-free pass makes this ConfigSync's copies mirror the sources if and only if it starts without
      leftovers. */
  lemma MirrorsExactly(name: string, spec: Spec, nss: set<string>, s: Store)
    requires Housed(s, nss)
    ensures Mirrors(name, spec, nss, s, Synced(name, spec, nss, s)) <==> Leftovers(name, spec, nss, s) == {}
  {
    forall k
      ensures var t, from := Synced(name, spec, nss, s), SourceNamespace(spec);
              (k in t && MadeBy(t[k], name) ==>
                 k in WriteSet(spec, nss, s) && t[k] == Project(s[SourceOf(k, from)], from, name)) <==>
              k !in Leftovers(name, spec, nss, s)
    {
      MirroredAt(name, spec, nss, s, k);
    }
    if k :| k in Leftovers(name, spec, nss, s) {
      MirroredAt(name, spec, nss, s, k);
      assert !Mirrors(name, spec, nss, s, Synced(name, spec, nss, s));
    }
  }

  /** Copies made from another source namespace are out of reach: neither a sync pass that does not write their key
      nor finalization removes them. */
  lemma FormerSourceKept(name: string, spec: Spec, nss: set<string>, s: Store, k: Key, former: string)
    requires Housed(s, nss) && k in s && OwnedBy(s[k], former, name) && former != SourceNamespace(spec)
    ensures k !in WriteSet(spec, nss, s) ==> Lookup(Synced(name, spec, nss, s), k) == Some(s[k])
    ensures Lookup(Finalized(name, spec, nss, s), k) == Some(s[k])
  {
    SyncedAt(name, spec, nss, s, k);
    FinalizedAt(name, spec, nss, s, k);
  }

  /** A failure-free finalization leaves no copy of this ConfigSync behind if and only if all of them were made from its
      current source, were in current targets and of enabled kinds. */
  lemma FinalLeavesNothingExactly(name: string, spec: Spec, nss: set<string>, s: Store)
    ensures var t := Finalized(name, spec, nss, s);
            (forall k | k in t :: !MadeBy(t[k], name)) <==>
            (forall k | k in s && MadeBy(s[k], name) ::
               s[k].labels[SYNCED_FROM] == SourceNamespace(spec) && k.ns in Targets(spec, nss) && Enabled(spec, k.kind))
  {
    var from, t := SourceNamespace(spec), Finalized(name, spec, nss, s);
    forall k
      ensures k in t && MadeBy(t[k], name) <==>
              k in s && MadeBy(s[k], name) &&
              !(s[k].labels[SYNCED_FROM] == from && k.ns in Targets(spec, nss) && Enabled(spec, k.kind))
    {
      FinalizedAt(name, spec, nss, s, k);
      assert k in t <==> Lookup(t, k).Some?;
    }
  }

  // ---- Triggers and targets ----

  /** Whatever a ConfigSync would copy, the event filter lets through and the trigger marks that ConfigSync. */
  lemma TriggerCoversSync(css: map<string, ConfigSync>, n: string, s: Store, src: Key)
    requires n in css && Selected(css[n].spec, s, src)
    ensures n in Watchers(css, src, s[src])
    ensures Accepts(Created(src, s[src]), css) && Accepts(Deleted(src, s[src]), css)
  {
    assert n in Watchers(css, src, s[src]);
  }

  /** The trigger marks a ConfigSync that would not copy the source exactly when its selector has no matchLabels
      and is invalid or not met. */
  lemma TriggerExceedsSyncExactly(spec: Spec, s: Store, src: Key)
    requires src in s && IsSource(s[src]) && src.ns == SourceNamespace(spec)
    ensures var sel := SelectorFor(spec, src.kind);
            Watches(spec, src, s[src]) && !Selected(spec, s, src) <==>
            sel.Some? && sel.value.matchLabels == map[] &&
            exists r | r in sel.value.matchExpressions :: !ValidRequirement(r) || !Holds(r, s[src].labels)
  {
    var sel := SelectorFor(spec, src.kind);
    if sel.Some? {
      assert |sel.value.matchLabels| == 0 <==> sel.value.matchLabels == map[];
    }
  }

  /** An update of a source after which a pass writes other copies than before. */
  predicate Due(spec: Spec, k: Key, before: Object, o: Object) {
    Chosen(spec, k, o) && !(Chosen(spec, k, before) && SameCopy(before, o))
  }

  /** A pass of `spec` copies the object `o` at `k`. */
  predicate Chosen(spec: Spec, k: Key, o: Object) {
    k.ns == SourceNamespace(spec) && IsSource(o) && Selects(SelectorFor(spec, k.kind), o.labels)
  }

  predicate SameCopy(before: Object, o: Object) {
    && before.content == o.content
    && before.labels - {SYNCED_FROM, SYNCED_BY} == o.labels - {SYNCED_FROM, SYNCED_BY}
    && before.annotations - {SOURCE_NAMESPACE} == o.annotations - {SOURCE_NAMESPACE}
  }

  lemma SameCopyExactly(before: Object, o: Object, from: string, owner: string)
    ensures SameCopy(before, o) <==> Project(before, from, owner) == Project(o, from, owner)
  {
    var p, q := Project(before, from, owner), Project(o, from, owner);
    var own := {SYNCED_FROM, SYNCED_BY};
    assert p.labels - own == before.labels - own && q.labels - own == o.labels - own;
    assert p.labels == (before.labels - own)[SYNCED_FROM := from][SYNCED_BY := owner];
    assert q.labels == (o.labels - own)[SYNCED_FROM := from][SYNCED_BY := owner];
    var mark := {SOURCE_NAMESPACE};
    assert p.annotations - mark == before.annotations - mark && q.annotations - mark == o.annotations - mark;
    assert p.annotations == (before.annotations - mark)[SOURCE_NAMESPACE := from];
    assert q.annotations == (o.annotations - mark)[SOURCE_NAMESPACE := from];
  }

  /** From a settled copy at `t`, the update of its source unsettles it if and only if it is due. */
  lemma DueExactly(name: string, spec: Spec, nss: set<string>, s: Store, src: Key, o: Object, t: Key)
    requires src in s && Chosen(spec, src, s[src]) && src == SourceOf(t, SourceNamespace(spec))
    requires t.ns in Targets(spec, nss) && t.ns in nss && Enabled(spec, t.kind)
    requires t in s && Labelled(s[t]) && SyncValue(name, spec, nss, s, t, Lookup(s, t)) == Lookup(s, t)
    ensures SyncValue(name, spec, nss, s[src := o], t, Lookup(s[src := o], t)) != Lookup(s[src := o], t) <==>
            Due(spec, src, s[src], o)
  {
    SameCopyExactly(s[src], o, SourceNamespace(spec), name);
    assert Selected(spec, s, src) && (Selected(spec, s[src := o], src) <==> Chosen(spec, src, o));
  }

  /** An update that is due reaches the ConfigSync if and only if a Secret's data changes, or a ConfigMap's binary data
      or its text as far as the comparison sees it: changes of labels, annotations and type wait for the next
      interval. */
  lemma UpdatesReachExactly(css: map<string, ConfigSync>, n: string, k: Key, before: Object, o: Object)
    requires n in css && Due(css[n].spec, k, before, o)
    ensures Accepts(Updated(k, before, o), css) && n in Watchers(css, k, o) <==>
            match (before.content, o.content)
            case (SecretContent(_, data0), SecretContent(_, data)) => data0 != data
            case (ConfigMapContent(text0, binary0), ConfigMapContent(text, binary)) =>
              || binary0 != binary
              || |text0| != |text|
              || exists t | t in text0 :: text0[t] != if t in text then text[t] else ""
            case _ => true
  {
    assert Watches(css[n].spec, k, o);
  }

  /** For an existing namespace, the creation trigger agrees with targeting if and only if it is a system namespace, or
      the source and not listed, or the targets are listed explicitly or it is excluded. */
  lemma NamespaceTriggerAgreesExactly(spec: Spec, nss: set<string>, ns: string)
    requires ns in nss
    ensures (AcceptsNamespace(true, ns) && ListsNamespace(spec, ns) <==> ns in Targets(spec, nss)) <==>
            || IsSystem(ns)
            || (if ns == SourceNamespace(spec) then !ListsNamespace(spec, ns)
                else spec.targetNamespaces != [] || ns in spec.excludedNamespaces)
  {
  }

  /** The operator's own namespace is a target like any other: if and only if it is listed, or nothing is listed and
      it exists, and it is neither the source nor excluded by the user. */
  lemma OperatorNamespaceTargetedExactly(spec: Spec, nss: set<string>)
    ensures OPERATOR_NAMESPACE in Targets(spec, nss) <==>
            && (if spec.targetNamespaces != [] then OPERATOR_NAMESPACE in spec.targetNamespaces
                else OPERATOR_NAMESPACE in nss)
            && SourceNamespace(spec) != OPERATOR_NAMESPACE
            && OPERATOR_NAMESPACE !in spec.excludedNamespaces
  {
    assert OPERATOR_NAMESPACE[0] == 'c';
  }

  // ---- Status ----

  function Existing(list: seq<NamespaceStatus>, nss: set<string>): nat {
    if list == [] then 0
    else Existing(list[..|list| - 1], nss) + if list[|list| - 1].ns in nss then 1 else 0
  }

  lemma {:induction false} SumsOfExpected(spec: Spec, nss: set<string>, s: Store, list: seq<NamespaceStatus>)
    requires forall i | 0 <= i < |list| :: list[i] == ExpectedStatus(spec, nss, s, list[i].ns)
    ensures SumSecrets(list) ==
            if Enabled(spec, SecretKind) then Existing(list, nss) * |SourceKeys(spec, s, SecretKind)| else 0
    ensures SumConfigMaps(list) ==
            if Enabled(spec, ConfigMapKind) then Existing(list, nss) * |SourceKeys(spec, s, ConfigMapKind)| else 0
  {
    if list != [] {
      var front, last := list[..|list| - 1], list[|list| - 1];
      SumsOfExpected(spec, nss, s, front);
      assert last == ExpectedStatus(spec, nss, s, last.ns);
      MoreTimes(Existing(front, nss), |SourceKeys(spec, s, SecretKind)|);
      MoreTimes(Existing(front, nss), |SourceKeys(spec, s, ConfigMapKind)|);
    }
  }

  lemma MoreTimes(m: nat, n: nat)
    ensures (m + 1) * n == m * n + n
  {
  }

  lemma {:induction false} AllExisting(list: seq<NamespaceStatus>, nss: set<string>)
    requires forall i | 0 <= i < |list| :: list[i].ns in nss
    ensures Existing(list, nss) == |list|
  {
    if list != [] {
      AllExisting(list[..|list| - 1], nss);
    }
  }

  /** With no failed call the totals are targets times selected sources, collisions and repeated targets included;
      a listed target that does not exist counts nothing. */
  lemma TotalsReported(spec: Spec, nss: set<string>, s: Store, st: Status)
    requires Reported(spec, nss, s, st, true)
    ensures st.secrets ==
            if Enabled(spec, SecretKind) then Existing(st.namespaces, nss) * |SourceKeys(spec, s, SecretKind)| else 0
    ensures st.configMaps ==
            if Enabled(spec, ConfigMapKind) then Existing(st.namespaces, nss) * |SourceKeys(spec, s, ConfigMapKind)|
            else 0
    ensures Targets(spec, nss) <= nss ==> Existing(st.namespaces, nss) == |st.namespaces|
  {
    var targets :| IsTargetList(targets, spec, nss) && Accounted(st, targets) &&
      (forall i | 0 <= i < |targets| :: st.namespaces[i] == ExpectedStatus(spec, nss, s, targets[i]));
    SumsOfExpected(spec, nss, s, st.namespaces);
    if Targets(spec, nss) <= nss {
      forall i | 0 <= i < |targets|
        ensures st.namespaces[i].ns in nss
      {
        assert targets[i] in Elements(targets);
      }
      AllExisting(st.namespaces, nss);
    }
  }

  function Namespaces(list: seq<NamespaceStatus>): set<string> {
    set i | 0 <= i < |list| :: list[i].ns
  }

  predicate Distinct(list: seq<NamespaceStatus>) {
    forall i, j | 0 <= i < j < |list| :: list[i].ns != list[j].ns
  }

  lemma NamespacesButLast(list: seq<NamespaceStatus>)
    requires list != [] && Distinct(list)
    ensures var front, last := list[..|list| - 1], list[|list| - 1];
            Namespaces(list) == Namespaces(front) + {last.ns} && last.ns !in Namespaces(front) && Distinct(front)
  {
    var n := |list| - 1;
    forall ns
      ensures ns in Namespaces(list) <==> ns in Namespaces(list[..n]) || ns == list[n].ns
    {
      if i :| 0 <= i < n && list[i].ns == ns {
        assert list[..n][i].ns == ns;
      }
    }
  }

  lemma {:induction false} CountedOnce(name: string, spec: Spec, s: Store, list: seq<NamespaceStatus>)
    requires Backed(name, spec, s, list) && Distinct(list)
    ensures SumSecrets(list) <= |InPlace(name, spec, Namespaces(list), SecretKind, s)|
    ensures SumConfigMaps(list) <= |InPlace(name, spec, Namespaces(list), ConfigMapKind, s)|
  {
    if list != [] {
      var front, last := list[..|list| - 1], list[|list| - 1];
      NamespacesButLast(list);
      CountedOnce(name, spec, s, front);
      InPlaceSplits(name, spec, Namespaces(front), last.ns, SecretKind, s);
      InPlaceSplits(name, spec, Namespaces(front), last.ns, ConfigMapKind, s);
    }
  }

  lemma InPlaceSplits(name: string, spec: Spec, targets: set<string>, ns: string, kind: Kind, s: Store)
    requires ns !in targets
    ensures |InPlace(name, spec, targets + {ns}, kind, s)| ==
            |InPlace(name, spec, targets, kind, s)| + |InPlace(name, spec, {ns}, kind, s)|
  {
    var a, b := InPlace(name, spec, targets, kind, s), InPlace(name, spec, {ns}, kind, s);
    assert a * b == {};
    assert InPlace(name, spec, targets + {ns}, kind, s) == a + b;
  }

  /** Whatever failed, a stored status counts no copy that is not in effect when the pass ends, as long as no target is
      listed twice. */
  lemma StatusNeverOverstates(pre: ClusterState, post: ClusterState, name: string, clean: bool)
    requires name in pre.configSyncs && SyncStep(pre, post, name, clean)
    requires clean || post.configSyncs[name].status != pre.configSyncs[name].status
    requires Distinct(post.configSyncs[name].status.namespaces)
    ensures var spec, st := pre.configSyncs[name].spec, post.configSyncs[name].status;
            var targets := Targets(spec, pre.namespaces);
            && st.secrets <= |InPlace(name, spec, targets, SecretKind, post.objects)|
            && st.configMaps <= |InPlace(name, spec, targets, ConfigMapKind, post.objects)|
  {
    var spec, st := pre.configSyncs[name].spec, post.configSyncs[name].status;
    var targets :| IsTargetList(targets, spec, pre.namespaces) && Accounted(st, targets);
    AccountedNamespaces(st, targets);
    CountedOnce(name, spec, post.objects, st.namespaces);
  }

  lemma AccountedNamespaces(st: Status, targets: seq<string>)
    requires Accounted(st, targets)
    ensures Namespaces(st.namespaces) == Elements(targets)
  {
    forall ns
      ensures ns in Namespaces(st.namespaces) <==> ns in Elements(targets)
    {
      if i :| 0 <= i < |targets| && targets[i] == ns {
        assert st.namespaces[i].ns == ns;
      }
    }
  }

  /** Ready says nothing about success: with a selector that cannot be used, a pass without any failed call makes no
      copy of that kind, reports every target as failed, and is ready all the same. */
  lemma ReadyDespiteFailures(pre: ClusterState, post: ClusterState, name: string, kind: Kind)
    requires name in pre.configSyncs && SyncStep(pre, post, name, true)
    requires var spec := pre.configSyncs[name].spec; Enabled(spec, kind) && !Usable(SelectorFor(spec, kind))
    ensures var st := post.configSyncs[name].status;
            st.ready && forall i | 0 <= i < |st.namespaces| :: !st.namespaces[i].succeeded
    ensures forall k | k in post.objects && k.kind == kind :: k in pre.objects && post.objects[k] == pre.objects[k]
  {
    var spec := pre.configSyncs[name].spec;
    forall k | k in post.objects && k.kind == kind
      ensures k in pre.objects && post.objects[k] == pre.objects[k]
    {
      SyncPlanAt(name, spec, pre.namespaces, pre.objects, k);
      assert Lookup(post.objects, k) == Lookup(pre.objects, k) ||
             Lookup(post.objects, k) ==
             EffectAt(SyncPlan(name, spec, pre.namespaces, pre.objects), pre.namespaces, pre.objects, k);
    }
  }
}
