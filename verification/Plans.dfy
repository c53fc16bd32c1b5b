/** Guarded plans: what a reconcile pass wants to be true of a set of keys, and what is left of it when some
    of the calls fail. */
module Plans {
  import opened Objects

  /** Some(o): the key is to hold o.  None: the key is to be empty. */
  type Plan = map<Key, Option<Object>>

  /** What a key holds once the plan has been carried out.  Unlabelled objects are never touched, and nothing
      is created in a namespace that does not exist. */
  function EffectAt(p: Plan, nss: set<string>, s: Store, k: Key): Option<Object> {
    if k !in p then Lookup(s, k)
    else if k in s then if Labelled(s[k]) then p[k] else Some(s[k])
    else if p[k].Some? && k.ns in nss then p[k]
    else None
  }

  function Apply(p: Plan, nss: set<string>, s: Store): (r: Store)
    ensures forall k :: Lookup(r, k) == EffectAt(p, nss, s, k)
  {
    map k | k in s.Keys + p.Keys && EffectAt(p, nss, s, k).Some? :: EffectAt(p, nss, s, k).value
  }

  /** Only labelled objects are written. */
  ghost predicate ValidPlan(p: Plan) {
    forall k | k in p && p[k].Some? :: Labelled(p[k].value)
  }

  ghost predicate Agree(p: Plan, q: Plan) {
    forall k | k in p && k in q :: p[k] == q[k]
  }

  /** Any subset of the plan's calls took effect. */
  ghost predicate Partial(p: Plan, nss: set<string>, s0: Store, s1: Store) {
    forall k :: Lookup(s1, k) == Lookup(s0, k) || Lookup(s1, k) == EffectAt(p, nss, s0, k)
  }

  /** Any subset of the calls took effect, and all of them did if no call failed. */
  ghost predicate Performed(p: Plan, nss: set<string>, s0: Store, s1: Store, clean: bool) {
    Partial(p, nss, s0, s1) && (clean ==> s1 == Apply(p, nss, s0))
  }

  lemma PerformedNothing(nss: set<string>, s: Store, clean: bool)
    ensures Performed(map[], nss, s, s, clean)
  {
    SameStore(s, Apply(map[], nss, s));
  }

  lemma PerformedAll(p: Plan, nss: set<string>, s: Store)
    ensures Performed(p, nss, s, Apply(p, nss, s), true)
  {
  }

  lemma AppliesInTurn(p: Plan, q: Plan, nss: set<string>, s: Store)
    requires ValidPlan(p) && ValidPlan(q) && Agree(p, q)
    ensures Apply(q, nss, Apply(p, nss, s)) == Apply(p + q, nss, s)
  {
    var s1 := Apply(p, nss, s);
    forall k
      ensures EffectAt(q, nss, s1, k) == EffectAt(p + q, nss, s, k)
    {
      assert Lookup(s1, k) == EffectAt(p, nss, s, k);
    }
    SameStore(Apply(q, nss, s1), Apply(p + q, nss, s));
  }

  /** Two attempts one after the other are one attempt at both plans together. */
  lemma PerformedInTurn(p: Plan, q: Plan, nss: set<string>, s0: Store, s1: Store, s2: Store, c1: bool, c2: bool)
    requires ValidPlan(p) && ValidPlan(q) && Agree(p, q)
    requires Performed(p, nss, s0, s1, c1) && Performed(q, nss, s1, s2, c2)
    ensures Performed(p + q, nss, s0, s2, c1 && c2)
  {
    forall k
      ensures Lookup(s2, k) == Lookup(s0, k) || Lookup(s2, k) == EffectAt(p + q, nss, s0, k)
    {
      assert Lookup(s1, k) == Lookup(s0, k) || Lookup(s1, k) == EffectAt(p, nss, s0, k);
      assert Lookup(s2, k) == Lookup(s1, k) || Lookup(s2, k) == EffectAt(q, nss, s1, k);
    }
    if c1 && c2 {
      AppliesInTurn(p, q, nss, s0);
    }
  }

  /** Users' objects are invariant: nothing unlabelled is changed, removed or created. */
  lemma UnlabelledKept(p: Plan, nss: set<string>, s0: Store, s1: Store)
    requires ValidPlan(p) && Partial(p, nss, s0, s1)
    ensures Unlabelled(s1) == Unlabelled(s0)
  {
    forall k
      ensures Lookup(Unlabelled(s1), k) == Lookup(Unlabelled(s0), k)
    {
      assert Lookup(s1, k) == Lookup(s0, k) || Lookup(s1, k) == EffectAt(p, nss, s0, k);
    }
    SameStore(Unlabelled(s1), Unlabelled(s0));
  }

  lemma HousedKept(p: Plan, nss: set<string>, s0: Store, s1: Store)
    requires Housed(s0, nss) && Partial(p, nss, s0, s1)
    ensures Housed(s1, nss)
  {
    forall k | k in s1
      ensures k.ns in nss
    {
      assert Lookup(s1, k) == Lookup(s0, k) || Lookup(s1, k) == EffectAt(p, nss, s0, k);
    }
  }
}
