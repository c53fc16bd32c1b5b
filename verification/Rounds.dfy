/** Rounds of passes over several ConfigSyncs: the order does not matter, and one round settles them all. */
module Rounds {
  import opened Objects
  import opened ConfigSyncs
  import opened Plans
  import opened Passes
  import opened PassTheorems

  /** What a failure-free pass of the ConfigSync makes of the store: it finalizes if deletion is under way. */
  ghost function PassOf(cs: ConfigSync, n: string, nss: set<string>, s: Store): Store {
    if cs.deleting then Finalized(n, cs.spec, nss, s) else Synced(n, cs.spec, nss, s)
  }

  ghost function Pass(css: map<string, ConfigSync>, n: string, nss: set<string>, s: Store): Store
    requires n in css
  {
    PassOf(css[n], n, nss, s)
  }

  /** Failure-free passes of the ConfigSyncs in `order`, one after the other. */
  ghost function Round(css: map<string, ConfigSync>, order: seq<string>, nss: set<string>, s: Store): Store
    requires forall n | n in order :: n in css
  {
    if order == [] then s else Round(css, order[1..], nss, Pass(css, order[0], nss, s))
  }

  /** No two ConfigSyncs that sync write the same key; those that are being deleted do not matter. */
  ghost predicate Uncontested(css: map<string, ConfigSync>, nss: set<string>, s: Store) {
    forall a, b | a in css && b in css && a != b && !css[a].deleting && !css[b].deleting ::
      Contested(css[a].spec, css[b].spec, nss, s) == {}
  }

  lemma ContestedByUnlabelled(spec1: Spec, spec2: Spec, nss: set<string>, s: Store, t: Store)
    requires Unlabelled(s) == Unlabelled(t)
    ensures Contested(spec1, spec2, nss, s) == Contested(spec1, spec2, nss, t)
  {
    WriteKeysByUnlabelled(spec1, Targets(spec1, nss), s, t);
    WriteKeysByUnlabelled(spec2, Targets(spec2, nss), s, t);
    forall k
      ensures k in s ==> Labelled(s[k]) <==> k !in Unlabelled(s)
      ensures k in t ==> Labelled(t[k]) <==> k !in Unlabelled(t)
    {
    }
  }

  lemma PassKeeps(css: map<string, ConfigSync>, n: string, nss: set<string>, s: Store)
    requires n in css && Housed(s, nss) && Uncontested(css, nss, s)
    ensures Housed(Pass(css, n, nss, s), nss) && Uncontested(css, nss, Pass(css, n, nss, s))
  {
    var t := Pass(css, n, nss, s);
    SyncKeepsUsers(n, css[n].spec, nss, s);
    FinalizedKeeps(n, css[n].spec, nss, s);
    forall a, b | a in css && b in css && a != b && !css[a].deleting && !css[b].deleting
      ensures Contested(css[a].spec, css[b].spec, nss, t) == {}
    {
      ContestedByUnlabelled(css[a].spec, css[b].spec, nss, s, t);
    }
  }

  lemma {:induction false} RoundKeepsHoused(css: map<string, ConfigSync>, order: seq<string>,
                                            nss: set<string>, s: Store)
    requires (forall n | n in order :: n in css) && Housed(s, nss) && Uncontested(css, nss, s)
    ensures Housed(Round(css, order, nss, s), nss)
  {
    if order != [] {
      PassKeeps(css, order[0], nss, s);
      RoundKeepsHoused(css, order[1..], nss, Pass(css, order[0], nss, s));
    }
  }

  lemma TwoPassesSwap(css: map<string, ConfigSync>, a: string, b: string, nss: set<string>, s: Store)
    requires a in css && b in css && Housed(s, nss) && Uncontested(css, nss, s)
    ensures Pass(css, b, nss, Pass(css, a, nss, s)) == Pass(css, a, nss, Pass(css, b, nss, s))
  {
    if a != b {
      var x, y := css[a].spec, css[b].spec;
      if css[a].deleting && css[b].deleting {
        FinalsCommute(a, x, b, y, nss, s);
      } else if css[a].deleting {
        SyncAndFinalCommute(b, y, a, x, nss, s);
      } else if css[b].deleting {
        SyncAndFinalCommute(a, x, b, y, nss, s);
      } else {
        PassesCommuteExactly(a, x, b, y, nss, s);
      }
    }
  }

  lemma RoundFrom(css: map<string, ConfigSync>, n: string, rest: seq<string>, nss: set<string>, s: Store)
    requires n in css && forall m | m in rest :: m in css
    ensures Round(css, [n] + rest, nss, s) == Round(css, rest, nss, Pass(css, n, nss, s))
  {
    assert ([n] + rest)[1..] == rest;
  }

  lemma TakenFromRest(order: seq<string>, i: nat)
    requires 0 < i < |order|
    ensures order == [order[0]] + order[1..] && order[1..][i - 1] == order[i]
    ensures order[..i] + order[i + 1..] == [order[0]] + (order[1..][..i - 1] + order[1..][i..])
  {
  }

  /** A pass can be brought to the front of the round. */
  lemma {:induction false} PulledForward(css: map<string, ConfigSync>, order: seq<string>, i: nat,
                                         nss: set<string>, s: Store)
    requires (forall n | n in order :: n in css) && i < |order| && Housed(s, nss) && Uncontested(css, nss, s)
    ensures Round(css, order, nss, s) ==
            Round(css, order[..i] + order[i + 1..], nss, Pass(css, order[i], nss, s))
  {
    if i == 0 {
      assert order[..0] + order[1..] == order[1..];
    } else {
      var a, b, rest := order[0], order[i], order[1..];
      TakenFromRest(order, i);
      PassKeeps(css, a, nss, s);
      PulledForward(css, rest, i - 1, nss, Pass(css, a, nss, s));
      RoundFrom(css, a, rest[..i - 1] + rest[i..], nss, Pass(css, b, nss, s));
      TwoPassesSwap(css, a, b, nss, s);
    }
  }

  lemma OnePulledOut(order: seq<string>, i: nat)
    requires i < |order|
    ensures multiset(order) == multiset{order[i]} + multiset(order[..i] + order[i + 1..])
  {
    assert order == order[..i] + [order[i]] + order[i + 1..];
  }

  lemma WithoutOne(order: seq<string>, i: nat)
    requires i < |order|
    ensures multiset(order[..i] + order[i + 1..]) == multiset(order) - multiset{order[i]}
  {
    OnePulledOut(order, i);
  }

  lemma RestsMatch(order1: seq<string>, order2: seq<string>, i: nat)
    requires multiset(order1) == multiset(order2) && order1 != [] && i < |order2| && order2[i] == order1[0]
    ensures multiset(order1[1..]) == multiset(order2[..i] + order2[i + 1..])
  {
    WithoutOne(order1, 0);
    WithoutOne(order2, i);
    assert order1[..0] + order1[1..] == order1[1..];
  }

  /** The order of the passes does not matter. */
  lemma {:induction false} OrderIrrelevant(css: map<string, ConfigSync>, order1: seq<string>, order2: seq<string>,
                                           nss: set<string>, s: Store)
    requires multiset(order1) == multiset(order2)
    requires (forall n | n in order1 :: n in css) && (forall n | n in order2 :: n in css)
    requires Housed(s, nss) && Uncontested(css, nss, s)
    ensures Round(css, order1, nss, s) == Round(css, order2, nss, s)
    decreases |order1|
  {
    if order1 == [] {
      assert |multiset(order2)| == 0;
    } else {
      var x := order1[0];
      assert x in multiset(order2);
      var i :| 0 <= i < |order2| && order2[i] == x;
      PulledForward(css, order2, i, nss, s);
      RestsMatch(order1, order2, i);
      PassKeeps(css, x, nss, s);
      OrderIrrelevant(css, order1[1..], order2[..i] + order2[i + 1..], nss, Pass(css, x, nss, s));
    }
  }

  lemma {:induction false} RoundThenPass(css: map<string, ConfigSync>, order: seq<string>, n: string,
                                         nss: set<string>, s: Store)
    requires (forall m | m in order :: m in css) && n in css
    ensures Round(css, order + [n], nss, s) == Pass(css, n, nss, Round(css, order, nss, s))
  {
    if order != [] {
      assert (order + [n])[1..] == order[1..] + [n];
      RoundThenPass(css, order[1..], n, nss, Pass(css, order[0], nss, s));
    }
  }

  lemma TwiceAtOnce(css: map<string, ConfigSync>, n: string, rest: seq<string>, nss: set<string>, s: Store)
    requires n in css && (forall m | m in rest :: m in css) && Housed(s, nss)
    ensures Round(css, [n, n] + rest, nss, s) == Round(css, rest, nss, Pass(css, n, nss, s))
  {
    assert [n, n] + rest == [n] + ([n] + rest);
    RoundFrom(css, n, [n] + rest, nss, s);
    RoundFrom(css, n, rest, nss, Pass(css, n, nss, s));
    SettledTwice(css, n, nss, s);
  }

  lemma SettledTwice(css: map<string, ConfigSync>, n: string, nss: set<string>, s: Store)
    requires n in css && Housed(s, nss)
    ensures Pass(css, n, nss, Pass(css, n, nss, s)) == Pass(css, n, nss, s)
  {
    if css[n].deleting {
      PerformedAll(FinalPlan(n, css[n].spec, nss, s), nss, s);
      FinalRecovers(n, css[n].spec, nss, s, Pass(css, n, nss, s));
    } else {
      SyncIsIdempotent(n, css[n].spec, nss, s);
    }
  }

  lemma AppendedMatches(order: seq<string>, i: nat)
    requires i < |order|
    ensures multiset(order + [order[i]]) == multiset([order[i], order[i]] + (order[..i] + order[i + 1..]))
  {
    OnePulledOut(order, i);
  }

  lemma RoundAppended(css: map<string, ConfigSync>, order: seq<string>, i: nat, nss: set<string>, s: Store)
    requires (forall m | m in order :: m in css) && i < |order| && Housed(s, nss) && Uncontested(css, nss, s)
    ensures Round(css, order + [order[i]], nss, s) ==
            Round(css, order[..i] + order[i + 1..], nss, Pass(css, order[i], nss, s))
  {
    AppendedMatches(order, i);
    OrderIrrelevant(css, order + [order[i]], [order[i], order[i]] + (order[..i] + order[i + 1..]), nss, s);
    TwiceAtOnce(css, order[i], order[..i] + order[i + 1..], nss, s);
  }

  /** After one round, in any order, no ConfigSync of the round has anything left to do. */
  lemma RoundSettlesAll(css: map<string, ConfigSync>, order: seq<string>, n: string, nss: set<string>, s: Store)
    requires (forall m | m in order :: m in css) && n in order
    requires Housed(s, nss) && Uncontested(css, nss, s)
    ensures Pass(css, n, nss, Round(css, order, nss, s)) == Round(css, order, nss, s)
    ensures !css[n].deleting ==> Settled(n, css[n].spec, nss, Round(css, order, nss, s))
  {
    var i :| 0 <= i < |order| && order[i] == n;
    RoundThenPass(css, order, n, nss, s);
    RoundAppended(css, order, i, nss, s);
    PulledForward(css, order, i, nss, s);
    RoundKeepsHoused(css, order, nss, s);
    SettledExactly(n, css[n].spec, nss, Round(css, order, nss, s));
  }
}
