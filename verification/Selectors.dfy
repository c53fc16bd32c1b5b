/** Label selectors, with the outcome "invalid" for the requirements the API machinery rejects. */
module Selectors {
  import opened Objects

  datatype Operator = In | NotIn | Exists | DoesNotExist | Unknown

  datatype Requirement = Requirement(key: string, op: Operator, values: seq<string>)

  datatype LabelSelector = LabelSelector(matchLabels: map<string, string>, matchExpressions: seq<Requirement>)

  predicate ValidRequirement(r: Requirement) {
    match r.op
    case In | NotIn => r.values != []
    case Exists | DoesNotExist => r.values == []
    case Unknown => false
  }

  predicate Holds(r: Requirement, labels: map<string, string>) {
    match r.op
    case In => r.key in labels && labels[r.key] in r.values
    case NotIn => r.key !in labels || labels[r.key] !in r.values
    case Exists => r.key in labels
    case DoesNotExist => r.key !in labels
    case Unknown => false
  }

  predicate ValidSelector(sel: LabelSelector) {
    forall r | r in sel.matchExpressions :: ValidRequirement(r)
  }

  predicate Matches(sel: LabelSelector, labels: map<string, string>) {
    && (forall k | k in sel.matchLabels :: k in labels && labels[k] == sel.matchLabels[k])
    && (forall r | r in sel.matchExpressions :: Holds(r, labels))
  }

  /** An absent selector can be used and selects everything. */
  predicate Usable(sel: Option<LabelSelector>) {
    sel.Some? ==> ValidSelector(sel.value)
  }

  predicate Selects(sel: Option<LabelSelector>, labels: map<string, string>) {
    sel.Some? ==> ValidSelector(sel.value) && Matches(sel.value, labels)
  }

  // ---- What the operators mean ----

  function Only(r: Requirement): LabelSelector {
    LabelSelector(map[], [r])
  }

  /** A selector is the conjunction of its parts, and one pair of matchLabels asks for that very pair. */
  lemma SelectorSplits(sel: LabelSelector, labels: map<string, string>)
    ensures Selects(Some(sel), labels) <==>
            && (forall k | k in sel.matchLabels ::
                  Selects(Some(LabelSelector(map[k := sel.matchLabels[k]], [])), labels))
            && (forall r | r in sel.matchExpressions :: Selects(Some(Only(r)), labels))
    ensures forall k | k in sel.matchLabels ::
              Selects(Some(LabelSelector(map[k := sel.matchLabels[k]], [])), labels) <==>
              (k, sel.matchLabels[k]) in labels.Items
  {
    forall r | r in sel.matchExpressions
      ensures Selects(Some(Only(r)), labels) <==> ValidRequirement(r) && Holds(r, labels)
    {
      assert Only(r).matchExpressions[0] == r;
    }
  }

  /** In asks for one of the values; NotIn and DoesNotExist are the complements of In and Exists. */
  lemma OperatorsMean(key: string, values: seq<string>, labels: map<string, string>)
    ensures Selects(Some(Only(Requirement(key, In, values))), labels) <==>
            exists v | v in values :: (key, v) in labels.Items
    ensures Selects(Some(Only(Requirement(key, NotIn, values))), labels) <==>
            values != [] && !Selects(Some(Only(Requirement(key, In, values))), labels)
    ensures Selects(Some(Only(Requirement(key, Exists, values))), labels) <==> values == [] && key in labels
    ensures Selects(Some(Only(Requirement(key, DoesNotExist, values))), labels) <==>
            values == [] && !Selects(Some(Only(Requirement(key, Exists, values))), labels)
    ensures !Selects(Some(Only(Requirement(key, Unknown, values))), labels)
  {
    forall op | op in {In, NotIn, Exists, DoesNotExist, Unknown}
      ensures Selects(Some(Only(Requirement(key, op, values))), labels) <==>
              ValidRequirement(Requirement(key, op, values)) && Holds(Requirement(key, op, values), labels)
    {
      assert Only(Requirement(key, op, values)).matchExpressions[0] == Requirement(key, op, values);
    }
    if key in labels && labels[key] in values {
      assert (key, labels[key]) in labels.Items;
    }
  }

  /** A selector can be used if and only if each of its expressions selects something. */
  lemma UsableExactly(sel: LabelSelector)
    ensures Usable(Some(sel)) <==>
            forall r | r in sel.matchExpressions :: exists labels :: Selects(Some(Only(r)), labels)
    ensures Usable(None)
  {
    forall r | r in sel.matchExpressions
      ensures (exists labels :: Selects(Some(Only(r)), labels)) <==> ValidRequirement(r)
    {
      assert Only(r).matchExpressions[0] == r;
      if ValidRequirement(r) {
        var met := match r.op case In => map[r.key := r.values[0]] case Exists => map[r.key := ""] case _ => map[];
        assert Holds(r, met);
        assert Selects(Some(Only(r)), met);
      }
    }
  }
}
