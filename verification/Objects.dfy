/** The resources the operator copies: Secrets and ConfigMaps, their labels and their keys in the store. */
module Objects {

  datatype Option<+T> = None | Some(value: T)

  newtype byte = x: int | 0 <= x < 256
  type Bytes = seq<byte>

  const SYNCED_FROM := "config.zyql.com/synced-from"
  const SYNCED_BY := "config.zyql.com/synced-by"
  const SOURCE_NAMESPACE := "config.zyql.com/source-namespace"
  const SERVICE_ACCOUNT_TOKEN := "kubernetes.io/service-account-token"

  datatype Kind = SecretKind | ConfigMapKind

  datatype Key = Key(kind: Kind, ns: string, name: string)

  /** What a copy takes over unchanged from its source. */
  datatype Content =
    | SecretContent(typ: string, data: map<string, Bytes>)
    | ConfigMapContent(text: map<string, string>, binary: map<string, Bytes>)

  datatype Object = Object(labels: map<string, string>, annotations: map<string, string>, content: Content)

  type Store = map<Key, Object>

  /** Carries synced-from: the operator may overwrite it and never treats it as a source. */
  predicate Labelled(o: Object) {
    SYNCED_FROM in o.labels
  }

  predicate BothLabelled(o: Object) {
    SYNCED_FROM in o.labels && SYNCED_BY in o.labels
  }

  predicate OwnedBy(o: Object, from: string, owner: string) {
    BothLabelled(o) && o.labels[SYNCED_FROM] == from && o.labels[SYNCED_BY] == owner
  }

  /** A copy this ConfigSync made, from whatever namespace. */
  predicate MadeBy(o: Object, owner: string) {
    BothLabelled(o) && o.labels[SYNCED_BY] == owner
  }

  /** Never true of a ConfigMap. */
  predicate IsServiceAccountToken(o: Object) {
    o.content.SecretContent? && o.content.typ == SERVICE_ACCOUNT_TOKEN
  }

  /** The copy of `source` that ConfigSync `owner` writes when it syncs from namespace `from`. */
  function Project(source: Object, from: string, owner: string): (copy: Object)
    ensures OwnedBy(copy, from, owner)
  {
    source.(labels := source.labels[SYNCED_FROM := from][SYNCED_BY := owner],
            annotations := source.annotations[SOURCE_NAMESPACE := from])
  }

  /** `copy` field by field: the contents are the source's, and so are the labels and annotations but for the three
      that tell where the copy comes from. */
  predicate IsCopy(copy: Object, source: Object, from: string, owner: string) {
    && copy.content == source.content
    && copy.labels.Keys == source.labels.Keys + {"config.zyql.com/synced-from", "config.zyql.com/synced-by"}
    && copy.labels["config.zyql.com/synced-from"] == from
    && copy.labels["config.zyql.com/synced-by"] == owner
    && (forall l | l in source.labels && l != "config.zyql.com/synced-from" && l != "config.zyql.com/synced-by" ::
          copy.labels[l] == source.labels[l])
    && copy.annotations.Keys == source.annotations.Keys + {"config.zyql.com/source-namespace"}
    && copy.annotations["config.zyql.com/source-namespace"] == from
    && (forall a | a in source.annotations && a != "config.zyql.com/source-namespace" ::
          copy.annotations[a] == source.annotations[a])
  }

  lemma IsCopyExactly(copy: Object, source: Object, from: string, owner: string)
    ensures IsCopy(copy, source, from, owner) <==> copy == Project(source, from, owner)
  {
    var p := Project(source, from, owner);
    assert p.labels.Keys == source.labels.Keys + {SYNCED_FROM, SYNCED_BY};
    assert p.annotations.Keys == source.annotations.Keys + {SOURCE_NAMESPACE};
    if IsCopy(copy, source, from, owner) {
      assert copy.labels == p.labels;
      assert copy.annotations == p.annotations;
    }
  }

  function Lookup(s: Store, k: Key): Option<Object> {
    if k in s then Some(s[k]) else None
  }

  lemma SameStore(s: Store, t: Store)
    requires forall k :: Lookup(s, k) == Lookup(t, k)
    ensures s == t
  {
    forall k
      ensures k in s <==> k in t
      ensures k in s ==> s[k] == t[k]
    {
      assert Lookup(s, k) == Lookup(t, k);
    }
  }

  /** Stores that differ at the keys of `diff` and nowhere else. */
  lemma DifferExactly(s: Store, t: Store, diff: set<Key>)
    requires forall k :: Lookup(s, k) == Lookup(t, k) <==> k !in diff
    ensures s == t <==> diff == {}
  {
    if diff == {} {
      SameStore(s, t);
    } else {
      var k :| k in diff;
      assert Lookup(s, k) != Lookup(t, k);
    }
  }

  /** Every object lives in a namespace that exists. */
  ghost predicate Housed(s: Store, nss: set<string>) {
    forall k | k in s :: k.ns in nss
  }

  /** The part of the store that belongs to users: what carries no synced-from label. */
  function Unlabelled(s: Store): Store {
    map k | k in s && !Labelled(s[k]) :: s[k]
  }
}
