/** The shared object store behind the API server, and the calls the operator makes on it.  Every call may fail;
    a failed write may or may not have taken effect. */
module Clusters {
  import opened Objects
  import opened Selectors
  import opened ConfigSyncs

  datatype Error = NotFound | AlreadyExists | InvalidSelector | Fault

  datatype Result<+T> = Ok(value: T) | Err(error: Error)

  /** What the watches see. */
  datatype Event =
    | Created(key: Key, obj: Object)
    | Updated(key: Key, before: Object, obj: Object)
    | Deleted(key: Key, obj: Object)
    | ConfigSyncWritten(name: string)

  datatype ClusterState = ClusterState(
    objects: Store,
    namespaces: set<string>,
    configSyncs: map<string, ConfigSync>,
    events: seq<Event>)

  ghost predicate WellFormed(st: ClusterState) {
    && Housed(st.objects, st.namespaces)
    && (forall n | n in st.configSyncs :: NamedAndHeld(n, st.configSyncs[n]))
  }

  /** A ConfigSync that is being deleted stays stored only while a finalizer holds it. */
  predicate NamedAndHeld(n: string, cs: ConfigSync) {
    cs.name == n && (cs.deleting ==> cs.finalizers != [])
  }

  /** A write the operator is entitled to: it involves labelled objects only. */
  predicate OperatorEvent(e: Event) {
    match e
    case Created(_, o) => Labelled(o)
    case Updated(_, before, o) => Labelled(before) && Labelled(o)
    case Deleted(_, o) => Labelled(o)
    case ConfigSyncWritten(_) => true
  }

  ghost predicate OperatorEvents(before: seq<Event>, after: seq<Event>) {
    before <= after && forall i | |before| <= i < |after| :: OperatorEvent(after[i])
  }

  /** Writes of copies alone. */
  ghost predicate CopyEvents(before: seq<Event>, after: seq<Event>) {
    && OperatorEvents(before, after)
    && forall i | |before| <= i < |after| :: !after[i].ConfigSyncWritten?
  }

  /** The main resource endpoint ignores status and the deletion mark, and lets go of a deleted ConfigSync
      once its last finalizer is gone. */
  function StoredUpdate(css: map<string, ConfigSync>, cs: ConfigSync): map<string, ConfigSync>
    requires cs.name in css
  {
    var merged := cs.(deleting := css[cs.name].deleting, status := css[cs.name].status);
    if merged.deleting && merged.finalizers == [] then css - {cs.name} else css[cs.name := merged]
  }

  function StoredStatus(css: map<string, ConfigSync>, cs: ConfigSync): map<string, ConfigSync>
    requires cs.name in css
  {
    css[cs.name := css[cs.name].(status := cs.status)]
  }

  datatype Item = Item(key: Key, obj: Object)

  function ItemKeys(items: seq<Item>): set<Key> {
    set i | 0 <= i < |items| :: items[i].key
  }

  /** A listing gives each matching object once, in any order. */
  ghost predicate Listing(items: seq<Item>, keys: set<Key>, s: Store) {
    && (forall i | 0 <= i < |items| :: items[i].key in s && items[i].obj == s[items[i].key])
    && (forall i, j | 0 <= i < j < |items| :: items[i].key != items[j].key)
    && ItemKeys(items) == keys
  }

  lemma ItemKeysSnoc(items: seq<Item>, i: nat)
    requires i < |items|
    ensures ItemKeys(items[..i + 1]) == ItemKeys(items[..i]) + {items[i].key}
  {
    forall k
      ensures k in ItemKeys(items[..i + 1]) <==> k in ItemKeys(items[..i]) || k == items[i].key
    {
      if k in ItemKeys(items[..i]) {
        var j :| 0 <= j < i && items[..i][j].key == k;
        assert items[..i + 1][j].key == k;
      }
      if k == items[i].key {
        assert items[..i + 1][i].key == k;
      }
      if k in ItemKeys(items[..i + 1]) && k != items[i].key {
        var j :| 0 <= j < i + 1 && items[..i + 1][j].key == k;
        assert items[..i][j].key == k;
      }
    }
  }

  /** The next item of a scan is one of the listed keys, and it has not been seen before. */
  lemma NextItem(items: seq<Item>, i: nat, keys: set<Key>, s: Store)
    requires i < |items| && Listing(items, keys, s)
    ensures ItemKeys(items[..i + 1]) == ItemKeys(items[..i]) + {items[i].key}
    ensures items[i].key in keys && items[i].key in s && items[i].obj == s[items[i].key]
    ensures items[i].key !in ItemKeys(items[..i])
  {
    ItemKeysSnoc(items, i);
    assert items[i].key in ItemKeys(items);
  }

  lemma ListingSnoc(items: seq<Item>, keys: set<Key>, s: Store, it: Item)
    requires Listing(items, keys, s) && it.key !in keys && it.key in s && it.obj == s[it.key]
    ensures Listing(items + [it], keys + {it.key}, s)
  {
    var longer := items + [it];
    ItemKeysSnoc(longer, |items|);
    assert longer[..|items|] == items && longer[..|items| + 1] == longer;
    assert forall i | 0 <= i < |items| :: items[i].key in ItemKeys(items);
  }

  function Names(list: seq<ConfigSync>): set<string> {
    set cs | cs in list :: cs.name
  }

  lemma NamesSnoc(list: seq<ConfigSync>, cs: ConfigSync)
    ensures Names(list + [cs]) == Names(list) + {cs.name}
  {
  }

  ghost predicate ConfigSyncListing(list: seq<ConfigSync>, css: map<string, ConfigSync>) {
    && (forall i | 0 <= i < |list| :: list[i].name in css && list[i] == css[list[i].name])
    && (forall i, j | 0 <= i < j < |list| :: list[i].name != list[j].name)
    && Names(list) == css.Keys
  }

  lemma NextConfigSync(list: seq<ConfigSync>, i: nat, css: map<string, ConfigSync>)
    requires i < |list| && ConfigSyncListing(list, css)
    ensures Names(list[..i + 1]) == Names(list[..i]) + {list[i].name}
    ensures list[i].name !in Names(list[..i]) && list[i].name in css && css[list[i].name] == list[i]
  {
    assert list[..i + 1] == list[..i] + [list[i]];
    NamesSnoc(list[..i], list[i]);
  }

  lemma NextOfThese(list: seq<ConfigSync>, i: nat, css: map<string, ConfigSync>, these: set<string>)
    requires i < |list| && ConfigSyncListing(list, css)
    ensures Names(list[..i + 1]) * these ==
            if list[i].name in these then Names(list[..i]) * these + {list[i].name} else Names(list[..i]) * these
    ensures list[i].name !in Names(list[..i]) && list[i].name in css && css[list[i].name] == list[i]
  {
    NextConfigSync(list, i, css);
  }

  /** The keys in any order. */
  method Enumerate(keys: set<Key>, s: Store) returns (items: seq<Item>)
    requires forall k | k in keys :: k in s
    ensures Listing(items, keys, s)
  {
    items := [];
    var rest := keys;
    while rest != {}
      invariant rest <= keys && Listing(items, keys - rest, s)
    {
      var k :| k in rest;
      ListingSnoc(items, keys - rest, s, Item(k, s[k]));
      items := items + [Item(k, s[k])];
      assert keys - (rest - {k}) == keys - rest + {k};
      rest := rest - {k};
    }
    assert keys - rest == keys;
  }

  method EnumerateConfigSyncs(css: map<string, ConfigSync>) returns (list: seq<ConfigSync>)
    requires forall n | n in css :: css[n].name == n
    ensures ConfigSyncListing(list, css)
  {
    list := [];
    var rest := css.Keys;
    while rest != {}
      invariant rest <= css.Keys && Names(list) !! rest && Names(list) + rest == css.Keys
      invariant forall i | 0 <= i < |list| :: list[i].name in css && list[i] == css[list[i].name]
      invariant forall i, j | 0 <= i < j < |list| :: list[i].name != list[j].name
    {
      var n :| n in rest;
      assert forall i | 0 <= i < |list| :: list[i].name in Names(list);
      NamesSnoc(list, css[n]);
      list := list + [css[n]];
      rest := rest - {n};
    }
  }

  class Cluster {
    var objects: Store
    var namespaces: set<string>
    var configSyncs: map<string, ConfigSync>
    var events: seq<Event>
    var faults: nat  // calls that failed for other reasons than the state of the store
    var unlisted: nat  // those of them that were to list the namespaces

    ghost predicate Valid()
      reads this
    {
      WellFormed(View())
    }

    ghost function View(): ClusterState
      reads this
    {
      ClusterState(objects, namespaces, configSyncs, events)
    }

    constructor (objects: Store, namespaces: set<string>, configSyncs: map<string, ConfigSync>)
      requires WellFormed(ClusterState(objects, namespaces, configSyncs, []))
      ensures Valid() && View() == ClusterState(objects, namespaces, configSyncs, []) && faults == unlisted == 0
    {
      this.objects, this.namespaces, this.configSyncs := objects, namespaces, configSyncs;
      this.events, this.faults, this.unlisted := [], 0, 0;
    }

    method Get(k: Key) returns (r: Result<Object>)
      modifies this`faults
      ensures r.Ok? ==> k in objects && r.value == objects[k]
      ensures r.Err? ==> r.error == Fault || (r.error == NotFound && k !in objects)
      ensures faults == old(faults) + if r == Err(Fault) then 1 else 0
    {
      var failing: bool := *;
      if failing {
        faults := faults + 1;
        return Err(Fault);
      }
      return if k in objects then Ok(objects[k]) else Err(NotFound);
    }

    /** The keys of one kind, in one namespace or in all, whose labels the selector accepts. */
    function Matching(kind: Kind, ns: Option<string>, sel: Option<LabelSelector>): set<Key>
      reads this`objects
    {
      set k | k in objects && k.kind == kind && (ns.Some? ==> k.ns == ns.value) && Selects(sel, objects[k].labels)
    }

    method List(kind: Kind, ns: Option<string>, sel: Option<LabelSelector>) returns (r: Result<seq<Item>>)
      requires Usable(sel)
      modifies this`faults
      ensures r.Ok? ==> Listing(r.value, Matching(kind, ns, sel), objects)
      ensures r.Err? ==> r.error == Fault
      ensures faults == old(faults) + if r == Err(Fault) then 1 else 0
    {
      var failing: bool := *;
      if failing {
        faults := faults + 1;
        return Err(Fault);
      }
      var items := Enumerate(Matching(kind, ns, sel), objects);
      r := Ok(items);
    }

    method Create(k: Key, o: Object) returns (err: Option<Error>)
      modifies this`objects, this`events, this`faults
      ensures var effected := k !in old(objects) && k.ns in namespaces &&
                              objects == old(objects)[k := o] && events == old(events) + [Created(k, o)];
              && (err.None? ==> effected)
              && (effected || (objects == old(objects) && events == old(events)))
      ensures err.Some? ==> err.value == Fault || (err.value == AlreadyExists && k in old(objects)) ||
                            (err.value == NotFound && k.ns !in namespaces)
      ensures faults == old(faults) + if err == Some(Fault) then 1 else 0
    {
      var failing: bool, lost: bool := *, *;
      if failing && lost {
        faults := faults + 1;
        return Some(Fault);
      }
      if k in objects {
        return Some(AlreadyExists);
      }
      if k.ns !in namespaces {
        return Some(NotFound);
      }
      objects := objects[k := o];
      events := events + [Created(k, o)];
      if failing {
        faults := faults + 1;
        return Some(Fault);
      }
      return None;
    }

    method Update(k: Key, o: Object) returns (err: Option<Error>)
      modifies this`objects, this`events, this`faults
      ensures var effected := k in old(objects) && objects == old(objects)[k := o] &&
                              events == old(events) + [Updated(k, old(objects)[k], o)];
              && (err.None? ==> effected)
              && (effected || (objects == old(objects) && events == old(events)))
      ensures err.Some? ==> err.value == Fault || (err.value == NotFound && k !in old(objects))
      ensures faults == old(faults) + if err == Some(Fault) then 1 else 0
    {
      var failing: bool, lost: bool := *, *;
      if failing && lost {
        faults := faults + 1;
        return Some(Fault);
      }
      if k !in objects {
        return Some(NotFound);
      }
      events := events + [Updated(k, objects[k], o)];
      objects := objects[k := o];
      if failing {
        faults := faults + 1;
        return Some(Fault);
      }
      return None;
    }

    method Delete(k: Key) returns (err: Option<Error>)
      modifies this`objects, this`events, this`faults
      ensures var effected := k in old(objects) && objects == old(objects) - {k} &&
                              events == old(events) + [Deleted(k, old(objects)[k])];
              && (err.None? ==> effected)
              && (effected || (objects == old(objects) && events == old(events)))
      ensures err.Some? ==> err.value == Fault || (err.value == NotFound && k !in old(objects))
      ensures faults == old(faults) + if err == Some(Fault) then 1 else 0
    {
      var failing: bool, lost: bool := *, *;
      if failing && lost {
        faults := faults + 1;
        return Some(Fault);
      }
      if k !in objects {
        return Some(NotFound);
      }
      events := events + [Deleted(k, objects[k])];
      objects := objects - {k};
      if failing {
        faults := faults + 1;
        return Some(Fault);
      }
      return None;
    }

    method GetNamespace(ns: string) returns (err: Option<Error>)
      modifies this`faults
      ensures err.None? ==> ns in namespaces
      ensures err.Some? ==> err.value == Fault || (err.value == NotFound && ns !in namespaces)
      ensures faults == old(faults) + if err == Some(Fault) then 1 else 0
    {
      var failing: bool := *;
      if failing {
        faults := faults + 1;
        return Some(Fault);
      }
      return if ns in namespaces then None else Some(NotFound);
    }

    method ListNamespaces() returns (r: Result<seq<string>>)
      modifies this`faults, this`unlisted
      ensures r.Ok? ==> Elements(r.value) == namespaces && |r.value| == |namespaces|
      ensures r.Err? ==> r.error == Fault
      ensures faults == old(faults) + if r == Err(Fault) then 1 else 0
      ensures unlisted == old(unlisted) + if r == Err(Fault) then 1 else 0
    {
      var failing: bool := *;
      if failing {
        faults, unlisted := faults + 1, unlisted + 1;
        return Err(Fault);
      }
      var names: seq<string> := [];
      var rest := namespaces;
      while rest != {}
        invariant Elements(names) + rest == namespaces && Elements(names) !! rest
        invariant |names| + |rest| == |namespaces|
      {
        var ns :| ns in rest;
        assert Elements(names + [ns]) == Elements(names) + {ns};
        names := names + [ns];
        rest := rest - {ns};
      }
      r := Ok(names);
    }

    method GetConfigSync(name: string) returns (r: Result<ConfigSync>)
      modifies this`faults
      ensures r.Ok? ==> name in configSyncs && r.value == configSyncs[name]
      ensures r.Err? ==> r.error == Fault || (r.error == NotFound && name !in configSyncs)
      ensures faults == old(faults) + if r == Err(Fault) then 1 else 0
    {
      var failing: bool := *;
      if failing {
        faults := faults + 1;
        return Err(Fault);
      }
      return if name in configSyncs then Ok(configSyncs[name]) else Err(NotFound);
    }

    method ListConfigSyncs() returns (r: Result<seq<ConfigSync>>)
      requires Valid()
      modifies this`faults
      ensures r.Ok? ==> ConfigSyncListing(r.value, configSyncs)
      ensures r.Err? ==> r.error == Fault
      ensures faults == old(faults) + if r == Err(Fault) then 1 else 0
    {
      var failing: bool := *;
      if failing {
        faults := faults + 1;
        return Err(Fault);
      }
      var list := EnumerateConfigSyncs(configSyncs);
      r := Ok(list);
    }

    method UpdateConfigSync(cs: ConfigSync) returns (err: Option<Error>)
      modifies this`configSyncs, this`events, this`faults
      ensures var effected := cs.name in old(configSyncs) && configSyncs == StoredUpdate(old(configSyncs), cs) &&
                              events == old(events) + [ConfigSyncWritten(cs.name)];
              && (err.None? ==> effected)
              && (effected || (configSyncs == old(configSyncs) && events == old(events)))
      ensures err.Some? ==> err.value == Fault || (err.value == NotFound && cs.name !in old(configSyncs))
      ensures faults == old(faults) + if err == Some(Fault) then 1 else 0
    {
      var failing: bool, lost: bool := *, *;
      if failing && lost {
        faults := faults + 1;
        return Some(Fault);
      }
      if cs.name !in configSyncs {
        return Some(NotFound);
      }
      configSyncs := StoredUpdate(configSyncs, cs);
      events := events + [ConfigSyncWritten(cs.name)];
      if failing {
        faults := faults + 1;
        return Some(Fault);
      }
      return None;
    }

    method UpdateConfigSyncStatus(cs: ConfigSync) returns (err: Option<Error>)
      modifies this`configSyncs, this`events, this`faults
      ensures var effected := cs.name in old(configSyncs) && configSyncs == StoredStatus(old(configSyncs), cs) &&
                              events == old(events) + [ConfigSyncWritten(cs.name)];
              && (err.None? ==> effected)
              && (effected || (configSyncs == old(configSyncs) && events == old(events)))
      ensures err.Some? ==> err.value == Fault || (err.value == NotFound && cs.name !in old(configSyncs))
      ensures faults == old(faults) + if err == Some(Fault) then 1 else 0
    {
      var failing: bool, lost: bool := *, *;
      if failing && lost {
        faults := faults + 1;
        return Some(Fault);
      }
      if cs.name !in configSyncs {
        return Some(NotFound);
      }
      configSyncs := StoredStatus(configSyncs, cs);
      events := events + [ConfigSyncWritten(cs.name)];
      if failing {
        faults := faults + 1;
        return Some(Fault);
      }
      return None;
    }
  }
}
