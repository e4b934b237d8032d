/** The shape of the settings document as the hook merge sees it:
    document -> events -> groups -> definitions, each level carrying
    the JSON members the merge never inspects. */
module Settings {
  import opened Optional
  import opened Json

  /** One hook definition. `name` is None when the JSON object has no "name" member. */
  datatype Def = Def(name: Option<string>, fields: Fields)

  /** The identity used for deduplication and ownership: a missing name reads as "". */
  function NameOf(d: Def): string {
    d.name.OrElse("")
  }

  /** A hook group: its "hooks" member (None when absent) and its other members, such as "matcher". */
  datatype Group = Group(hooks: Option<seq<Def>>, fields: Fields)

  /** The definitions of a group; a group without a "hooks" member has none. */
  function Defs(g: Group): seq<Def> {
    g.hooks.OrElse([])
  }

  /** One member of the "hooks" object: an event name and its list of groups. */
  datatype Event = Event(key: string, groups: seq<Group>)

  /** The "hooks" object, in insertion order (the order `json.dump` writes). */
  type Events = seq<Event>

  /** The whole settings document: its "hooks" member (None when absent) and every other top-level member. */
  datatype Doc = Doc(hooks: Option<Events>, fields: Fields)

  /** The "hooks" object of a document, an absent one reading as empty. */
  function HooksOf(doc: Doc): Events {
    doc.hooks.OrElse([])
  }

  /** No event name occurs twice, as in any JSON object loaded into a dictionary. */
  predicate UniqueKeys(evs: Events) {
    evs == [] || (evs[0].key !in Keys(evs[1..]) && UniqueKeys(evs[1..]))
  }

  /** The event names of the "hooks" object. */
  function Keys(evs: Events): set<string> {
    if evs == [] then {} else {evs[0].key} + Keys(evs[1..])
  }

  /** `d` is one of the definitions of one of the groups `gs`. */
  predicate InGroups(gs: seq<Group>, d: Def) {
    exists g :: g in gs && d in Defs(g)
  }

  /** Every name (a missing one counting as "") of a definition in the groups `gs`. */
  function NamesIn(gs: seq<Group>): set<string> {
    set g, d | g in gs && d in Defs(g) :: NameOf(d)
  }

  /** `d` is one of the definitions registered under event `k`. */
  predicate DefUnder(evs: Events, k: string, d: Def) {
    exists i :: 0 <= i < |evs| && evs[i].key == k && InGroups(evs[i].groups, d)
  }

  /** Every name of a definition anywhere in the "hooks" object. */
  function NamesUnder(evs: Events): set<string> {
    if evs == [] then {} else NamesIn(evs[0].groups) + NamesUnder(evs[1..])
  }

  /** Dictionary lookup `hooks.get(k)`: the groups of the first event named `k`. */
  function Find(evs: Events, k: string): (r: Option<seq<Group>>)
    ensures r.None? <==> k !in Keys(evs)
  {
    if evs == [] then None
    else if evs[0].key == k then Some(evs[0].groups)
    else
      Find(evs[1..], k)
  }

  /** Dictionary assignment `hooks[k] = v`: a present key keeps its position, a new key goes last. */
  function Put(evs: Events, k: string, v: seq<Group>): (r: Events)
    ensures Find(r, k) == Some(v)
  {
    if evs == [] then [Event(k, v)]
    else if evs[0].key == k then [Event(k, v)] + evs[1..]
    else [evs[0]] + Put(evs[1..], k, v)
  }

  /** `a` is `b` with some elements left out, the rest kept in order. */
  predicate IsSubsequence<T(==)>(a: seq<T>, b: seq<T>)
    decreases |b|
  {
    if a == [] then true
    else if b == [] then false
    else (a[0] == b[0] && IsSubsequence(a[1..], b[1..])) || IsSubsequence(a, b[1..])
  }

  /** The definitions of `ds` whose name is not in `names`, in their original order. */
  function Without(ds: seq<Def>, names: set<string>): (r: seq<Def>)
    ensures forall d :: d in r <==> d in ds && NameOf(d) !in names
    ensures IsSubsequence(r, ds)
    ensures |r| <= |ds|
    ensures r == ds <==> forall i :: 0 <= i < |ds| ==> NameOf(ds[i]) !in names
    ensures |r| == |ds| <==> r == ds
  {
    if ds == [] then []
    else if NameOf(ds[0]) in names then Without(ds[1..], names)
    else [ds[0]] + Without(ds[1..], names)
  }

  /** Filtering a concatenation filters each part. */
  lemma {:induction false} WithoutAppend(a: seq<Def>, b: seq<Def>, names: set<string>)
    ensures Without(a + b, names) == Without(a, names) + Without(b, names)
    decreases |a|
  {
    if a == [] {
      assert a + b == b;
    } else {
      assert (a + b)[1..] == a[1..] + b;
      WithoutAppend(a[1..], b, names);
    }
  }

  /** Every copy of a kept definition survives the filter, and no copy of a filtered one. */
  lemma {:induction false} WithoutCounts(ds: seq<Def>, names: set<string>)
    ensures forall d :: multiset(Without(ds, names))[d] == if NameOf(d) in names then 0 else multiset(ds)[d]
    decreases |ds|
  {
    if ds != [] {
      WithoutCounts(ds[1..], names);
      assert ds == [ds[0]] + ds[1..];
    }
  }

  /** The definitions of the groups `gs`, group after group, each in its list order. */
  function AllDefs(gs: seq<Group>): seq<Def> {
    if gs == [] then [] else Defs(gs[0]) + AllDefs(gs[1..])
  }

  /** The definitions of the whole "hooks" object, event after event. */
  function EventDefs(evs: Events): seq<Def> {
    if evs == [] then [] else AllDefs(evs[0].groups) + EventDefs(evs[1..])
  }

  /** Filters every group `g` of `gs` to the definitions whose name is not in `names`,
      replacing only its "hooks" member, and drops every group this leaves empty
      (including a group that had no "hooks" member). */
  function FilterGroups(gs: seq<Group>, names: set<string>): (r: seq<Group>)
    ensures |r| <= |gs|
    ensures forall g :: g in r ==> g.hooks.Some? && g.hooks.value != []
  {
    if gs == [] then []
    else
      var kept := Without(Defs(gs[0]), names);
      (if kept == [] then [] else [gs[0].(hooks := Some(kept))]) + FilterGroups(gs[1..], names)
  }

  /** Every filtered group is an input group with only its "hooks" member replaced. */
  lemma {:induction false} FilterGroupsOrigin(gs: seq<Group>, names: set<string>, g: Group)
    requires g in FilterGroups(gs, names)
    ensures exists g0 :: g0 in gs && g == g0.(hooks := Some(Without(Defs(g0), names)))
    decreases |gs|
  {
    var kept := Without(Defs(gs[0]), names);
    var head: seq<Group> := if kept == [] then [] else [gs[0].(hooks := Some(kept))];
    assert FilterGroups(gs, names) == head + FilterGroups(gs[1..], names);
    if g !in head {
      FilterGroupsOrigin(gs[1..], names, g);
      var g0 :| g0 in gs[1..] && g == g0.(hooks := Some(Without(Defs(g0), names)));
      assert g0 in gs;
    }
  }

  /** Filtering the groups filters the list of all their definitions, and nothing else:
      the survivors are exactly the unfiltered definitions, every copy, in order. */
  lemma {:induction false} FilterGroupsFlatten(gs: seq<Group>, names: set<string>)
    ensures AllDefs(FilterGroups(gs, names)) == Without(AllDefs(gs), names)
    decreases |gs|
  {
    if gs != [] {
      var kept := Without(Defs(gs[0]), names);
      var rest := FilterGroups(gs[1..], names);
      FilterGroupsFlatten(gs[1..], names);
      WithoutAppend(Defs(gs[0]), AllDefs(gs[1..]), names);
      if kept != [] {
        var g := gs[0].(hooks := Some(kept));
        assert ([g] + rest)[1..] == rest;
        assert AllDefs([g] + rest) == kept + AllDefs(rest);
      } else {
        assert [] + rest == rest;
      }
    }
  }

  lemma NamesInAppend(a: seq<Group>, b: seq<Group>)
    ensures NamesIn(a + b) == NamesIn(a) + NamesIn(b)
  {
  }

  lemma InGroupsCons(gs: seq<Group>, d: Def)
    requires gs != []
    ensures InGroups(gs, d) <==> d in Defs(gs[0]) || InGroups(gs[1..], d)
  {
  }

  /** A definition survives the filter exactly when it was there and its name is not filtered. */
  lemma {:induction false} FilterGroupsMembership(gs: seq<Group>, names: set<string>, d: Def)
    ensures InGroups(FilterGroups(gs, names), d) <==> InGroups(gs, d) && NameOf(d) !in names
    decreases |gs|
  {
    if gs != [] {
      var kept := Without(Defs(gs[0]), names);
      var head: seq<Group> := if kept == [] then [] else [gs[0].(hooks := Some(kept))];
      var rest := FilterGroups(gs[1..], names);
      assert FilterGroups(gs, names) == head + rest;
      FilterGroupsMembership(gs[1..], names, d);
      InGroupsCons(gs, d);
      if head == [] {
        assert head + rest == rest;
      } else {
        InGroupsCons(head + rest, d);
        assert (head + rest)[1..] == rest;
      }
    }
  }

  /** A group's definitions all go exactly when all its names are in the set. */
  lemma WithoutEmpty(g: Group, names: set<string>)
    ensures Without(Defs(g), names) == [] <==> NamesIn([g]) <= names
  {
    var kept := Without(Defs(g), names);
    if kept != [] {
      assert NameOf(kept[0]) in NamesIn([g]);
    } else {
      forall n | n in NamesIn([g]) ensures n in names {
        var g', d :| g' in [g] && d in Defs(g') && NameOf(d) == n;
        assert d !in kept;
      }
    }
  }

  /** A group keeps all its definitions exactly when none of its names is in the set. */
  lemma WithoutAll(g: Group, names: set<string>)
    ensures |Without(Defs(g), names)| == |Defs(g)| <==> NamesIn([g]) !! names
  {
  }

  /** The filter leaves nothing exactly when every name in the groups is filtered. */
  lemma {:induction false} FilterGroupsEmpty(gs: seq<Group>, names: set<string>)
    ensures FilterGroups(gs, names) == [] <==> NamesIn(gs) <= names
    decreases |gs|
  {
    if gs != [] {
      FilterGroupsEmpty(gs[1..], names);
      assert gs == [gs[0]] + gs[1..];
      NamesInAppend([gs[0]], gs[1..]);
      WithoutEmpty(gs[0], names);
    }
  }

  /** Assigning one key leaves what every other key finds unchanged. */
  lemma {:induction false} PutOther(evs: Events, k: string, v: seq<Group>, k': string)
    requires k' != k
    ensures Find(Put(evs, k, v), k') == Find(evs, k')
    decreases |evs|
  {
    if evs != [] && evs[0].key != k {
      PutOther(evs[1..], k, v, k');
    }
  }

  lemma KeysCons(e: Event, evs: Events)
    ensures Keys([e] + evs) == {e.key} + Keys(evs)
  {
  }

  /** Assigning a key adds exactly that key. */
  lemma {:induction false} PutKeys(evs: Events, k: string, v: seq<Group>)
    ensures Keys(Put(evs, k, v)) == Keys(evs) + {k}
    decreases |evs|
  {
    if evs != [] {
      assert evs == [evs[0]] + evs[1..];
      KeysCons(evs[0], evs[1..]);
      if evs[0].key == k {
        KeysCons(Event(k, v), evs[1..]);
      } else {
        PutKeys(evs[1..], k, v);
        KeysCons(evs[0], Put(evs[1..], k, v));
      }
    }
  }

  /** Assigning a new key appends it after every existing one. */
  lemma {:induction false} PutAbsent(evs: Events, k: string, v: seq<Group>)
    requires k !in Keys(evs)
    ensures Put(evs, k, v) == evs + [Event(k, v)]
    decreases |evs|
  {
    if evs != [] {
      PutAbsent(evs[1..], k, v);
      assert Put(evs, k, v) == [evs[0]] + (evs[1..] + [Event(k, v)]);
      assert [evs[0]] + (evs[1..] + [Event(k, v)]) == evs + [Event(k, v)];
    }
  }

  /** Assigning a key the value it already has changes nothing. */
  lemma {:induction false} PutFound(evs: Events, k: string)
    requires k in Keys(evs)
    ensures Put(evs, k, Find(evs, k).value) == evs
    decreases |evs|
  {
    if evs[0].key != k {
      KeysCons(evs[0], evs[1..]);
      assert evs == [evs[0]] + evs[1..];
      PutFound(evs[1..], k);
    } else {
      assert evs == [evs[0]] + evs[1..];
    }
  }

  /** Assignment keeps event names unique. */
  lemma {:induction false} PutUnique(evs: Events, k: string, v: seq<Group>)
    requires UniqueKeys(evs)
    ensures UniqueKeys(Put(evs, k, v))
    decreases |evs|
  {
    if evs != [] && evs[0].key != k {
      PutUnique(evs[1..], k, v);
      PutKeys(evs[1..], k, v);
      assert Put(evs, k, v)[1..] == Put(evs[1..], k, v);
    } else if evs != [] {
      assert Put(evs, k, v)[1..] == evs[1..];
    }
  }

  /** `b` keeps every event of `a` at its position, possibly with more groups
      appended to it, and possibly more events after them. */
  predicate Extends(a: Events, b: Events) {
    |a| <= |b| && forall i :: 0 <= i < |a| ==> b[i].key == a[i].key && a[i].groups <= b[i].groups
  }

  lemma ExtendsTransitive(a: Events, b: Events, c: Events)
    requires Extends(a, b) && Extends(b, c)
    ensures Extends(a, c)
  {
  }

  /** An assignment that only lengthens the value of a key extends the object. */
  lemma {:induction false} PutExtends(evs: Events, k: string, v: seq<Group>)
    requires Find(evs, k).Some? ==> Find(evs, k).value <= v
    ensures Extends(evs, Put(evs, k, v))
    decreases |evs|
  {
    if evs != [] && evs[0].key != k {
      PutExtends(evs[1..], k, v);
      var r := Put(evs, k, v);
      assert r == [evs[0]] + Put(evs[1..], k, v);
      forall i | 0 <= i < |evs| ensures r[i].key == evs[i].key && evs[i].groups <= r[i].groups {
        if i > 0 {
          assert r[i] == Put(evs[1..], k, v)[i - 1];
        }
      }
    } else if evs == [] {
      assert Put(evs, k, v) == [Event(k, v)];
    }
  }

  /** What an extended object finds under a key begins with what the original found. */
  lemma {:induction false} ExtendsFind(a: Events, b: Events, k: string)
    requires Extends(a, b) && Find(a, k).Some?
    ensures Find(b, k).Some? && Find(a, k).value <= Find(b, k).value
    decreases |a|
  {
    if a[0].key != k {
      assert Extends(a[1..], b[1..]);
      ExtendsFind(a[1..], b[1..], k);
    }
  }
}
