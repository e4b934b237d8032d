/** The hook count reported by the `status` command. */
module Status {
  import opened Optional
  import opened Json
  import opened Settings

  /** Number of definitions in the groups `gs`; a group without "hooks" counts 0. */
  function CountGroups(gs: seq<Group>): (r: nat)
    ensures r == |AllDefs(gs)|
  {
    if gs == [] then 0 else |Defs(gs[0])| + CountGroups(gs[1..])
  }

  /** Number of definitions across every event of a "hooks" object. */
  function CountEvents(evs: Events): (r: nat)
    ensures r == |EventDefs(evs)|
  {
    if evs == [] then 0 else CountGroups(evs[0].groups) + CountEvents(evs[1..])
  }

  /** The hook count of a document; one without "hooks" counts as an empty one. */
  function HookCount(doc: Doc): (r: nat)
    ensures r == |EventDefs(HooksOf(doc))|
    ensures doc.hooks.None? ==> r == 0
  {
    CountEvents(HooksOf(doc))
  }

  lemma {:induction false} CountGroupsAppend(a: seq<Group>, b: seq<Group>)
    ensures CountGroups(a + b) == CountGroups(a) + CountGroups(b)
    decreases |a|
  {
    if a != [] {
      assert (a + b)[1..] == a[1..] + b;
      CountGroupsAppend(a[1..], b);
    } else {
      assert a + b == b;
    }
  }

  lemma {:induction false} CountEventsAppend(a: Events, b: Events)
    ensures CountEvents(a + b) == CountEvents(a) + CountEvents(b)
    decreases |a|
  {
    if a != [] {
      assert (a + b)[1..] == a[1..] + b;
      CountEventsAppend(a[1..], b);
    } else {
      assert a + b == b;
    }
  }

  /** Extending a "hooks" object never lowers its count. */
  lemma {:induction false} ExtendsCount(a: Events, b: Events)
    requires Extends(a, b)
    ensures CountEvents(a) <= CountEvents(b)
    decreases |a|
  {
    if a != [] {
      assert Extends(a[1..], b[1..]);
      ExtendsCount(a[1..], b[1..]);
      var tail := b[0].groups[|a[0].groups|..];
      assert b[0].groups == a[0].groups + tail;
      CountGroupsAppend(a[0].groups, tail);
    }
  }

  /** Filtering groups never adds definitions, and keeps them all exactly when
      no name in the groups is filtered. */
  lemma {:induction false} FilterGroupsCount(gs: seq<Group>, names: set<string>)
    ensures CountGroups(FilterGroups(gs, names)) <= CountGroups(gs)
    ensures CountGroups(FilterGroups(gs, names)) == CountGroups(gs) <==> NamesIn(gs) !! names
    decreases |gs|
  {
    if gs != [] {
      var kept := Without(Defs(gs[0]), names);
      var head: seq<Group> := if kept == [] then [] else [gs[0].(hooks := Some(kept))];
      var rest := FilterGroups(gs[1..], names);
      assert FilterGroups(gs, names) == head + rest;
      CountGroupsAppend(head, rest);
      assert CountGroups(head) == |kept|;
      FilterGroupsCount(gs[1..], names);
      assert gs == [gs[0]] + gs[1..];
      NamesInAppend([gs[0]], gs[1..]);
      WithoutAll(gs[0], names);
    }
  }

  /** Assigning `v` to key `k` swaps the count of the old value of `k` for that of `v`. */
  lemma {:induction false} PutCount(evs: Events, k: string, v: seq<Group>)
    ensures CountEvents(Put(evs, k, v)) + CountGroups(Find(evs, k).OrElse([])) == CountEvents(evs) + CountGroups(v)
    decreases |evs|
  {
    if evs != [] && evs[0].key != k {
      PutCount(evs[1..], k, v);
      assert Put(evs, k, v)[1..] == Put(evs[1..], k, v);
    } else if evs != [] {
      assert Put(evs, k, v)[1..] == evs[1..];
    }
  }
}
