/** The settings half of `uninstall`: removing the definitions the tool owns
    and every container that this leaves empty. */
module Uninstall {
  import opened Optional
  import opened Json
  import opened Settings
  import opened Status
  import opened MergeHooks

  /** The definition names `uninstall` treats as installed by the tool. */
  const ManagedNames: set<string> := {"enforce-japanese", "block-server-start", "auto-worklog"}

  /** Every group has a non-empty "hooks" member. */
  predicate CleanGroups(gs: seq<Group>) {
    forall g :: g in gs ==> g.hooks.Some? && g.hooks.value != []
  }

  /** No event has an empty group list or an empty group. */
  predicate CleanEvents(evs: Events) {
    forall i :: 0 <= i < |evs| ==> evs[i].groups != [] && CleanGroups(evs[i].groups)
  }

  /** No empty scaffolding: no empty group, no empty event, no empty "hooks" object. */
  predicate Clean(doc: Doc) {
    match doc.hooks
    case None => true
    case Some(evs) => evs != [] && CleanEvents(evs)
  }

  /** The loop over events in `uninstall`: every event keeps its filtered groups,
      in place, and an event left with none is deleted. */
  function PruneEvents(evs: Events, names: set<string>): (r: Events)
    ensures CleanEvents(r)
    ensures |r| <= |evs|
  {
    if evs == [] then []
    else
      var gs := FilterGroups(evs[0].groups, names);
      (if gs == [] then [] else [Event(evs[0].key, gs)]) + PruneEvents(evs[1..], names)
  }

  /** Every remaining event is an original one, under the same name, with its groups filtered. */
  lemma {:induction false} PruneEventsOrigin(evs: Events, names: set<string>, i: nat)
    requires i < |PruneEvents(evs, names)|
    ensures exists j :: 0 <= j < |evs| && PruneEvents(evs, names)[i] == Event(evs[j].key, FilterGroups(evs[j].groups, names))
    decreases |evs|
  {
    var gs := FilterGroups(evs[0].groups, names);
    var head: Events := if gs == [] then [] else [Event(evs[0].key, gs)];
    var rest := PruneEvents(evs[1..], names);
    assert PruneEvents(evs, names) == head + rest;
    if i >= |head| {
      PruneEventsOrigin(evs[1..], names, i - |head|);
      var j :| 0 <= j < |evs[1..]| && rest[i - |head|] == Event(evs[1..][j].key, FilterGroups(evs[1..][j].groups, names));
      assert evs[1..][j] == evs[j + 1];
    }
  }

  /** The pruning block of `uninstall`: a document without "hooks" is returned as it is;
      otherwise every definition named in `names` is removed, emptied groups and events
      are dropped, and an emptied "hooks" member is deleted. */
  function Unmerge(doc: Doc, names: set<string>): (r: Doc)
    ensures Clean(r)
    ensures r.fields == doc.fields
    ensures doc.hooks.None? ==> r == doc
  {
    match doc.hooks
    case None => doc
    case Some(evs) =>
      var pruned := PruneEvents(evs, names);
      doc.(hooks := if pruned == [] then None else Some(pruned))
  }

  /** `uninstall` applied to a settings document, with the tool's own names. */
  function UninstallSettings(doc: Doc): (r: Doc)
    ensures Clean(r)
    ensures NamesUnder(HooksOf(r)) !! ManagedNames
  {
    UnmergeNames(doc, ManagedNames);
    Unmerge(doc, ManagedNames)
  }

  lemma FilterGroupsAppend(a: seq<Group>, b: seq<Group>, names: set<string>)
    ensures FilterGroups(a + b, names) == FilterGroups(a, names) + FilterGroups(b, names)
    decreases |a|
  {
    if a == [] {
      assert a + b == b;
    } else {
      assert (a + b)[1..] == a[1..] + b;
      FilterGroupsAppend(a[1..], b, names);
    }
  }

  lemma PruneEventsAppend(a: Events, b: Events, names: set<string>)
    ensures PruneEvents(a + b, names) == PruneEvents(a, names) + PruneEvents(b, names)
    decreases |a|
  {
    if a == [] {
      assert a + b == b;
    } else {
      assert (a + b)[1..] == a[1..] + b;
      PruneEventsAppend(a[1..], b, names);
    }
  }

  /** The names left after filtering are exactly the names that were there and are not filtered. */
  lemma FilterGroupsNames(gs: seq<Group>, names: set<string>)
    ensures NamesIn(FilterGroups(gs, names)) == NamesIn(gs) - names
  {
    var r := FilterGroups(gs, names);
    forall n | n in NamesIn(r) ensures n in NamesIn(gs) - names {
      var g, d :| g in r && d in Defs(g) && NameOf(d) == n;
      FilterGroupsMembership(gs, names, d);
      var g0 :| g0 in gs && d in Defs(g0);
    }
    forall n | n in NamesIn(gs) - names ensures n in NamesIn(r) {
      var g, d :| g in gs && d in Defs(g) && NameOf(d) == n;
      FilterGroupsMembership(gs, names, d);
      var g1 :| g1 in r && d in Defs(g1);
    }
  }

  /** After pruning, no definition named in `names` is left. */
  lemma {:induction false} PruneEventsNames(evs: Events, names: set<string>)
    ensures NamesUnder(PruneEvents(evs, names)) == NamesUnder(evs) - names
    decreases |evs|
  {
    if evs != [] {
      var gs := FilterGroups(evs[0].groups, names);
      var head: Events := if gs == [] then [] else [Event(evs[0].key, gs)];
      var rest := PruneEvents(evs[1..], names);
      assert PruneEvents(evs, names) == head + rest;
      PruneEventsNames(evs[1..], names);
      FilterGroupsNames(evs[0].groups, names);
      NamesUnderAppend(head, rest);
      assert NamesUnder(head) == NamesIn(gs) by {
        if gs != [] {
          assert head[1..] == [];
        }
      }
      var a, b := NamesIn(evs[0].groups), NamesUnder(evs[1..]);
      assert NamesUnder(evs) == a + b;
      assert (a - names) + (b - names) == (a + b) - names;
    }
  }

  lemma NamesUnderAppend(a: Events, b: Events)
    ensures NamesUnder(a + b) == NamesUnder(a) + NamesUnder(b)
    decreases |a|
  {
    if a == [] {
      assert a + b == b;
    } else {
      assert (a + b)[1..] == a[1..] + b;
      NamesUnderAppend(a[1..], b);
    }
  }

  lemma UnmergeNames(doc: Doc, names: set<string>)
    ensures NamesUnder(HooksOf(Unmerge(doc, names))) == NamesUnder(HooksOf(doc)) - names
  {
    if doc.hooks.Some? {
      PruneEventsNames(doc.hooks.value, names);
    }
  }

  lemma DefUnderCons(evs: Events, k: string, d: Def)
    requires evs != []
    ensures DefUnder(evs, k, d) <==> (evs[0].key == k && InGroups(evs[0].groups, d)) || DefUnder(evs[1..], k, d)
  {
  }

  lemma InGroupsEmpty(d: Def)
    ensures !InGroups([], d)
  {
  }

  /** Pruning removes exactly the definitions named in `names`, each survivor staying under its event. */
  lemma {:induction false} PruneEventsMembership(evs: Events, names: set<string>, k: string, d: Def)
    ensures DefUnder(PruneEvents(evs, names), k, d) <==> DefUnder(evs, k, d) && NameOf(d) !in names
    decreases |evs|
  {
    if evs != [] {
      var gs := FilterGroups(evs[0].groups, names);
      var head: Events := if gs == [] then [] else [Event(evs[0].key, gs)];
      var rest := PruneEvents(evs[1..], names);
      PruneEventsMembership(evs[1..], names, k, d);
      FilterGroupsMembership(evs[0].groups, names, d);
      DefUnderCons(evs, k, d);
      if gs == [] {
        assert head + rest == rest;
        InGroupsEmpty(d);
      } else {
        DefUnderCons(head + rest, k, d);
        assert (head + rest)[1..] == rest;
      }
    }
  }

  /** `uninstall` keeps a definition under an event exactly when it was there and is not owned. */
  lemma UnmergeMembership(doc: Doc, names: set<string>, k: string, d: Def)
    ensures DefUnder(HooksOf(Unmerge(doc, names)), k, d) <==> DefUnder(HooksOf(doc), k, d) && NameOf(d) !in names
  {
    if doc.hooks.Some? {
      PruneEventsMembership(doc.hooks.value, names, k, d);
    }
  }

  /** Filtering clean groups that hold none of the names changes nothing. */
  lemma {:induction false} FilterGroupsKeeps(gs: seq<Group>, names: set<string>)
    requires CleanGroups(gs) && NamesIn(gs) !! names
    ensures FilterGroups(gs, names) == gs
    decreases |gs|
  {
    if gs != [] {
      assert gs == [gs[0]] + gs[1..];
      NamesInAppend([gs[0]], gs[1..]);
      forall i | 0 <= i < |Defs(gs[0])| ensures NameOf(Defs(gs[0])[i]) !in names {
        assert NameOf(Defs(gs[0])[i]) in NamesIn([gs[0]]);
      }
      FilterGroupsKeeps(gs[1..], names);
    }
  }

  lemma CleanEventsTail(evs: Events)
    requires evs != [] && CleanEvents(evs)
    ensures CleanEvents(evs[1..]) && evs[0].groups != [] && CleanGroups(evs[0].groups)
  {
  }

  lemma PruneKeepsHead(evs: Events, names: set<string>)
    requires evs != [] && evs[0].groups != []
    requires FilterGroups(evs[0].groups, names) == evs[0].groups
    requires PruneEvents(evs[1..], names) == evs[1..]
    ensures PruneEvents(evs, names) == evs
  {
  }

  lemma {:induction false} PruneEventsKeeps(evs: Events, names: set<string>)
    requires CleanEvents(evs) && NamesUnder(evs) !! names
    ensures PruneEvents(evs, names) == evs
    decreases |evs|
  {
    if evs != [] {
      CleanEventsTail(evs);
      PruneEventsKeeps(evs[1..], names);
      FilterGroupsKeeps(evs[0].groups, names);
      PruneKeepsHead(evs, names);
    }
  }

  /** A document with no empty scaffolding and none of the names is left as it is. */
  lemma UnmergeKeeps(doc: Doc, names: set<string>)
    requires Clean(doc) && NamesUnder(HooksOf(doc)) !! names
    ensures Unmerge(doc, names) == doc
  {
    if doc.hooks.Some? {
      PruneEventsKeeps(doc.hooks.value, names);
    }
  }

  /** Uninstalling twice is the same as uninstalling once. */
  lemma UnmergeIdempotent(doc: Doc, names: set<string>)
    ensures Unmerge(Unmerge(doc, names), names) == Unmerge(doc, names)
  {
    UnmergeNames(doc, names);
    UnmergeKeeps(Unmerge(doc, names), names);
  }

  lemma {:induction false} PruneEventsCount(evs: Events, names: set<string>)
    ensures CountEvents(PruneEvents(evs, names)) <= CountEvents(evs)
    ensures CountEvents(PruneEvents(evs, names)) == CountEvents(evs) <==> NamesUnder(evs) !! names
    decreases |evs|
  {
    if evs != [] {
      var gs := FilterGroups(evs[0].groups, names);
      var head: Events := if gs == [] then [] else [Event(evs[0].key, gs)];
      var rest := PruneEvents(evs[1..], names);
      CountEventsAppend(head, rest);
      FilterGroupsCount(evs[0].groups, names);
      PruneEventsCount(evs[1..], names);
      if gs != [] {
        assert head[1..] == [];
      }
    }
  }

  /** Pruning filters the list of every definition in the "hooks" object, and nothing else. */
  lemma {:induction false} PruneEventsFlatten(evs: Events, names: set<string>)
    ensures EventDefs(PruneEvents(evs, names)) == Without(EventDefs(evs), names)
    decreases |evs|
  {
    if evs != [] {
      var gs := FilterGroups(evs[0].groups, names);
      var rest := PruneEvents(evs[1..], names);
      PruneEventsFlatten(evs[1..], names);
      FilterGroupsFlatten(evs[0].groups, names);
      WithoutAppend(AllDefs(evs[0].groups), EventDefs(evs[1..]), names);
      if gs != [] {
        var e := Event(evs[0].key, gs);
        assert ([e] + rest)[1..] == rest;
        assert EventDefs([e] + rest) == AllDefs(gs) + EventDefs(rest);
      } else {
        assert AllDefs(gs) == [];
        assert [] + rest == rest;
      }
    }
  }

  /** `uninstall` removes every copy of each definition whose name is in `names` and keeps
      every copy of every other definition, in document order. */
  lemma UnmergeKeepsCopies(doc: Doc, names: set<string>)
    ensures EventDefs(HooksOf(Unmerge(doc, names))) == Without(EventDefs(HooksOf(doc)), names)
    ensures forall d :: multiset(EventDefs(HooksOf(Unmerge(doc, names))))[d]
                     == if NameOf(d) in names then 0 else multiset(EventDefs(HooksOf(doc)))[d]
  {
    if doc.hooks.Some? {
      PruneEventsFlatten(doc.hooks.value, names);
    }
    WithoutCounts(EventDefs(HooksOf(doc)), names);
  }

  /** The hook count never grows on `uninstall`, and stays the same exactly when
      no definition carries one of the names. */
  lemma UnmergeCount(doc: Doc, names: set<string>)
    ensures HookCount(Unmerge(doc, names)) <= HookCount(doc)
    ensures HookCount(Unmerge(doc, names)) == HookCount(doc) <==> NamesUnder(HooksOf(doc)) !! names
  {
    if doc.hooks.Some? {
      PruneEventsCount(doc.hooks.value, names);
    }
  }

  /** Replacing the groups of an event by groups that filter to the same thing
      does not change the pruned object. */
  lemma {:induction false} PrunePut(evs: Events, k: string, v: seq<Group>, names: set<string>)
    requires k in Keys(evs)
    requires FilterGroups(v, names) == FilterGroups(Find(evs, k).value, names)
    ensures PruneEvents(Put(evs, k, v), names) == PruneEvents(evs, names)
    decreases |evs|
  {
    var r := Put(evs, k, v);
    if evs[0].key == k {
      assert r[1..] == evs[1..];
    } else {
      PrunePut(evs[1..], k, v, names);
      assert r[1..] == Put(evs[1..], k, v);
    }
  }

  /** One merge step whose definitions all carry names in `names` is undone by pruning. */
  lemma PruneMergeEvent(evs: Events, k: string, incoming: seq<Group>, names: set<string>)
    requires NamesIn(incoming) <= names
    ensures PruneEvents(MergeEvent(evs, k, incoming), names) == PruneEvents(evs, names)
  {
    FilterGroupsEmpty(incoming, names);
    if k !in Keys(evs) {
      PutAbsent(evs, k, incoming);
      PruneEventsAppend(evs, [Event(k, incoming)], names);
      assert PruneEvents([Event(k, incoming)], names) == [];
    } else {
      var existing := Find(evs, k).value;
      var added := FilterGroups(incoming, NamesIn(existing));
      FilterGroupsNames(incoming, NamesIn(existing));
      FilterGroupsEmpty(added, names);
      FilterGroupsAppend(existing, added, names);
      PrunePut(evs, k, existing + added, names);
    }
  }

  lemma {:induction false} PruneMergeEvents(evs: Events, incoming: Events, names: set<string>)
    requires NamesUnder(incoming) <= names
    ensures PruneEvents(MergeEvents(evs, incoming), names) == PruneEvents(evs, names)
    decreases |incoming|
  {
    if incoming != [] {
      var next := MergeEvent(evs, incoming[0].key, incoming[0].groups);
      PruneMergeEvent(evs, incoming[0].key, incoming[0].groups, names);
      PruneMergeEvents(next, incoming[1..], names);
    }
  }

  /** Uninstalling after a merge whose definitions all carry names in `names` gives what
      uninstalling the document before the merge gives. */
  lemma UnmergeAfterMerge(doc: Doc, incoming: Events, names: set<string>)
    requires NamesUnder(incoming) <= names
    ensures Unmerge(Merge(doc, incoming), names) == Unmerge(doc, names)
  {
    PruneMergeEvents(HooksOf(doc), incoming, names);
  }

  /** Install then uninstall: when the managed names cover every incoming definition and
      none of the document's own, and the document has no empty scaffolding,
      uninstall gives back exactly the document before the merge. */
  lemma UnmergeUndoesMerge(doc: Doc, incoming: Events, names: set<string>)
    requires Clean(doc)
    requires NamesUnder(HooksOf(doc)) !! names
    requires NamesUnder(incoming) <= names
    ensures Unmerge(Merge(doc, incoming), names) == doc
  {
    PruneMergeEvents(HooksOf(doc), incoming, names);
    if doc.hooks.Some? {
      PruneEventsKeeps(doc.hooks.value, names);
    }
  }
}
