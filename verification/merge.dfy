/** `merge_hooks`: merging the hook definitions a template provides into a
    settings document without disturbing what is already there. */
module MergeHooks {
  import opened Optional
  import opened Json
  import opened Settings
  import opened Status

  /** The groups an event ends with. A new event takes the incoming list verbatim.
      An existing event keeps its groups and gets after them the incoming groups
      filtered against every name registered under the event before the merge
      (the name set is computed once and not updated while appending). */
  function MergeInto(existing: Option<seq<Group>>, incoming: seq<Group>): (r: seq<Group>)
    ensures existing.None? ==> r == incoming
    ensures existing.Some? ==> existing.value <= r
    ensures existing.Some? ==> forall g :: g in r[|existing.value|..] ==> g.hooks.Some? && g.hooks.value != []
    ensures NamesIn(incoming) <= NamesIn(r)
  {
    match existing
    case None => incoming
    case Some(groups) =>
      var added := FilterGroups(incoming, NamesIn(groups));
      assert NamesIn(incoming) <= NamesIn(groups) + NamesIn(added) by {
        forall n | n in NamesIn(incoming) && n !in NamesIn(groups) ensures n in NamesIn(added) {
          var g, d :| g in incoming && d in Defs(g) && NameOf(d) == n;
          FilterGroupsMembership(incoming, NamesIn(groups), d);
          var g' :| g' in added && d in Defs(g');
        }
      }
      NamesInAppend(groups, added);
      assert (groups + added)[|groups|..] == added;
      groups + added
  }

  /** One iteration of the loop over incoming events. */
  function MergeEvent(evs: Events, k: string, incoming: seq<Group>): (r: Events)
    ensures Find(r, k) == Some(MergeInto(Find(evs, k), incoming))
  {
    Put(evs, k, MergeInto(Find(evs, k), incoming))
  }

  /** One step of the loop keeps every event in place, only lengthening the one it touches. */
  lemma MergeEventExtends(evs: Events, k: string, incoming: seq<Group>)
    ensures Extends(evs, MergeEvent(evs, k, incoming))
  {
    PutExtends(evs, k, MergeInto(Find(evs, k), incoming));
  }

  /** The loop over incoming events, in their order. */
  function MergeEvents(evs: Events, incoming: Events): Events
    decreases |incoming|
  {
    if incoming == [] then evs
    else MergeEvents(MergeEvent(evs, incoming[0].key, incoming[0].groups), incoming[1..])
  }

  /** The loop keeps every existing event in place, its groups a prefix of its new list. */
  lemma {:induction false} MergeEventsExtends(evs: Events, incoming: Events)
    ensures Extends(evs, MergeEvents(evs, incoming))
    decreases |incoming|
  {
    if incoming != [] {
      var next := MergeEvent(evs, incoming[0].key, incoming[0].groups);
      MergeEventExtends(evs, incoming[0].key, incoming[0].groups);
      MergeEventsExtends(next, incoming[1..]);
      ExtendsTransitive(evs, next, MergeEvents(next, incoming[1..]));
    }
  }

  /** `merge_hooks(existing, new_hooks)`: a document without "hooks" is given an empty one,
      every other top-level member is left alone, and every existing event keeps its
      position and its groups, which form a prefix of its new group list. */
  function Merge(doc: Doc, incoming: Events): (r: Doc)
    ensures r.fields == doc.fields
    ensures r.hooks.Some?
  {
    doc.(hooks := Some(MergeEvents(HooksOf(doc), incoming)))
  }

  /** Existing events keep their positions, and their groups form a prefix of their new lists. */
  lemma MergeKeepsExisting(doc: Doc, incoming: Events)
    ensures Extends(HooksOf(doc), HooksOf(Merge(doc, incoming)))
  {
    MergeEventsExtends(HooksOf(doc), incoming);
  }

  /** An event the incoming object does not mention is left exactly as it was. */
  lemma {:induction false} MergeUntouched(evs: Events, incoming: Events, k: string)
    requires k !in Keys(incoming)
    ensures Find(MergeEvents(evs, incoming), k) == Find(evs, k)
    decreases |incoming|
  {
    if incoming != [] {
      var next := MergeEvent(evs, incoming[0].key, incoming[0].groups);
      PutOther(evs, incoming[0].key, MergeInto(Find(evs, incoming[0].key), incoming[0].groups), k);
      MergeUntouched(next, incoming[1..], k);
    }
  }

  /** Merging all events one after another gives each event what merging it alone
      would: the fold over the incoming object is pointwise. */
  lemma {:induction false} MergeLookup(evs: Events, incoming: Events, k: string)
    requires UniqueKeys(incoming)
    ensures Find(MergeEvents(evs, incoming), k)
         == if k in Keys(incoming) then Some(MergeInto(Find(evs, k), Find(incoming, k).value)) else Find(evs, k)
    decreases |incoming|
  {
    if incoming != [] {
      var next := MergeEvent(evs, incoming[0].key, incoming[0].groups);
      MergeLookup(next, incoming[1..], k);
      if k != incoming[0].key {
        PutOther(evs, incoming[0].key, MergeInto(Find(evs, incoming[0].key), incoming[0].groups), k);
      } else {
        MergeUntouched(next, incoming[1..], k);
      }
    }
  }

  /** An event only the incoming object has is inserted verbatim. */
  lemma NewEventVerbatim(doc: Doc, incoming: Events, k: string)
    requires UniqueKeys(incoming)
    requires k in Keys(incoming) && k !in Keys(HooksOf(doc))
    ensures Find(HooksOf(Merge(doc, incoming)), k) == Find(incoming, k)
  {
    MergeLookup(HooksOf(doc), incoming, k);
  }

  /** An event both have keeps its groups, followed by the incoming groups filtered
      against the names it already had. */
  lemma ExistingEventExtended(doc: Doc, incoming: Events, k: string)
    requires UniqueKeys(incoming)
    requires k in Keys(incoming) && k in Keys(HooksOf(doc))
    ensures Find(HooksOf(Merge(doc, incoming)), k)
         == Some(Find(HooksOf(doc), k).value
                 + FilterGroups(Find(incoming, k).value, NamesIn(Find(HooksOf(doc), k).value)))
  {
    MergeLookup(HooksOf(doc), incoming, k);
  }

  /** An event the incoming object does not mention keeps its groups. */
  lemma UntouchedEventKept(doc: Doc, incoming: Events, k: string)
    requires k !in Keys(incoming)
    ensures Find(HooksOf(Merge(doc, incoming)), k) == Find(HooksOf(doc), k)
  {
    MergeUntouched(HooksOf(doc), incoming, k);
  }

  /** Every name in the groups of `e` is registered under its event in `evs`. */
  predicate Covered(evs: Events, e: Event) {
    Find(evs, e.key).Some? && NamesIn(e.groups) <= NamesIn(Find(evs, e.key).value)
  }

  lemma CoveredExtends(a: Events, b: Events, e: Event)
    requires Covered(a, e) && Extends(a, b)
    ensures Covered(b, e)
  {
    ExtendsFind(a, b, e.key);
    var x := Find(a, e.key).value;
    var y := Find(b, e.key).value;
    assert y == x + y[|x|..];
    NamesInAppend(x, y[|x|..]);
  }

  lemma {:induction false} IncomingNamesCovered(evs: Events, incoming: Events)
    ensures forall i :: 0 <= i < |incoming| ==> Covered(MergeEvents(evs, incoming), incoming[i])
    decreases |incoming|
  {
    if incoming != [] {
      var next := MergeEvent(evs, incoming[0].key, incoming[0].groups);
      var r := MergeEvents(next, incoming[1..]);
      IncomingNamesCovered(next, incoming[1..]);
      MergeEventsExtends(next, incoming[1..]);
      CoveredExtends(next, r, incoming[0]);
      forall i | 1 <= i < |incoming| ensures Covered(r, incoming[i]) {
        assert incoming[i] == incoming[1..][i - 1];
      }
    }
  }

  /** After a merge the name of every incoming definition is registered under its event. */
  lemma IncomingNamesPresent(doc: Doc, incoming: Events, i: nat, d: Def)
    requires i < |incoming| && InGroups(incoming[i].groups, d)
    ensures Find(HooksOf(Merge(doc, incoming)), incoming[i].key).Some?
    ensures NameOf(d) in NamesIn(Find(HooksOf(Merge(doc, incoming)), incoming[i].key).value)
  {
    IncomingNamesCovered(HooksOf(doc), incoming);
    assert Covered(MergeEvents(HooksOf(doc), incoming), incoming[i]);
    var g :| g in incoming[i].groups && d in Defs(g);
    assert NameOf(d) in NamesIn(incoming[i].groups);
  }

  /** Once every incoming name is registered, merging again changes nothing. */
  lemma {:induction false} MergeEventsStable(evs: Events, incoming: Events)
    requires forall i :: 0 <= i < |incoming| ==> Covered(evs, incoming[i])
    ensures MergeEvents(evs, incoming) == evs
    decreases |incoming|
  {
    if incoming != [] {
      var k := incoming[0].key;
      assert Covered(evs, incoming[0]);
      var existing := Find(evs, k).value;
      FilterGroupsEmpty(incoming[0].groups, NamesIn(existing));
      assert MergeInto(Find(evs, k), incoming[0].groups) == existing;
      PutFound(evs, k);
      assert MergeEvent(evs, k, incoming[0].groups) == evs;
      forall i | 0 <= i < |incoming[1..]| ensures Covered(evs, incoming[1..][i]) {
        assert incoming[1..][i] == incoming[i + 1];
      }
      MergeEventsStable(evs, incoming[1..]);
    }
  }

  /** Merging the same definitions twice is the same as merging them once. */
  lemma MergeIdempotent(doc: Doc, incoming: Events)
    ensures Merge(Merge(doc, incoming), incoming) == Merge(doc, incoming)
  {
    var once := MergeEvents(HooksOf(doc), incoming);
    IncomingNamesCovered(HooksOf(doc), incoming);
    MergeEventsStable(once, incoming);
  }

  /** After the loop the "hooks" object names exactly its own events and the incoming ones. */
  lemma {:induction false} MergeEventsKeys(evs: Events, incoming: Events)
    ensures Keys(MergeEvents(evs, incoming)) == Keys(evs) + Keys(incoming)
    decreases |incoming|
  {
    if incoming != [] {
      var k := incoming[0].key;
      var next := MergeEvent(evs, k, incoming[0].groups);
      PutKeys(evs, k, MergeInto(Find(evs, k), incoming[0].groups));
      MergeEventsKeys(next, incoming[1..]);
    }
  }

  /** Merging keeps event names unique. */
  lemma {:induction false} MergeEventsUnique(evs: Events, incoming: Events)
    requires UniqueKeys(evs)
    ensures UniqueKeys(MergeEvents(evs, incoming))
    decreases |incoming|
  {
    if incoming != [] {
      var k := incoming[0].key;
      PutUnique(evs, k, MergeInto(Find(evs, k), incoming[0].groups));
      MergeEventsUnique(MergeEvent(evs, k, incoming[0].groups), incoming[1..]);
    }
  }

  lemma MergeUnique(doc: Doc, incoming: Events)
    requires UniqueKeys(HooksOf(doc))
    ensures UniqueKeys(HooksOf(Merge(doc, incoming)))
  {
    MergeEventsUnique(HooksOf(doc), incoming);
  }

  /** Merging adds at most the incoming definitions. */
  lemma {:induction false} MergeEventsCount(evs: Events, incoming: Events)
    ensures CountEvents(MergeEvents(evs, incoming)) <= CountEvents(evs) + CountEvents(incoming)
    decreases |incoming|
  {
    if incoming != [] {
      var k := incoming[0].key;
      var prior := Find(evs, k);
      var v := MergeInto(prior, incoming[0].groups);
      PutCount(evs, k, v);
      if prior.Some? {
        var added := FilterGroups(incoming[0].groups, NamesIn(prior.value));
        CountGroupsAppend(prior.value, added);
        FilterGroupsCount(incoming[0].groups, NamesIn(prior.value));
      }
      MergeEventsCount(MergeEvent(evs, k, incoming[0].groups), incoming[1..]);
    }
  }

  /** The hook count never drops on a merge and grows by at most the incoming count. */
  lemma MergeCount(doc: Doc, incoming: Events)
    ensures HookCount(doc) <= HookCount(Merge(doc, incoming)) <= HookCount(doc) + CountEvents(incoming)
  {
    MergeKeepsExisting(doc, incoming);
    ExtendsCount(HooksOf(doc), HooksOf(Merge(doc, incoming)));
    MergeEventsCount(HooksOf(doc), incoming);
  }
}
