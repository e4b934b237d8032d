# Hook settings merge and uninstall, modelled in Dafny

The `japanese-developer` command-line tool installs hook scripts for an agent CLI and
registers them in the agent's `settings.json`. This project models the logic the tool
uses to edit that document:

- `merge_hooks`, run by `setup`, merges the template's hook definitions into the
  document without disturbing what is already there;
- the pruning block of `uninstall` removes the definitions whose names the tool owns,
  together with every group, event and `hooks` member that this leaves empty;
- the hook count printed by `status`.

The document is a tree: document → events → groups → definitions. Each level keeps the
JSON members the tool never inspects, carried through unchanged.

- A definition (`Settings.Def`) has an optional `name`. A missing name reads as `""`,
  as `h.get("name", "")` does.
- A group (`Settings.Group`) has an optional `hooks` list. A missing list reads as empty.
- The `hooks` object (`Settings.Events`) is a sequence of events in insertion order.
  A Python dictionary keeps that order, and `json.dump` writes it. Reading a key is
  `Find`; assigning a key is `Put`, which keeps an existing key in its place and appends
  a new one.

Merge and uninstall filter groups in the same way. Each group keeps only the definitions
whose names are not in a given set, its `hooks` member is replaced, and a group left
empty is dropped. The model defines this once, as `Settings.FilterGroups`. Merge filters
against the names already registered under the event; uninstall filters against the
managed names.

Files: `optional.dfy` (values a JSON object may lack), `json.dfy` (opaque JSON values), `settings.dfy` (data model, lookup, filtering),
`status.dfy` (hook count), `merge.dfy` (`merge_hooks`), `unmerge.dfy` (`uninstall`),
`scenarios.dfy` (worked examples).

The merge does not guarantee that an event ends with at most one definition of each
name, though the comment at line 30 says only non-duplicate hooks are added. The code computes the set of existing names once, before appending, and never
updates it. Two incoming groups that carry the same new name are therefore both
appended. An event that is new is also inserted verbatim, duplicates included.
`Scenarios.AppendsRepeatedNewName` shows the first case.

## Model

| member | source | states |
|---|---|---|
| Settings.NameOf | src/japanese_developer/cli.py:28 | no contract of its own: `h.get("name", "")`, a missing name reading as the empty string; the lemmas on names (`Settings.WithoutEmpty`, `Uninstall.FilterGroupsNames`) characterise its use |
| Settings.Defs | src/japanese_developer/cli.py:27 | no contract of its own: `group.get("hooks", [])`, a group without `hooks` having no definitions; `Settings.FilterGroupsFlatten` and `Status.CountGroups` relate it to the filter and the count |
| Settings.HooksOf | src/japanese_developer/cli.py:143 | no contract of its own: `settings.get("hooks", {})`, and the empty `hooks` object that lines 17-18 create, an absent member reading as empty; `Status.HookCount`, `MergeHooks.NewEventVerbatim` and `Uninstall.Unmerge` relate it to the count, the merge and uninstall |
| Settings.NamesIn | src/japanese_developer/cli.py:24-28 | no contract of its own: the set `existing_names`; `Settings.NamesInAppend`, `Settings.WithoutEmpty` and `Uninstall.FilterGroupsNames` characterise it |
| Settings.Find | src/japanese_developer/cli.py:21 | the lookup finds nothing exactly when no event has the key |
| Settings.Put | src/japanese_developer/cli.py:22 | after assigning, the key maps to the new groups |
| Settings.PutOther | src/japanese_developer/cli.py:22 | assigning one key leaves what every other key maps to unchanged |
| Settings.PutAbsent | src/japanese_developer/cli.py:22 | assigning a key the document lacks appends that event after every existing one |
| Settings.PutUnique | src/japanese_developer/cli.py:22 | assignment never produces two events with the same name |
| Settings.Without | src/japanese_developer/cli.py:32-35 | keeps only definitions whose name (missing = "") is not in the set, and every such definition, as a subsequence of the input; the list is unchanged exactly when no name is in the set (that every copy of a kept definition survives is `Settings.WithoutCounts`) |
| Settings.WithoutAppend | src/japanese_developer/cli.py:32-35 | filtering a concatenation of definition lists filters each part, so order is kept |
| Settings.WithoutCounts | src/japanese_developer/cli.py:32-35 | every copy of a definition whose name is not in the set survives, and no copy of one whose name is |
| Settings.FilterGroups | src/japanese_developer/cli.py:31-38 | every resulting group has a non-empty `hooks` member, and there are no more groups than before |
| Settings.FilterGroupsOrigin | src/japanese_developer/cli.py:32-37 | every resulting group is an input group with only its `hooks` member replaced by that group's filtered definitions; its other members are unchanged |
| Settings.FilterGroupsFlatten | src/japanese_developer/cli.py:31-38 | the definitions of the filtered groups, read group after group, are exactly the unfiltered definitions of the input groups, every copy, in order |
| Settings.WithoutEmpty | src/japanese_developer/cli.py:36 | a group loses all its definitions exactly when all its names are in the set |
| Settings.WithoutAll | src/japanese_developer/cli.py:189-192 | a group keeps all its definitions exactly when none of its names is in the set |
| Settings.FilterGroupsMembership | src/japanese_developer/cli.py:188-194 | a definition is in the filtered groups exactly when it was in the input groups and its name is not filtered |
| Settings.FilterGroupsEmpty | src/japanese_developer/cli.py:36 | the filter drops every group exactly when every name in the groups is in the set |
| Settings.ExtendsFind | src/japanese_developer/cli.py:38 | when one hooks object extends another, what it finds under a key begins with what the original found |
| Status.CountGroups | src/japanese_developer/cli.py:145-147 | the count over a group list equals the number of its definitions read group after group, a group without `hooks` adding none |
| Status.CountEvents | src/japanese_developer/cli.py:145-148 | the count over a `hooks` object equals the number of definitions under all its events |
| Status.HookCount | src/japanese_developer/cli.py:144-148 | the reported count is the number of definitions in the document, and 0 when it has no `hooks` member |
| Status.ExtendsCount | src/japanese_developer/cli.py:144-148 | a hooks object that only gains groups and events never has a lower hook count |
| Status.FilterGroupsCount | src/japanese_developer/cli.py:144-148 | filtering never raises the definition count, and keeps it the same exactly when no name in the groups is filtered |
| Status.PutCount | src/japanese_developer/cli.py:144-148 | assigning a key replaces the count of its old groups by the count of the new ones |
| MergeHooks.MergeInto | src/japanese_developer/cli.py:21-38 | a new event takes the incoming groups verbatim; an existing event keeps its groups as a prefix, every appended group is non-empty, and every incoming name ends up registered |
| MergeHooks.MergeEvent | src/japanese_developer/cli.py:20-38 | after one step of the loop the event's key maps to its existing list merged with the incoming groups |
| MergeHooks.MergeEvents | src/japanese_developer/cli.py:20-38 | no contract of its own: the loop over the incoming events; `MergeHooks.MergeEventsExtends`, `MergeHooks.MergeEventsKeys`, `MergeHooks.MergeLookup` and `MergeHooks.IncomingNamesCovered` characterise it |
| MergeHooks.MergeEventExtends | src/japanese_developer/cli.py:20-38 | one step of the loop keeps every event in place and only lengthens the group list it touches |
| MergeHooks.MergeEventsExtends | src/japanese_developer/cli.py:20-38 | the loop keeps every existing event in its position, with its groups as a prefix of its new list |
| MergeHooks.MergeEventsKeys | src/japanese_developer/cli.py:20-22 | after the loop the `hooks` object holds exactly its own event names and the incoming ones |
| MergeHooks.Merge | src/japanese_developer/cli.py:15-40 | the result always has a `hooks` member (a missing one reads as empty) and all other top-level members are unchanged |
| MergeHooks.MergeKeepsExisting | src/japanese_developer/cli.py:15-40 | existing events keep their positions, and their groups form an unchanged prefix of their new lists |
| MergeHooks.MergeUntouched | src/japanese_developer/cli.py:20-22 | the loop leaves unchanged every event that the incoming object does not name |
| MergeHooks.MergeLookup | src/japanese_developer/cli.py:20-38 | given unique incoming event names, each event ends up with what merging it alone would give: the incoming groups verbatim if it was new, otherwise the existing groups followed by the filtered incoming ones |
| MergeHooks.NewEventVerbatim | src/japanese_developer/cli.py:21-22 | an incoming event the document lacks is inserted with its group list unchanged |
| MergeHooks.ExistingEventExtended | src/japanese_developer/cli.py:23-38 | an event in both keeps its groups, followed by the incoming groups filtered against the names registered before the merge |
| MergeHooks.UntouchedEventKept | src/japanese_developer/cli.py:20-22 | an event the incoming object does not mention keeps exactly its groups |
| MergeHooks.CoveredExtends | src/japanese_developer/cli.py:38 | names registered under an event stay registered as the hooks object is extended |
| MergeHooks.IncomingNamesCovered | src/japanese_developer/cli.py:21-38 | after the loop, every name of every incoming event is registered under that event |
| MergeHooks.IncomingNamesPresent | src/japanese_developer/cli.py:21-38 | after a merge the name of any incoming definition occurs under its event |
| MergeHooks.MergeEventsStable | src/japanese_developer/cli.py:25-38 | when every incoming name is already registered, the loop changes nothing |
| MergeHooks.MergeIdempotent | src/japanese_developer/cli.py:15-40 | merging the same definitions twice gives the same document as merging them once |
| MergeHooks.MergeUnique | src/japanese_developer/cli.py:20-22 | a document with unique event names keeps them unique through a merge |
| MergeHooks.MergeEventsCount | src/japanese_developer/cli.py:20-38 | the loop adds at most as many definitions as the incoming object holds |
| MergeHooks.MergeCount | src/japanese_developer/cli.py:144-148 | a merge never lowers the hook count and raises it by at most the incoming count |
| Uninstall.PruneEvents | src/japanese_developer/cli.py:186-199 | leaves no empty event or group, and never more events than before |
| Uninstall.PruneEventsOrigin | src/japanese_developer/cli.py:195-196 | every remaining event is an original event with the same name and its groups filtered |
| Uninstall.Unmerge | src/japanese_developer/cli.py:185-201 | the result has no empty group, event or `hooks` member; other top-level members are unchanged; a document without `hooks` is returned unchanged |
| Uninstall.UninstallSettings | src/japanese_developer/cli.py:168 | with the managed names `Uninstall.ManagedNames` ("enforce-japanese", "block-server-start", "auto-worklog"), after uninstall no definition bears one of them, and nothing empty is left |
| Uninstall.FilterGroupsAppend | src/japanese_developer/cli.py:188-194 | filtering a concatenation of group lists gives the concatenation of the filtered lists, so group order is kept |
| Uninstall.PruneEventsAppend | src/japanese_developer/cli.py:186-199 | pruning a concatenation of event lists gives the concatenation of the pruned lists, so event order is kept |
| Uninstall.FilterGroupsNames | src/japanese_developer/cli.py:189-192 | the names left after filtering are exactly the original names minus the filtered set |
| Uninstall.PruneEventsNames | src/japanese_developer/cli.py:186-199 | the names left after pruning are exactly the original names minus the managed ones |
| Uninstall.UnmergeNames | src/japanese_developer/cli.py:185-201 | no definition with a managed name survives, and every other name does |
| Uninstall.DefUnderCons | src/japanese_developer/cli.py:186 | a definition is under an event of a list exactly when it is under the first event or under one of the rest |
| Uninstall.PruneEventsMembership | src/japanese_developer/cli.py:186-199 | a definition stays under an event exactly when it was there and its name is not managed |
| Uninstall.UnmergeMembership | src/japanese_developer/cli.py:185-201 | uninstall keeps a definition under an event exactly when it was there and its name is not managed |
| Uninstall.PruneEventsFlatten | src/japanese_developer/cli.py:186-199 | the definitions left in the `hooks` object, read event after event, are exactly the original ones without those named in the set, every copy, in order |
| Uninstall.UnmergeKeepsCopies | src/japanese_developer/cli.py:185-201 | uninstall removes every copy of a managed definition and keeps every copy of every other, in document order |
| Uninstall.FilterGroupsKeeps | src/japanese_developer/cli.py:188-194 | non-empty groups that hold no managed name pass the filter unchanged |
| Uninstall.PruneEventsKeeps | src/japanese_developer/cli.py:186-199 | an event list with nothing empty and no managed name is pruned to itself |
| Uninstall.UnmergeKeeps | src/japanese_developer/cli.py:185-201 | a document with no empty scaffolding and no managed name is left exactly as it is |
| Uninstall.UnmergeIdempotent | src/japanese_developer/cli.py:185-201 | uninstalling twice gives the same document as uninstalling once |
| Uninstall.PruneEventsCount | src/japanese_developer/cli.py:186-199 | pruning never raises the definition count, and keeps it the same exactly when no managed name occurs |
| Uninstall.UnmergeCount | src/japanese_developer/cli.py:144-148 | uninstall never raises the hook count, and keeps it the same exactly when no definition bears a managed name |
| Uninstall.PrunePut | src/japanese_developer/cli.py:196 | replacing an event's groups by groups that filter to the same list does not change the pruned result |
| Uninstall.PruneMergeEvent | src/japanese_developer/cli.py:20-38 | pruning undoes one merge step whose incoming names are all managed |
| Uninstall.PruneMergeEvents | src/japanese_developer/cli.py:20-38 | pruning undoes the whole merge loop when every incoming name is managed |
| Uninstall.UnmergeAfterMerge | src/japanese_developer/cli.py:185-201 | for any document, when the managed names cover every incoming definition, uninstall after merge gives the same document as uninstall alone |
| Uninstall.UnmergeUndoesMerge | src/japanese_developer/cli.py:185-201 | take a document with nothing empty and no managed name, and managed names that cover every incoming definition: uninstall after merge gives that document back exactly |
| Scenarios.DeduplicatesExistingName | src/japanese_developer/cli.py:25-38 | an incoming name already registered is skipped, and the rest of its group is appended as a new group with the same matcher |
| Scenarios.RemovesEveryManagedName | src/japanese_developer/cli.py:185-201 | when the managed names include a pre-existing definition, uninstall removes it too, and the `hooks` member disappears |
| Scenarios.InsertsNewEvent | src/japanese_developer/cli.py:17-22 | a document without `hooks` gets one holding the new event verbatim |
| Scenarios.AppendsRepeatedNewName | src/japanese_developer/cli.py:25-38 | two incoming groups that carry the same new name are both appended |

## Left out

- Command wiring and terminal output (the click group, `setup`/`status`/`uninstall` echo lines, `_check_file`): user interface only.
- File work: reading and writing `settings.json` and `hooks.json`, JSON parsing and serialisation, template copying, `mkdir`, `chmod` and `unlink` of the hook scripts, and the home-directory path. The model takes the parsed document and the parsed template as values and returns the document to be written.
- The managed script file names at cli.py line 167 and the expected file list in `status`: they name files, not settings entries.
- In-place mutation and aliasing: `merge_hooks` inserts the template's own list object and rewrites the template's groups before appending them. The model uses pure values; the template is never read again, so the written document is the same.
- Member order inside a definition, inside a group and at the top level: the model keeps event order, but it keeps `name`, `hooks` and the top-level `hooks` member apart from the other members. A `hooks` member created by the merge is written last in the real file.
- Malformed shapes, such as a `hooks` member that is not an object, a group that is not an object, or a `name` that is not a string: the datatypes rule them out. In the source they raise an exception or compare unequal.
- Whether `uninstall` changed anything: the source reports `settings.json` as processed whenever the file exists, so it computes no such result.
- Uninstall.UnmergeUndoesMerge: requires that the original document has no empty group, event or `hooks` member. Uninstall always prunes those, so for such a document the round trip cannot give back the original.
- MergeHooks.MergeLookup, MergeHooks.NewEventVerbatim, MergeHooks.ExistingEventExtended: require that the incoming events have unique names. A parsed JSON object always does. With a repeated name the later entry would be merged into the earlier one's result.
