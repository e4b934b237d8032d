/** Worked examples of the merge and of `uninstall` on small documents. */
module Scenarios {
  import opened Optional
  import opened Json
  import opened Settings
  import opened MergeHooks
  import opened Uninstall

  function Named(n: string): Def {
    Def(Some(n), [])
  }

  const AnyTool: Fields := [("matcher", Str("*"))]

  /** A definition already registered is not added again; the rest of its group is
      appended as a new group carrying the same matcher. */
  lemma DeduplicatesExistingName()
    ensures var existing := Doc(Some([Event("PreToolUse", [Group(Some([Named("a")]), AnyTool)])]), []);
            var incoming := [Event("PreToolUse", [Group(Some([Named("a"), Named("b")]), AnyTool)])];
            Merge(existing, incoming)
            == Doc(Some([Event("PreToolUse", [Group(Some([Named("a")]), AnyTool), Group(Some([Named("b")]), AnyTool)])]), [])
  {
    var g := Group(Some([Named("a")]), AnyTool);
    assert NamesIn([g]) == {"a"} by {
      assert Defs(g) == [Named("a")];
      assert NameOf(Named("a")) == "a";
      assert "a" in NamesIn([g]);
      forall n | n in NamesIn([g]) ensures n == "a" {
        var g', d :| g' in [g] && d in Defs(g') && NameOf(d) == n;
        assert g' == g;
      }
    }
    var incoming := [Group(Some([Named("a"), Named("b")]), AnyTool)];
    assert Without([Named("a"), Named("b")], {"a"}) == [Named("b")];
    var added := [Group(Some([Named("b")]), AnyTool)];
    assert FilterGroups(incoming, {"a"}) == added;
    var evs := [Event("PreToolUse", [g])];
    assert Find(evs, "PreToolUse") == Some([g]);
    assert MergeInto(Some([g]), incoming) == [g] + added;
    var merged := [Event("PreToolUse", [g] + added)];
    assert MergeEvent(evs, "PreToolUse", incoming) == merged;
    assert MergeEvents(evs, [Event("PreToolUse", incoming)]) == MergeEvents(merged, []);
    assert [g] + added == [g, Group(Some([Named("b")]), AnyTool)];
    assert HooksOf(Doc(Some(evs), [])) == evs;
  }

  /** With both names managed, uninstalling the merged document of the previous example
      removes the pre-existing "a" too and leaves no "hooks" member at all. */
  lemma RemovesEveryManagedName()
    ensures var merged := Doc(Some([Event("PreToolUse", [Group(Some([Named("a")]), AnyTool), Group(Some([Named("b")]), AnyTool)])]), []);
            Unmerge(merged, {"a", "b"}) == Doc(None, [])
  {
    var ga := Group(Some([Named("a")]), AnyTool);
    var gb := Group(Some([Named("b")]), AnyTool);
    assert Without([Named("a")], {"a", "b"}) == [];
    assert Without([Named("b")], {"a", "b"}) == [];
    assert FilterGroups([ga, gb], {"a", "b"}) == [] by {
      assert [ga, gb][1..] == [gb];
      assert FilterGroups([gb], {"a", "b"}) == [];
    }
    assert PruneEvents([Event("PreToolUse", [ga, gb])], {"a", "b"}) == [];
  }

  /** An event the document lacks is inserted verbatim, into a "hooks" member created for it. */
  lemma InsertsNewEvent()
    ensures Merge(Doc(None, []), [Event("Stop", [Group(Some([Named("x")]), [])])])
         == Doc(Some([Event("Stop", [Group(Some([Named("x")]), [])])]), [])
  {
  }

  /** The set of names is computed before appending, so two incoming groups carrying
      the same new name are both appended: the event ends with "n" twice. */
  lemma AppendsRepeatedNewName()
    ensures var gn := Group(Some([Named("n")]), []);
            var existing := Doc(Some([Event("e", [])]), []);
            Merge(existing, [Event("e", [gn, gn])]) == Doc(Some([Event("e", [gn, gn])]), [])
  {
    var gn := Group(Some([Named("n")]), []);
    assert NamesIn([]) == {};
    assert Without([Named("n")], {}) == [Named("n")];
    assert FilterGroups([gn, gn], {}) == [gn, gn] by {
      assert [gn, gn][1..] == [gn];
      assert FilterGroups([gn], {}) == [gn];
    }
    assert Find([Event("e", [])], "e") == Some([]);
    assert MergeInto(Some([]), [gn, gn]) == [gn, gn] by {
      assert [] + [gn, gn] == [gn, gn];
    }
    assert MergeEvent([Event("e", [])], "e", [gn, gn]) == [Event("e", [gn, gn])];
    assert MergeEvents([Event("e", [])], [Event("e", [gn, gn])]) == MergeEvents([Event("e", [gn, gn])], []);
  }
}
