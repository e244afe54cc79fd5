/** The rule-to-label table and the label decision made once all files are linted. */
module Labels {

  /** Label names. Their definitions live in the repository's constants module,
      which is not part of this model; the values below stand in for them and no
      proof depends on them beyond their being three distinct strings. */
  const DescriptiveName: string := "require descriptive names"
  const RequireTest: string := "require tests"
  const TypeHint: string := "require type hints"

  /** RULE_TO_LABEL, in its insertion order: (rule code, label). */
  const RuleToLabel: seq<(string, string)> := [
    ("RequireDescriptiveNameRule", DescriptiveName),
    ("RequireDoctestRule", RequireTest),
    ("RequireTypeHintRule", TypeHint)
  ]

  /** The two queues of label actions a review record holds. */
  datatype LabelPlan = LabelPlan(toAdd: seq<string>, toRemove: seq<string>)

  predicate NoDuplicates(s: seq<string>) {
    forall i, j :: 0 <= i < j < |s| ==> s[i] != s[j]
  }

  /** The decision for one (rule, label) pair. */
  function Step(p: LabelPlan, violated: set<string>, current: seq<string>, rule: string, name: string): (r: LabelPlan)
    ensures p.toAdd <= r.toAdd && p.toRemove <= r.toRemove
    ensures |r.toAdd| + |r.toRemove| <= |p.toAdd| + |p.toRemove| + 1
    ensures Settled(r, violated, current, (rule, name))
  {
    if rule in violated then
      if name !in current && name !in p.toAdd then p.(toAdd := p.toAdd + [name]) else p
    else if name in current && name !in p.toRemove then p.(toRemove := p.toRemove + [name])
    else p
  }

  /** The decisions for a whole table, in table order. */
  function Fill(p: LabelPlan, violated: set<string>, current: seq<string>, table: seq<(string, string)>): LabelPlan
    decreases |table|
  {
    if table == [] then p
    else Fill(Step(p, violated, current, table[0].0, table[0].1), violated, current, table[1..])
  }

  /** The pair (rule, label) needs no further action under p. */
  predicate Settled(p: LabelPlan, violated: set<string>, current: seq<string>, entry: (string, string)) {
    (entry.0 in violated ==> entry.1 in current || entry.1 in p.toAdd) &&
    (entry.0 !in violated ==> entry.1 !in current || entry.1 in p.toRemove)
  }

  /** Label l is queued for adding by some pair of the table. */
  predicate AddedBy(table: seq<(string, string)>, violated: set<string>, current: seq<string>, l: string) {
    exists e :: e in table && e.0 in violated && e.1 == l && l !in current
  }

  /** Label l is queued for removal by some pair of the table. */
  predicate RemovedBy(table: seq<(string, string)>, violated: set<string>, current: seq<string>, l: string) {
    exists e :: e in table && e.0 !in violated && e.1 == l && l in current
  }

  // ---------------------------------------------------------------------------
  // Properties of the label decision

  /** Queued actions are kept, in order: a fill only appends. */
  lemma {:induction false} FillExtends(p: LabelPlan, violated: set<string>, current: seq<string>, table: seq<(string, string)>)
    ensures p.toAdd <= Fill(p, violated, current, table).toAdd
    ensures p.toRemove <= Fill(p, violated, current, table).toRemove
    decreases |table|
  {
    if table != [] {
      var next := Step(p, violated, current, table[0].0, table[0].1);
      FillExtends(next, violated, current, table[1..]);
    }
  }

  /** A label is queued for adding exactly when it was queued already or some
      violated rule maps to it and the pull request does not carry it. */
  lemma {:induction false} FillAddsExactly(p: LabelPlan, violated: set<string>, current: seq<string>, table: seq<(string, string)>, l: string)
    ensures l in Fill(p, violated, current, table).toAdd <==> l in p.toAdd || AddedBy(table, violated, current, l)
    decreases |table|
  {
    if table != [] {
      var next := Step(p, violated, current, table[0].0, table[0].1);
      FillAddsExactly(next, violated, current, table[1..], l);
      if AddedBy(table[1..], violated, current, l) {
        var e :| e in table[1..] && e.0 in violated && e.1 == l && l !in current;
        assert e in table;
      }
      assert table == [table[0]] + table[1..];
    }
  }

  /** A label is queued for removal exactly when it was queued already or some
      rule that was not violated maps to it and the pull request carries it. */
  lemma {:induction false} FillRemovesExactly(p: LabelPlan, violated: set<string>, current: seq<string>, table: seq<(string, string)>, l: string)
    ensures l in Fill(p, violated, current, table).toRemove <==> l in p.toRemove || RemovedBy(table, violated, current, l)
    decreases |table|
  {
    if table != [] {
      var next := Step(p, violated, current, table[0].0, table[0].1);
      FillRemovesExactly(next, violated, current, table[1..], l);
      if RemovedBy(table[1..], violated, current, l) {
        var e :| e in table[1..] && e.0 !in violated && e.1 == l && l in current;
        assert e in table;
      }
      assert table == [table[0]] + table[1..];
    }
  }

  /** No label is ever queued twice. */
  lemma {:induction false} FillNoDuplicates(p: LabelPlan, violated: set<string>, current: seq<string>, table: seq<(string, string)>)
    requires NoDuplicates(p.toAdd) && NoDuplicates(p.toRemove)
    ensures NoDuplicates(Fill(p, violated, current, table).toAdd)
    ensures NoDuplicates(Fill(p, violated, current, table).toRemove)
    decreases |table|
  {
    if table != [] {
      var next := Step(p, violated, current, table[0].0, table[0].1);
      assert NoDuplicates(next.toAdd) && NoDuplicates(next.toRemove);
      FillNoDuplicates(next, violated, current, table[1..]);
    }
  }

  /** Nothing queued to add is on the pull request and everything queued to
      remove is, so no label is both added and removed. */
  lemma FillDisjoint(p: LabelPlan, violated: set<string>, current: seq<string>, table: seq<(string, string)>)
    requires forall l :: l in p.toAdd ==> l !in current
    requires forall l :: l in p.toRemove ==> l in current
    ensures forall l :: l in Fill(p, violated, current, table).toAdd ==> l !in current
    ensures forall l :: l in Fill(p, violated, current, table).toRemove ==> l in current
    ensures forall l :: l in Fill(p, violated, current, table).toAdd ==> l !in Fill(p, violated, current, table).toRemove
  {
    var r := Fill(p, violated, current, table);
    forall l | l in r.toAdd ensures l !in current {
      FillAddsExactly(p, violated, current, table, l);
    }
    forall l | l in r.toRemove ensures l in current {
      FillRemovesExactly(p, violated, current, table, l);
    }
  }

  lemma SettledGrows(p: LabelPlan, q: LabelPlan, violated: set<string>, current: seq<string>, entry: (string, string))
    requires Settled(p, violated, current, entry)
    requires p.toAdd <= q.toAdd && p.toRemove <= q.toRemove
    ensures Settled(q, violated, current, entry)
  {
  }

  /** After a fill every pair of the table is settled. */
  lemma {:induction false} FillSettles(p: LabelPlan, violated: set<string>, current: seq<string>, table: seq<(string, string)>)
    ensures forall e :: e in table ==> Settled(Fill(p, violated, current, table), violated, current, e)
    decreases |table|
  {
    if table != [] {
      var next := Step(p, violated, current, table[0].0, table[0].1);
      var r := Fill(next, violated, current, table[1..]);
      FillSettles(next, violated, current, table[1..]);
      FillExtends(next, violated, current, table[1..]);
      assert Settled(next, violated, current, table[0]);
      SettledGrows(next, r, violated, current, table[0]);
      forall e | e in table ensures Settled(r, violated, current, e) {
        if e != table[0] { assert e in table[1..]; }
      }
    }
  }

  /** A fill over settled pairs changes nothing. */
  lemma {:induction false} FillSettledUnchanged(p: LabelPlan, violated: set<string>, current: seq<string>, table: seq<(string, string)>)
    requires forall e :: e in table ==> Settled(p, violated, current, e)
    ensures Fill(p, violated, current, table) == p
    decreases |table|
  {
    if table != [] {
      assert Settled(p, violated, current, table[0]);
      assert Step(p, violated, current, table[0].0, table[0].1) == p;
      forall e | e in table[1..] ensures Settled(p, violated, current, e) {
        assert e in table;
      }
      FillSettledUnchanged(p, violated, current, table[1..]);
    }
  }

  /** Filling twice with the same violations and current labels is filling once. */
  lemma FillIdempotent(p: LabelPlan, violated: set<string>, current: seq<string>, table: seq<(string, string)>)
    ensures Fill(Fill(p, violated, current, table), violated, current, table) == Fill(p, violated, current, table)
  {
    FillSettles(p, violated, current, table);
    FillSettledUnchanged(Fill(p, violated, current, table), violated, current, table);
  }

  /** With the repository's table: a violated rule whose label the pull request
      already carries causes no action, and a label the pull request carries for a
      rule that was not violated is queued for removal once. */
  lemma RuleToLabelExamples()
    ensures Fill(LabelPlan([], []), {"RequireTypeHintRule"}, [TypeHint], RuleToLabel) == LabelPlan([], [])
    ensures Fill(LabelPlan([], []), {}, [TypeHint], RuleToLabel) == LabelPlan([], [TypeHint])
    ensures Fill(LabelPlan([], []), {"RequireDoctestRule"}, [], RuleToLabel) == LabelPlan([RequireTest], [])
  {
    var t, empty := RuleToLabel, LabelPlan([], []);
    assert DescriptiveName !in [TypeHint] && RequireTest !in [TypeHint];
    assert "RequireDescriptiveNameRule" !in {"RequireTypeHintRule"};
    assert "RequireDoctestRule" !in {"RequireTypeHintRule"};
    assert "RequireDescriptiveNameRule" !in {"RequireDoctestRule"};
    assert "RequireTypeHintRule" !in {"RequireDoctestRule"};
    FillThree(empty, {"RequireTypeHintRule"}, [TypeHint], t);
    FillThree(empty, {}, [TypeHint], t);
    FillThree(empty, {"RequireDoctestRule"}, [], t);
  }

  lemma FillThree(p: LabelPlan, violated: set<string>, current: seq<string>, t: seq<(string, string)>)
    requires |t| == 3
    ensures Fill(p, violated, current, t)
         == Step(Step(Step(p, violated, current, t[0].0, t[0].1), violated, current, t[1].0, t[1].1), violated, current, t[2].0, t[2].1)
  {
    var p1 := Step(p, violated, current, t[0].0, t[0].1);
    var p2 := Step(p1, violated, current, t[1].0, t[1].1);
    var p3 := Step(p2, violated, current, t[2].0, t[2].1);
    assert Fill(p3, violated, current, t[1..][1..][1..]) == p3;
    assert Fill(p2, violated, current, t[1..][1..]) == p3;
  }
}
