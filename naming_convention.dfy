/** The naming-convention lint rule: class names in CamelCase, every other
    definition and assignment target without an uppercase letter. The syntax tree
    is reduced to the node kinds the rule visits, and the two tree patterns the
    rule matches are written out as one extraction function. */
module NamingConvention {
  import opened LintReport

  /** The code every report of this rule carries (the rule's class name). */
  const RuleCode: string := "NamingConventionRule"

  const CamelCasePrefix: string :=
    "Class names should follow the [`CamelCase`](https://en.wikipedia.org/wiki/Camel_case) naming convention. Please update the name of the class `"
  const SnakeCasePrefix: string :=
    "Variable and function names should follow the [`snake_case`](https://en.wikipedia.org/wiki/Snake_case) naming convention. Please update the name of the "
  const Accordingly: string := "` accordingly. "

  /** INVALID_CAMEL_CASE_NAME with the class name filled in. */
  function CamelCaseMessage(nodename: string): string {
    CamelCasePrefix + nodename + Accordingly
  }

  /** INVALID_SNAKE_CASE_NAME with the node type and the name filled in. */
  function SnakeCaseMessage(nodetype: string, nodename: string): string {
    SnakeCasePrefix + nodetype + " `" + nodename + Accordingly
  }

  /** The class message quotes the class name verbatim, right after its fixed
      prefix, so the name can be read back from the message. */
  lemma CamelCaseMessageQuotesName(nodename: string)
    ensures var r := CamelCaseMessage(nodename);
      |r| == |CamelCasePrefix| + |nodename| + |Accordingly| &&
      r[..|CamelCasePrefix|] == CamelCasePrefix &&
      r[|CamelCasePrefix|..|r| - |Accordingly|] == nodename
  {
  }

  /** The identifier message names the node type after its fixed prefix and
      quotes the name verbatim before its fixed suffix. */
  lemma SnakeCaseMessageQuotesName(nodetype: string, nodename: string)
    ensures var r := SnakeCaseMessage(nodetype, nodename);
      |r| == |SnakeCasePrefix| + |nodetype| + 2 + |nodename| + |Accordingly| &&
      r[..|SnakeCasePrefix|] == SnakeCasePrefix &&
      r[|SnakeCasePrefix|..|SnakeCasePrefix| + |nodetype|] == nodetype &&
      r[|r| - |Accordingly| - |nodename|..|r| - |Accordingly|] == nodename
  {
  }

  // ASCII letters stand for the cased characters of str.isupper / str.islower.
  predicate IsUpper(c: char) { 'A' <= c <= 'Z' }
  predicate IsLower(c: char) { 'a' <= c <= 'z' }

  /** Some character of name is an uppercase letter. */
  predicate HasUppercase(name: string) {
    exists i :: 0 <= i < |name| && IsUpper(name[i])
  }

  /** _any_uppercase_letter: scans name and stops at the first uppercase letter. */
  method AnyUppercaseLetter(name: string) returns (r: bool)
    ensures r <==> HasUppercase(name)
    ensures name == [] ==> !r
  {
    for i := 0 to |name|
      invariant forall j :: 0 <= j < i ==> !IsUpper(name[j])
    {
      if IsUpper(name[i]) {
        return true;
      }
    }
    return false;
  }

  /** A class name breaks CamelCase when it starts with a lowercase letter or
      holds an underscore. */
  predicate ClassNameViolates(name: string)
    requires name != []
  {
    IsLower(name[0]) || '_' in name
  }

  /** An expression in target position: a plain name, or anything else
      (a tuple, list, attribute or subscript target). */
  datatype Target = Name(value: string) | OtherTarget

  /** The syntax nodes the rule visits. Definition names are always plain names;
      an annotated assignment may lack a value (`var: int`). */
  datatype Node =
    | ClassDef(name: string)
    | FunctionDef(name: string)
    | Param(name: string)
    | AnnAssign(target: Target, hasValue: bool)
    | AssignTarget(target: Target)
    | For(target: Target)
    | NamedExpr(target: Target)

  /** What the parser guarantees: a class has a non-empty name. */
  predicate WellFormed(node: Node) {
    node.ClassDef? ==> node.name != []
  }

  /** The two patterns of the snake-case check. DefinitionName is
      TypeOf(FunctionDef, Param)(name=Name(value=Save(MatchIfTrue(any uppercase))));
      TargetName is TypeOf(AnnAssign, AssignTarget, For, NamedExpr)(target=Name(...)). */
  datatype Pattern = DefinitionName | TargetName

  /** Matches node against pattern: the node kind must be one the pattern
      accepts, the field must be a plain Name, and its value must hold an
      uppercase letter; on success the value is the capture. */
  function Extract(node: Node, pattern: Pattern): (r: Option<string>)
    ensures r.Some? ==> r == BoundName(node) && HasUppercase(r.value)
    ensures r.Some? ==> (pattern == DefinitionName <==> node.FunctionDef? || node.Param?)
    ensures r.Some? && pattern == TargetName ==> node.AnnAssign? || node.AssignTarget? || node.For? || node.NamedExpr?
    ensures r.None? && BoundName(node).Some? && HasUppercase(BoundName(node).value) ==>
      node.ClassDef? || (pattern == DefinitionName) != (node.FunctionDef? || node.Param?)
  {
    match pattern
    case DefinitionName =>
      if (node.FunctionDef? || node.Param?) && HasUppercase(node.name) then Some(node.name) else None
    case TargetName =>
      if (node.AnnAssign? || node.AssignTarget? || node.For? || node.NamedExpr?)
        && node.target.Name? && HasUppercase(node.target.value)
      then Some(node.target.value)
      else None
  }

  /** The first pattern that matches wins. The two patterns accept disjoint
      node kinds, so the capture is a node's plain name with an uppercase letter,
      for every node kind but a class. */
  function ExtractSnakeCase(node: Node): (r: Option<string>)
    ensures r.Some? <==> !node.ClassDef? && BoundName(node).Some? && HasUppercase(BoundName(node).value)
    ensures r.Some? ==> r == BoundName(node)
  {
    var first := Extract(node, DefinitionName);
    if first.Some? then first else Extract(node, TargetName)
  }

  /** _validate_snake_case_name: a report when a pattern captures a name. */
  function ValidateSnakeCase(node: Node, line: int, nodetype: string): (r: Option<Report>)
    ensures r.Some? <==> !node.ClassDef? && BoundName(node).Some? && HasUppercase(BoundName(node).value)
    ensures r.Some? ==> r.value == Report(RuleCode, line, SnakeCaseMessage(nodetype, BoundName(node).value))
  {
    match ExtractSnakeCase(node)
    case Some(nodename) => Some(Report(RuleCode, line, SnakeCaseMessage(nodetype, nodename)))
    case None => None
  }

  /** The visitor the framework calls for node, found on the given line. */
  function Visit(node: Node, line: int): (r: Option<Report>)
    requires WellFormed(node)
    ensures r.Some? ==> r.value.code == RuleCode && r.value.line == line
  {
    match node
    case ClassDef(name) =>
      if ClassNameViolates(name) then Some(Report(RuleCode, line, CamelCaseMessage(name))) else None
    case AnnAssign(_, hasValue) => if hasValue then ValidateSnakeCase(node, line, "variable") else None
    case AssignTarget(_) => ValidateSnakeCase(node, line, "variable")
    case For(_) => ValidateSnakeCase(node, line, "variable")
    case FunctionDef(_) => ValidateSnakeCase(node, line, "function")
    case NamedExpr(_) => ValidateSnakeCase(node, line, "variable")
    case Param(_) => ValidateSnakeCase(node, line, "parameter")
  }

  /** The reports a visit adds to the rule's list. */
  function Reported(r: Option<Report>): seq<Report> {
    if r.Some? then [r.value] else []
  }

  /** The rule run over the visited nodes of one file, in visiting order. */
  function Lint(nodes: seq<(Node, int)>): (r: seq<Report>)
    requires forall i :: 0 <= i < |nodes| ==> WellFormed(nodes[i].0)
    ensures |r| <= |nodes|
    ensures forall i :: 0 <= i < |r| ==> r[i].code == RuleCode
  {
    if nodes == [] then [] else Reported(Visit(nodes[0].0, nodes[0].1)) + Lint(nodes[1..])
  }

  // ---------------------------------------------------------------------------
  // Reference definition of the rule and its properties

  /** The name a node declares or binds, when it is a plain name. */
  function BoundName(node: Node): Option<string> {
    match node
    case ClassDef(name) => Some(name)
    case FunctionDef(name) => Some(name)
    case Param(name) => Some(name)
    case AnnAssign(t, _) => if t.Name? then Some(t.value) else None
    case AssignTarget(t) => if t.Name? then Some(t.value) else None
    case For(t) => if t.Name? then Some(t.value) else None
    case NamedExpr(t) => if t.Name? then Some(t.value) else None
  }

  /** The role an identifier plays, as the message names it. */
  function NodeType(node: Node): string {
    match node
    case FunctionDef(_) => "function"
    case Param(_) => "parameter"
    case _ => "variable"
  }

  /** The convention, stated per node kind: a class breaks it by its first
      letter or an underscore; a function, a parameter, or a plain-name target of
      an assignment, a for loop, a walrus or an annotated assignment with a value
      breaks it by any uppercase letter. */
  predicate Violates(node: Node)
    requires WellFormed(node)
  {
    match node
    case ClassDef(name) => ClassNameViolates(name)
    case AnnAssign(_, hasValue) => hasValue && BoundName(node).Some? && HasUppercase(BoundName(node).value)
    case _ => BoundName(node).Some? && HasUppercase(BoundName(node).value)
  }

  /** A node is reported exactly when it breaks the convention, and the report
      carries the rule's code, the node's line and the template filled with the
      node's name (and, for identifiers, its role). */
  lemma VisitReportsViolations(node: Node, line: int)
    requires WellFormed(node)
    ensures Visit(node, line).Some? <==> Violates(node)
    ensures Visit(node, line).Some? ==>
      Visit(node, line).value.code == RuleCode && Visit(node, line).value.line == line &&
      Visit(node, line).value.message ==
        (if node.ClassDef? then CamelCaseMessage(node.name) else SnakeCaseMessage(NodeType(node), BoundName(node).value))
  {
  }

  /** A destructuring target is never reported, whatever its names. */
  lemma DestructuringNeverReported(line: int)
    ensures Visit(AssignTarget(OtherTarget), line).None?
    ensures Visit(For(OtherTarget), line).None?
    ensures Visit(NamedExpr(OtherTarget), line).None?
    ensures Visit(AnnAssign(OtherTarget, true), line).None?
  {
  }

  /** An annotation without a value is never reported. */
  lemma BareAnnotationNeverReported(target: Target, line: int)
    ensures Visit(AnnAssign(target, false), line).None?
  {
  }

  /** The two patterns never both match a node, so which one is tried first
      does not change the capture. */
  lemma PatternsDisjoint(node: Node)
    ensures Extract(node, DefinitionName).None? || Extract(node, TargetName).None?
  {
  }

  /** The report the convention calls for on a violating node at line. */
  function ExpectedReport(node: Node, line: int): Report
    requires WellFormed(node) && Violates(node)
  {
    Report(RuleCode, line,
      if node.ClassDef? then CamelCaseMessage(node.name) else SnakeCaseMessage(NodeType(node), BoundName(node).value))
  }

  /** The violating nodes, in order. */
  function Violating(nodes: seq<(Node, int)>): (r: seq<(Node, int)>)
    requires forall i :: 0 <= i < |nodes| ==> WellFormed(nodes[i].0)
    ensures |r| <= |nodes|
    ensures forall i :: 0 <= i < |r| ==> WellFormed(r[i].0) && Violates(r[i].0)
  {
    if nodes == [] then []
    else (if Violates(nodes[0].0) then [nodes[0]] else []) + Violating(nodes[1..])
  }

  /** What one visit adds to the rule's list: the expected report of a violating
      node, nothing otherwise. */
  lemma VisitGivesExpected(node: Node, line: int)
    requires WellFormed(node)
    ensures Reported(Visit(node, line)) == if Violates(node) then [ExpectedReport(node, line)] else []
  {
    VisitReportsViolations(node, line);
  }

  /** Violating keeps exactly the violating nodes: every node it keeps is one
      of the input, every violating node is kept, and nothing is dropped when
      all nodes violate. */
  lemma {:induction false} ViolatingFilters(nodes: seq<(Node, int)>)
    requires forall i :: 0 <= i < |nodes| ==> WellFormed(nodes[i].0)
    ensures forall i :: 0 <= i < |Violating(nodes)| ==> Violating(nodes)[i] in nodes
    ensures forall i :: 0 <= i < |nodes| && Violates(nodes[i].0) ==> nodes[i] in Violating(nodes)
    ensures (forall i :: 0 <= i < |nodes| ==> Violates(nodes[i].0)) ==> Violating(nodes) == nodes
  {
    if nodes != [] {
      ViolatingFilters(nodes[1..]);
      forall i | 0 < i < |nodes| && Violates(nodes[i].0) ensures nodes[i] in Violating(nodes) {
        assert nodes[i] == nodes[1..][i - 1];
      }
    }
  }

  /** reports are, one for one and in order, the expected reports of the
      (node, line) entries of violating. */
  predicate ReportsFor(reports: seq<Report>, violating: seq<(Node, int)>) {
    |reports| == |violating| &&
    forall i :: 0 <= i < |reports| ==>
      WellFormed(violating[i].0) && Violates(violating[i].0) &&
      reports[i] == ExpectedReport(violating[i].0, violating[i].1)
  }

  lemma ReportsForCons(report: Report, entry: (Node, int), reports: seq<Report>, violating: seq<(Node, int)>)
    requires ReportsFor(reports, violating)
    requires WellFormed(entry.0) && Violates(entry.0) && report == ExpectedReport(entry.0, entry.1)
    ensures ReportsFor([report] + reports, [entry] + violating)
  {
    forall i | 0 < i < |reports| + 1
      ensures ([report] + reports)[i] == reports[i - 1] && ([entry] + violating)[i] == violating[i - 1]
    {
    }
  }

  /** Lint reports once per violating node, in order, and nothing for the rest:
      its i-th report is the expected report of the i-th violating node. */
  lemma {:induction false} LintReportsEachViolation(nodes: seq<(Node, int)>)
    requires forall i :: 0 <= i < |nodes| ==> WellFormed(nodes[i].0)
    ensures ReportsFor(Lint(nodes), Violating(nodes))
  {
    if nodes != [] {
      var (node, line) := nodes[0];
      var rest, restViolating := Lint(nodes[1..]), Violating(nodes[1..]);
      VisitGivesExpected(node, line);
      LintReportsEachViolation(nodes[1..]);
      if Violates(node) {
        assert Lint(nodes) == [ExpectedReport(node, line)] + rest;
        assert Violating(nodes) == [nodes[0]] + restViolating;
        ReportsForCons(ExpectedReport(node, line), nodes[0], rest, restViolating);
      } else {
        assert Lint(nodes) == rest;
        assert Violating(nodes) == restViolating;
      }
    }
  }

  /** Lint makes exactly as many reports as there are violating nodes. */
  lemma {:induction false} LintCountsViolations(nodes: seq<(Node, int)>)
    requires forall i :: 0 <= i < |nodes| ==> WellFormed(nodes[i].0)
    ensures |Lint(nodes)| == |Violating(nodes)|
  {
    LintReportsEachViolation(nodes);
  }

  /** Clean nodes give no report; nodes that all violate give one report each. */
  lemma LintAllOrNothing(nodes: seq<(Node, int)>)
    requires forall i :: 0 <= i < |nodes| ==> WellFormed(nodes[i].0)
    ensures (forall i :: 0 <= i < |nodes| ==> !Violates(nodes[i].0)) ==> Lint(nodes) == []
    ensures (forall i :: 0 <= i < |nodes| ==> Violates(nodes[i].0)) ==> |Lint(nodes)| == |nodes|
  {
    LintReportsEachViolation(nodes);
    ViolatingFilters(nodes);
  }

  lemma HasUppercaseAt(name: string, i: nat)
    requires i < |name| && IsUpper(name[i])
    ensures HasUppercase(name)
  {
  }

  /** The rule's own valid and invalid examples, on the nodes they parse to. */
  lemma ClassExamples()
    ensures Visit(ClassDef("SomeClass"), 1).None?
    ensures Visit(ClassDef("One"), 1).None?
    ensures Visit(ClassDef("lowerPascalCase"), 1) == Some(Report(RuleCode, 1, CamelCaseMessage("lowerPascalCase")))
    ensures Visit(ClassDef("all_lower_case"), 1) == Some(Report(RuleCode, 1, CamelCaseMessage("all_lower_case")))
  {
  }

  /** `valid = another_valid = Invalid = 5` visits three assignment targets and
      reports only the third. */
  lemma ChainedAssignmentExample()
    ensures Lint([(AssignTarget(Name("valid")), 1), (AssignTarget(Name("another_valid")), 1), (AssignTarget(Name("Invalid")), 1)])
         == [Report(RuleCode, 1, SnakeCaseMessage("variable", "Invalid"))]
  {
    var report := Report(RuleCode, 1, SnakeCaseMessage("variable", "Invalid"));
    assert Visit(AssignTarget(Name("Invalid")), 1) == Some(report) by {
      HasUppercaseAt("Invalid", 0);
    }
    assert Visit(AssignTarget(Name("valid")), 1).None? && Visit(AssignTarget(Name("another_valid")), 1).None? by {
      ExampleNamesWithoutUppercase();
    }
    LintThree((AssignTarget(Name("valid")), 1), (AssignTarget(Name("another_valid")), 1), (AssignTarget(Name("Invalid")), 1));
  }

  lemma ExampleNamesWithoutUppercase()
    ensures !HasUppercase("valid") && !HasUppercase("another_valid")
    ensures !HasUppercase("func") && !HasUppercase("valid_param")
  {
  }

  /** Lint of three nodes is their visits' reports in order. */
  lemma LintThree(a: (Node, int), b: (Node, int), c: (Node, int))
    requires WellFormed(a.0) && WellFormed(b.0) && WellFormed(c.0)
    ensures Lint([a, b, c]) == Reported(Visit(a.0, a.1)) + Reported(Visit(b.0, b.1)) + Reported(Visit(c.0, c.1))
  {
    assert Lint([c]) == Reported(Visit(c.0, c.1)) by {
      assert [c][1..] == [];
    }
    assert Lint([b, c]) == Reported(Visit(b.0, b.1)) + Lint([c]) by {
      assert [b, c][1..] == [c];
    }
    assert Lint([a, b, c]) == Reported(Visit(a.0, a.1)) + Lint([b, c]) by {
      assert [a, b, c][1..] == [b, c];
    }
  }

  /** `def func(invalidParam, valid_param)` reports the first parameter only. */
  lemma ParameterExample()
    ensures Lint([(FunctionDef("func"), 1), (Param("invalidParam"), 1), (Param("valid_param"), 1)])
         == [Report(RuleCode, 1, SnakeCaseMessage("parameter", "invalidParam"))]
  {
    var report := Report(RuleCode, 1, SnakeCaseMessage("parameter", "invalidParam"));
    assert Visit(Param("invalidParam"), 1) == Some(report) by {
      HasUppercaseAt("invalidParam", 7);
    }
    assert Visit(FunctionDef("func"), 1).None? && Visit(Param("valid_param"), 1).None? by {
      ExampleNamesWithoutUppercase();
    }
    LintThree((FunctionDef("func"), 1), (Param("invalidParam"), 1), (Param("valid_param"), 1));
    assert [] + [report] + [] == [report];
  }
}
