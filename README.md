# algorithms-keeper review core in Dafny

This project models two pieces of the algorithms-keeper pull-request bot.

1. **The review record** (`PullRequestReviewRecord`, one per pull request). It gathers lint reports into review comments: one comment per (path, line), with later messages appended after a blank line. It also records which rule codes fired. Once every file is linted, it decides which labels to add to and remove from the pull request, and it hands the comments to the platform client as flat records.
2. **The naming-convention rule** (`NamingConventionRule`). Class names must start with a non-lowercase letter and contain no underscore. Function names, parameter names and plain-name targets of assignments, `for` loops, walrus expressions and annotated assignments with a value must contain no uppercase letter.

Files:

- `lint_report.dfy` (module `LintReport`): `Option` and the lint `Report`, a (code, line, message) triple.
- `comments.dfy` (module `Comments`): review comments, the merge-by-location functions that specify the record's comment list, their lemmas, and the flat record view.
- `labels.dfy` (module `Labels`): `RULE_TO_LABEL`, the label decision as a fold over the table, and its lemmas.
- `record.dfy` (module `Record`): the class `PullRequestReviewRecord`. Its fields are two label lists, the comment list and the set of violated rule codes. Its methods update these in place, with loops where the source loops. Each method's `ensures` ties the new state to the functions of `Comments` and `Labels`.
- `naming_convention.dfy` (module `NamingConvention`): the message templates, the uppercase scan, a node datatype for the syntax nodes the rule visits, the two tree patterns as one `Extract` function, the visitors, and the rule's own valid/invalid examples.

Two behaviours of the code are worth stating up front:

- Unlike `add_comments`, `add_error` does not merge by location (record.py:87). It always appends a new comment, so an error comment can share a (path, line) with an earlier comment. `Record.ErrorCommentMayShareLocation` shows such a case. The at-most-one-comment-per-location guarantee is therefore stated for `add_comments` only.
- Only plain `Name` targets are checked (naming_convention.py:125-126). A tuple or list destructuring target (`A, B = 1, 2`) is never reported, although the docstring of `_validate_snake_case_name` (naming_convention.py:103-105) mentions sequence targets. The model follows the code.

## Model

| member | source | states |
|---|---|---|
| `Comments.FirstAt` | algorithms_keeper/parser/record.py:117-118 | the index found is the first comment whose line and path both match; none is found exactly when no comment matches |
| `Comments.AddMessage` | algorithms_keeper/parser/record.py:71-73 | one report's message through `_lineno_exist` or the append; its properties are stated by `AddMessageShape`, `AddMessageMergesFirst`, `AddMessageLocations` and `AddMessageKeepsUnique` |
| `Comments.AddAll` | algorithms_keeper/parser/record.py:67-73 | every report of one file, in order, through `AddMessage`; its properties are stated by `AddAllKeepsUnique`, `AddAllLocations`, `AddAllIntoExisting` and `SameLineReportsJoin`, and `AddComments` is proved equal to it |
| `Comments.AddMessageShape` | algorithms_keeper/parser/record.py:71-73 | a message for a location that already has a comment adds no comment; at a new location exactly one comment is appended at the end; every existing comment keeps its location and position |
| `Comments.AddMessageMergesFirst` | algorithms_keeper/parser/record.py:117-121 | when comment k is the first at the location, the merge changes only comment k, whose body becomes its old body + "\n\n" + message |
| `Comments.NewBodyKeepsFirst` | algorithms_keeper/parser/record.py:117-121 | rewriting the body of the first comment at a location leaves it the first comment there, so later messages for that line keep merging into it |
| `Comments.AddMessageLocations` | algorithms_keeper/parser/record.py:67-73 | after one message, the set of commented locations is the old set plus the message's location |
| `Comments.AddMessageKeepsUnique` | algorithms_keeper/parser/record.py:71-73 | if no two comments shared a location before one message, none do after it |
| `Comments.AddAllKeepsUnique` | algorithms_keeper/parser/record.py:67-73 | if no two comments share a location, none do after a whole batch of reports, including several reports on the same line |
| `Comments.AddAllLocations` | algorithms_keeper/parser/record.py:67-73 | after a batch of reports for one file, the commented locations are the old ones plus (filepath, line) of every report |
| `Comments.AddAllIntoExisting` | algorithms_keeper/parser/record.py:110-121 | reports on a line that already has a comment change only that comment: each message is appended to its body, in report order, after a blank line |
| `Comments.SameLineReportsJoin` | algorithms_keeper/parser/record.py:67-73 | reports on a line with no comment yet produce exactly one new comment, at the end, whose body is all their messages in order, separated by blank lines |
| `Comments.AsRecords` | algorithms_keeper/parser/record.py:103-108 | one flat record per comment, and every record has side "RIGHT" |
| `Comments.RecordsRoundTrip` | algorithms_keeper/parser/record.py:103-108 | the flat records keep each comment's body, path, line and order: the comments can be rebuilt from them |
| `Labels.RuleToLabel` | algorithms_keeper/parser/record.py:9-13 | the three (rule code, label) pairs in insertion order; `RuleToLabelExamples` states the actions they give |
| `Labels.Step` | algorithms_keeper/parser/record.py:97-101 | one (rule, label) pair only appends, at most one label, and leaves that pair settled: a fired rule's label is on the pull request or queued to add, and a silent rule's label is off the pull request or queued to remove |
| `Labels.Fill` | algorithms_keeper/parser/record.py:96-101 | the pairs of a table in order through `Step`; its properties are stated by the `Fill*` lemmas below, and `FillLabels` is proved equal to it |
| `Labels.FillExtends` | algorithms_keeper/parser/record.py:96-101 | filling labels only appends: labels queued before stay queued, in the same order |
| `Labels.FillAddsExactly` | algorithms_keeper/parser/record.py:96-99 | a label ends up queued to add iff it was already queued or some violated rule maps to it and the pull request does not carry it |
| `Labels.FillRemovesExactly` | algorithms_keeper/parser/record.py:100-101 | a label ends up queued to remove iff it was already queued or some rule that did not fire maps to it and the pull request carries it |
| `Labels.FillNoDuplicates` | algorithms_keeper/parser/record.py:98-101 | no label appears twice in either queue if none did before |
| `Labels.FillDisjoint` | algorithms_keeper/parser/record.py:96-101 | queued additions are never on the pull request and queued removals always are, so no label is both added and removed |
| `Labels.FillSettles` | algorithms_keeper/parser/record.py:96-101 | after a fill, every (rule, label) pair of the table needs no further action |
| `Labels.FillSettledUnchanged` | algorithms_keeper/parser/record.py:96-101 | a fill over pairs that need no action changes nothing |
| `Labels.FillIdempotent` | algorithms_keeper/parser/record.py:89-101 | filling a second time with the same violated rules and current labels leaves both queues unchanged |
| `Labels.RuleToLabelExamples` | algorithms_keeper/parser/record.py:9-13 | with the repository's three-entry table: a violated rule whose label is present causes no action; a present label whose rule did not fire is queued for removal once; a fired rule whose label is absent queues that label |
| `Record.ErrorBody` | algorithms_keeper/parser/record.py:83-86 | the error body is the fixed prefix, the file path verbatim, the closing backquote and the opening of a python code fence, the message verbatim, then the closing fence |
| `Record.PullRequestReviewRecord.constructor` | algorithms_keeper/parser/record.py:47-56 | a new record has no labels queued, no comments and no violated rules |
| `Record.PullRequestReviewRecord.AddComments` | algorithms_keeper/parser/record.py:58-73 | the comments become the merge of every report in order; every report's code is added to the violated rules, merged or not; unique locations stay unique; the locations gained are exactly those of the reports; the label queues are untouched |
| `Record.PullRequestReviewRecord.AddError` | algorithms_keeper/parser/record.py:75-87 | exactly one comment is appended, without merging, at lineno or at line 1 when lineno is absent, with the templated error body; nothing else changes |
| `Record.PullRequestReviewRecord.FillLabels` | algorithms_keeper/parser/record.py:89-101 | the queues become the table-order fold of the label decision over RULE_TO_LABEL; queues without duplicates stay without duplicates; comments and violated rules are untouched |
| `Record.PullRequestReviewRecord.CollectComments` | algorithms_keeper/parser/record.py:103-108 | one record per comment, in order, with the same body, path and line, and side "RIGHT" |
| `Record.PullRequestReviewRecord.LinenoExist` | algorithms_keeper/parser/record.py:110-121 | returns true iff some comment has the given line and path; if so, the first such comment's body gets "\n\n" + body appended and nothing else changes; otherwise nothing changes |
| `Record.ErrorCommentMayShareLocation` | algorithms_keeper/parser/record.py:87 | an error comment appended after a comment at the same path and line breaks the one-comment-per-location property |
| `NamingConvention.CamelCaseMessageQuotesName` | algorithms_keeper/parser/rules/naming_convention.py:9-13 | the class message is the fixed prefix, then the class name verbatim, then the fixed suffix |
| `NamingConvention.SnakeCaseMessageQuotesName` | algorithms_keeper/parser/rules/naming_convention.py:15-19 | the identifier message carries the node type after its prefix and the name verbatim before its suffix |
| `NamingConvention.AnyUppercaseLetter` | algorithms_keeper/parser/rules/naming_convention.py:22-27 | true iff some character of the name is an uppercase letter; false for the empty string |
| `NamingConvention.ClassNameViolates` | algorithms_keeper/parser/rules/naming_convention.py:62 | a class name breaks CamelCase when its first letter is lowercase or it holds an underscore; `ClassExamples` and `VisitReportsViolations` state its effect |
| `NamingConvention.Extract` | algorithms_keeper/parser/rules/naming_convention.py:114-132 | a capture is the node's own plain name and holds an uppercase letter; the definition pattern captures only from FunctionDef and Param, the target pattern only from AnnAssign, AssignTarget, For and NamedExpr |
| `NamingConvention.ExtractSnakeCase` | algorithms_keeper/parser/rules/naming_convention.py:114-132 | the first pattern that matches wins, and the capture is defined exactly when the node is not a class and its plain name holds an uppercase letter; the capture is that name |
| `NamingConvention.PatternsDisjoint` | algorithms_keeper/parser/rules/naming_convention.py:114-132 | the two patterns never both match a node, so the order of the `or` does not change the capture |
| `NamingConvention.ValidateSnakeCase` | algorithms_keeper/parser/rules/naming_convention.py:86-140 | a report exactly when the node is not a class and its plain name holds an uppercase letter; the report has the rule's code, the given line and the snake-case template filled with the node type and the name |
| `NamingConvention.Visit` | algorithms_keeper/parser/rules/naming_convention.py:60-84 | any report carries the rule's code and the node's line; `VisitReportsViolations` states when a report is made and its message |
| `NamingConvention.Lint` | algorithms_keeper/parser/rules/naming_convention.py:134-140 | at most one report per visited node, each with the rule's code |
| `NamingConvention.VisitReportsViolations` | algorithms_keeper/parser/rules/naming_convention.py:60-84 | a node is reported iff it breaks the convention as stated per node kind; the report carries the rule code, the node's line and the template filled with the node's name and role ("function", "parameter" or "variable") |
| `NamingConvention.DestructuringNeverReported` | algorithms_keeper/parser/rules/naming_convention.py:123-131 | assignment, for, walrus and annotated-assignment targets that are not plain names are never reported |
| `NamingConvention.BareAnnotationNeverReported` | algorithms_keeper/parser/rules/naming_convention.py:65-69 | an annotated assignment without a value is never reported, whatever its target |
| `NamingConvention.Violating` | algorithms_keeper/parser/rules/naming_convention.py:60-84 | the nodes that break the convention, in order; every node it keeps breaks the convention |
| `NamingConvention.ViolatingFilters` | algorithms_keeper/parser/rules/naming_convention.py:60-84 | every kept node is an input node, every violating input node is kept, and nothing is dropped when all nodes violate |
| `NamingConvention.LintReportsEachViolation` | algorithms_keeper/parser/rules/naming_convention.py:60-84 | for any mix of nodes, the reports correspond one for one and in order to the violating nodes: the i-th report has the rule's code, the line of the i-th violating node and the template filled with its name and role |
| `NamingConvention.LintCountsViolations` | algorithms_keeper/parser/rules/naming_convention.py:60-84 | the number of reports is the number of violating nodes |
| `NamingConvention.LintAllOrNothing` | algorithms_keeper/parser/rules/naming_convention.py:60-84 | nodes of which none violates give no report; nodes that all violate give one report each |
| `NamingConvention.ClassExamples` | algorithms_keeper/parser/rules/naming_convention.py:32-58 | "SomeClass" and "One" pass; "lowerPascalCase" and "all_lower_case" are reported with the class message naming them |
| `NamingConvention.ChainedAssignmentExample` | algorithms_keeper/parser/rules/naming_convention.py:55 | `valid = another_valid = Invalid = 5` gives exactly one report, naming the variable `Invalid` |
| `NamingConvention.ParameterExample` | algorithms_keeper/parser/rules/naming_convention.py:57 | in `def func(invalidParam, valid_param)` only the parameter `invalidParam` is reported |

## Left out

- The libcst parser and the `libcst.matchers` library (`m.extract`, `TypeOf`, `SaveMatchedNode`, `MatchIfTrue`) are replaced by the `Node` datatype, which covers the node kinds the rule visits, and by the hand-written `Extract`. Definition names are plain strings because the parser always gives them as `Name` nodes. Any non-`Name` target is `OtherTarget`.
- The fixit framework (`CstLintRule`, how `self.report` collects reports, the VALID/INVALID test harness) is not modelled. A visitor is a function from a node and its line to an optional `Report`. `Lint` stands for the framework visiting a file's nodes in order. Columns of reports are not modelled.
- `str.isupper` / `str.islower` are modelled on ASCII letters only. Unicode case is not modelled.
- `NamingConvention.Visit` and `NamingConvention.Violates` require a class name to be non-empty (`WellFormed`). The source reads `nodename[0]`, and the parser never produces an empty class name.
- The label names come from `algorithms_keeper.constants.Label`, which is not part of this model. `Labels` uses three distinct placeholder strings for them. The lemmas about the label decision hold for any table.
- `dataclasses.asdict` is modelled as the `CommentRecord` datatype (body, path, line, side), not as a string-keyed dictionary.
- Comments are values held in the record's sequence, so appending to a body replaces one element of the sequence. The model does not capture that a `ReviewComment` object could be aliased outside the record; in the source nothing else holds one.
- The once-only, after-all-files calling discipline of `fill_labels` is not enforced by the model. `Labels.FillIdempotent` shows that a second call with the same state is harmless.
- `algorithms_keeper/event/workflow.py` (the webhook handler that approves workflow runs) is network I/O through the GitHub client and is not modelled.
