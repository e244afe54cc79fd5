/** The per-pull-request review record: the comments gathered from every linted
    file, the set of rule codes that fired, and the label actions derived from them. */
module Record {
  import opened LintReport
  import opened Comments
  import opened Labels

  const ErrorPrefix: string := "An error occured while parsing the file: `"
  const FenceOpen: string := "`\n```python\n"
  const FenceClose: string := "\n```"

  /** Body of the comment that reports a file the linter could not process: the
      file's path in backquotes, then the message fenced as a Python block. */
  function ErrorBody(filepath: string, message: string): (r: string)
    ensures |r| == |ErrorPrefix| + |filepath| + |FenceOpen| + |message| + |FenceClose|
    ensures r[..|ErrorPrefix|] == ErrorPrefix
    ensures r[|ErrorPrefix|..|ErrorPrefix| + |filepath|] == filepath
    ensures r[|ErrorPrefix| + |filepath|..|ErrorPrefix| + |filepath| + |FenceOpen|] == FenceOpen
    ensures r[|r| - |FenceClose| - |message|..|r| - |FenceClose|] == message
    ensures r[|r| - |FenceClose|..] == FenceClose
  {
    ErrorPrefix + filepath + FenceOpen + message + FenceClose
  }

  class PullRequestReviewRecord {
    var labelsToAdd: seq<string>
    var labelsToRemove: seq<string>
    var comments: seq<ReviewComment>
    var violatedRules: set<string>

    constructor ()
      ensures labelsToAdd == [] && labelsToRemove == [] && comments == [] && violatedRules == {}
    {
      labelsToAdd, labelsToRemove, comments, violatedRules := [], [], [], {};
    }

    /** Records every report: its rule code into the violated rules, its message
        into the comment at (filepath, line), merged when one is already there. */
    method AddComments(reports: seq<Report>, filepath: string)
      modifies this
      ensures comments == AddAll(old(comments), reports, filepath)
      ensures violatedRules == old(violatedRules) + set i | 0 <= i < |reports| :: reports[i].code
      ensures UniqueLocations(old(comments)) ==> UniqueLocations(comments)
      ensures Locations(comments) == Locations(old(comments)) + ReportLocations(reports, filepath)
      ensures labelsToAdd == old(labelsToAdd) && labelsToRemove == old(labelsToRemove)
    {
      for i := 0 to |reports|
        invariant comments == AddAll(old(comments), reports[..i], filepath)
        invariant violatedRules == old(violatedRules) + set j | 0 <= j < i :: reports[j].code
        invariant labelsToAdd == old(labelsToAdd) && labelsToRemove == old(labelsToRemove)
      {
        var line, message := reports[i].line, reports[i].message;
        violatedRules := violatedRules + {reports[i].code};
        ghost var before := comments;
        var merged := LinenoExist(line, filepath, message);
        if !merged {
          comments := comments + [ReviewComment(message, filepath, line)];
        }
        assert comments == AddMessage(before, filepath, line, message);
        assert reports[..i + 1][..i] == reports[..i];
        assert comments == AddAll(old(comments), reports[..i + 1], filepath);
      }
      assert reports[..|reports|] == reports;
      if UniqueLocations(old(comments)) {
        AddAllKeepsUnique(old(comments), reports, filepath);
      }
      AddAllLocations(old(comments), reports, filepath);
    }

    /** Records that the linter failed on filepath; always a new comment at the
        end, at lineno or at line 1 when the line is unknown. */
    method AddError(message: string, filepath: string, lineno: Option<int>)
      modifies this
      ensures comments == old(comments) + [ReviewComment(ErrorBody(filepath, message), filepath, if lineno.Some? then lineno.value else 1)]
      ensures violatedRules == old(violatedRules)
      ensures labelsToAdd == old(labelsToAdd) && labelsToRemove == old(labelsToRemove)
    {
      var line := if lineno.None? then 1 else lineno.value;
      var body := ErrorBody(filepath, message);
      comments := comments + [ReviewComment(body, filepath, line)];
    }

    /** Queues label actions from the rule-to-label table against the labels
        the pull request carries. */
    method FillLabels(currentLabels: seq<string>)
      modifies this
      ensures LabelPlan(labelsToAdd, labelsToRemove)
           == Fill(LabelPlan(old(labelsToAdd), old(labelsToRemove)), violatedRules, currentLabels, RuleToLabel)
      ensures NoDuplicates(old(labelsToAdd)) && NoDuplicates(old(labelsToRemove))
          ==> NoDuplicates(labelsToAdd) && NoDuplicates(labelsToRemove)
      ensures comments == old(comments) && violatedRules == old(violatedRules)
    {
      ghost var start := LabelPlan(labelsToAdd, labelsToRemove);
      for i := 0 to |RuleToLabel|
        invariant Fill(LabelPlan(labelsToAdd, labelsToRemove), violatedRules, currentLabels, RuleToLabel[i..])
               == Fill(start, violatedRules, currentLabels, RuleToLabel)
        invariant comments == old(comments) && violatedRules == old(violatedRules)
      {
        var (rule, name) := RuleToLabel[i];
        if rule in violatedRules {
          if name !in currentLabels && name !in labelsToAdd {
            labelsToAdd := labelsToAdd + [name];
          }
        } else if name in currentLabels && name !in labelsToRemove {
          labelsToRemove := labelsToRemove + [name];
        }
        assert RuleToLabel[i..][1..] == RuleToLabel[i + 1..];
      }
      assert RuleToLabel[|RuleToLabel|..] == [];
      if NoDuplicates(start.toAdd) && NoDuplicates(start.toRemove) {
        FillNoDuplicates(start, violatedRules, currentLabels, RuleToLabel);
      }
    }

    /** The comments as the flat records the review API takes. */
    function CollectComments(): (r: seq<CommentRecord>)
      reads this
      ensures |r| == |comments|
      ensures forall i :: 0 <= i < |r| ==>
        r[i].body == comments[i].body && r[i].path == comments[i].path &&
        r[i].line == comments[i].line && r[i].side == "RIGHT"
    {
      AsRecords(comments)
    }

    /** Looks for the first comment at (filepath, lineno); when there is one,
        appends body to it after a blank line. */
    method LinenoExist(lineno: int, filepath: string, body: string) returns (found: bool)
      modifies this
      ensures found <==> exists j :: 0 <= j < |old(comments)| && At(old(comments)[j], filepath, lineno)
      ensures found ==> comments == AddMessage(old(comments), filepath, lineno, body)
      ensures !found ==> comments == old(comments)
      ensures violatedRules == old(violatedRules)
      ensures labelsToAdd == old(labelsToAdd) && labelsToRemove == old(labelsToRemove)
    {
      for i := 0 to |comments|
        invariant comments == old(comments)
        invariant forall j :: 0 <= j < i ==> !At(comments[j], filepath, lineno)
      {
        if comments[i].line == lineno && comments[i].path == filepath {
          AddMessageMergesFirst(comments, filepath, lineno, body, i);
          comments := comments[i := comments[i].(body := comments[i].body + Separator + body)];
          return true;
        }
      }
      return false;
    }
  }

  /** An error comment does not go through the merge: it can give a location a
      second comment. */
  lemma ErrorCommentMayShareLocation()
    ensures var cs := [ReviewComment("m", "a.py", 1)];
            var withError := cs + [ReviewComment(ErrorBody("a.py", "boom"), "a.py", 1)];
            UniqueLocations(cs) && !UniqueLocations(withError)
  {
    var cs := [ReviewComment("m", "a.py", 1)];
    var withError := cs + [ReviewComment(ErrorBody("a.py", "boom"), "a.py", 1)];
    assert At(withError[1], withError[0].path, withError[0].line);
  }
}
