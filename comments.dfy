/** Review comments and the merge-by-location rule of the review record:
    a comment is identified by (path, line); a message for a location that
    already has a comment is appended to that comment's body after a blank line. */
module Comments {
  import opened LintReport

  /** What separates two messages merged into one comment body. */
  const Separator: string := "\n\n"

  /** The side of a split diff on which every comment is posted. */
  const Right: string := "RIGHT"

  datatype ReviewComment = ReviewComment(body: string, path: string, line: int)

  /** The wire shape of one comment, as the hosting platform expects it. */
  datatype CommentRecord = CommentRecord(body: string, path: string, line: int, side: string)

  predicate At(c: ReviewComment, path: string, line: int) {
    c.path == path && c.line == line
  }

  function Locations(cs: seq<ReviewComment>): set<(string, int)> {
    set i | 0 <= i < |cs| :: (cs[i].path, cs[i].line)
  }

  /** The locations the reports of one file point at. */
  function ReportLocations(reports: seq<Report>, path: string): set<(string, int)> {
    set i | 0 <= i < |reports| :: (path, reports[i].line)
  }

  /** No two comments share a (path, line). */
  predicate UniqueLocations(cs: seq<ReviewComment>) {
    forall i, j :: 0 <= i < j < |cs| ==> !At(cs[j], cs[i].path, cs[i].line)
  }

  /** Index of the first comment at (path, line), if any. */
  function FirstAt(cs: seq<ReviewComment>, path: string, line: int): (r: Option<nat>)
    ensures r.Some? ==> r.value < |cs| && At(cs[r.value], path, line)
    ensures r.Some? ==> forall j :: 0 <= j < r.value ==> !At(cs[j], path, line)
    ensures r.None? <==> forall j :: 0 <= j < |cs| ==> !At(cs[j], path, line)
  {
    if cs == [] then None
    else if At(cs[0], path, line) then Some(0)
    else match FirstAt(cs[1..], path, line)
      case None => None
      case Some(k) => Some(k + 1)
  }

  function Merge(c: ReviewComment, message: string): ReviewComment {
    c.(body := c.body + Separator + message)
  }

  /** One message at (path, line): merged into the first comment already there,
      or appended as a new comment at the end. */
  function AddMessage(cs: seq<ReviewComment>, path: string, line: int, message: string): seq<ReviewComment> {
    match FirstAt(cs, path, line)
    case Some(k) => cs[k := Merge(cs[k], message)]
    case None => cs + [ReviewComment(message, path, line)]
  }

  /** Every report of one file, in order, through AddMessage. */
  function AddAll(cs: seq<ReviewComment>, reports: seq<Report>, path: string): seq<ReviewComment>
    decreases |reports|
  {
    if reports == [] then cs
    else
      var last := reports[|reports| - 1];
      AddMessage(AddAll(cs, reports[..|reports| - 1], path), path, last.line, last.message)
  }

  /** The text the reports' messages add to a body they are merged into: a
      blank line before each message, in report order. */
  function Appended(reports: seq<Report>): string {
    if reports == [] then ""
    else Appended(reports[..|reports| - 1]) + Separator + reports[|reports| - 1].message
  }

  /** All messages of the reports, in order, separated by blank lines. */
  function Joined(reports: seq<Report>): string
    requires reports != []
  {
    if |reports| == 1 then reports[0].message
    else Joined(reports[..|reports| - 1]) + Separator + reports[|reports| - 1].message
  }

  function AsRecord(c: ReviewComment): CommentRecord {
    CommentRecord(c.body, c.path, c.line, Right)
  }

  /** The flat view handed to the platform client: one record per comment, in order. */
  function AsRecords(cs: seq<ReviewComment>): (r: seq<CommentRecord>)
    ensures |r| == |cs|
    ensures forall i :: 0 <= i < |r| ==> r[i].side == Right
  {
    seq(|cs|, i requires 0 <= i < |cs| => AsRecord(cs[i]))
  }

  function FromRecords(rs: seq<CommentRecord>): seq<ReviewComment> {
    seq(|rs|, i requires 0 <= i < |rs| => ReviewComment(rs[i].body, rs[i].path, rs[i].line))
  }

  // ---------------------------------------------------------------------------
  // Properties of the merge

  /** A message never adds a comment at a location that has one; at a new
      location it adds exactly one comment, at the end; either way every comment
      keeps its location and position. */
  lemma AddMessageShape(cs: seq<ReviewComment>, path: string, line: int, message: string)
    ensures var r := AddMessage(cs, path, line, message);
      ((exists j :: 0 <= j < |cs| && At(cs[j], path, line)) ==> |r| == |cs|) &&
      ((forall j :: 0 <= j < |cs| ==> !At(cs[j], path, line)) ==> r == cs + [ReviewComment(message, path, line)]) &&
      forall j :: 0 <= j < |cs| ==> At(r[j], cs[j].path, cs[j].line)
  {
  }

  /** Merging a message into a location changes exactly the body of the first
      comment there: nothing is added, nothing else moves. */
  lemma AddMessageMergesFirst(cs: seq<ReviewComment>, path: string, line: int, message: string, k: nat)
    requires k < |cs| && At(cs[k], path, line)
    requires forall j :: 0 <= j < k ==> !At(cs[j], path, line)
    ensures AddMessage(cs, path, line, message) == cs[k := cs[k].(body := cs[k].body + "\n\n" + message)]
  {
  }

  /** Changing the body of the first comment at a location leaves it the first there. */
  lemma NewBodyKeepsFirst(cs: seq<ReviewComment>, path: string, line: int, k: nat, body: string)
    requires FirstAt(cs, path, line) == Some(k)
    ensures FirstAt(cs[k := cs[k].(body := body)], path, line) == Some(k)
  {
    var next := cs[k := cs[k].(body := body)];
    assert forall j :: 0 <= j < k ==> next[j] == cs[j];
    assert At(next[k], path, line);
    var f := FirstAt(next, path, line);
    assert f.Some?;
    assert !(f.value < k) && !(k < f.value);
  }

  lemma AddMessageLocations(cs: seq<ReviewComment>, path: string, line: int, message: string)
    ensures Locations(AddMessage(cs, path, line, message)) == Locations(cs) + {(path, line)}
  {
    var r := AddMessage(cs, path, line, message);
    match FirstAt(cs, path, line)
    case Some(k) =>
      forall loc | loc in Locations(cs) + {(path, line)} ensures loc in Locations(r) {
        if loc == (path, line) {
          assert loc == (r[k].path, r[k].line);
        } else {
          var i :| 0 <= i < |cs| && loc == (cs[i].path, cs[i].line);
          assert loc == (r[i].path, r[i].line);
        }
      }
      forall loc | loc in Locations(r) ensures loc in Locations(cs) {
        var i :| 0 <= i < |r| && loc == (r[i].path, r[i].line);
        assert loc == (cs[i].path, cs[i].line);
      }
    case None =>
      assert r[|cs|] == ReviewComment(message, path, line);
      forall loc | loc in Locations(r) ensures loc in Locations(cs) + {(path, line)} {
        var i :| 0 <= i < |r| && loc == (r[i].path, r[i].line);
        if i < |cs| { assert r[i] == cs[i]; }
      }
      forall loc | loc in Locations(cs) ensures loc in Locations(r) {
        var i :| 0 <= i < |cs| && loc == (cs[i].path, cs[i].line);
        assert r[i] == cs[i];
      }
  }

  lemma AddMessageKeepsUnique(cs: seq<ReviewComment>, path: string, line: int, message: string)
    requires UniqueLocations(cs)
    ensures UniqueLocations(AddMessage(cs, path, line, message))
  {
  }

  /** At most one comment per location, however many reports a file brings. */
  lemma {:induction false} AddAllKeepsUnique(cs: seq<ReviewComment>, reports: seq<Report>, path: string)
    requires UniqueLocations(cs)
    ensures UniqueLocations(AddAll(cs, reports, path))
    decreases |reports|
  {
    if reports != [] {
      var n := |reports| - 1;
      AddAllKeepsUnique(cs, reports[..n], path);
      AddMessageKeepsUnique(AddAll(cs, reports[..n], path), path, reports[n].line, reports[n].message);
    }
  }

  lemma ReportLocationsSnoc(reports: seq<Report>, path: string)
    requires reports != []
    ensures var n := |reports| - 1;
      ReportLocations(reports, path) == ReportLocations(reports[..n], path) + {(path, reports[n].line)}
  {
    var n := |reports| - 1;
    forall loc | loc in ReportLocations(reports, path)
      ensures loc in ReportLocations(reports[..n], path) + {(path, reports[n].line)}
    {
      var i :| 0 <= i < |reports| && loc == (path, reports[i].line);
      if i < n { assert loc == (path, reports[..n][i].line); }
    }
    forall loc | loc in ReportLocations(reports[..n], path) ensures loc in ReportLocations(reports, path) {
      var i :| 0 <= i < n && loc == (path, reports[..n][i].line);
      assert loc == (path, reports[i].line);
    }
  }

  /** The locations after a file's reports are the old ones plus one per report. */
  lemma {:induction false} AddAllLocations(cs: seq<ReviewComment>, reports: seq<Report>, path: string)
    ensures Locations(AddAll(cs, reports, path)) == Locations(cs) + ReportLocations(reports, path)
    decreases |reports|
  {
    if reports != [] {
      var n := |reports| - 1;
      var prev := AddAll(cs, reports[..n], path);
      AddAllLocations(cs, reports[..n], path);
      AddMessageLocations(prev, path, reports[n].line, reports[n].message);
      ReportLocationsSnoc(reports, path);
    }
  }

  /** A message at a location that has a comment merges into the first one there. */
  lemma AddMessageIntoFirst(cs: seq<ReviewComment>, path: string, line: int, message: string, k: nat)
    requires FirstAt(cs, path, line) == Some(k)
    ensures AddMessage(cs, path, line, message) == cs[k := Merge(cs[k], message)]
  {
  }

  lemma UpdateTwice(cs: seq<ReviewComment>, k: nat, first: ReviewComment, second: ReviewComment)
    requires k < |cs|
    ensures cs[k := first][k := second] == cs[k := second]
  {
  }

  /** Reports on a line that already has a comment only grow that comment's body,
      message after message, each after a blank line. */
  lemma {:induction false} AddAllIntoExisting(cs: seq<ReviewComment>, reports: seq<Report>, path: string, line: int, k: nat)
    requires FirstAt(cs, path, line) == Some(k)
    requires forall i :: 0 <= i < |reports| ==> reports[i].line == line
    ensures AddAll(cs, reports, path) == cs[k := cs[k].(body := cs[k].body + Appended(reports))]
    decreases |reports|
  {
    if reports == [] {
      assert cs[k].(body := cs[k].body + "") == cs[k];
      assert cs[k := cs[k]] == cs;
    } else {
      var n := |reports| - 1;
      var last := reports[n];
      var before := cs[k].(body := cs[k].body + Appended(reports[..n]));
      var prev := AddAll(cs, reports[..n], path);
      assert forall i :: 0 <= i < n ==> reports[..n][i].line == line by {
        forall i | 0 <= i < n ensures reports[..n][i].line == line {
          assert reports[..n][i] == reports[i];
        }
      }
      AddAllIntoExisting(cs, reports[..n], path, line, k);
      assert prev == cs[k := before];
      NewBodyKeepsFirst(cs, path, line, k, before.body);
      AddMessageIntoFirst(prev, path, line, last.message, k);
      assert AddAll(cs, reports, path) == prev[k := Merge(before, last.message)];
      UpdateTwice(cs, k, before, Merge(before, last.message));
      assert Merge(before, last.message).body == cs[k].body + Appended(reports) by {
        assert Appended(reports) == Appended(reports[..n]) + Separator + last.message;
      }
    }
  }

  /** Reports on a line that has no comment yet give exactly one new comment,
      at the end, whose body joins all their messages in order. */
  lemma {:induction false} SameLineReportsJoin(cs: seq<ReviewComment>, reports: seq<Report>, path: string, line: int)
    requires reports != []
    requires forall j :: 0 <= j < |cs| ==> !At(cs[j], path, line)
    requires forall i :: 0 <= i < |reports| ==> reports[i].line == line
    ensures AddAll(cs, reports, path) == cs + [ReviewComment(Joined(reports), path, line)]
    decreases |reports|
  {
    var n := |reports| - 1;
    if n == 0 {
      assert reports[..n] == [];
    } else {
      SameLineReportsJoin(cs, reports[..n], path, line);
      var before := cs + [ReviewComment(Joined(reports[..n]), path, line)];
      assert FirstAt(before, path, line) == Some(|cs|) by {
        var f := FirstAt(before, path, line);
        assert At(before[|cs|], path, line);
        assert f.Some? && !(f.value < |cs|);
      }
      assert AddAll(cs, reports, path) == before[|cs| := Merge(before[|cs|], reports[n].message)];
    }
  }

  /** The flat records keep every comment's content, position and order: the
      comments can be read back from them. */
  lemma RecordsRoundTrip(cs: seq<ReviewComment>)
    ensures FromRecords(AsRecords(cs)) == cs
  {
  }
}
