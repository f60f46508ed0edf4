/** PullRequestIssuePostJob: after the analysis, routes every new issue to an
    inline comment or to the global report, updates the review comments,
    posts the global comment and approves or unapproves the pull request. */
module PostJob {
  import opened Wrappers
  import opened Sonar
  import opened Markdown
  import opened Report
  import opened Cache
  import opened ReviewComments
  import opened Facade

  // ---------------------------------------------------------------------------
  // Routing one issue
  // ---------------------------------------------------------------------------

  /** Where processIssues sends an issue. */
  datatype Route =
    /** Not new, or on a file the pull request does not touch: ignored. */
    | Skipped
    /** An inline comment at that line of that file, and into the report. */
    | OnLine(file: InputFile, line: int)
    /** Into the report only; `known` is the issue's file, if it has one. */
    | InReport(known: Option<InputFile>)

  /** The route of an issue, given the pull request's position index and the
      cached input files. */
  function RouteOf(index: map<string, map<int, int>>, puts: seq<(string, InputFile)>, issue: Issue): Route {
    var file := LastPut(puts, issue.componentKey);
    if !issue.isNew then Skipped
    else if file.Some? && file.value.path !in index then Skipped
    else if file.Some? && issue.line.Some? && issue.line.value in index[file.value.path] then
      OnLine(file.value, issue.line.value)
    else InReport(file)
  }

  /** An issue is ignored exactly when it is not new or its known file is not
      in the pull request; it goes inline exactly when it is new, its file is
      known and in the pull request, and its line is shown by the patch. */
  lemma RouteCases(index: map<string, map<int, int>>, puts: seq<(string, InputFile)>, issue: Issue)
    ensures RouteOf(index, puts, issue) == Skipped <==>
      !issue.isNew || (LastPut(puts, issue.componentKey).Some? && LastPut(puts, issue.componentKey).value.path !in index)
    ensures RouteOf(index, puts, issue).OnLine? <==>
      && issue.isNew
      && LastPut(puts, issue.componentKey).Some?
      && LastPut(puts, issue.componentKey).value.path in index
      && issue.line.Some?
      && issue.line.value in index[LastPut(puts, issue.componentKey).value.path]
    ensures RouteOf(index, puts, issue).OnLine? ==>
      RouteOf(index, puts, issue) == OnLine(LastPut(puts, issue.componentKey).value, issue.line.value)
    ensures RouteOf(index, puts, issue).InReport? ==>
      RouteOf(index, puts, issue).known == LastPut(puts, issue.componentKey)
  {
  }

  // ---------------------------------------------------------------------------
  // processIssues as values
  // ---------------------------------------------------------------------------

  /** The comment bodies to add: file -> line -> accumulated body. */
  type Pending = map<InputFile, map<int, string>>

  /** The text an inline issue adds to its line's body. */
  function InlineText(md: MarkDown, issue: Issue): string {
    md.inlineIssue(issue.severity, issue.message, issue.ruleKey) + "\n"
  }

  /** A body is pending at (file, line). */
  predicate Located(pending: Pending, file: InputFile, line: int) {
    file in pending && line in pending[file]
  }

  /** The body pending at (file, line); empty when there is none. */
  function BodyOf(pending: Pending, file: InputFile, line: int): string {
    if Located(pending, file, line) then pending[file][line] else ""
  }

  /** text appended to the body at (file, line), which starts empty. */
  function Append(pending: Pending, file: InputFile, line: int, text: string): (r: Pending)
    ensures Located(r, file, line) && BodyOf(r, file, line) == BodyOf(pending, file, line) + text
  {
    var byLine := if file in pending then pending[file] else map[];
    var body := if line in byLine then byLine[line] else "";
    pending[file := byLine[line := body + text]]
  }

  /** Appending at one location leaves every other location as it was. */
  lemma AppendElsewhere(pending: Pending, file: InputFile, line: int, text: string, f: InputFile, l: int)
    requires (f, l) != (file, line)
    ensures Located(Append(pending, file, line, text), f, l) <==> Located(pending, f, l)
    ensures BodyOf(Append(pending, file, line, text), f, l) == BodyOf(pending, f, l)
  {
  }

  /** The pending map after one more issue: its inline text is appended at
      its location when it goes inline. */
  function AddIssue(index: map<string, map<int, int>>, puts: seq<(string, InputFile)>, md: MarkDown,
                    pending: Pending, issue: Issue): Pending {
    match RouteOf(index, puts, issue)
    case OnLine(file, line) => Append(pending, file, line, InlineText(md, issue))
    case _ => pending
  }

  /** The report.process call one issue makes, if any. */
  function ProcessCall(index: map<string, map<int, int>>, puts: seq<(string, InputFile)>,
                       webUrl: (Option<InputFile>, Option<int>) -> Option<string>, issue: Issue): seq<Processed> {
    match RouteOf(index, puts, issue)
    case Skipped => []
    case OnLine(file, _) => [Processed(issue, webUrl(Some(file), issue.line), true)]
    case InReport(known) => [Processed(issue, webUrl(known, issue.line), false)]
  }

  /** The map processIssues returns for the issues `issues`. */
  function PendingOf(index: map<string, map<int, int>>, puts: seq<(string, InputFile)>, md: MarkDown, issues: seq<Issue>): Pending
    decreases |issues|
  {
    if |issues| == 0 then map[]
    else AddIssue(index, puts, md, PendingOf(index, puts, md, issues[..|issues| - 1]), issues[|issues| - 1])
  }

  /** The calls of report.process for the issues `issues`, in order. */
  function ReportedOf(index: map<string, map<int, int>>, puts: seq<(string, InputFile)>,
                      webUrl: (Option<InputFile>, Option<int>) -> Option<string>, issues: seq<Issue>): seq<Processed>
    decreases |issues|
  {
    if |issues| == 0 then []
    else ReportedOf(index, puts, webUrl, issues[..|issues| - 1]) + ProcessCall(index, puts, webUrl, issues[|issues| - 1])
  }

  /** The issues that are not ignored, in order. */
  function Kept(index: map<string, map<int, int>>, puts: seq<(string, InputFile)>, issues: seq<Issue>): (r: seq<Issue>)
    ensures forall j | 0 <= j < |r| :: RouteOf(index, puts, r[j]) != Skipped
    decreases |issues|
  {
    if |issues| == 0 then []
    else if RouteOf(index, puts, issues[|issues| - 1]) == Skipped then Kept(index, puts, issues[..|issues| - 1])
    else Kept(index, puts, issues[..|issues| - 1]) + [issues[|issues| - 1]]
  }

  /** The body collected for (file, line): the inline texts of the issues
      routed there, in order. */
  function BodyAt(index: map<string, map<int, int>>, puts: seq<(string, InputFile)>, md: MarkDown,
                  issues: seq<Issue>, file: InputFile, line: int): string
    decreases |issues|
  {
    if |issues| == 0 then ""
    else
      var issue := issues[|issues| - 1];
      BodyAt(index, puts, md, issues[..|issues| - 1], file, line)
      + if RouteOf(index, puts, issue) == OnLine(file, line) then InlineText(md, issue) else ""
  }

  /** report.process is called once per issue that is not ignored, in order,
      with reportedOnDiff set exactly for the issues placed inline. */
  lemma {:induction false} ReportedIsKept(index: map<string, map<int, int>>, puts: seq<(string, InputFile)>,
                                          webUrl: (Option<InputFile>, Option<int>) -> Option<string>, issues: seq<Issue>)
    ensures |ReportedOf(index, puts, webUrl, issues)| == |Kept(index, puts, issues)|
    ensures forall j | 0 <= j < |Kept(index, puts, issues)| ::
      && ReportedOf(index, puts, webUrl, issues)[j].issue == Kept(index, puts, issues)[j]
      && (ReportedOf(index, puts, webUrl, issues)[j].reportedOnDiff <==> RouteOf(index, puts, Kept(index, puts, issues)[j]).OnLine?)
    decreases |issues|
  {
    if |issues| > 0 {
      ReportedIsKept(index, puts, webUrl, issues[..|issues| - 1]);
    }
  }

  /** One more issue changes the pending map at (file, line) exactly when it
      is routed there, by appending its inline text. */
  lemma PendingStep(index: map<string, map<int, int>>, puts: seq<(string, InputFile)>, md: MarkDown,
                    issues: seq<Issue>, file: InputFile, line: int)
    requires |issues| > 0
    ensures var before := PendingOf(index, puts, md, issues[..|issues| - 1]);
      var here := RouteOf(index, puts, issues[|issues| - 1]) == OnLine(file, line);
      && (Located(PendingOf(index, puts, md, issues), file, line) <==> Located(before, file, line) || here)
      && BodyOf(PendingOf(index, puts, md, issues), file, line)
         == BodyOf(before, file, line) + if here then InlineText(md, issues[|issues| - 1]) else ""
  {
    var before := PendingOf(index, puts, md, issues[..|issues| - 1]);
    var issue := issues[|issues| - 1];
    match RouteOf(index, puts, issue)
    case OnLine(f, l) =>
      if (f, l) != (file, line) {
        AppendElsewhere(before, f, l, InlineText(md, issue), file, line);
      }
    case _ =>
      assert BodyOf(before, file, line) + "" == BodyOf(before, file, line);
  }

  /** A location holds a body exactly when some issue was routed there, and
      the body is the inline texts of those issues in order. */
  lemma {:induction false} PendingIsBodies(index: map<string, map<int, int>>, puts: seq<(string, InputFile)>, md: MarkDown,
                                           issues: seq<Issue>, file: InputFile, line: int)
    ensures Located(PendingOf(index, puts, md, issues), file, line) <==>
      exists i | 0 <= i < |issues| :: RouteOf(index, puts, issues[i]) == OnLine(file, line)
    ensures BodyOf(PendingOf(index, puts, md, issues), file, line) == BodyAt(index, puts, md, issues, file, line)
    decreases |issues|
  {
    if |issues| > 0 {
      var n := |issues| - 1;
      var prefix := issues[..n];
      PendingIsBodies(index, puts, md, prefix, file, line);
      PendingStep(index, puts, md, issues, file, line);
      if Located(PendingOf(index, puts, md, prefix), file, line) {
        var i :| 0 <= i < n && RouteOf(index, puts, prefix[i]) == OnLine(file, line);
        assert prefix[i] == issues[i];
      }
      if exists i | 0 <= i < |issues| :: RouteOf(index, puts, issues[i]) == OnLine(file, line) {
        var i :| 0 <= i < |issues| && RouteOf(index, puts, issues[i]) == OnLine(file, line);
        if i < n {
          assert prefix[i] == issues[i];
        }
      }
    }
  }

  /** The nested update processIssues performs is an append of the issue's
      inline text at (file, line). */
  lemma InlineUpdate(m: Pending, file: InputFile, line: int, inline: string)
    ensures var m1 := if file !in m then m[file := map[]] else m;
      var c0 := m1[file];
      var c1 := if line !in c0 then c0[line := ""] else c0;
      m1[file := c1[line := c1[line] + inline + "\n"]] == Append(m, file, line, inline + "\n")
  {
    var text := inline + "\n";
    if file in m && line in m[file] {
      assert m[file][line] + inline + "\n" == m[file][line] + text;
    } else {
      assert "" + inline + "\n" == text && "" + text == text;
      if file !in m {
        var empty: map<int, string> := map[];
        assert m[file := empty][file := empty[line := text]] == m[file := empty[line := text]];
        assert empty[line := ""][line := text] == empty[line := text];
        var m1 := m[file := empty];
        var c1 := m1[file][line := ""];
        assert c1[line] + inline + "\n" == text;
        assert c1[line := text] == empty[line := text];
        assert m1[file := c1[line := text]] == m[file := empty[line := text]];
        assert Append(m, file, line, text) == m[file := empty[line := text]];
      } else {
        var c1 := m[file][line := ""];
        assert c1[line := text] == m[file][line := text];
      }
    }
  }

  /** What one more issue adds to the pending map and to the report calls. */
  lemma ProcessStep(index: map<string, map<int, int>>, puts: seq<(string, InputFile)>, md: MarkDown,
                    webUrl: (Option<InputFile>, Option<int>) -> Option<string>, issues: seq<Issue>, i: nat)
    requires i < |issues|
    ensures PendingOf(index, puts, md, issues[..i + 1]) == AddIssue(index, puts, md, PendingOf(index, puts, md, issues[..i]), issues[i])
    ensures ReportedOf(index, puts, webUrl, issues[..i + 1]) == ReportedOf(index, puts, webUrl, issues[..i]) + ProcessCall(index, puts, webUrl, issues[i])
  {
    assert issues[..i + 1][..i] == issues[..i];
  }

  /** Every file with a pending body is in the pull request. */
  lemma {:induction false} PendingInPullRequest(index: map<string, map<int, int>>, puts: seq<(string, InputFile)>,
                                                md: MarkDown, issues: seq<Issue>)
    ensures forall f | f in PendingOf(index, puts, md, issues) :: f.path in index
    decreases |issues|
  {
    if |issues| > 0 {
      PendingInPullRequest(index, puts, md, issues[..|issues| - 1]);
    }
  }

  /** The report counts exactly the issues that are not ignored. */
  lemma ReportTotal(md: MarkDown, index: map<string, map<int, int>>, puts: seq<(string, InputFile)>,
                    webUrl: (Option<InputFile>, Option<int>) -> Option<string>, issues: seq<Issue>)
    ensures Total(Run(md, ReportedOf(index, puts, webUrl, issues))) == |Kept(index, puts, issues)|
  {
    RunTotal(md, ReportedOf(index, puts, webUrl, issues));
    ReportedIsKept(index, puts, webUrl, issues);
  }

  /** The input files of the seven-issue example. The job as modelled finds an
      issue's file in the input file cache, so the example's two files are
      puts under their component keys; directory and project keys have none. */
  lemma ExamplePuts(puts: seq<(string, InputFile)>, foo: InputFile, foo2: InputFile)
    requires foo == InputFile("foo:src/Foo.php", "src/Foo.php")
    requires foo2 == InputFile("foo:src/Foo2.php", "src/Foo2.php")
    requires puts == [("foo:src/Foo.php", foo), ("foo:src/Foo2.php", foo2)]
    ensures LastPut(puts, "foo:src/Foo.php") == Some(foo)
    ensures LastPut(puts, "foo:src/Foo2.php") == Some(foo2)
    ensures LastPut(puts, "foo") == None && LastPut(puts, "foo:src") == None
  {
    assert puts[..1] == [("foo:src/Foo.php", foo)];
    assert puts[..1][..0] == [];
  }

  /** Seven blocker issues: one on a shown line of a file of the pull
      request, one on that file without a line, one on the project, one on a
      directory, one on a file the pull request does not touch, one on a line
      the patch does not show and one that is not new. The first is placed
      inline; the ones without a line, without a cached file or on a hidden
      line go to the report only; the last two are ignored: the report counts
      five issues. */
  lemma ExampleSevenIssues(md: MarkDown, webUrl: (Option<InputFile>, Option<int>) -> Option<string>,
                           index: map<string, map<int, int>>, puts: seq<(string, InputFile)>, issues: seq<Issue>,
                           foo: InputFile, foo2: InputFile)
    requires foo == InputFile("foo:src/Foo.php", "src/Foo.php")
    requires foo2 == InputFile("foo:src/Foo2.php", "src/Foo2.php")
    requires puts == [("foo:src/Foo.php", foo), ("foo:src/Foo2.php", foo2)]
    requires index == map["src/Foo.php" := map[1 := 3]]
    requires issues == [
      Issue("foo:src/Foo.php", BLOCKER, "msg1", "repo:rule", Some(1), true),
      Issue("foo:src/Foo.php", BLOCKER, "msg5", "repo:rule", None, true),
      Issue("foo", BLOCKER, "msg", "repo:rule", None, true),
      Issue("foo:src", BLOCKER, "msg4", "repo:rule", None, true),
      Issue("foo:src/Foo2.php", BLOCKER, "msg3", "repo:rule", Some(1), true),
      Issue("foo:src/Foo.php", BLOCKER, "msg2", "repo:rule", Some(2), true),
      Issue("foo:src/Foo.php", BLOCKER, "msg", "repo:rule", Some(1), false)]
    ensures Kept(index, puts, issues) == [issues[0], issues[1], issues[2], issues[3], issues[5]]
    ensures RouteOf(index, puts, issues[0]) == OnLine(foo, 1)
    ensures RouteOf(index, puts, issues[5]) == InReport(Some(foo))
    ensures Total(Run(md, ReportedOf(index, puts, webUrl, issues))) == 5
  {
    ExamplePuts(puts, foo, foo2);
    assert RouteOf(index, puts, issues[0]) == OnLine(foo, 1);
    assert RouteOf(index, puts, issues[1]) == InReport(Some(foo));
    assert RouteOf(index, puts, issues[2]) == InReport(None);
    assert RouteOf(index, puts, issues[3]) == InReport(None);
    assert RouteOf(index, puts, issues[4]) == Skipped;
    assert RouteOf(index, puts, issues[5]) == InReport(Some(foo));
    assert RouteOf(index, puts, issues[6]) == Skipped;
    var k := [issues[0], issues[1], issues[2], issues[3], issues[5]];
    assert issues[..0] == [];
    forall n | 0 < n <= |issues| ensures issues[..n][..n - 1] == issues[..n - 1] && issues[..n][n - 1] == issues[n - 1] { }
    assert Kept(index, puts, issues[..1]) == k[..1];
    assert Kept(index, puts, issues[..2]) == k[..2];
    assert Kept(index, puts, issues[..3]) == k[..3];
    assert Kept(index, puts, issues[..4]) == k[..4];
    assert Kept(index, puts, issues[..5]) == k[..4];
    assert Kept(index, puts, issues[..6]) == k;
    assert issues[..7] == issues;
    ReportTotal(md, index, puts, webUrl, issues);
  }

  // ---------------------------------------------------------------------------
  // updateReviewComments as values
  // ---------------------------------------------------------------------------

  /** The (file, line) keys of a pending map. */
  function Locations(pending: Pending): set<(InputFile, int)> {
    set f, l | f in pending && l in pending[f] :: (f, l)
  }

  /** The locations of one file's lines. */
  function Row(file: InputFile, lines: set<int>): set<(InputFile, int)> {
    set l | l in lines :: (file, l)
  }

  /** Taking one more file out of the unvisited ones adds its row. */
  lemma LocationsRemove(pending: Pending, files: set<InputFile>, file: InputFile)
    requires file in files && file in pending
    ensures Locations(pending - (files - {file})) == Locations(pending - files) + Row(file, pending[file].Keys)
  {
    var before := Locations(pending - files);
    var after := Locations(pending - (files - {file}));
    forall loc | loc in after
      ensures loc in before + Row(file, pending[file].Keys)
    {
      if loc.0 != file {
        assert loc in before;
      }
    }
  }

  /** `order` lists the locations of `s`, each once. */
  ghost predicate Enumerates(order: seq<(InputFile, int)>, s: set<(InputFile, int)>) {
    && (forall k | 0 <= k < |order| :: order[k] in s)
    && (forall loc | loc in s :: loc in order)
    && (forall k, m | 0 <= k < m < |order| :: order[k] != order[m])
  }

  lemma EnumeratesSnoc(order: seq<(InputFile, int)>, s: set<(InputFile, int)>, loc: (InputFile, int))
    requires Enumerates(order, s) && loc !in s
    ensures Enumerates(order + [loc], s + {loc})
  {
  }

  lemma EnumeratesAppend(order: seq<(InputFile, int)>, s: set<(InputFile, int)>, more: seq<(InputFile, int)>, t: set<(InputFile, int)>)
    requires Enumerates(order, s) && Enumerates(more, t) && s !! t
    ensures Enumerates(order + more, s + t)
  {
    forall loc | loc in s + t
      ensures loc in order + more
    {
      if loc in s {
        var k :| 0 <= k < |order| && order[k] == loc;
        assert (order + more)[k] == loc;
      } else {
        var k :| 0 <= k < |more| && more[k] == loc;
        assert (order + more)[|order| + k] == loc;
      }
    }
  }

  /** The id of the existing comment at a location, if any. */
  function IdAt(byLocation: map<string, map<Option<int>, Comment>>, loc: (InputFile, int)): set<int> {
    if loc.0.path in byLocation && Some(loc.1) in byLocation[loc.0.path] then {byLocation[loc.0.path][Some(loc.1)].id} else {}
  }

  /** The ids of the existing comments found at the given locations. */
  function FoundIds(byLocation: map<string, map<Option<int>, Comment>>, locs: set<(InputFile, int)>): set<int> {
    set loc, id | loc in locs && id in IdAt(byLocation, loc) :: id
  }

  lemma FoundIdsAdd(byLocation: map<string, map<Option<int>, Comment>>, locs: set<(InputFile, int)>, loc: (InputFile, int))
    ensures FoundIds(byLocation, locs + {loc}) == FoundIds(byLocation, locs) + IdAt(byLocation, loc)
  {
  }

  lemma FoundIdsUnion(byLocation: map<string, map<Option<int>, Comment>>, s: set<(InputFile, int)>, t: set<(InputFile, int)>)
    ensures FoundIds(byLocation, s + t) == FoundIds(byLocation, s) + FoundIds(byLocation, t)
  {
  }

  /** The existing comment found at a location, if any. */
  function FoundAt(byLocation: map<string, map<Option<int>, Comment>>, loc: (InputFile, int)): Option<Comment> {
    if loc.0.path in byLocation && Some(loc.1) in byLocation[loc.0.path] then Some(byLocation[loc.0.path][Some(loc.1)]) else None
  }

  /** The markup of comment `c`, starting from `markup`, after the review
      comments for the locations of `order`, in that order: each location
      that finds `c` applies the update rule with its body. */
  function MarkupAfter(byLocation: map<string, map<Option<int>, Comment>>, pending: Pending,
                       order: seq<(InputFile, int)>, c: Comment, markup: Option<string>): Option<string>
    decreases |order|
  {
    if |order| == 0 then markup
    else
      var loc := order[|order| - 1];
      var before := MarkupAfter(byLocation, pending, order[..|order| - 1], c, markup);
      if FoundAt(byLocation, loc) == Some(c) then UpdatedMarkup(before, BodyOf(pending, loc.0, loc.1)) else before
  }

  /** A comment that no location of `order` finds keeps its markup. */
  lemma {:induction false} MarkupAfterUntouched(byLocation: map<string, map<Option<int>, Comment>>, pending: Pending,
                                                order: seq<(InputFile, int)>, c: Comment, markup: Option<string>)
    requires forall k | 0 <= k < |order| :: FoundAt(byLocation, order[k]) != Some(c)
    ensures MarkupAfter(byLocation, pending, order, c, markup) == markup
    decreases |order|
  {
    if |order| > 0 {
      var prefix := order[..|order| - 1];
      assert forall k | 0 <= k < |prefix| :: prefix[k] == order[k];
      MarkupAfterUntouched(byLocation, pending, prefix, c, markup);
    }
  }

  /** A null markup stays null: the update only replaces a non-null one. */
  lemma {:induction false} MarkupAfterNull(byLocation: map<string, map<Option<int>, Comment>>, pending: Pending,
                                           order: seq<(InputFile, int)>, c: Comment)
    ensures MarkupAfter(byLocation, pending, order, c, None) == None
    decreases |order|
  {
    if |order| > 0 {
      MarkupAfterNull(byLocation, pending, order[..|order| - 1], c);
    }
  }

  /** A non-null markup ends as the body of the last location that finds
      the comment. */
  lemma {:induction false} MarkupAfterLast(byLocation: map<string, map<Option<int>, Comment>>, pending: Pending,
                                           order: seq<(InputFile, int)>, c: Comment, markup: Option<string>, k: nat)
    requires markup.Some? && k < |order| && FoundAt(byLocation, order[k]) == Some(c)
    requires forall j | k < j < |order| :: FoundAt(byLocation, order[j]) != Some(c)
    ensures MarkupAfter(byLocation, pending, order, c, markup) == Some(BodyOf(pending, order[k].0, order[k].1))
    decreases |order|
  {
    var prefix := order[..|order| - 1];
    if k < |order| - 1 {
      assert forall j | 0 <= j < |prefix| :: prefix[j] == order[j];
      MarkupAfterLast(byLocation, pending, prefix, c, markup, k);
    } else {
      MarkupAfterSome(byLocation, pending, prefix, c, markup);
    }
  }

  /** A non-null markup stays non-null. */
  lemma {:induction false} MarkupAfterSome(byLocation: map<string, map<Option<int>, Comment>>, pending: Pending,
                                           order: seq<(InputFile, int)>, c: Comment, markup: Option<string>)
    requires markup.Some?
    ensures MarkupAfter(byLocation, pending, order, c, markup).Some?
    decreases |order|
  {
    if |order| > 0 {
      MarkupAfterSome(byLocation, pending, order[..|order| - 1], c, markup);
    }
  }

  /** Review comments for `order` then for `more` act on a markup as those
      for `order + more` do. */
  lemma {:induction false} MarkupAfterAppend(byLocation: map<string, map<Option<int>, Comment>>, pending: Pending,
                                             order: seq<(InputFile, int)>, more: seq<(InputFile, int)>, c: Comment, markup: Option<string>)
    ensures MarkupAfter(byLocation, pending, order + more, c, markup)
      == MarkupAfter(byLocation, pending, more, c, MarkupAfter(byLocation, pending, order, c, markup))
    decreases |more|
  {
    if |more| > 0 {
      assert (order + more)[..|order + more| - 1] == order + more[..|more| - 1];
      MarkupAfterAppend(byLocation, pending, order, more[..|more| - 1], c, markup);
    } else {
      assert order + more == order;
    }
  }

  /** The review-comment calls for the locations of `order`, in that order. */
  function ReviewCalls(pending: Pending, order: seq<(InputFile, int)>): (r: seq<Call>)
    ensures |r| == |order|
    decreases |order|
  {
    if |order| == 0 then []
    else
      var loc := order[|order| - 1];
      ReviewCalls(pending, order[..|order| - 1]) + [ReviewComment(loc.0.path, loc.1, BodyOf(pending, loc.0, loc.1))]
  }

  /** The k-th call is the review comment for the k-th location, with the
      body pending there. */
  lemma {:induction false} ReviewCallsAt(pending: Pending, order: seq<(InputFile, int)>, k: nat)
    requires k < |order|
    ensures ReviewCalls(pending, order)[k] == ReviewComment(order[k].0.path, order[k].1, BodyOf(pending, order[k].0, order[k].1))
    decreases |order|
  {
    if k < |order| - 1 {
      ReviewCallsAt(pending, order[..|order| - 1], k);
    }
  }

  lemma {:induction false} ReviewCallsAppend(pending: Pending, order: seq<(InputFile, int)>, more: seq<(InputFile, int)>)
    ensures ReviewCalls(pending, order + more) == ReviewCalls(pending, order) + ReviewCalls(pending, more)
  {
    var r := ReviewCalls(pending, order + more);
    var q := ReviewCalls(pending, order) + ReviewCalls(pending, more);
    assert |r| == |q|;
    forall k | 0 <= k < |r|
      ensures r[k] == q[k]
    {
      ReviewCallsAt(pending, order + more, k);
      if k >= |order| {
        ReviewCallsAt(pending, more, k - |order|);
        assert (order + more)[k] == more[k - |order|];
      } else {
        ReviewCallsAt(pending, order, k);
        assert (order + more)[k] == order[k];
      }
    }
  }

  lemma ConcatAssoc<T>(a: seq<T>, b: seq<T>, c: seq<T>)
    ensures a + b + c == a + (b + c)
  {
  }

  lemma SnocThree<T>(s: seq<T>, a: T, b: T, c: T)
    ensures s + [a] + [b] + [c] == s + [a, b, c]
  {
  }

  /** One more file visited: the enumeration, the calls and the deletion
      list each grow by that file's row. */
  lemma FileStep(pending: Pending, files: set<InputFile>, file: InputFile, order: seq<(InputFile, int)>, more: seq<(InputFile, int)>,
                 byLocation: map<string, map<Option<int>, Comment>>, toDelete: map<int, Comment>)
    requires file in files && files <= pending.Keys
    requires Enumerates(order, Locations(pending - files)) && Enumerates(more, Row(file, pending[file].Keys))
    ensures Enumerates(order + more, Locations(pending - (files - {file})))
    ensures ReviewCalls(pending, order + more) == ReviewCalls(pending, order) + ReviewCalls(pending, more)
    ensures toDelete - FoundIds(byLocation, Locations(pending - files)) - FoundIds(byLocation, Row(file, pending[file].Keys))
      == toDelete - FoundIds(byLocation, Locations(pending - (files - {file})))
  {
    var rows := Row(file, pending[file].Keys);
    ReviewCallsAppend(pending, order, more);
    EnumeratesAppend(order, Locations(pending - files), more, rows);
    FoundIdsUnion(byLocation, Locations(pending - files), rows);
    LocationsRemove(pending, files, file);
  }

  /** One more line of `file` visited: the enumeration, the calls and the
      deletion list each grow by that location. */
  lemma LineStep(pending: Pending, file: InputFile, keys: set<int>, lines: set<int>, line: int,
                 order: seq<(InputFile, int)>, byLocation: map<string, map<Option<int>, Comment>>, toDelete: map<int, Comment>)
    requires lines <= keys && line in lines
    requires Enumerates(order, Row(file, keys - lines))
    ensures Enumerates(order + [(file, line)], Row(file, keys - (lines - {line})))
    ensures ReviewCalls(pending, order + [(file, line)])
      == ReviewCalls(pending, order) + [ReviewComment(file.path, line, BodyOf(pending, file, line))]
    ensures toDelete - FoundIds(byLocation, Row(file, keys - lines)) - IdAt(byLocation, (file, line))
      == toDelete - FoundIds(byLocation, Row(file, keys - (lines - {line})))
  {
    var done := Row(file, keys - lines);
    assert Row(file, keys - (lines - {line})) == done + {(file, line)};
    EnumeratesSnoc(order, done, (file, line));
    FoundIdsAdd(byLocation, done, (file, line));
    assert (order + [(file, line)])[..|order|] == order;
  }

  /** The global comment when no issue was reported. */
  const NO_ISSUES := "SonarQube reported no issues"

  /** The global comment executeOn posts after the calls `processed` of
      report.process: the report in markdown, or NO_ISSUES without any. */
  function GlobalText(md: MarkDown, processed: seq<Processed>): string {
    if |processed| > 0 then Formatted(md, Run(md, processed)) else NO_ISSUES
  }

  // ---------------------------------------------------------------------------
  // The job
  // ---------------------------------------------------------------------------

  class PullRequestIssuePostJob {
    const pullRequestFacade: PullRequestFacade
    /** projectIssues.issues(), in iteration order. */
    const issues: seq<Issue>
    const inputFileCache: InputFileCache
    const markDownUtils: MarkDown
    /** pullRequestFacade.getWebUrl(inputFile, line), which
        PullRequestFacade.java does not define. */
    const webUrl: (Option<InputFile>, Option<int>) -> Option<string>

    constructor(pullRequestFacade: PullRequestFacade, issues: seq<Issue>, inputFileCache: InputFileCache,
                markDownUtils: MarkDown, webUrl: (Option<InputFile>, Option<int>) -> Option<string>)
      ensures this.pullRequestFacade == pullRequestFacade && this.issues == issues
      ensures this.inputFileCache == inputFileCache && this.markDownUtils == markDownUtils && this.webUrl == webUrl
    {
      this.pullRequestFacade := pullRequestFacade;
      this.issues := issues;
      this.inputFileCache := inputFileCache;
      this.markDownUtils := markDownUtils;
      this.webUrl := webUrl;
    }

    /** processIssues(report): feeds the report and collects the inline bodies. */
    method ProcessIssues(report: GlobalReport) returns (commentToBeAddedByFileAndByLine: Pending)
      requires report.Valid() && inputFileCache.Valid()
      modifies report, report.newIssuesBySeverity
      ensures report.Valid()
      ensures report.processed ==
        old(report.processed) + ReportedOf(pullRequestFacade.patchPositionMappingByFile, inputFileCache.puts, webUrl, issues)
      ensures commentToBeAddedByFileAndByLine ==
        PendingOf(pullRequestFacade.patchPositionMappingByFile, inputFileCache.puts, markDownUtils, issues)
    {
      ghost var index := pullRequestFacade.patchPositionMappingByFile;
      ghost var puts := inputFileCache.puts;
      commentToBeAddedByFileAndByLine := map[];
      var i := 0;
      while i < |issues|
        invariant 0 <= i <= |issues|
        invariant report.Valid()
        invariant report.processed == old(report.processed) + ReportedOf(index, puts, webUrl, issues[..i])
        invariant commentToBeAddedByFileAndByLine == PendingOf(index, puts, markDownUtils, issues[..i])
      {
        ProcessStep(index, puts, markDownUtils, webUrl, issues, i);
        ConcatAssoc(old(report.processed), ReportedOf(index, puts, webUrl, issues[..i]), ProcessCall(index, puts, webUrl, issues[i]));
        commentToBeAddedByFileAndByLine := ProcessIssue(report, issues[i], commentToBeAddedByFileAndByLine);
        i := i + 1;
      }
      assert issues[..i] == issues;
    }

    /** The body of processIssues' loop for one issue; returning early is
        the loop's `continue`. */
    method ProcessIssue(report: GlobalReport, issue: Issue, comments: Pending) returns (commentToBeAddedByFileAndByLine: Pending)
      requires report.Valid() && inputFileCache.Valid()
      modifies report, report.newIssuesBySeverity
      ensures report.Valid()
      ensures report.processed ==
        old(report.processed) + ProcessCall(pullRequestFacade.patchPositionMappingByFile, inputFileCache.puts, webUrl, issue)
      ensures commentToBeAddedByFileAndByLine ==
        AddIssue(pullRequestFacade.patchPositionMappingByFile, inputFileCache.puts, markDownUtils, comments, issue)
    {
      ghost var route := RouteOf(pullRequestFacade.patchPositionMappingByFile, inputFileCache.puts, issue);
      commentToBeAddedByFileAndByLine := comments;
      if !issue.isNew {
        return;
      }
      var issueLine := issue.line;
      var inputFile := inputFileCache.ByKey(issue.componentKey);
      if inputFile.Some? && !pullRequestFacade.HasFile(inputFile.value.path) {
        // issues on files the pull request does not touch are ignored
        return;
      }
      var reportedInline := false;
      if inputFile.Some? && issueLine.Some? {
        if pullRequestFacade.HasFileLine(inputFile.value.path, issueLine.value) {
          commentToBeAddedByFileAndByLine := AddInline(comments, inputFile.value, issueLine.value,
            markDownUtils.inlineIssue(issue.severity, issue.message, issue.ruleKey));
          reportedInline := true;
        }
      }
      assert route == if reportedInline then OnLine(inputFile.value, issueLine.value) else InReport(inputFile);
      report.Process(issue, webUrl(inputFile, issueLine), reportedInline);
    }

    /** The inline branch of processIssues' loop: the issue's markdown and a
        newline are appended to the body at (file, line), created empty when
        missing. */
    method AddInline(comments: Pending, file: InputFile, line: int, inline: string) returns (r: Pending)
      ensures r == Append(comments, file, line, inline + "\n")
    {
      r := comments;
      if file !in r {
        r := r[file := map[]];
      }
      var commentsByLine := r[file];
      if line !in commentsByLine {
        commentsByLine := commentsByLine[line := ""];
      }
      commentsByLine := commentsByLine[line := commentsByLine[line] + inline + "\n"];
      r := r[file := commentsByLine];
      InlineUpdate(comments, file, line, inline);
    }

    /** updateReviewComments(comments): one createOrUpdateReviewComment per
        (file, line) key with that key's body, file by file. */
    method UpdateReviewComments(comments: Pending) returns (ghost order: seq<(InputFile, int)>)
      requires forall f | f in comments :: pullRequestFacade.HasFile(f.path)
      modifies pullRequestFacade, pullRequestFacade.Comments()
      ensures Enumerates(order, Locations(comments))
      ensures pullRequestFacade.calls == old(pullRequestFacade.calls) + ReviewCalls(comments, order)
      ensures pullRequestFacade.reviewCommentsToBeDeleted ==
        old(pullRequestFacade.reviewCommentsToBeDeleted) - FoundIds(old(pullRequestFacade.existingReviewComments), Locations(comments))
      ensures forall c | c in old(pullRequestFacade.Comments()) ::
        c.markup == MarkupAfter(old(pullRequestFacade.existingReviewComments), comments, order, c, old(c.markup))
      ensures pullRequestFacade.patchPositionMappingByFile == old(pullRequestFacade.patchPositionMappingByFile)
      ensures pullRequestFacade.existingReviewComments == old(pullRequestFacade.existingReviewComments)
    {
      ghost var byLocation := pullRequestFacade.existingReviewComments;
      ghost var toDelete := pullRequestFacade.reviewCommentsToBeDeleted;
      ghost var calls := pullRequestFacade.calls;
      order := [];
      var files := comments.Keys;
      ghost var done: set<(InputFile, int)> := {};
      assert comments - files == map[];
      while files != {}
        invariant files <= comments.Keys
        invariant done == Locations(comments - files)
        invariant Enumerates(order, done)
        invariant pullRequestFacade.calls == calls + ReviewCalls(comments, order)
        invariant pullRequestFacade.reviewCommentsToBeDeleted == toDelete - FoundIds(byLocation, done)
        invariant pullRequestFacade.patchPositionMappingByFile == old(pullRequestFacade.patchPositionMappingByFile)
        invariant pullRequestFacade.existingReviewComments == byLocation
        invariant forall c | c in old(pullRequestFacade.Comments()) ::
          c.markup == MarkupAfter(byLocation, comments, order, c, old(c.markup))
        decreases files
      {
        var file :| file in files;
        ghost var more := UpdateFileComments(comments, file);
        forall c | c in old(pullRequestFacade.Comments())
          ensures MarkupAfter(byLocation, comments, order + more, c, old(c.markup))
            == MarkupAfter(byLocation, comments, more, c, MarkupAfter(byLocation, comments, order, c, old(c.markup)))
        {
          MarkupAfterAppend(byLocation, comments, order, more, c, old(c.markup));
        }
        FileStep(comments, files, file, order, more, byLocation, toDelete);
        ConcatAssoc(calls, ReviewCalls(comments, order), ReviewCalls(comments, more));
        order := order + more;
        files := files - {file};
        done := Locations(comments - files);
      }
      assert comments - files == comments;
    }

    /** The inner loop of updateReviewComments, over the lines of one file. */
    method UpdateFileComments(comments: Pending, file: InputFile) returns (ghost order: seq<(InputFile, int)>)
      requires file in comments && pullRequestFacade.HasFile(file.path)
      modifies pullRequestFacade, pullRequestFacade.Comments()
      ensures Enumerates(order, Row(file, comments[file].Keys))
      ensures pullRequestFacade.calls == old(pullRequestFacade.calls) + ReviewCalls(comments, order)
      ensures pullRequestFacade.reviewCommentsToBeDeleted ==
        old(pullRequestFacade.reviewCommentsToBeDeleted) - FoundIds(old(pullRequestFacade.existingReviewComments), Row(file, comments[file].Keys))
      ensures forall c | c in old(pullRequestFacade.Comments()) ::
        c.markup == MarkupAfter(old(pullRequestFacade.existingReviewComments), comments, order, c, old(c.markup))
      ensures pullRequestFacade.patchPositionMappingByFile == old(pullRequestFacade.patchPositionMappingByFile)
      ensures pullRequestFacade.existingReviewComments == old(pullRequestFacade.existingReviewComments)
    {
      ghost var byLocation := pullRequestFacade.existingReviewComments;
      ghost var toDelete := pullRequestFacade.reviewCommentsToBeDeleted;
      ghost var calls := pullRequestFacade.calls;
      order := [];
      var commentsByLine := comments[file];
      var lines := commentsByLine.Keys;
      ghost var done: set<(InputFile, int)> := {};
      while lines != {}
        invariant lines <= commentsByLine.Keys
        invariant done == Row(file, commentsByLine.Keys - lines)
        invariant Enumerates(order, done)
        invariant pullRequestFacade.calls == calls + ReviewCalls(comments, order)
        invariant pullRequestFacade.reviewCommentsToBeDeleted == toDelete - FoundIds(byLocation, done)
        invariant pullRequestFacade.patchPositionMappingByFile == old(pullRequestFacade.patchPositionMappingByFile)
        invariant pullRequestFacade.existingReviewComments == byLocation
        invariant forall c | c in old(pullRequestFacade.Comments()) ::
          c.markup == MarkupAfter(byLocation, comments, order, c, old(c.markup))
        decreases lines
      {
        if forall l: int :: l !in lines {
          assert false;
        }
        var line :| line in lines;
        LineStep(comments, file, commentsByLine.Keys, lines, line, order, byLocation, toDelete);
        ConcatAssoc(calls, ReviewCalls(comments, order), [ReviewComment(file.path, line, commentsByLine[line])]);
        UpdateLineComment(file, line, commentsByLine[line]);
        assert (order + [(file, line)])[..|order|] == order;
        order := order + [(file, line)];
        lines := lines - {line};
        done := Row(file, commentsByLine.Keys - lines);
      }
      assert commentsByLine.Keys - lines == commentsByLine.Keys;
    }

    /** One createOrUpdateReviewComment of the inner loop: the comment found
        at (file, line), if any, is no longer to be deleted. */
    method UpdateLineComment(file: InputFile, line: int, body: string)
      requires pullRequestFacade.HasFile(file.path)
      modifies pullRequestFacade, pullRequestFacade.Comments()
      ensures pullRequestFacade.calls == old(pullRequestFacade.calls) + [ReviewComment(file.path, line, body)]
      ensures pullRequestFacade.reviewCommentsToBeDeleted ==
        old(pullRequestFacade.reviewCommentsToBeDeleted) - IdAt(old(pullRequestFacade.existingReviewComments), (file, line))
      ensures forall c | c in old(pullRequestFacade.Comments()) ::
        c.markup == if FoundAt(old(pullRequestFacade.existingReviewComments), (file, line)) == Some(c)
                    then UpdatedMarkup(old(c.markup), body) else old(c.markup)
      ensures pullRequestFacade.patchPositionMappingByFile == old(pullRequestFacade.patchPositionMappingByFile)
      ensures pullRequestFacade.existingReviewComments == old(pullRequestFacade.existingReviewComments)
    {
      ghost var found := LookupByLine(pullRequestFacade.Existing(), file.path, line);
      assert found.Some? ==> found.value in pullRequestFacade.Comments();
      assert IdAt(pullRequestFacade.existingReviewComments, (file, line)) == if found.Some? then {found.value.id} else {};
      assert FoundAt(pullRequestFacade.existingReviewComments, (file, line)) == found;
      pullRequestFacade.CreateOrUpdateReviewComment(file.path, line, body);
    }

    /** executeOn: process the issues, update the review comments, delete the
        outdated ones, post the global comment, then approve or unapprove as
        report.isApproved(config.issueThreshold()) says. GlobalReport.java
        has no isApproved, so the decision is `isApproved`, a function
        of the final report's fields and the threshold setting. */
    method ExecuteOn(isApproved: (Tally, Option<string>) -> bool, threshold: Option<string>)
      returns (report: GlobalReport, ghost order: seq<(InputFile, int)>)
      requires inputFileCache.Valid()
      modifies pullRequestFacade, pullRequestFacade.Comments()
      ensures fresh(report) && report.Valid() && report.markDownUtils == markDownUtils
      ensures report.processed ==
        ReportedOf(old(pullRequestFacade.patchPositionMappingByFile), inputFileCache.puts, webUrl, issues)
      ensures var pending := PendingOf(old(pullRequestFacade.patchPositionMappingByFile), inputFileCache.puts, markDownUtils, issues);
        && Enumerates(order, Locations(pending))
        && pullRequestFacade.reviewCommentsToBeDeleted ==
           old(pullRequestFacade.reviewCommentsToBeDeleted) - FoundIds(old(pullRequestFacade.existingReviewComments), Locations(pending))
        && pullRequestFacade.calls == old(pullRequestFacade.calls) + ReviewCalls(pending, order)
           + [ DeleteOutdated(pullRequestFacade.reviewCommentsToBeDeleted.Keys),
               GlobalComment(GlobalText(report.markDownUtils, report.processed)),
               if isApproved(report.State(), threshold) then Approve else Unapprove ]
      ensures forall c | c in old(pullRequestFacade.Comments()) ::
        c.markup == MarkupAfter(old(pullRequestFacade.existingReviewComments),
                                PendingOf(old(pullRequestFacade.patchPositionMappingByFile), inputFileCache.puts, markDownUtils, issues),
                                order, c, old(c.markup))
      ensures pullRequestFacade.patchPositionMappingByFile == old(pullRequestFacade.patchPositionMappingByFile)
      ensures pullRequestFacade.existingReviewComments == old(pullRequestFacade.existingReviewComments)
    {
      ghost var index := pullRequestFacade.patchPositionMappingByFile;
      ghost var puts := inputFileCache.puts;
      report := new GlobalReport(markDownUtils);
      var commentsToBeAddedByLine := ProcessIssues(report);
      PendingInPullRequest(index, puts, markDownUtils, issues);
      order := UpdateReviewComments(commentsToBeAddedByLine);
      PostSummary(report, isApproved, threshold);
    }

    /** The global comment executeOn posts: the report's markdown when it has
        a new issue, else the fixed no-issues text. */
    method SummaryText(report: GlobalReport) returns (text: string)
      requires report.Valid()
      ensures |report.processed| > 0 ==> text == Formatted(report.markDownUtils, Run(report.markDownUtils, report.processed))
      ensures |report.processed| == 0 ==> text == NO_ISSUES
    {
      text := NO_ISSUES;
      if report.HasNewIssue() {
        text := report.FormatForMarkdown();
        MarkdownOfRun(report.markDownUtils, report.processed);
      }
    }

    /** The end of executeOn: delete the outdated comments, post the report's
        markdown (or the no-issues text when nothing was processed), then
        approve or unapprove as `isApproved` says of the final report. */
    method PostSummary(report: GlobalReport, isApproved: (Tally, Option<string>) -> bool, threshold: Option<string>)
      requires report.Valid()
      modifies pullRequestFacade
      ensures pullRequestFacade.calls == old(pullRequestFacade.calls)
        + [ DeleteOutdated(pullRequestFacade.reviewCommentsToBeDeleted.Keys),
            GlobalComment(GlobalText(report.markDownUtils, report.processed)),
            if isApproved(report.State(), threshold) then Approve else Unapprove ]
      ensures pullRequestFacade.patchPositionMappingByFile == old(pullRequestFacade.patchPositionMappingByFile)
      ensures pullRequestFacade.Existing() == old(pullRequestFacade.Existing())
    {
      // the report is not touched by the facade calls, so the comment text
      // and the decision can be computed before them
      var globalComment := SummaryText(report);
      var approved := isApproved(report.State(), threshold);
      ghost var approval := if approved then Approve else Unapprove;
      ghost var calls := pullRequestFacade.calls;
      pullRequestFacade.DeleteOutdatedComments();
      ghost var deletion := DeleteOutdated(pullRequestFacade.reviewCommentsToBeDeleted.Keys);
      pullRequestFacade.AddGlobalComment(globalComment);
      if approved {
        pullRequestFacade.ApprovePullRequest();
      } else {
        pullRequestFacade.UnapprovePullRequest();
      }
      SnocThree(calls, deletion, GlobalComment(globalComment), approval);
    }
  }
}
