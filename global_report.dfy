/** GlobalReport: the summary of an analysis that the job posts as one global
    comment on the pull request. It counts the new issues per severity and
    lists, up to MAX_GLOBAL_ISSUES of them, the issues that could not be
    placed on a line of the diff. */
module Report {
  import opened Wrappers
  import opened Text
  import opened Sonar
  import opened Markdown
  import opened Configuration

  // ---------------------------------------------------------------------------
  // The report's fields as values, and process
  // ---------------------------------------------------------------------------

  /** One call of process: the issue, the link passed for it and whether it
      was placed inline. */
  datatype Processed = Processed(issue: Issue, url: Option<string>, reportedOnDiff: bool)

  /** The fields of GlobalReport: counts[IndexOf(s)] is newIssuesBySeverity's
      slot for s. */
  datatype Tally = Tally(
    counts: seq<nat>,
    notReportedOnDiff: string,
    notReportedIssueCount: nat,
    notReportedDisplayedIssueCount: nat)

  /** A new report: `new int[Severity.ALL.size()]`, an empty builder, zero counts. */
  const INITIAL: Tally := Tally([0, 0, 0, 0, 0], "", 0, 0)

  /** The counters after increment(severity): that slot goes up by one and
      every other slot keeps its value. */
  function Incremented(counts: seq<nat>, severity: Severity): (r: seq<nat>)
    requires |counts| == |ALL|
    ensures |r| == |ALL|
    ensures r[IndexOf(severity)] == counts[IndexOf(severity)] + 1
    ensures forall s | s != severity :: r[IndexOf(s)] == counts[IndexOf(s)]
  {
    counts[IndexOf(severity) := counts[IndexOf(severity)] + 1]
  }

  /** The line process appends for an issue it could not place inline. */
  function NotReportedEntry(md: MarkDown, e: Processed): string {
    "* " + md.globalIssue(e.issue.severity, e.issue.message, e.issue.ruleKey, e.url, e.issue.componentKey) + "\n"
  }

  /** The bounds process keeps: at most MAX_GLOBAL_ISSUES issues listed, and
      no more listed than counted. */
  predicate Sane(t: Tally) {
    && |t.counts| == |ALL|
    && t.notReportedDisplayedIssueCount <= MAX_GLOBAL_ISSUES
    && t.notReportedDisplayedIssueCount <= t.notReportedIssueCount
  }

  /** process(issue, url, reportedOnDiff) on the fields. */
  function Step(md: MarkDown, t: Tally, e: Processed): (r: Tally)
    requires |t.counts| == |ALL|
    ensures |r.counts| == |ALL|
    ensures forall i | 0 <= i < |ALL| :: r.counts[i] >= t.counts[i]
    ensures r.notReportedIssueCount == t.notReportedIssueCount + (if e.reportedOnDiff then 0 else 1)
    ensures r.notReportedDisplayedIssueCount >= t.notReportedDisplayedIssueCount
    ensures |r.notReportedOnDiff| >= |t.notReportedOnDiff| && r.notReportedOnDiff[..|t.notReportedOnDiff|] == t.notReportedOnDiff
    ensures Sane(t) ==> Sane(r)
  {
    var counts := Incremented(t.counts, e.issue.severity);
    if e.reportedOnDiff then t.(counts := counts)
    else if t.notReportedDisplayedIssueCount < MAX_GLOBAL_ISSUES then
      Tally(counts, t.notReportedOnDiff + NotReportedEntry(md, e),
            t.notReportedIssueCount + 1, t.notReportedDisplayedIssueCount + 1)
    else
      Tally(counts, t.notReportedOnDiff, t.notReportedIssueCount + 1, t.notReportedDisplayedIssueCount)
  }

  /** The report after the calls of h, in order. */
  function Run(md: MarkDown, h: seq<Processed>): (t: Tally)
    ensures Sane(t)
    decreases |h|
  {
    if |h| == 0 then INITIAL else Step(md, Run(md, h[..|h| - 1]), h[|h| - 1])
  }

  /** One more call of process is one more step. */
  lemma RunSnoc(md: MarkDown, h: seq<Processed>, e: Processed)
    ensures Run(md, h + [e]) == Step(md, Run(md, h), e)
  {
    assert (h + [e])[..|h|] == h;
  }

  // ---------------------------------------------------------------------------
  // What the fields hold after a run of calls
  // ---------------------------------------------------------------------------

  /** The severities of the processed issues, in call order. */
  function SeveritiesOf(h: seq<Processed>): (r: seq<Severity>)
    ensures |r| == |h| && forall i | 0 <= i < |h| :: r[i] == h[i].issue.severity
  {
    seq(|h|, i requires 0 <= i < |h| => h[i].issue.severity)
  }

  /** The calls for issues that were not placed inline, in call order. */
  function NotReported(h: seq<Processed>): (r: seq<Processed>)
    ensures |r| <= |h|
    decreases |h|
  {
    if |h| == 0 then []
    else if h[|h| - 1].reportedOnDiff then NotReported(h[..|h| - 1])
    else NotReported(h[..|h| - 1]) + [h[|h| - 1]]
  }

  /** The listing lines of es, one after the other. */
  function Entries(md: MarkDown, es: seq<Processed>): string
    decreases |es|
  {
    if |es| == 0 then "" else Entries(md, es[..|es| - 1]) + NotReportedEntry(md, es[|es| - 1])
  }

  function Min(a: nat, b: nat): nat { if a <= b then a else b }

  /** Each counter holds the number of processed issues of its severity. */
  lemma {:induction false} RunCounts(md: MarkDown, h: seq<Processed>)
    ensures forall s :: Run(md, h).counts[IndexOf(s)] == multiset(SeveritiesOf(h))[s]
    decreases |h|
  {
    if |h| > 0 {
      var n := |h| - 1;
      var t := Run(md, h[..n]);
      var before := SeveritiesOf(h[..n]);
      RunCounts(md, h[..n]);
      assert SeveritiesOf(h) == before + [h[n].issue.severity];
      forall s ensures Run(md, h).counts[IndexOf(s)] == multiset(SeveritiesOf(h))[s] {
        CountStep(md, t, h[n], s);
        MultisetSnoc(before, h[n].issue.severity, s);
      }
    }
  }

  /** The not-reported count is the number of issues not placed inline, and
      the displayed count is that number capped at MAX_GLOBAL_ISSUES. */
  lemma {:induction false} RunNotReportedCount(md: MarkDown, h: seq<Processed>)
    ensures Run(md, h).notReportedIssueCount == |NotReported(h)|
    ensures Run(md, h).notReportedDisplayedIssueCount == Min(MAX_GLOBAL_ISSUES, |NotReported(h)|)
    decreases |h|
  {
    if |h| > 0 {
      RunNotReportedCount(md, h[..|h| - 1]);
    }
  }

  /** The listing holds the first MAX_GLOBAL_ISSUES issues not placed
      inline, in call order. */
  lemma {:induction false} RunListing(md: MarkDown, h: seq<Processed>)
    ensures Run(md, h).notReportedOnDiff == Entries(md, NotReported(h)[..Min(MAX_GLOBAL_ISSUES, |NotReported(h)|)])
    decreases |h|
  {
    if |h| == 0 {
      assert NotReported(h)[..0] == [];
    } else {
      RunListing(md, h[..|h| - 1]);
      RunNotReportedCount(md, h[..|h| - 1]);
      ListingStep(md, h, NotReported(h[..|h| - 1]), Run(md, h[..|h| - 1]));
    }
  }

  /** RunListing's step: one more call extends the listing when it is not
      inline and fewer than MAX_GLOBAL_ISSUES are listed. */
  lemma ListingStep(md: MarkDown, h: seq<Processed>, before: seq<Processed>, t: Tally)
    requires |h| > 0 && before == NotReported(h[..|h| - 1]) && t == Run(md, h[..|h| - 1])
    requires t.notReportedOnDiff == Entries(md, before[..Min(MAX_GLOBAL_ISSUES, |before|)])
    requires t.notReportedDisplayedIssueCount == Min(MAX_GLOBAL_ISSUES, |before|)
    ensures Run(md, h).notReportedOnDiff == Entries(md, NotReported(h)[..Min(MAX_GLOBAL_ISSUES, |NotReported(h)|)])
  {
    var e := h[|h| - 1];
    assert Run(md, h) == Step(md, t, e);
    if e.reportedOnDiff {
      assert NotReported(h) == before;
    } else if |before| < MAX_GLOBAL_ISSUES {
      assert NotReported(h) == before + [e];
      ListingAppend(md, t, before, e);
    } else {
      assert NotReported(h) == before + [e];
      ListingFull(md, t, before, e);
    }
  }

  /** Below the cap, an issue not placed inline is listed after the others. */
  lemma ListingAppend(md: MarkDown, t: Tally, before: seq<Processed>, e: Processed)
    requires Sane(t) && !e.reportedOnDiff && |before| < MAX_GLOBAL_ISSUES
    requires t.notReportedOnDiff == Entries(md, before[..Min(MAX_GLOBAL_ISSUES, |before|)])
    requires t.notReportedDisplayedIssueCount == Min(MAX_GLOBAL_ISSUES, |before|)
    ensures Step(md, t, e).notReportedOnDiff ==
      Entries(md, (before + [e])[..Min(MAX_GLOBAL_ISSUES, |before + [e]|)])
  {
    var after := before + [e];
    assert before[..|before|] == before;
    assert after[..|after|] == after;
    assert after[..|after| - 1] == before;
    assert Entries(md, after) == Entries(md, before) + NotReportedEntry(md, e);
  }

  /** At the cap, the listing does not change. */
  lemma ListingFull(md: MarkDown, t: Tally, before: seq<Processed>, e: Processed)
    requires Sane(t) && !e.reportedOnDiff && |before| >= MAX_GLOBAL_ISSUES
    requires t.notReportedOnDiff == Entries(md, before[..Min(MAX_GLOBAL_ISSUES, |before|)])
    requires t.notReportedDisplayedIssueCount == Min(MAX_GLOBAL_ISSUES, |before|)
    ensures Step(md, t, e).notReportedOnDiff ==
      Entries(md, (before + [e])[..Min(MAX_GLOBAL_ISSUES, |before + [e]|)])
  {
    assert (before + [e])[..MAX_GLOBAL_ISSUES] == before[..MAX_GLOBAL_ISSUES];
  }

  lemma RunNotReported(md: MarkDown, h: seq<Processed>)
    ensures Run(md, h).notReportedIssueCount == |NotReported(h)|
    ensures Run(md, h).notReportedDisplayedIssueCount == Min(MAX_GLOBAL_ISSUES, |NotReported(h)|)
    ensures Run(md, h).notReportedOnDiff == Entries(md, NotReported(h)[..Min(MAX_GLOBAL_ISSUES, |NotReported(h)|)])
  {
    RunNotReportedCount(md, h);
    RunListing(md, h);
  }

  // ---------------------------------------------------------------------------
  // newIssues, hasNewIssue and getStatus
  // ---------------------------------------------------------------------------

  /** newIssues(s) on the fields. */
  function CountOf(t: Tally, s: Severity): nat
    requires |t.counts| == |ALL|
  {
    t.counts[IndexOf(s)]
  }

  /** The sum of the five counters, as the report adds them. */
  function Total(t: Tally): nat
    requires |t.counts| == |ALL|
  {
    CountOf(t, BLOCKER) + CountOf(t, CRITICAL) + CountOf(t, MAJOR) + CountOf(t, MINOR) + CountOf(t, INFO)
  }

  predicate AnyNewIssue(t: Tally)
    requires |t.counts| == |ALL|
  {
    Total(t) > 0
  }

  /** The commit states getStatus chooses between. */
  datatype CommitState = ERROR | SUCCESS

  function StatusOf(t: Tally): CommitState
    requires |t.counts| == |ALL|
  {
    if CountOf(t, BLOCKER) > 0 || CountOf(t, CRITICAL) > 0 then ERROR else SUCCESS
  }

  lemma TotalIncrement(t: Tally, u: Tally, s: Severity)
    requires |t.counts| == |ALL| && u.counts == Incremented(t.counts, s)
    ensures Total(u) == Total(t) + 1
  {
  }

  /** process changes the counters by increment(issue.severity) alone. */
  lemma StepCounts(md: MarkDown, t: Tally, e: Processed)
    requires |t.counts| == |ALL|
    ensures Step(md, t, e).counts == Incremented(t.counts, e.issue.severity)
  {
  }

  lemma MultisetSnoc(a: seq<Severity>, x: Severity, s: Severity)
    ensures multiset(a + [x])[s] == multiset(a)[s] + (if x == s then 1 else 0)
  {
    assert multiset(a + [x]) == multiset(a) + multiset{x};
  }

  /** process adds one to the counter of the issue's severity alone. */
  lemma CountStep(md: MarkDown, t: Tally, e: Processed, s: Severity)
    requires |t.counts| == |ALL|
    ensures CountOf(Step(md, t, e), s) == CountOf(t, s) + (if e.issue.severity == s then 1 else 0)
  {
    StepCounts(md, t, e);
  }

  /** The counters add up to the number of processed issues. */
  lemma {:induction false} RunTotal(md: MarkDown, h: seq<Processed>)
    ensures Total(Run(md, h)) == |h|
    decreases |h|
  {
    if |h| > 0 {
      var n := |h| - 1;
      var t := Run(md, h[..n]);
      RunTotal(md, h[..n]);
      StepCounts(md, t, h[n]);
      TotalIncrement(t, Run(md, h), h[n].issue.severity);
    }
  }

  /** The report has a new issue exactly when process was called at all. */
  lemma RunHasNewIssue(md: MarkDown, h: seq<Processed>)
    ensures AnyNewIssue(Run(md, h)) <==> |h| > 0
  {
    RunTotal(md, h);
  }

  /** The status is ERROR exactly when a blocker or critical issue was processed. */
  lemma RunStatus(md: MarkDown, h: seq<Processed>)
    ensures StatusOf(Run(md, h)) == ERROR <==>
      exists i | 0 <= i < |h| :: h[i].issue.severity == BLOCKER || h[i].issue.severity == CRITICAL
  {
    RunCounts(md, h);
    var sev := SeveritiesOf(h);
    if StatusOf(Run(md, h)) == ERROR {
      var s := if multiset(sev)[BLOCKER] > 0 then BLOCKER else CRITICAL;
      assert s in sev;
      var i :| 0 <= i < |sev| && sev[i] == s;
      assert h[i].issue.severity == s;
    } else {
      forall i | 0 <= i < |h| ensures h[i].issue.severity != BLOCKER && h[i].issue.severity != CRITICAL {
        assert sev[i] in multiset(sev);
      }
    }
  }

  // ---------------------------------------------------------------------------
  // formatForMarkdown
  // ---------------------------------------------------------------------------

  /** "N issue" or "N issues". */
  function IssuesText(n: nat): string {
    NatToString(n) + " issue" + (if n > 1 then "s" else "")
  }

  /** A bullet of the summary: the severity's image, its count and its name. */
  function Bullet(md: MarkDown, s: Severity, n: nat): string {
    "* " + md.imageForSeverity(s) + " " + NatToString(n) + " " + LowerName(s) + "\n"
  }

  /** printNewIssuesForMarkdown(sb, s): a bullet only for a non-zero count. */
  function MarkdownBullet(md: MarkDown, t: Tally, s: Severity): string
    requires |t.counts| == |ALL|
  {
    if CountOf(t, s) > 0 then Bullet(md, s, CountOf(t, s)) else ""
  }

  /** printNewIssuesMarkdown */
  function NewIssuesMarkdown(md: MarkDown, t: Tally): string
    requires |t.counts| == |ALL|
  {
    "SonarQube analysis reported " +
    if Total(t) > 0 then
      IssuesText(Total(t)) + ":\n"
      + (MarkdownBullet(md, t, BLOCKER) + MarkdownBullet(md, t, CRITICAL) + MarkdownBullet(md, t, MAJOR)
         + MarkdownBullet(md, t, MINOR) + MarkdownBullet(md, t, INFO))
    else "no issues."
  }

  const WATCH: string := "\nWatch the comments in this conversation to review them."

  const NOTE: string := "\nNote: the following issues could not be reported as comments because they are located on lines that are not displayed in this pull request:\n"

  function MoreLine(n: nat): string {
    "* ... " + NatToString(n) + " more\n"
  }

  /** formatForMarkdown as written: the "more" line follows the listing as
      soon as MAX_GLOBAL_ISSUES issues were not reported. */
  function FormattedAsWritten(md: MarkDown, t: Tally): string
    requires |t.counts| == |ALL|
  {
    NewIssuesMarkdown(md, t)
    + (if AnyNewIssue(t) then WATCH else "")
    + if |t.notReportedOnDiff| > 0 then
        NOTE + t.notReportedOnDiff
        + if t.notReportedIssueCount >= MAX_GLOBAL_ISSUES then MoreLine(t.notReportedIssueCount - MAX_GLOBAL_ISSUES) else ""
      else ""
  }

  /** formatForMarkdown with the "more" line only when some issue was left
      out of the listing. */
  function Formatted(md: MarkDown, t: Tally): string
    requires |t.counts| == |ALL|
  {
    NewIssuesMarkdown(md, t)
    + (if AnyNewIssue(t) then WATCH else "")
    + if |t.notReportedOnDiff| > 0 then
        NOTE + t.notReportedOnDiff
        + if t.notReportedIssueCount > MAX_GLOBAL_ISSUES then MoreLine(t.notReportedIssueCount - MAX_GLOBAL_ISSUES) else ""
      else ""
  }

  /** The severities in the order of the summary: most severe first, the
      reverse of Severity.ALL. */
  const DISPLAY_ORDER: seq<Severity> := [BLOCKER, CRITICAL, MAJOR, MINOR, INFO]

  lemma DisplayOrderReversesAll()
    ensures |DISPLAY_ORDER| == |ALL|
    ensures forall i | 0 <= i < |ALL| :: DISPLAY_ORDER[i] == ALL[|ALL| - 1 - i]
  {
  }

  /** The severities of order with a non-zero count, in that order. */
  function NonZero(t: Tally, order: seq<Severity>): (r: seq<Severity>)
    requires |t.counts| == |ALL|
    ensures forall i | 0 <= i < |r| :: CountOf(t, r[i]) > 0
    decreases |order|
  {
    if |order| == 0 then []
    else if CountOf(t, order[|order| - 1]) > 0 then NonZero(t, order[..|order| - 1]) + [order[|order| - 1]]
    else NonZero(t, order[..|order| - 1])
  }

  /** One bullet per severity of sevs, in order. */
  function Bullets(md: MarkDown, t: Tally, sevs: seq<Severity>): string
    requires |t.counts| == |ALL|
    decreases |sevs|
  {
    if |sevs| == 0 then ""
    else Bullets(md, t, sevs[..|sevs| - 1]) + Bullet(md, sevs[|sevs| - 1], CountOf(t, sevs[|sevs| - 1]))
  }

  /** The bullets of order's severities with a non-zero count. */
  function MarkdownBullets(md: MarkDown, t: Tally, order: seq<Severity>): string
    requires |t.counts| == |ALL|
    decreases |order|
  {
    if |order| == 0 then ""
    else MarkdownBullets(md, t, order[..|order| - 1]) + MarkdownBullet(md, t, order[|order| - 1])
  }

  lemma {:induction false} MarkdownBulletsNonZero(md: MarkDown, t: Tally, order: seq<Severity>)
    requires |t.counts| == |ALL|
    ensures MarkdownBullets(md, t, order) == Bullets(md, t, NonZero(t, order))
    decreases |order|
  {
    if |order| > 0 {
      var n := |order| - 1;
      MarkdownBulletsNonZero(md, t, order[..n]);
      if CountOf(t, order[n]) > 0 {
        var r := NonZero(t, order);
        assert r[..|r| - 1] == NonZero(t, order[..n]);
      }
    }
  }

  /** The five bullets of printNewIssuesMarkdown are one bullet per severity
      with a non-zero count, most severe first. */
  lemma FiveBullets(md: MarkDown, t: Tally)
    requires |t.counts| == |ALL|
    ensures MarkdownBullet(md, t, BLOCKER) + MarkdownBullet(md, t, CRITICAL) + MarkdownBullet(md, t, MAJOR)
      + MarkdownBullet(md, t, MINOR) + MarkdownBullet(md, t, INFO) == Bullets(md, t, NonZero(t, DISPLAY_ORDER))
  {
    var o1: seq<Severity> := [BLOCKER];
    var o2 := o1 + [CRITICAL];
    var o3 := o2 + [MAJOR];
    var o4 := o3 + [MINOR];
    assert o4 + [INFO] == DISPLAY_ORDER;
    assert o1[..0] == [];
    assert MarkdownBullets(md, t, o1) == "" + MarkdownBullet(md, t, BLOCKER) == MarkdownBullet(md, t, BLOCKER);
    MarkdownBulletsSnoc(md, t, o1, CRITICAL);
    MarkdownBulletsSnoc(md, t, o2, MAJOR);
    MarkdownBulletsSnoc(md, t, o3, MINOR);
    MarkdownBulletsSnoc(md, t, o4, INFO);
    MarkdownBulletsNonZero(md, t, DISPLAY_ORDER);
  }

  lemma MarkdownBulletsSnoc(md: MarkDown, t: Tally, order: seq<Severity>, s: Severity)
    requires |t.counts| == |ALL|
    ensures MarkdownBullets(md, t, order + [s]) == MarkdownBullets(md, t, order) + MarkdownBullet(md, t, s)
  {
    assert (order + [s])[..|order|] == order;
  }

  lemma {:induction false} NonZeroHas(t: Tally, order: seq<Severity>, i: nat)
    requires |t.counts| == |ALL| && i < |order| && CountOf(t, order[i]) > 0
    ensures order[i] in NonZero(t, order)
    decreases |order|
  {
    var n := |order| - 1;
    if i < n {
      NonZeroHas(t, order[..n], i);
    }
  }

  /** The summary: "no issues." without issues; otherwise the total, "issue"
      or, for more than one, "issues", and a bullet for each severity with a
      non-zero count, most severe first, with at least one bullet. */
  lemma MarkdownHeader(md: MarkDown, t: Tally)
    requires |t.counts| == |ALL|
    ensures Total(t) == 0 ==> NewIssuesMarkdown(md, t) == "SonarQube analysis reported " + "no issues."
    ensures Total(t) > 0 ==>
      NewIssuesMarkdown(md, t) ==
        "SonarQube analysis reported " + (IssuesText(Total(t)) + ":\n" + Bullets(md, t, NonZero(t, DISPLAY_ORDER)))
    ensures Total(t) > 0 ==> |NonZero(t, DISPLAY_ORDER)| > 0
  {
    FiveBullets(md, t);
    if Total(t) > 0 {
      var i := if CountOf(t, BLOCKER) > 0 then 0 else if CountOf(t, CRITICAL) > 0 then 1
        else if CountOf(t, MAJOR) > 0 then 2 else if CountOf(t, MINOR) > 0 then 3 else 4;
      NonZeroHas(t, DISPLAY_ORDER, i);
    }
  }

  /** The listing part of the markdown after the calls h: nothing when every
      issue was placed inline; otherwise the note, the first
      MAX_GLOBAL_ISSUES issues not placed inline, and how many more there
      were, when there were more. */
  function NoteFor(md: MarkDown, h: seq<Processed>): string {
    var missed := NotReported(h);
    if |missed| == 0 then ""
    else
      NOTE + Entries(md, missed[..Min(MAX_GLOBAL_ISSUES, |missed|)])
      + if |missed| > MAX_GLOBAL_ISSUES then MoreLine(|missed| - MAX_GLOBAL_ISSUES) else ""
  }

  lemma EntriesNonEmpty(md: MarkDown, es: seq<Processed>)
    ensures |Entries(md, es)| > 0 <==> |es| > 0
  {
  }

  /** The markdown after the calls h: the summary, the invitation to watch the
      comments when any issue was processed, and the listing. */
  lemma MarkdownOfRun(md: MarkDown, h: seq<Processed>)
    ensures Formatted(md, Run(md, h)) ==
      NewIssuesMarkdown(md, Run(md, h)) + (if |h| > 0 then WATCH else "") + NoteFor(md, h)
  {
    RunHasNewIssue(md, h);
    RunNotReported(md, h);
    EntriesNonEmpty(md, NotReported(h)[..Min(MAX_GLOBAL_ISSUES, |NotReported(h)|)]);
  }

  /** As written, exactly MAX_GLOBAL_ISSUES issues outside the diff end the
      markdown with a "* ... 0 more" line although nothing was left out of
      the listing. */
  lemma AsWrittenReportsZeroMore(md: MarkDown, h: seq<Processed>)
    requires |NotReported(h)| == MAX_GLOBAL_ISSUES
    ensures FormattedAsWritten(md, Run(md, h)) == Formatted(md, Run(md, h)) + MoreLine(0)
  {
    var t := Run(md, h);
    assert |t.notReportedOnDiff| > 0 by {
      RunNotReported(md, h);
      assert NotReported(h)[..MAX_GLOBAL_ISSUES] == NotReported(h);
      EntriesNonEmpty(md, NotReported(h));
    }
    assert t.notReportedIssueCount == MAX_GLOBAL_ISSUES by {
      RunNotReported(md, h);
    }
    var head := NewIssuesMarkdown(md, t) + (if AnyNewIssue(t) then WATCH else "");
    var listing := NOTE + t.notReportedOnDiff;
    assert FormattedAsWritten(md, t) == head + (listing + MoreLine(0));
    assert Formatted(md, t) == head + (listing + "");
    AppendParts(head, listing, MoreLine(0));
  }

  /** With the guard corrected, the same markdown ends with the listing. */
  lemma FullListingEndsMarkdown(md: MarkDown, h: seq<Processed>)
    requires |NotReported(h)| == MAX_GLOBAL_ISSUES
    ensures Formatted(md, Run(md, h)) ==
      NewIssuesMarkdown(md, Run(md, h)) + WATCH + (NOTE + Entries(md, NotReported(h)) + "")
  {
    MarkdownOfRun(md, h);
    assert NotReported(h)[..MAX_GLOBAL_ISSUES] == NotReported(h);
  }

  lemma AppendParts(a: string, b: string, c: string)
    ensures a + (b + c) == (a + (b + "")) + c
  {
    assert b + "" == b;
  }

  lemma MoreLineZero()
    ensures MoreLine(0) == "* ... 0 more\n"
  {
    assert NatToString(0) == "0";
  }

  // ---------------------------------------------------------------------------
  // Two runs worked out
  // ---------------------------------------------------------------------------

  /** Issues of one severity only: that counter holds them all, the others
      stay zero. */
  lemma {:induction false} UniformCounts(md: MarkDown, h: seq<Processed>, s: Severity)
    requires forall i | 0 <= i < |h| :: h[i].issue.severity == s
    ensures CountOf(Run(md, h), s) == |h|
    ensures forall o | o != s :: CountOf(Run(md, h), o) == 0
    decreases |h|
  {
    if |h| > 0 {
      var n := |h| - 1;
      var t := Run(md, h[..n]);
      assert forall i | 0 <= i < n :: h[..n][i] == h[i];
      UniformCounts(md, h[..n], s);
      forall o ensures CountOf(Run(md, h), o) == CountOf(t, o) + (if o == s then 1 else 0) {
        CountStep(md, t, h[n], o);
      }
    }
  }

  /** When no issue was placed inline, every call is listed as not reported. */
  lemma {:induction false} NoneInline(h: seq<Processed>)
    requires forall i | 0 <= i < |h| :: !h[i].reportedOnDiff
    ensures NotReported(h) == h
    decreases |h|
  {
    if |h| > 0 {
      var n := |h| - 1;
      NoneInline(h[..n]);
      assert h[..n] + [h[n]] == h;
    }
  }

  /** When every issue was placed inline, nothing is listed. */
  lemma {:induction false} AllInline(h: seq<Processed>)
    requires forall i | 0 <= i < |h| :: h[i].reportedOnDiff
    ensures NotReported(h) == []
    decreases |h|
  {
    if |h| > 0 {
      AllInline(h[..|h| - 1]);
    }
  }

  lemma NatToStringSmall()
    ensures NatToString(1) == "1" && NatToString(5) == "5" && NatToString(7) == "7" && NatToString(17) == "17"
  {
  }

  lemma IssuesTextSmall()
    ensures IssuesText(5) == "5 issues" && IssuesText(17) == "17 issues"
  {
    NatToStringSmall();
  }

  /** Only the major counter is non-zero: the summary has the major bullet alone. */
  lemma OnlyMajor(t: Tally)
    requires |t.counts| == |ALL| && CountOf(t, MAJOR) > 0
    requires CountOf(t, BLOCKER) == 0 && CountOf(t, CRITICAL) == 0 && CountOf(t, MINOR) == 0 && CountOf(t, INFO) == 0
    ensures NonZero(t, DISPLAY_ORDER) == [MAJOR]
  {
    var o := DISPLAY_ORDER;
    assert o[..1][..0] == [] && o[..2][..1] == o[..1] && o[..3][..2] == o[..2] && o[..4][..3] == o[..3];
    assert o[..5][..4] == o[..4] && o[..5] == o;
    assert o[..1] == [BLOCKER] && o[..2] == [BLOCKER, CRITICAL] && o[..3] == [BLOCKER, CRITICAL, MAJOR];
    assert NonZero(t, o[..1]) == [];
    assert NonZero(t, o[..2]) == [];
    assert NonZero(t, o[..3]) == [MAJOR];
    assert NonZero(t, o[..4]) == [MAJOR];
  }

  lemma SingleBullet(md: MarkDown, t: Tally, s: Severity)
    requires |t.counts| == |ALL|
    ensures Bullets(md, t, [s]) == Bullet(md, s, CountOf(t, s))
  {
    assert [s][..0] == [];
  }

  /** The summary of seventeen major issues. */
  lemma SeventeenMajorHeader(md: MarkDown, h: seq<Processed>)
    requires |h| == 17
    requires forall i | 0 <= i < |h| :: h[i].issue.severity == MAJOR
    ensures NewIssuesMarkdown(md, Run(md, h)) ==
      "SonarQube analysis reported " + (IssuesText(17) + ":\n" + Bullet(md, MAJOR, 17))
    ensures IssuesText(17) == "17 issues"
  {
    var t := Run(md, h);
    UniformCounts(md, h, MAJOR);
    RunTotal(md, h);
    OnlyMajor(t);
    SingleBullet(md, t, MAJOR);
    MarkdownHeader(md, t);
    IssuesTextSmall();
  }

  /** The listing of seventeen issues none of which is on the diff. */
  lemma SeventeenOffDiffNote(md: MarkDown, h: seq<Processed>)
    requires |h| == 17
    requires forall i | 0 <= i < |h| :: !h[i].reportedOnDiff
    ensures NoteFor(md, h) == NOTE + Entries(md, h[..10]) + "* ... 7 more\n"
  {
    NoneInline(h);
    NatToStringSmall();
  }

  /** Seventeen major issues, none of them on the diff: the summary has the
      total and a single major bullet, and the listing shows the first ten
      issues in call order and then the seven left out. */
  lemma ExampleSeventeenMajor(md: MarkDown, h: seq<Processed>)
    requires |h| == 17
    requires forall i | 0 <= i < |h| :: h[i].issue.severity == MAJOR && !h[i].reportedOnDiff
    ensures Formatted(md, Run(md, h)) ==
      "SonarQube analysis reported " + (IssuesText(17) + ":\n" + Bullet(md, MAJOR, 17))
      + WATCH + (NOTE + Entries(md, h[..10]) + "* ... 7 more\n")
    ensures IssuesText(17) == "17 issues"
  {
    MarkdownOfRun(md, h);
    SeventeenMajorHeader(md, h);
    SeventeenOffDiffNote(md, h);
  }

  /** One issue of each severity: every counter holds one. */
  lemma OneOfEachCounts(md: MarkDown, h: seq<Processed>)
    requires |h| == 5
    requires h[0].issue.severity == INFO && h[1].issue.severity == MINOR && h[2].issue.severity == MAJOR
    requires h[3].issue.severity == CRITICAL && h[4].issue.severity == BLOCKER
    ensures forall s :: CountOf(Run(md, h), s) == 1
  {
    RunCounts(md, h);
    assert SeveritiesOf(h) == ALL;
    EachOnceInAll();
  }

  /** Every severity occurs once in ALL. */
  lemma EachOnceInAll()
    ensures forall s :: multiset(ALL)[s] == 1
  {
    assert multiset(ALL) == multiset{INFO} + multiset{MINOR} + multiset{MAJOR} + multiset{CRITICAL} + multiset{BLOCKER} by {
      assert ALL == [INFO] + [MINOR] + [MAJOR] + [CRITICAL] + [BLOCKER];
    }
    forall s ensures multiset(ALL)[s] == 1 {
      match s
      case INFO =>
      case MINOR =>
      case MAJOR =>
      case CRITICAL =>
      case BLOCKER =>
    }
  }

  /** All five counters at one: five bullets, most severe first. */
  lemma AllOnes(md: MarkDown, t: Tally)
    requires |t.counts| == |ALL| && forall s :: CountOf(t, s) == 1
    ensures NewIssuesMarkdown(md, t) ==
      "SonarQube analysis reported " + (IssuesText(5) + ":\n"
        + (Bullet(md, BLOCKER, 1) + Bullet(md, CRITICAL, 1) + Bullet(md, MAJOR, 1)
           + Bullet(md, MINOR, 1) + Bullet(md, INFO, 1)))
  {
    assert Total(t) == 5;
    assert MarkdownBullet(md, t, BLOCKER) == Bullet(md, BLOCKER, 1);
    assert MarkdownBullet(md, t, CRITICAL) == Bullet(md, CRITICAL, 1);
    assert MarkdownBullet(md, t, MAJOR) == Bullet(md, MAJOR, 1);
    assert MarkdownBullet(md, t, MINOR) == Bullet(md, MINOR, 1);
    assert MarkdownBullet(md, t, INFO) == Bullet(md, INFO, 1);
  }

  /** One issue of each severity, all on the diff: the total, one bullet per
      severity from blocker down to info, the invitation to watch the
      comments and no listing. */
  lemma ExampleOneOfEach(md: MarkDown, h: seq<Processed>)
    requires |h| == 5
    requires h[0].issue.severity == INFO && h[1].issue.severity == MINOR && h[2].issue.severity == MAJOR
    requires h[3].issue.severity == CRITICAL && h[4].issue.severity == BLOCKER
    requires forall i | 0 <= i < |h| :: h[i].reportedOnDiff
    ensures IssuesText(5) == "5 issues"
    ensures Formatted(md, Run(md, h)) ==
      "SonarQube analysis reported " + (IssuesText(5) + ":\n"
        + (Bullet(md, BLOCKER, 1) + Bullet(md, CRITICAL, 1) + Bullet(md, MAJOR, 1)
           + Bullet(md, MINOR, 1) + Bullet(md, INFO, 1)))
      + WATCH + ""
  {
    AllInline(h);
    MarkdownOfRun(md, h);
    OneOfEachCounts(md, h);
    AllOnes(md, Run(md, h));
    IssuesTextSmall();
  }

  // ---------------------------------------------------------------------------
  // getStatusDescription
  // ---------------------------------------------------------------------------

  /** printNewIssuesInline(sb, s): for a non-zero count, " with " right after
      the comma that ends the total and " and " after an earlier severity,
      then the count and the severity's name. */
  function InlineFor(sb: string, t: Tally, s: Severity): string
    requires |t.counts| == |ALL| && |sb| > 0
  {
    if CountOf(t, s) > 0 then
      sb + (if sb[|sb| - 1] == ',' then " with " else " and ") + NatToString(CountOf(t, s)) + " " + LowerName(s)
    else sb
  }

  /** printNewIssuesInline(sb): the one-line status description. */
  function StatusDescription(t: Tally): string
    requires |t.counts| == |ALL|
  {
    if Total(t) > 0 then
      var sb := "SonarQube reported " + IssuesText(Total(t)) + ",";
      if CountOf(t, BLOCKER) + CountOf(t, CRITICAL) > 0 then InlineFor(InlineFor(sb, t, CRITICAL), t, BLOCKER)
      else sb + " no critical nor blocker"
    else "SonarQube reported " + "no issues"
  }

  /** The description in each of its five forms: no issues; no critical nor
      blocker; critical and blocker counts joined by "with" and "and"; only
      the critical count; only the blocker count, each after "with". */
  lemma StatusDescriptionCases(t: Tally)
    requires |t.counts| == |ALL|
    ensures Total(t) == 0 ==> StatusDescription(t) == "SonarQube reported " + "no issues"
    ensures Total(t) > 0 && CountOf(t, CRITICAL) == 0 && CountOf(t, BLOCKER) == 0 ==>
      StatusDescription(t) == "SonarQube reported " + IssuesText(Total(t)) + "," + " no critical nor blocker"
    ensures CountOf(t, CRITICAL) > 0 && CountOf(t, BLOCKER) > 0 ==>
      StatusDescription(t) == "SonarQube reported " + IssuesText(Total(t)) + ","
        + " with " + NatToString(CountOf(t, CRITICAL)) + " " + "critical"
        + " and " + NatToString(CountOf(t, BLOCKER)) + " " + "blocker"
    ensures CountOf(t, CRITICAL) > 0 && CountOf(t, BLOCKER) == 0 ==>
      StatusDescription(t) == "SonarQube reported " + IssuesText(Total(t)) + ","
        + " with " + NatToString(CountOf(t, CRITICAL)) + " " + "critical"
    ensures CountOf(t, CRITICAL) == 0 && CountOf(t, BLOCKER) > 0 ==>
      StatusDescription(t) == "SonarQube reported " + IssuesText(Total(t)) + ","
        + " with " + NatToString(CountOf(t, BLOCKER)) + " " + "blocker"
  {
    if Total(t) > 0 {
      var sb := "SonarQube reported " + IssuesText(Total(t)) + ",";
      assert sb[|sb| - 1] == ',';
      if CountOf(t, CRITICAL) > 0 {
        var c := sb + " with " + NatToString(CountOf(t, CRITICAL)) + " " + LowerName(CRITICAL);
        assert InlineFor(sb, t, CRITICAL) == c;
        assert c[|c| - 1] == 'l';
      }
    }
  }

  // ---------------------------------------------------------------------------
  // The report object
  // ---------------------------------------------------------------------------

  /** GlobalReport: the counters live in an array indexed by IndexOf, the
      listing and the two not-reported counters in fields; `processed` is the
      ghost record of the calls of process so far. */
  class GlobalReport {
    const markDownUtils: MarkDown
    const newIssuesBySeverity: array<nat>
    var notReportedOnDiff: string
    var notReportedIssueCount: nat
    var notReportedDisplayedIssueCount: nat
    ghost var processed: seq<Processed>

    /** The fields as a Tally. */
    function State(): Tally
      reads this, newIssuesBySeverity
    {
      Tally(newIssuesBySeverity[..], notReportedOnDiff, notReportedIssueCount, notReportedDisplayedIssueCount)
    }

    /** The fields are those of the replayed calls. */
    ghost predicate Valid()
      reads this, newIssuesBySeverity
    {
      newIssuesBySeverity.Length == |ALL| && State() == Run(markDownUtils, processed)
    }

    constructor(markDownUtils: MarkDown)
      ensures Valid() && processed == [] && this.markDownUtils == markDownUtils
      ensures fresh(newIssuesBySeverity)
    {
      this.markDownUtils := markDownUtils;
      newIssuesBySeverity := new nat[|ALL|](_ => 0);
      notReportedOnDiff := "";
      notReportedIssueCount := 0;
      notReportedDisplayedIssueCount := 0;
      processed := [];
      new;
      assert newIssuesBySeverity[..] == INITIAL.counts;
    }

    /** increment(severity): one more issue of that severity. */
    method Increment(severity: Severity)
      requires newIssuesBySeverity.Length == |ALL|
      modifies newIssuesBySeverity
      ensures newIssuesBySeverity[..] == Incremented(old(newIssuesBySeverity[..]), severity)
    {
      var i := IndexOf(severity);
      newIssuesBySeverity[i] := newIssuesBySeverity[i] + 1;
    }

    /** process(issue, githubUrl, reportedOnDiff). */
    method Process(issue: Issue, githubUrl: Option<string>, reportedOnDiff: bool)
      requires Valid()
      modifies this, newIssuesBySeverity
      ensures Valid()
      ensures processed == old(processed) + [Processed(issue, githubUrl, reportedOnDiff)]
    {
      ghost var e := Processed(issue, githubUrl, reportedOnDiff);
      ghost var t := State();
      ghost var next := Step(markDownUtils, t, e);
      RunSnoc(markDownUtils, processed, e);
      Increment(issue.severity);
      assert newIssuesBySeverity[..] == next.counts;
      if !reportedOnDiff {
        NotReported(issue, githubUrl);
      }
      assert State() == next;
      processed := processed + [e];
    }

    /** The branch of process for an issue not reported on the diff: count
        it, and list it while fewer than MAX_GLOBAL_ISSUES are listed. */
    method NotReported(issue: Issue, githubUrl: Option<string>)
      modifies this
      ensures notReportedIssueCount == old(notReportedIssueCount) + 1
      ensures old(notReportedDisplayedIssueCount) < MAX_GLOBAL_ISSUES ==>
        && notReportedOnDiff == old(notReportedOnDiff) + NotReportedEntry(markDownUtils, Processed(issue, githubUrl, false))
        && notReportedDisplayedIssueCount == old(notReportedDisplayedIssueCount) + 1
      ensures old(notReportedDisplayedIssueCount) >= MAX_GLOBAL_ISSUES ==>
        notReportedOnDiff == old(notReportedOnDiff) && notReportedDisplayedIssueCount == old(notReportedDisplayedIssueCount)
      ensures processed == old(processed)
    {
      notReportedIssueCount := notReportedIssueCount + 1;
      if notReportedDisplayedIssueCount < MAX_GLOBAL_ISSUES {
        notReportedOnDiff := notReportedOnDiff + "* "
          + markDownUtils.globalIssue(issue.severity, issue.message, issue.ruleKey, githubUrl, issue.componentKey)
          + "\n";
        notReportedDisplayedIssueCount := notReportedDisplayedIssueCount + 1;
      }
    }

    /** newIssues(s): the number of processed issues of severity s. */
    function NewIssues(s: Severity): (n: nat)
      requires Valid()
      reads this, newIssuesBySeverity
      ensures n == multiset(SeveritiesOf(processed))[s]
    {
      RunCounts(markDownUtils, processed);
      newIssuesBySeverity[IndexOf(s)]
    }

    /** hasNewIssue(): true exactly when process was called at all. */
    function HasNewIssue(): (b: bool)
      requires Valid()
      reads this, newIssuesBySeverity
      ensures b <==> |processed| > 0
    {
      RunHasNewIssue(markDownUtils, processed);
      AnyNewIssue(State())
    }

    /** getStatus(): ERROR exactly when a blocker or critical issue was processed. */
    function GetStatus(): (r: CommitState)
      requires Valid()
      reads this, newIssuesBySeverity
      ensures r == ERROR <==>
        exists i | 0 <= i < |processed| ::
          processed[i].issue.severity == BLOCKER || processed[i].issue.severity == CRITICAL
    {
      RunStatus(markDownUtils, processed);
      StatusOf(State())
    }

    /** formatForMarkdown(), with the "more" line only when issues were left out. */
    function FormatForMarkdown(): (r: string)
      requires Valid()
      reads this, newIssuesBySeverity
      ensures r == NewIssuesMarkdown(markDownUtils, State())
        + (if |processed| > 0 then WATCH else "") + NoteFor(markDownUtils, processed)
    {
      MarkdownOfRun(markDownUtils, processed);
      Formatted(markDownUtils, State())
    }

    /** getStatusDescription(). */
    function GetStatusDescription(): (r: string)
      requires Valid()
      reads this, newIssuesBySeverity
      ensures Total(State()) == |processed|
      ensures r == StatusDescription(State())
    {
      RunTotal(markDownUtils, processed);
      StatusDescription(State())
    }
  }
}
