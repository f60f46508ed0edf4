/** The patch position index of PullRequestFacade: for every file of the pull
    request, a map from new-file line number to the 0-based index of that line
    in the file's unified-diff patch. */
module PatchIndex {
  import opened Wrappers
  import opened Text

  const INT_MIN: int := -0x8000_0000
  const INT_MAX: int := 0x7fff_ffff

  /** x reduced into Java's 32-bit two's-complement int range, as `currentLine++` does. */
  function Wrap32(x: int): (r: int)
    ensures INT_MIN <= r <= INT_MAX
    ensures INT_MIN <= x <= INT_MAX ==> r == x
  {
    (x - INT_MIN) % 0x1_0000_0000 + INT_MIN
  }

  lemma Wrap32Succ(x: int)
    ensures Wrap32(Wrap32(x) + 1) == Wrap32(x + 1)
  {
    var q := (x - INT_MIN) / 0x1_0000_0000;
    assert Wrap32(x) == x - q * 0x1_0000_0000;
    assert Wrap32(x) + 1 - INT_MIN == (x + 1 - INT_MIN) - q * 0x1_0000_0000;
  }

  // ---------------------------------------------------------------------------
  // Hunk headers: `@@\s-[0-9]+(?:,[0-9]+)?\s\+([0-9]+)(?:,[0-9]+)?\s@@.*`
  // ---------------------------------------------------------------------------

  /** The parts of a hunk header line `@@ -l[,s] +l[,s] @@...` (the unified
      format of GNU diffutils); each gap is one White_Space character. */
  datatype HunkHeader = HunkHeader(
    gap1: char, oldStart: string, oldCount: Option<string>,
    gap2: char, newStart: string, newCount: Option<string>,
    gap3: char, trailer: string)

  predicate WellFormed(h: HunkHeader) {
    && IsWhiteSpace(h.gap1) && IsWhiteSpace(h.gap2) && IsWhiteSpace(h.gap3)
    && IsNumeral(h.oldStart) && IsNumeral(h.newStart)
    && (h.oldCount.Some? ==> IsNumeral(h.oldCount.value))
    && (h.newCount.Some? ==> IsNumeral(h.newCount.value))
    && NoLineTerminator(h.trailer)
  }

  function CountText(count: Option<string>): string {
    if count.Some? then "," + count.value else ""
  }

  /** One range of the header: a gap, the sign, the start and an optional count. */
  function RangeText(gap: char, sign: char, start: string, count: Option<string>): string {
    [gap] + [sign] + start + CountText(count)
  }

  /** The closing part of the header: a gap, `@@` and the rest of the line. */
  function ClosingText(gap: char, trailer: string): string {
    [gap] + "@@" + trailer
  }

  /** The header line the parts spell. */
  function Format(h: HunkHeader): string {
    "@@" + (RangeText(h.gap1, '-', h.oldStart, h.oldCount)
    + (RangeText(h.gap2, '+', h.newStart, h.newCount) + ClosingText(h.gap3, h.trailer)))
  }

  /** Length of the longest digit prefix of s. */
  function DigitRun(s: string): (n: nat)
    ensures n <= |s| && AllDigits(s[..n])
    ensures n < |s| ==> !IsDigit(s[n])
  {
    if |s| > 0 && IsDigit(s[0]) then
      var n := 1 + DigitRun(s[1..]);
      assert s[..n] == [s[0]] + s[1..][..n - 1];
      n
    else 0
  }

  /** Splits a leading `[0-9]+` off s. */
  function Numeral(s: string): (r: Option<(string, string)>)
    ensures r.Some? ==> IsNumeral(r.value.0) && r.value.0 + r.value.1 == s
    ensures r.Some? && |r.value.1| > 0 ==> !IsDigit(r.value.1[0])
  {
    var n := DigitRun(s);
    if n == 0 then None else Some((s[..n], s[n..]))
  }

  /** Splits a leading optional `,[0-9]+` off s. A comma not followed by a digit
      is left to fail on the White_Space expected next. */
  function OptionalCount(s: string): (r: Option<(Option<string>, string)>)
    ensures r.Some? ==> (r.value.0.Some? ==> IsNumeral(r.value.0.value))
    ensures r.Some? ==> CountText(r.value.0) + r.value.1 == s
  {
    if |s| > 0 && s[0] == ',' then
      match Numeral(s[1..])
      case Some(p) => Some((Some(p.0), p.1))
      case None => None
    else Some((None, s))
  }

  /** The parts of one range and the text after it. */
  datatype Range = Range(gap: char, start: string, count: Option<string>, rest: string)

  /** Splits `\s<sign>[0-9]+(?:,[0-9]+)?` off s. */
  function ParseRange(s: string, sign: char): (r: Option<Range>)
    ensures r.Some? ==> IsWhiteSpace(r.value.gap) && IsNumeral(r.value.start)
    ensures r.Some? ==> (r.value.count.Some? ==> IsNumeral(r.value.count.value))
    ensures r.Some? ==> RangeText(r.value.gap, sign, r.value.start, r.value.count) + r.value.rest == s
  {
    if |s| < 2 || !IsWhiteSpace(s[0]) || s[1] != sign then None
    else
      match Numeral(s[2..])
      case None => None
      case Some(start) =>
        match OptionalCount(start.1)
        case None => None
        case Some(count) =>
          RangeTextSplits(s, sign, start.0, start.1, count.0, count.1);
          Some(Range(s[0], start.0, count.0, count.1))
  }

  lemma RangeTextSplits(s: string, sign: char, start: string, afterStart: string, count: Option<string>, rest: string)
    requires |s| >= 2 && s[1] == sign
    requires start + afterStart == s[2..]
    requires CountText(count) + rest == afterStart
    ensures RangeText(s[0], sign, start, count) + rest == s
  {
    calc {
      RangeText(s[0], sign, start, count) + rest;
      [s[0]] + [sign] + start + (CountText(count) + rest);
      [s[0]] + [s[1]] + s[2..];
      s;
    }
  }

  /** Recognises `\s@@.*` as the whole of s. */
  function ParseClosing(s: string): (r: Option<(char, string)>)
    ensures r.Some? ==> IsWhiteSpace(r.value.0) && NoLineTerminator(r.value.1)
    ensures r.Some? ==> ClosingText(r.value.0, r.value.1) == s
  {
    if |s| < 3 || !IsWhiteSpace(s[0]) || s[1..3] != "@@" || !NoLineTerminator(s[3..]) then None
    else
      assert s == [s[0]] + "@@" + s[3..];
      Some((s[0], s[3..]))
  }

  /** A hand-written recogniser for the hunk header pattern. Every header it
      accepts is well formed and is exactly the line (its converse is
      ParseFormat). */
  function ParseHunkHeader(line: string): (r: Option<HunkHeader>)
    ensures r.Some? ==> WellFormed(r.value) && Format(r.value) == line
  {
    if |line| < 2 || line[..2] != "@@" then None
    else
      match ParseRange(line[2..], '-')
      case None => None
      case Some(oldRange) =>
        match ParseRange(oldRange.rest, '+')
        case None => None
        case Some(newRange) =>
          match ParseClosing(newRange.rest)
          case None => None
          case Some(closing) =>
            var h := HunkHeader(oldRange.gap, oldRange.start, oldRange.count,
                                newRange.gap, newRange.start, newRange.count,
                                closing.0, closing.1);
            FormatSplits(line, oldRange, newRange, closing);
            Some(h)
  }

  lemma FormatSplits(line: string, oldRange: Range, newRange: Range, closing: (char, string))
    requires |line| >= 2 && line[..2] == "@@"
    requires RangeText(oldRange.gap, '-', oldRange.start, oldRange.count) + oldRange.rest == line[2..]
    requires RangeText(newRange.gap, '+', newRange.start, newRange.count) + newRange.rest == oldRange.rest
    requires ClosingText(closing.0, closing.1) == newRange.rest
    ensures Format(HunkHeader(oldRange.gap, oldRange.start, oldRange.count,
                              newRange.gap, newRange.start, newRange.count,
                              closing.0, closing.1)) == line
  {
    assert line == line[..2] + line[2..];
  }

  lemma {:induction false} DigitRunOfConcat(d: string, rest: string)
    requires AllDigits(d)
    requires |rest| > 0 ==> !IsDigit(rest[0])
    ensures DigitRun(d + rest) == |d|
  {
    if |d| > 0 {
      assert (d + rest)[1..] == d[1..] + rest;
      DigitRunOfConcat(d[1..], rest);
    } else {
      assert d + rest == rest;
    }
  }

  lemma NumeralOfConcat(d: string, rest: string)
    requires IsNumeral(d)
    requires |rest| > 0 ==> !IsDigit(rest[0])
    ensures Numeral(d + rest) == Some((d, rest))
  {
    DigitRunOfConcat(d, rest);
    assert (d + rest)[..|d|] == d;
    assert (d + rest)[|d|..] == rest;
  }

  lemma OptionalCountOfConcat(count: Option<string>, rest: string)
    requires count.Some? ==> IsNumeral(count.value)
    requires |rest| > 0 && IsWhiteSpace(rest[0])
    ensures OptionalCount(CountText(count) + rest) == Some((count, rest))
  {
    if count.Some? {
      var s := CountText(count) + rest;
      assert s[1..] == count.value + rest;
      NumeralOfConcat(count.value, rest);
    } else {
      assert CountText(count) + rest == rest;
    }
  }

  lemma ParseRangeOfConcat(gap: char, sign: char, start: string, count: Option<string>, rest: string)
    requires IsWhiteSpace(gap) && IsNumeral(start)
    requires count.Some? ==> IsNumeral(count.value)
    requires |rest| > 0 && IsWhiteSpace(rest[0])
    ensures ParseRange(RangeText(gap, sign, start, count) + rest, sign) == Some(Range(gap, start, count, rest))
  {
    var s := RangeText(gap, sign, start, count) + rest;
    var tail := CountText(count) + rest;
    assert s == [gap] + [sign] + (start + tail);
    assert s[2..] == start + tail;
    if |tail| > 0 {
      assert IsDigit(tail[0]) ==> false;
    }
    assert s[0] == gap && s[1] == sign && |s| >= 2 && IsWhiteSpace(s[0]);
    NumeralOfConcat(start, tail);
    assert Numeral(s[2..]) == Some((start, tail));
    OptionalCountOfConcat(count, rest);
  }

  lemma ParseClosingOfText(gap: char, trailer: string)
    requires IsWhiteSpace(gap) && NoLineTerminator(trailer)
    ensures ParseClosing(ClosingText(gap, trailer)) == Some((gap, trailer))
  {
    var s := ClosingText(gap, trailer);
    assert s[1..3] == "@@" && s[3..] == trailer;
  }

  /** Every well-formed header is recognised, with its parts recovered. */
  lemma ParseFormat(h: HunkHeader)
    requires WellFormed(h)
    ensures ParseHunkHeader(Format(h)) == Some(h)
  {
    var closing := ClosingText(h.gap3, h.trailer);
    var newText := RangeText(h.gap2, '+', h.newStart, h.newCount) + closing;
    var line := Format(h);
    assert line[..2] == "@@";
    assert line[2..] == RangeText(h.gap1, '-', h.oldStart, h.oldCount) + newText;
    ParseRangeOfConcat(h.gap1, '-', h.oldStart, h.oldCount, newText);
    ParseRangeOfConcat(h.gap2, '+', h.newStart, h.newCount, closing);
    ParseClosingOfText(h.gap3, h.trailer);
  }

  // ---------------------------------------------------------------------------
  // Walking a patch (processPatch)
  // ---------------------------------------------------------------------------

  /** How processPatch treats one line, chosen by its first character. */
  datatype LineKind =
    | Hunk(newStart: int)   // `@`: a hunk header announcing the new-file start line
    | Deleted               // `-`: a removed line
    | Visible               // `+` or ` `: an added or context line, present in the new file
    | Ignored               // `\` (no newline at end of file) and any other line

  /** The exceptions processPatch can raise, with the index of the offending line. */
  datatype PatchError =
    | MalformedHunkHeader(index: nat)   // IllegalStateException "Unable to parse patch line"
    | NewStartOutOfRange(index: nat)    // NumberFormatException from Integer.parseInt

  predicate IsHunkLine(line: string) { |line| > 0 && line[0] == '@' }
  predicate IsDeletedLine(line: string) { |line| > 0 && line[0] == '-' }
  predicate IsVisibleLine(line: string) { |line| > 0 && (line[0] == '+' || line[0] == ' ') }

  function ClassifyHeader(line: string, index: nat): (r: Result<LineKind, PatchError>)
    requires IsHunkLine(line)
    ensures r.Failure? ==> r.error.index == index
    ensures r.Success? ==> r.value.Hunk? && 0 <= r.value.newStart <= INT_MAX
  {
    match ParseHunkHeader(line)
    case None => Failure(MalformedHunkHeader(index))
    case Some(h) =>
      var start := DigitsValue(h.newStart);
      if start > INT_MAX then Failure(NewStartOutOfRange(index)) else Success(Hunk(start))
  }

  function Classify(line: string, index: nat): (r: Result<LineKind, PatchError>)
    ensures r.Failure? ==> r.error.index == index
    ensures r.Success? ==> (r.value.Hunk? <==> IsHunkLine(line)) && (r.value.Visible? <==> IsVisibleLine(line))
    ensures r.Success? && r.value.Hunk? ==> 0 <= r.value.newStart <= INT_MAX
  {
    if IsHunkLine(line) then ClassifyHeader(line, index)
    else if IsDeletedLine(line) then Success(Deleted)
    else if IsVisibleLine(line) then Success(Visible)
    else Success(Ignored)
  }

  /** The two counters of processPatch after some lines: `currentLine` and the
      entries put so far. */
  datatype Walk = Walk(currentLine: int, positions: map<int, int>)

  /** The effect of the line at patch index `location` on the walk. */
  function Advance(w: Walk, kind: LineKind, location: nat): Walk {
    match kind
    case Hunk(start) => Walk(start, w.positions)
    case Visible => Walk(Wrap32(w.currentLine + 1), w.positions[w.currentLine := location])
    case _ => w
  }

  /** The classification of every line of a patch, at its own index. */
  function Classified(lines: seq<string>): (rs: seq<Result<LineKind, PatchError>>)
    ensures |rs| == |lines|
    ensures forall i | 0 <= i < |lines| :: rs[i] == Classify(lines[i], i)
  {
    seq(|lines|, i requires 0 <= i < |lines| => Classify(lines[i], i))
  }

  /** processPatch over classified lines, starting from an empty map: the
      first failure aborts the walk. */
  function WalkResults(rs: seq<Result<LineKind, PatchError>>): Result<Walk, PatchError>
    decreases |rs|
  {
    if |rs| == 0 then Success(Walk(-1, map[]))
    else
      var n := |rs| - 1;
      match WalkResults(rs[..n])
      case Failure(e) => Failure(e)
      case Success(w) =>
        match rs[n]
        case Failure(e) => Failure(e)
        case Success(kind) => Success(Advance(w, kind, n))
  }

  /** processPatch on the lines of a patch. */
  function WalkPatch(lines: seq<string>): Result<Walk, PatchError> {
    WalkResults(Classified(lines))
  }

  /** PullRequestFacade.processPatch: puts into `patchLocationMapping` every
      line number of the new file that the patch shows, with the index of its
      patch line. */
  method ProcessPatch(patchLocationMapping: map<int, int>, patch: seq<string>)
    returns (r: Result<map<int, int>, PatchError>)
    ensures WalkPatch(patch).Success? ==> r == Success(patchLocationMapping + WalkPatch(patch).value.positions)
    ensures WalkPatch(patch).Failure? ==> r == Failure(WalkPatch(patch).error)
  {
    ghost var rs := Classified(patch);
    var mapping := patchLocationMapping;
    var currentLine := -1;
    var patchLocation := 0;
    // patchLocation is also the index of the line being read
    while patchLocation < |patch|
      invariant 0 <= patchLocation <= |patch|
      invariant WalkResults(rs[..patchLocation]).Success?
      invariant currentLine == WalkResults(rs[..patchLocation]).value.currentLine
      invariant mapping == patchLocationMapping + WalkResults(rs[..patchLocation]).value.positions
    {
      var line := patch[patchLocation];
      ghost var before := WalkResults(rs[..patchLocation]).value;
      ghost var kind: LineKind;
      if IsHunkLine(line) {
        var header := ParseHunkHeader(line);
        if header.None? {
          assert rs[patchLocation] == Failure(MalformedHunkHeader(patchLocation));
          WalkFailsAt(rs, patchLocation);
          return Failure(MalformedHunkHeader(patchLocation));
        }
        var start := DigitsValue(header.value.newStart);
        if start > INT_MAX {
          assert rs[patchLocation] == Failure(NewStartOutOfRange(patchLocation));
          WalkFailsAt(rs, patchLocation);
          return Failure(NewStartOutOfRange(patchLocation));
        }
        kind := Hunk(start);
        currentLine := start;
      } else if IsDeletedLine(line) {
        // removed lines are skipped
        kind := Deleted;
      } else if IsVisibleLine(line) {
        kind := Visible;
        OverrideUpdate(patchLocationMapping, before.positions, currentLine, patchLocation);
        mapping := mapping[currentLine := patchLocation];
        currentLine := Wrap32(currentLine + 1);
      } else {
        // `\ No newline at end of file` and any other line are ignored
        kind := Ignored;
      }
      assert rs[patchLocation] == Success(kind);
      WalkStep(rs, patchLocation);
      assert currentLine == Advance(before, kind, patchLocation).currentLine;
      assert mapping == patchLocationMapping + Advance(before, kind, patchLocation).positions;
      patchLocation := patchLocation + 1;
    }
    assert rs[..patchLocation] == rs;
    return Success(mapping);
  }

  /** Putting a key after merging two maps is putting it into the second. */
  lemma OverrideUpdate(a: map<int, int>, b: map<int, int>, k: int, v: int)
    ensures (a + b)[k := v] == a + b[k := v]
  {
  }

  /** One more line that classifies extends the walk by Advance. */
  lemma WalkStep(rs: seq<Result<LineKind, PatchError>>, n: nat)
    requires n < |rs| && WalkResults(rs[..n]).Success? && rs[n].Success?
    ensures WalkResults(rs[..n + 1]) == Success(Advance(WalkResults(rs[..n]).value, rs[n].value, n))
  {
    assert rs[..n + 1][..n] == rs[..n];
  }

  /** A walk that fails on line i fails, with the same error, on every
      longer patch. */
  lemma {:induction false} WalkFailsAt(rs: seq<Result<LineKind, PatchError>>, i: nat)
    requires i < |rs|
    requires WalkResults(rs[..i]).Success? && rs[i].Failure?
    ensures WalkResults(rs) == Failure(rs[i].error)
  {
    assert rs[..i + 1][..i] == rs[..i];
    assert WalkResults(rs[..i + 1]) == Failure(rs[i].error);
    WalkFailurePersists(rs, i + 1);
  }

  /** Once the walk has failed, later lines do not change its outcome. */
  lemma {:induction false} WalkFailurePersists(rs: seq<Result<LineKind, PatchError>>, n: nat)
    requires n <= |rs| && WalkResults(rs[..n]).Failure?
    ensures WalkResults(rs) == WalkResults(rs[..n])
    decreases |rs|
  {
    if n == |rs| {
      assert rs[..n] == rs;
    } else {
      var m := |rs| - 1;
      var prefix := rs[..m];
      assert prefix[..n] == rs[..n];
      WalkFailurePersists(prefix, n);
    }
  }

  // ---------------------------------------------------------------------------
  // A reference description of the walk, line by line
  // ---------------------------------------------------------------------------

  /** Every line of the patch passes Classify: no header is malformed. */
  predicate Parses(lines: seq<string>) {
    forall i | 0 <= i < |lines| :: Classify(lines[i], i).Success?
  }

  /** The kind of every line, or the error of the first line that has none. */
  function KindsOf(rs: seq<Result<LineKind, PatchError>>): (r: Result<seq<LineKind>, PatchError>)
    ensures r.Success? ==> |r.value| == |rs|
    decreases |rs|
  {
    if |rs| == 0 then Success([])
    else
      var n := |rs| - 1;
      match KindsOf(rs[..n])
      case Failure(e) => Failure(e)
      case Success(kinds) =>
        match rs[n]
        case Failure(e) => Failure(e)
        case Success(kind) => Success(kinds + [kind])
  }

  /** The kinds of the lines of a patch. */
  function Kinds(lines: seq<string>): (r: Result<seq<LineKind>, PatchError>)
    ensures r.Success? ==> |r.value| == |lines|
  {
    KindsOf(Classified(lines))
  }

  /** Number of `+` and ` ` lines among kinds. */
  function VisibleCount(kinds: seq<LineKind>): nat
    decreases |kinds|
  {
    if |kinds| == 0 then 0
    else VisibleCount(kinds[..|kinds| - 1]) + (if kinds[|kinds| - 1].Visible? then 1 else 0)
  }

  /** Index of the last hunk header among kinds[..n]. */
  function LastHunk(kinds: seq<LineKind>, n: nat): (r: Option<nat>)
    requires n <= |kinds|
    ensures r.Some? ==> r.value < n && kinds[r.value].Hunk?
    ensures r.Some? ==> forall j | r.value < j < n :: !kinds[j].Hunk?
    ensures r.None? ==> forall j | 0 <= j < n :: !kinds[j].Hunk?
  {
    if n == 0 then None
    else if kinds[n - 1].Hunk? then Some(n - 1)
    else LastHunk(kinds, n - 1)
  }

  /** The new-file line number that line n of the patch stands for, before the
      reduction to Java int: the start line of the last hunk header before it
      plus the number of `+` and ` ` lines between them (or -1 plus those before
      it, when no header precedes it). */
  function UnwrappedLineNumberAt(kinds: seq<LineKind>, n: nat): int
    requires n <= |kinds|
  {
    match LastHunk(kinds, n)
    case None => -1 + VisibleCount(kinds[..n])
    case Some(h) => kinds[h].newStart + VisibleCount(kinds[h + 1..n])
  }

  /** The same in Java int arithmetic, as `currentLine++` counts. */
  function LineNumberAt(kinds: seq<LineKind>, n: nat): int
    requires n <= |kinds|
  {
    Wrap32(UnwrappedLineNumberAt(kinds, n))
  }

  /** Patch line i is the last `+`/` ` line among kinds[..n] numbered k. */
  predicate LastVisibleFor(kinds: seq<LineKind>, n: nat, k: int, i: int)
    requires n <= |kinds|
  {
    && 0 <= i < n && kinds[i].Visible? && LineNumberAt(kinds, i) == k
    && forall j | i < j < n && kinds[j].Visible? :: LineNumberAt(kinds, j) != k
  }

  lemma VisibleCountSnoc(kinds: seq<LineKind>, a: nat, n: nat)
    requires a <= n < |kinds|
    ensures VisibleCount(kinds[a..n + 1]) == VisibleCount(kinds[a..n]) + (if kinds[n].Visible? then 1 else 0)
  {
    assert kinds[a..n + 1][..n - a] == kinds[a..n];
  }

  /** A hunk header sets the counter to its start line. */
  lemma LineNumberAfterHunk(kinds: seq<LineKind>, n: nat)
    requires n < |kinds| && kinds[n].Hunk? && INT_MIN <= kinds[n].newStart <= INT_MAX
    ensures LineNumberAt(kinds, n + 1) == kinds[n].newStart
  {
    assert LastHunk(kinds, n + 1) == Some(n);
    assert kinds[n + 1..n + 1] == [];
  }

  lemma UnwrappedAfterOther(kinds: seq<LineKind>, n: nat)
    requires n < |kinds| && !kinds[n].Hunk?
    ensures UnwrappedLineNumberAt(kinds, n + 1) ==
      UnwrappedLineNumberAt(kinds, n) + (if kinds[n].Visible? then 1 else 0)
  {
    assert LastHunk(kinds, n + 1) == LastHunk(kinds, n);
    match LastHunk(kinds, n)
    case None =>
      VisibleCountSnoc(kinds, 0, n);
      assert kinds[0..n + 1] == kinds[..n + 1] && kinds[0..n] == kinds[..n];
    case Some(h) =>
      VisibleCountSnoc(kinds, h + 1, n);
  }

  /** A `+`/` ` line advances the counter by one; `-`, `\` and any other line
      keeps it. */
  lemma LineNumberAfterOther(kinds: seq<LineKind>, n: nat)
    requires n < |kinds| && !kinds[n].Hunk?
    ensures LineNumberAt(kinds, n + 1) ==
      if kinds[n].Visible? then Wrap32(LineNumberAt(kinds, n) + 1) else LineNumberAt(kinds, n)
  {
    UnwrappedAfterOther(kinds, n);
    Wrap32Succ(UnwrappedLineNumberAt(kinds, n));
  }

  /** processPatch over kinds (with no failure left): Advance from Walk(-1, {}). */
  function Replay(kinds: seq<LineKind>): Walk
    decreases |kinds|
  {
    if |kinds| == 0 then Walk(-1, map[])
    else Advance(Replay(kinds[..|kinds| - 1]), kinds[|kinds| - 1], |kinds| - 1)
  }

  /** The walk is the classification followed by the replay of its kinds. */
  lemma {:induction false} WalkIsReplayOf(rs: seq<Result<LineKind, PatchError>>)
    ensures WalkResults(rs).Success? <==> KindsOf(rs).Success?
    ensures WalkResults(rs).Success? ==> WalkResults(rs).value == Replay(KindsOf(rs).value)
    ensures WalkResults(rs).Failure? ==> WalkResults(rs).error == KindsOf(rs).error
    decreases |rs|
  {
    if |rs| > 0 {
      var n := |rs| - 1;
      WalkIsReplayOf(rs[..n]);
      if KindsOf(rs).Success? {
        var kinds := KindsOf(rs).value;
        assert kinds[..n] == KindsOf(rs[..n]).value;
      }
    }
  }

  lemma WalkIsReplay(lines: seq<string>)
    ensures WalkPatch(lines).Success? <==> Kinds(lines).Success?
    ensures WalkPatch(lines).Success? ==> WalkPatch(lines).value == Replay(Kinds(lines).value)
    ensures WalkPatch(lines).Failure? ==> WalkPatch(lines).error == Kinds(lines).error
  {
    WalkIsReplayOf(Classified(lines));
  }

  /** Every hunk start among kinds is a Java int, as Classify guarantees. */
  predicate StartsInRange(kinds: seq<LineKind>) {
    forall i | 0 <= i < |kinds| && kinds[i].Hunk? :: INT_MIN <= kinds[i].newStart <= INT_MAX
  }

  /** After kinds[..n], the replay's counter is LineNumberAt(kinds, n). */
  lemma {:induction false} ReplayCounter(kinds: seq<LineKind>, n: nat)
    requires n <= |kinds| && StartsInRange(kinds)
    ensures Replay(kinds[..n]).currentLine == LineNumberAt(kinds, n)
  {
    if n == 0 {
      assert kinds[..0] == [];
      assert LastHunk(kinds, 0) == None;
    } else {
      var m := n - 1;
      ReplayCounter(kinds, m);
      assert kinds[..n][..m] == kinds[..m];
      if kinds[m].Hunk? { LineNumberAfterHunk(kinds, m); } else { LineNumberAfterOther(kinds, m); }
    }
  }

  /** After kinds[..n], a line number is a key of the replay's positions
      exactly when some `+`/` ` line before n stands for it. */
  lemma {:induction false} ReplayKeys(kinds: seq<LineKind>, n: nat)
    requires n <= |kinds| && StartsInRange(kinds)
    ensures forall k :: k in Replay(kinds[..n]).positions <==>
      exists i | 0 <= i < n && kinds[i].Visible? :: LineNumberAt(kinds, i) == k
  {
    if n == 0 {
      assert kinds[..0] == [];
    } else {
      var m := n - 1;
      ReplayKeys(kinds, m);
      assert kinds[..n][..m] == kinds[..m];
      var before := Replay(kinds[..m]);
      var after := Replay(kinds[..n]);
      assert after == Advance(before, kinds[m], m);
      if kinds[m].Visible? {
        ReplayCounter(kinds, m);
        forall k
          ensures k in after.positions <==> exists i | 0 <= i < n && kinds[i].Visible? :: LineNumberAt(kinds, i) == k
        {
          if k in after.positions && k != before.currentLine {
            var i :| 0 <= i < m && kinds[i].Visible? && LineNumberAt(kinds, i) == k;
            assert 0 <= i < n;
          }
        }
      }
    }
  }

  lemma LastVisibleExtend(kinds: seq<LineKind>, m: nat, k: int, i: int)
    requires m < |kinds| && LastVisibleFor(kinds, m, k, i)
    requires kinds[m].Visible? ==> LineNumberAt(kinds, m) != k
    ensures LastVisibleFor(kinds, m + 1, k, i)
  {
  }

  /** After kinds[..n], the position recorded for a line number is the index
      of the last `+`/` ` line before n that stands for it. */
  lemma {:induction false} ReplayValues(kinds: seq<LineKind>, n: nat)
    requires n <= |kinds| && StartsInRange(kinds)
    ensures forall k | k in Replay(kinds[..n]).positions ::
      LastVisibleFor(kinds, n, k, Replay(kinds[..n]).positions[k])
  {
    if n > 0 {
      var m := n - 1;
      ReplayValues(kinds, m);
      assert kinds[..n][..m] == kinds[..m];
      var before := Replay(kinds[..m]);
      var after := Replay(kinds[..n]);
      assert after == Advance(before, kinds[m], m);
      if kinds[m].Visible? {
        ReplayCounter(kinds, m);
        var k0 := before.currentLine;
        assert after.positions == before.positions[k0 := m];
        forall k | k in after.positions
          ensures LastVisibleFor(kinds, n, k, after.positions[k])
        {
          if k != k0 {
            assert after.positions[k] == before.positions[k];
            LastVisibleExtend(kinds, m, k, before.positions[k]);
          }
        }
      } else {
        assert after.positions == before.positions;
        forall k | k in after.positions
          ensures LastVisibleFor(kinds, n, k, after.positions[k])
        {
          LastVisibleExtend(kinds, m, k, before.positions[k]);
        }
      }
    }
  }

  // ---------------------------------------------------------------------------
  // What processPatch computes, stated on the patch lines
  // ---------------------------------------------------------------------------

  /** When KindsOf succeeds it holds the kind of line i at index i. */
  lemma {:induction false} KindAt(rs: seq<Result<LineKind, PatchError>>, i: nat)
    requires KindsOf(rs).Success? && i < |rs|
    ensures rs[i] == Success(KindsOf(rs).value[i])
    decreases |rs|
  {
    var n := |rs| - 1;
    var prefix := rs[..n];
    assert KindsOf(prefix).Success? && rs[n].Success?;
    assert KindsOf(rs).value == KindsOf(prefix).value + [rs[n].value];
    if i < n {
      KindAt(prefix, i);
      assert prefix[i] == rs[i];
    }
  }

  /** A failing KindsOf fails on some line whose predecessors all classify,
      with that line's error. */
  lemma {:induction false} KindsFailure(rs: seq<Result<LineKind, PatchError>>)
    requires KindsOf(rs).Failure?
    ensures exists i | 0 <= i < |rs| ::
      && rs[i].Failure? && KindsOf(rs).error == rs[i].error
      && forall j | 0 <= j < i :: rs[j].Success?
    decreases |rs|
  {
    var n := |rs| - 1;
    var prefix := rs[..n];
    if KindsOf(prefix).Failure? {
      KindsFailure(prefix);
      var i :| 0 <= i < |prefix| && prefix[i].Failure? && KindsOf(prefix).error == prefix[i].error
        && forall j | 0 <= j < i :: prefix[j].Success?;
      assert prefix[i] == rs[i];
      assert forall j | 0 <= j < i :: prefix[j] == rs[j];
    } else {
      forall j | 0 <= j < n ensures rs[j].Success? {
        KindAt(prefix, j);
        assert prefix[j] == rs[j];
      }
      assert rs[n].Failure?;
    }
  }

  /** Kinds succeeds exactly on a patch that parses, holding each line's
      classification, and otherwise fails with the error of the first line
      that does not classify. */
  lemma KindsSpec(lines: seq<string>)
    ensures Kinds(lines).Success? <==> Parses(lines)
    ensures Kinds(lines).Success? ==> forall i | 0 <= i < |lines| :: Kinds(lines).value[i] == Classify(lines[i], i).value
    ensures Kinds(lines).Failure? ==> exists i | 0 <= i < |lines| ::
      && Classify(lines[i], i).Failure? && Kinds(lines).error == Classify(lines[i], i).error
      && forall j | 0 <= j < i :: Classify(lines[j], j).Success?
  {
    var rs := Classified(lines);
    if KindsOf(rs).Success? {
      forall i | 0 <= i < |lines|
        ensures Classify(lines[i], i) == Success(Kinds(lines).value[i])
      {
        KindAt(rs, i);
      }
    } else {
      KindsFailure(rs);
      var i :| 0 <= i < |rs| && rs[i].Failure? && KindsOf(rs).error == rs[i].error
        && forall j | 0 <= j < i :: rs[j].Success?;
      assert !Classify(lines[i], i).Success?;
    }
  }

  /** processPatch fails exactly on a patch with a malformed or out-of-range
      hunk header, and then reports the first such line. */
  lemma WalkFailure(lines: seq<string>)
    ensures WalkPatch(lines).Failure? <==> !Parses(lines)
    ensures WalkPatch(lines).Failure? ==> exists i | 0 <= i < |lines| ::
      && IsHunkLine(lines[i]) && Classify(lines[i], i).Failure? && WalkPatch(lines).error == Classify(lines[i], i).error
      && forall j | 0 <= j < i :: Classify(lines[j], j).Success?
  {
    WalkIsReplay(lines);
    KindsSpec(lines);
  }

  /** A line starting with `@` that is not a hunk header aborts the walk. */
  lemma MalformedHeaderFails(lines: seq<string>, i: nat)
    requires i < |lines| && IsHunkLine(lines[i]) && ParseHunkHeader(lines[i]).None?
    ensures WalkPatch(lines).Failure?
  {
    WalkFailure(lines);
    assert Classify(lines[i], i).Failure?;
  }

  /** On a patch whose headers all parse, the walk succeeds, and the line
      numbers it maps are exactly those of its `+`/` ` lines, each to the
      0-based index of the last patch line standing for it. */
  lemma PatchPositions(lines: seq<string>)
    requires Parses(lines)
    ensures WalkPatch(lines).Success? && Kinds(lines).Success?
    ensures forall k :: k in WalkPatch(lines).value.positions <==>
      exists i | 0 <= i < |lines| && IsVisibleLine(lines[i]) :: LineNumberAt(Kinds(lines).value, i) == k
    ensures forall k | k in WalkPatch(lines).value.positions ::
      LastVisibleFor(Kinds(lines).value, |lines|, k, WalkPatch(lines).value.positions[k])
  {
    WalkIsReplay(lines);
    KindsSpec(lines);
    var kinds := Kinds(lines).value;
    assert kinds[..|lines|] == kinds;
    assert StartsInRange(kinds);
    ReplayKeys(kinds, |lines|);
    ReplayValues(kinds, |lines|);
  }

  /** Every recorded position is the index of a `+`/` ` line of the patch, and
      no two line numbers share a position. */
  lemma PositionsDistinct(lines: seq<string>)
    requires Parses(lines)
    ensures WalkPatch(lines).Success?
    ensures forall k | k in WalkPatch(lines).value.positions ::
      var p := WalkPatch(lines).value.positions[k]; 0 <= p < |lines| && IsVisibleLine(lines[p])
    ensures forall k1, k2 | k1 in WalkPatch(lines).value.positions && k2 in WalkPatch(lines).value.positions && k1 != k2 ::
      WalkPatch(lines).value.positions[k1] != WalkPatch(lines).value.positions[k2]
  {
    PatchPositions(lines);
    KindsSpec(lines);
  }

  /** Lines that are neither hunk headers nor `+`/` ` (removed lines,
      `\ No newline at end of file`, anything else) leave the counter alone. */
  lemma {:induction false} SkippedLinesKeepCounter(kinds: seq<LineKind>, i: nat, j: nat)
    requires i <= j <= |kinds|
    requires forall m | i <= m < j :: !kinds[m].Hunk? && !kinds[m].Visible?
    ensures LineNumberAt(kinds, j) == LineNumberAt(kinds, i)
    decreases j - i
  {
    if i < j {
      LineNumberAfterOther(kinds, i);
      SkippedLinesKeepCounter(kinds, i + 1, j);
    }
  }

  /** After a header announcing new-file line c, the first `+`/` ` line is
      numbered c and each later one (with only skipped lines between) one more
      than the previous: c, c + 1, c + 2, ... */
  lemma HunkNumbering(kinds: seq<LineKind>, h: nat, j: nat)
    requires h < j < |kinds| && kinds[h].Hunk? && StartsInRange(kinds)
    requires forall m | h < m < j :: !kinds[m].Hunk? && !kinds[m].Visible?
    ensures LineNumberAt(kinds, j) == kinds[h].newStart
  {
    LineNumberAfterHunk(kinds, h);
    SkippedLinesKeepCounter(kinds, h + 1, j);
  }

  lemma NextVisibleNumbering(kinds: seq<LineKind>, i: nat, j: nat)
    requires i < j < |kinds| && kinds[i].Visible?
    requires forall m | i < m < j :: !kinds[m].Hunk? && !kinds[m].Visible?
    ensures LineNumberAt(kinds, j) == Wrap32(LineNumberAt(kinds, i) + 1)
  {
    LineNumberAfterOther(kinds, i);
    SkippedLinesKeepCounter(kinds, i + 1, j);
  }

  /** Every well-formed header whose new start is a Java int classifies as a
      hunk starting there. */
  lemma ClassifyFormat(h: HunkHeader, index: nat)
    requires WellFormed(h) && DigitsValue(h.newStart) <= INT_MAX
    ensures Classify(Format(h), index) == Success(Hunk(DigitsValue(h.newStart)))
  {
    ParseFormat(h);
  }

  lemma ExampleHeaderText(line: string)
    requires line == "@@ -10,3 +10,4 @@"
    ensures line == Format(HunkHeader(' ', "10", Some("3"), ' ', "10", Some("4"), ' ', ""))
  {
    assert RangeText(' ', '-', "10", Some("3")) == " -10,3";
    assert RangeText(' ', '+', "10", Some("4")) == " +10,4";
    assert ClosingText(' ', "") == " @@";
  }

  lemma ExampleStartValue()
    ensures DigitsValue("10") == 10
  {
    assert "10"[..1] == "1";
  }

  /** The header of a hunk that starts at line 10 of both files. */
  lemma ExampleHeader(line: string)
    requires line == "@@ -10,3 +10,4 @@"
    ensures Classify(line, 0) == Success(Hunk(10))
  {
    ExampleHeaderText(line);
    ExampleStartValue();
    ClassifyFormat(HunkHeader(' ', "10", Some("3"), ' ', "10", Some("4"), ' ', ""), 0);
  }

  /** The kinds of a hunk `@@ -10,3 +10,4 @@` that keeps line 10, removes
      one line and adds two: its context and added lines are new-file lines 10
      to 13, at patch indexes 1, 3, 4 and 5. */
  lemma ExampleReplay()
    ensures Replay([Hunk(10), Visible, Deleted, Visible, Visible, Visible])
      == Walk(14, map[10 := 1, 11 := 3, 12 := 4, 13 := 5])
  {
    var kinds := [Hunk(10), Visible, Deleted, Visible, Visible, Visible];
    assert kinds[..0] == [];
    assert Replay(kinds[..1]) == Walk(10, map[]) by { assert kinds[..1][..0] == []; }
    assert Replay(kinds[..2]) == Walk(11, map[10 := 1]) by { assert kinds[..2][..1] == kinds[..1]; }
    assert Replay(kinds[..3]) == Walk(11, map[10 := 1]) by { assert kinds[..3][..2] == kinds[..2]; }
    assert Replay(kinds[..4]) == Walk(12, map[10 := 1, 11 := 3]) by { assert kinds[..4][..3] == kinds[..3]; }
    assert Replay(kinds[..5]) == Walk(13, map[10 := 1, 11 := 3, 12 := 4]) by { assert kinds[..5][..4] == kinds[..4]; }
    assert kinds[..6][..5] == kinds[..5];
    assert kinds[..6] == kinds;
  }

  // ---------------------------------------------------------------------------
  // The index over all files of the pull request (mapPatchPositionsToLines)
  // ---------------------------------------------------------------------------

  /** A file of the pull request: its name and its patch, as lines (None when
      the service sends no patch, for instance for a binary file). */
  datatype PrFile = PrFile(filename: string, patch: Option<seq<string>>)

  /** The positions of one file: empty without a patch, else the walk's. */
  function FilePositions(f: PrFile): Result<map<int, int>, PatchError> {
    match f.patch
    case None => Success(map[])
    case Some(p) =>
      match WalkPatch(p)
      case Failure(e) => Failure(e)
      case Success(w) => Success(w.positions)
  }

  /** mapPatchPositionsToLines on files, file by file: every file gets an entry
      before its patch is walked, and the first failing patch aborts. */
  function PositionIndex(files: seq<PrFile>): Result<map<string, map<int, int>>, PatchError>
    decreases |files|
  {
    if |files| == 0 then Success(map[])
    else
      var n := |files| - 1;
      match PositionIndex(files[..n])
      case Failure(e) => Failure(e)
      case Success(index) =>
        match FilePositions(files[n])
        case Failure(e) => Failure(e)
        case Success(positions) => Success(index[files[n].filename := positions])
  }

  /** PullRequestFacade.mapPatchPositionsToLines over the file list. */
  method MapPatchPositionsToLines(files: seq<PrFile>) returns (r: Result<map<string, map<int, int>>, PatchError>)
    ensures r == PositionIndex(files)
  {
    var patchPositionMappingByFile: map<string, map<int, int>> := map[];
    var i := 0;
    while i < |files|
      invariant 0 <= i <= |files|
      invariant PositionIndex(files[..i]) == Success(patchPositionMappingByFile)
    {
      var file := files[i];
      ghost var before := patchPositionMappingByFile;
      patchPositionMappingByFile := patchPositionMappingByFile[file.filename := map[]];
      if file.patch.None? {
        IndexStep(files, i, before, map[]);
        i := i + 1;
        continue;
      }
      var processed := ProcessPatch(map[], file.patch.value);
      if processed.Failure? {
        PositionIndexFailsAt(files, i);
        return Failure(processed.error);
      }
      assert map[] + WalkPatch(file.patch.value).value.positions == WalkPatch(file.patch.value).value.positions;
      IndexStep(files, i, before, processed.value);
      patchPositionMappingByFile := patchPositionMappingByFile[file.filename := processed.value];
      assert patchPositionMappingByFile == before[file.filename := processed.value];
      i := i + 1;
    }
    assert files[..i] == files;
    return Success(patchPositionMappingByFile);
  }

  lemma IndexStep(files: seq<PrFile>, i: nat, index: map<string, map<int, int>>, positions: map<int, int>)
    requires i < |files| && PositionIndex(files[..i]) == Success(index) && FilePositions(files[i]) == Success(positions)
    ensures PositionIndex(files[..i + 1]) == Success(index[files[i].filename := positions])
  {
    assert files[..i + 1][..i] == files[..i];
  }

  /** A file whose patch fails aborts the whole index with its error. */
  lemma {:induction false} PositionIndexFailsAt(files: seq<PrFile>, i: nat)
    requires i < |files|
    requires PositionIndex(files[..i]).Success? && FilePositions(files[i]).Failure?
    ensures PositionIndex(files) == Failure(FilePositions(files[i]).error)
    decreases |files|
  {
    var n := |files| - 1;
    var prefix := files[..n];
    if i == n {
      assert prefix == files[..i];
    } else {
      assert prefix[..i] == files[..i];
      assert prefix[i] == files[i];
      PositionIndexFailsAt(prefix, i);
      assert PositionIndex(prefix).Failure?;
    }
  }

  /** The index has an entry exactly for the names of the files. */
  lemma {:induction false} PositionIndexKeys(files: seq<PrFile>)
    requires PositionIndex(files).Success?
    ensures forall name :: name in PositionIndex(files).value <==> exists i | 0 <= i < |files| :: files[i].filename == name
    decreases |files|
  {
    if |files| > 0 {
      var n := |files| - 1;
      var prefix := files[..n];
      PositionIndexKeys(prefix);
      var index := PositionIndex(files).value;
      assert index == PositionIndex(prefix).value[files[n].filename := FilePositions(files[n]).value];
      forall name
        ensures name in index <==> exists i | 0 <= i < |files| :: files[i].filename == name
      {
        if name in index && name != files[n].filename {
          var i :| 0 <= i < n && prefix[i].filename == name;
          assert files[i].filename == name;
        }
        if name !in index {
          forall i | 0 <= i < |files| ensures files[i].filename != name {
            if i < n { assert prefix[i] == files[i]; }
          }
        }
      }
    }
  }

  /** The entry of a name is the positions of the last file with that name. */
  lemma {:induction false} PositionIndexLastWins(files: seq<PrFile>, i: nat)
    requires PositionIndex(files).Success? && i < |files|
    requires forall j | i < j < |files| :: files[j].filename != files[i].filename
    ensures files[i].filename in PositionIndex(files).value
    ensures FilePositions(files[i]).Success?
    ensures PositionIndex(files).value[files[i].filename] == FilePositions(files[i]).value
    decreases |files|
  {
    var n := |files| - 1;
    var prefix := files[..n];
    if i < n {
      assert prefix[i] == files[i];
      PositionIndexLastWins(prefix, i);
    }
  }

  /** Every file whose patch walks has an entry, and the index fails exactly
      when the patch of some file fails. */
  lemma {:induction false} PositionIndexFailure(files: seq<PrFile>)
    ensures PositionIndex(files).Failure? <==> exists i | 0 <= i < |files| :: FilePositions(files[i]).Failure?
    decreases |files|
  {
    if |files| > 0 {
      var n := |files| - 1;
      var prefix := files[..n];
      PositionIndexFailure(prefix);
      if PositionIndex(prefix).Failure? {
        var i :| 0 <= i < n && FilePositions(prefix[i]).Failure?;
        assert prefix[i] == files[i];
      } else if PositionIndex(files).Success? {
        forall i | 0 <= i < |files| ensures FilePositions(files[i]).Success? {
          if i < n { assert prefix[i] == files[i]; }
        }
      }
    }
  }

  /** A file without a patch is in the index with no lines. */
  lemma NoPatchNoLines(files: seq<PrFile>, i: nat)
    requires PositionIndex(files).Success? && i < |files| && files[i].patch.None?
    requires forall j | i < j < |files| :: files[j].filename != files[i].filename
    ensures files[i].filename in PositionIndex(files).value
    ensures PositionIndex(files).value[files[i].filename] == map[]
  {
    PositionIndexLastWins(files, i);
  }
}
