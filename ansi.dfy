/**
 * The ANSI colour segmenter of the output pane (`parse_ansi_colors`).
 *
 * A line of scanner output is cut at every match of the pattern
 * `ESC [ ([0-9;]*) ([a-zA-Z])`, which is the SGR control sequence of
 * ECMA-48 (section 8.3.117) and its relatives.  The text between matches is
 * emitted with the colour in force; an SGR sequence (final letter `m`) sets
 * that colour to the entry of the first of its `;`-separated codes that the
 * colour table knows.
 */
module Ansi {
  import opened Wrappers
  import opened Strings

  const Esc: char := '\U{1B}'
  const Black: string := "black"

  /** `ansi_color_map`: foreground codes 30-37 and 90-96 to colour names. */
  const ColorMap: map<string, string> := map[
    "30" := "black", "31" := "red", "32" := "green", "33" := "yellow",
    "34" := "blue", "35" := "magenta", "36" := "cyan", "37" := "white",
    "90" := "gray", "91" := "lightcoral", "92" := "lightgreen",
    "93" := "lightyellow", "94" := "lightblue", "95" := "pink", "96" := "lightcyan"
  ]

  /** A colour the pane can show: a value of the table (which includes black). */
  predicate KnownColor(c: string) {
    c in ColorMap.Values
  }

  lemma BlackIsKnown()
    ensures KnownColor(Black)
  {
    assert ColorMap["30"] == Black;
  }

  /** The character class `[0-9;]`. */
  predicate IsParamChar(c: char) {
    '0' <= c <= '9' || c == ';'
  }

  /** The character class `[a-zA-Z]`. */
  predicate IsLetter(c: char) {
    'a' <= c <= 'z' || 'A' <= c <= 'Z'
  }

  /** The end of the longest run of parameter characters that starts at `i`. */
  function ParamEnd(s: string, i: nat): (j: nat)
    requires i <= |s|
    ensures i <= j <= |s|
    ensures forall k :: i <= k < j ==> IsParamChar(s[k])
    ensures j < |s| ==> !IsParamChar(s[j])
    decreases |s| - i
  {
    if i < |s| && IsParamChar(s[i]) then ParamEnd(s, i + 1) else i
  }

  /**
   * The pattern matches `s[i..j+1]`: ESC, `[`, parameter characters, and the
   * letter `s[j]`.  This is the regular expression read literally, with every
   * choice of `j` a backtracking engine could try.
   */
  ghost predicate PatternAt(s: string, i: nat, j: int) {
    && i + 2 <= j < |s|
    && s[i] == Esc && s[i + 1] == '['
    && (forall k :: i + 2 <= k < j ==> IsParamChar(s[k]))
    && IsLetter(s[j])
  }

  /** One match of the pattern: `s[start..end]`, group 1 and group 2. */
  datatype Escape = Escape(start: nat, end: nat, params: string, command: char)

  /** The match of the pattern that starts exactly at `i`, if any. */
  function MatchAt(s: string, i: nat): (m: Option<Escape>)
    ensures m.Some? ==> m.value.start == i && i + 3 <= m.value.end <= |s|
  {
    if i + 2 <= |s| && s[i] == Esc && s[i + 1] == '[' then
      var j := ParamEnd(s, i + 2);
      if j < |s| && IsLetter(s[j]) then Some(Escape(i, j + 1, s[i + 2..j], s[j])) else None
    else
      None
  }

  /**
   * `MatchAt` agrees with the pattern read literally: it finds a match exactly
   * when some final letter can follow a run of parameter characters, and then
   * the match ends at that letter.  Since no letter is a parameter character,
   * backtracking can never help, so the longest run is the only candidate.
   */
  lemma MatchAtIff(s: string, i: nat, j: int)
    ensures PatternAt(s, i, j) <==>
              && MatchAt(s, i).Some? && MatchAt(s, i).value.end == j + 1
    ensures MatchAt(s, i).Some? ==>
              var e := MatchAt(s, i).value;
              && PatternAt(s, i, e.end - 1)
              && e.params == s[i + 2..e.end - 1] && e.command == s[e.end - 1]
  {
    if PatternAt(s, i, j) {
      var pe := ParamEnd(s, i + 2);
      assert pe == j;
    }
  }

  /** Every match in `ms` is a non-empty stretch of `s`. */
  ghost predicate InBounds(s: string, ms: seq<Escape>) {
    forall k :: 0 <= k < |ms| ==> ms[k].start < ms[k].end <= |s|
  }

  /** `re.finditer` of the pattern over `s`, starting at `from`. */
  function Matches(s: string, from: nat): (ms: seq<Escape>)
    requires from <= |s|
    ensures forall k :: 0 <= k < |ms| ==> from <= ms[k].start < ms[k].end <= |s|
    decreases |s| - from
  {
    if from == |s| then []
    else match MatchAt(s, from)
      case Some(e) => [e] + Matches(s, e.end)
      case None => Matches(s, from + 1)
  }

  /** Every element of the scan is the match of the pattern at its own start. */
  lemma {:induction false} MatchesSound(s: string, from: nat)
    requires from <= |s|
    ensures forall k :: 0 <= k < |Matches(s, from)| ==>
              MatchAt(s, Matches(s, from)[k].start) == Some(Matches(s, from)[k])
    decreases |s| - from
  {
    if from < |s| {
      match MatchAt(s, from)
      case Some(e) =>
        MatchesSound(s, e.end);
        var ms, rest := Matches(s, from), Matches(s, e.end);
        assert ms == [e] + rest;
        assert MatchAt(s, ms[0].start) == Some(ms[0]);
        forall k | 1 <= k < |ms| ensures MatchAt(s, ms[k].start) == Some(ms[k]) {
          assert ms[k] == rest[k - 1];
          assert MatchAt(s, rest[k - 1].start) == Some(rest[k - 1]);
        }
      case None =>
        assert Matches(s, from) == Matches(s, from + 1);
        MatchesSound(s, from + 1);
    }
  }

  /**
   * The scan is leftmost: no match starts in the text skipped before the
   * first match found, nor after the last one.
   */
  lemma {:induction false} MatchesLeftmost(s: string, from: nat)
    requires from <= |s|
    ensures var ms := Matches(s, from);
            forall p :: from <= p < (if ms == [] then |s| else ms[0].start) ==> MatchAt(s, p).None?
    decreases |s| - from
  {
    if from < |s| && MatchAt(s, from).None? {
      MatchesLeftmost(s, from + 1);
    }
  }

  /** The matches in `ms` come in order and do not overlap. */
  ghost predicate Ordered(ms: seq<Escape>) {
    forall i, j :: 0 <= i < j < |ms| ==> ms[i].end <= ms[j].start
  }

  /** A match ending before every match of an ordered sequence extends it in order. */
  lemma OrderedCons(e: Escape, rest: seq<Escape>)
    requires Ordered(rest)
    requires forall k :: 0 <= k < |rest| ==> e.end <= rest[k].start
    ensures Ordered([e] + rest)
  {
    var ms := [e] + rest;
    forall i, j | 0 <= i < j < |ms| ensures ms[i].end <= ms[j].start {
      assert ms[j] == rest[j - 1];
      if i > 0 {
        assert ms[i] == rest[i - 1];
      }
    }
  }

  /** The matches of the scan come in order and do not overlap. */
  lemma {:induction false} MatchesOrdered(s: string, from: nat)
    requires from <= |s|
    ensures Ordered(Matches(s, from))
    decreases |s| - from
  {
    if from < |s| {
      match MatchAt(s, from)
      case Some(e) =>
        MatchesOrdered(s, e.end);
        OrderedCons(e, Matches(s, e.end));
        assert Matches(s, from) == [e] + Matches(s, e.end);
      case None =>
        MatchesOrdered(s, from + 1);
        assert Matches(s, from) == Matches(s, from + 1);
    }
  }

  /** The text of `s` from `i` on with every matched escape sequence removed. */
  function VisibleFrom(s: string, i: nat): string
    requires i <= |s|
    decreases |s| - i
  {
    if i == |s| then ""
    else match MatchAt(s, i)
      case Some(e) => VisibleFrom(s, e.end)
      case None => [s[i]] + VisibleFrom(s, i + 1)
  }

  function Visible(s: string): string {
    VisibleFrom(s, 0)
  }

  /** One rendered fragment: a piece of text and the colour tag it is shown with. */
  datatype Segment = Segment(text: string, color: string)

  /** The texts of `parts`, concatenated in order. */
  function Concat(parts: seq<Segment>): string {
    if parts == [] then "" else Concat(parts[..|parts| - 1]) + parts[|parts| - 1].text
  }

  /**
   * The colour after an SGR sequence with codes `codes`: the table entry of
   * the first code the table knows, or `current` when it knows none.
   */
  function SgrColor(codes: seq<string>, current: string): (c: string)
    ensures c == current || KnownColor(c)
    ensures (forall k :: 0 <= k < |codes| ==> codes[k] !in ColorMap) ==> c == current
    ensures forall k :: 0 <= k < |codes| && codes[k] in ColorMap &&
                          (forall j :: 0 <= j < k ==> codes[j] !in ColorMap)
                        ==> c == ColorMap[codes[k]]
  {
    if codes == [] then current
    else if codes[0] in ColorMap then ColorMap[codes[0]]
    else
      var c := SgrColor(codes[1..], current);
      assert forall k :: 1 <= k < |codes| ==> codes[k] == codes[1..][k - 1];
      c
  }

  /** The variables of the scanning loop: `last_end`, `current_color`, `result_parts`. */
  datatype ScanState = ScanState(lastEnd: nat, color: string, parts: seq<Segment>)

  /** The loop state before the first match: nothing emitted, colour black. */
  const Initial: ScanState := ScanState(0, Black, [])

  /** One iteration of the loop, for the match `e`. */
  function Step(s: string, st: ScanState, e: Escape): ScanState
    requires st.lastEnd <= |s| && e.start < e.end <= |s|
  {
    var parts := if e.start > st.lastEnd
                 then st.parts + [Segment(s[st.lastEnd..e.start], st.color)]
                 else st.parts;
    var color := if e.command == 'm' then SgrColor(Split(e.params, ';'), st.color) else st.color;
    ScanState(e.end, color, parts)
  }

  /** The loop state once the matches `ms` have been processed from `st` on. */
  function Run(s: string, st: ScanState, ms: seq<Escape>): (r: ScanState)
    requires st.lastEnd <= |s| && InBounds(s, ms)
    ensures r.lastEnd <= |s|
    ensures r.lastEnd == if ms == [] then st.lastEnd else ms[|ms| - 1].end
    decreases |ms|
  {
    if ms == [] then st else Run(s, Step(s, st, ms[0]), ms[1..])
  }

  /** Running the loop over a non-empty list is one step followed by the rest. */
  lemma RunCons(s: string, st: ScanState, ms: seq<Escape>)
    requires st.lastEnd <= |s| && InBounds(s, ms) && ms != []
    ensures InBounds(s, ms[1..])
    ensures Run(s, st, ms) == Run(s, Step(s, st, ms[0]), ms[1..])
  {
  }

  /** The trailing text after the loop, and the fallback when nothing was emitted. */
  function Finish(s: string, st: ScanState): seq<Segment>
    requires st.lastEnd <= |s|
  {
    var parts := if st.lastEnd < |s| then st.parts + [Segment(s[st.lastEnd..], st.color)] else st.parts;
    if parts == [] then [Segment(s, Black)] else parts
  }

  /** What `parse_ansi_colors(s)` returns. */
  function Segments(s: string): seq<Segment> {
    Finish(s, Run(s, Initial, Matches(s, 0)))
  }

  /** The scan resumes after its first match with the rest of the matches. */
  lemma {:induction false} MatchesAfterFirst(s: string, a: nat)
    requires a <= |s| && Matches(s, a) != []
    ensures Matches(s, Matches(s, a)[0].end) == Matches(s, a)[1..]
    decreases |s| - a
  {
    if MatchAt(s, a).Some? {
      var e := MatchAt(s, a).value;
      assert Matches(s, a) == [e] + Matches(s, e.end);
    } else {
      assert Matches(s, a) == Matches(s, a + 1);
      MatchesAfterFirst(s, a + 1);
    }
  }

  /** A character where no escape matches is visible. */
  lemma VisibleStep(s: string, a: nat)
    requires a < |s| && MatchAt(s, a).None?
    ensures VisibleFrom(s, a) == [s[a]] + VisibleFrom(s, a + 1)
  {
  }

  /** Over a stretch where no escape matches, the visible text is the text itself. */
  lemma {:induction false} VisibleGap(s: string, a: nat, b: nat)
    requires a <= b <= |s|
    requires forall p :: a <= p < b ==> MatchAt(s, p).None?
    ensures VisibleFrom(s, a) == s[a..b] + VisibleFrom(s, b)
    decreases b - a
  {
    if a < b {
      VisibleGap(s, a + 1, b);
      VisibleStep(s, a);
      var rest := VisibleFrom(s, b);
      assert s[a..b] == [s[a]] + s[a + 1..b];
      assert [s[a]] + (s[a + 1..b] + rest) == ([s[a]] + s[a + 1..b]) + rest;
    }
  }

  /** Up to the first match the visible text is the text itself; the match is hidden. */
  lemma VisibleAtMatch(s: string, a: nat)
    requires a <= |s| && Matches(s, a) != []
    ensures a <= Matches(s, a)[0].start < Matches(s, a)[0].end <= |s|
    ensures VisibleFrom(s, a) == s[a..Matches(s, a)[0].start] + VisibleFrom(s, Matches(s, a)[0].end)
  {
    MatchesLeftmost(s, a);
    MatchesSound(s, a);
    var e := Matches(s, a)[0];
    VisibleGap(s, a, e.start);
    assert MatchAt(s, e.start) == Some(e);
    assert VisibleFrom(s, e.start) == VisibleFrom(s, e.end);
  }

  /** After the last match the rest of the text is visible as it is. */
  lemma VisibleAfterMatches(s: string, a: nat)
    requires a <= |s| && Matches(s, a) == []
    ensures VisibleFrom(s, a) == s[a..]
  {
    MatchesLeftmost(s, a);
    VisibleGap(s, a, |s|);
  }

  /**
   * One loop iteration moves the gap before the match from the text still to
   * be scanned (`before`, which is the gap followed by `after`) to the
   * emitted text.
   */
  lemma StepConcat(s: string, st: ScanState, e: Escape, before: string, after: string)
    requires st.lastEnd <= e.start < e.end <= |s|
    requires before == s[st.lastEnd..e.start] + after
    ensures Concat(Step(s, st, e).parts) + after == Concat(st.parts) + before
  {
    var emitted, gap := Concat(st.parts), s[st.lastEnd..e.start];
    if e.start == st.lastEnd {
      assert gap == "";
      assert before == after;
    } else {
      assert Concat(Step(s, st, e).parts) == emitted + gap;
      assert (emitted + gap) + after == emitted + (gap + after);
    }
  }

  /** No emitted segment has an empty text. */
  ghost predicate TextsNonEmpty(parts: seq<Segment>) {
    forall j :: 0 <= j < |parts| ==> parts[j].text != ""
  }

  /** The current colour and every emitted colour are black or from the table. */
  ghost predicate ColorsKnown(st: ScanState) {
    && (forall j :: 0 <= j < |st.parts| ==> KnownColor(st.parts[j].color))
    && KnownColor(st.color)
  }

  /** The loop never emits an empty text. */
  lemma {:induction false} RunTexts(s: string, st: ScanState, ms: seq<Escape>)
    requires st.lastEnd <= |s| && InBounds(s, ms)
    requires TextsNonEmpty(st.parts)
    ensures TextsNonEmpty(Run(s, st, ms).parts)
    decreases |ms|
  {
    if ms != [] {
      RunTexts(s, Step(s, st, ms[0]), ms[1..]);
    }
  }

  /** The loop never picks up a colour outside the table. */
  lemma {:induction false} RunColors(s: string, st: ScanState, ms: seq<Escape>)
    requires st.lastEnd <= |s| && InBounds(s, ms)
    requires ColorsKnown(st)
    ensures ColorsKnown(Run(s, st, ms))
    decreases |ms|
  {
    if ms != [] {
      RunColors(s, Step(s, st, ms[0]), ms[1..]);
    }
  }

  /**
   * The loop invariant of the segmenter: running the loop over the scan from
   * `last_end` moves exactly the visible text from `last_end` on into the
   * emitted texts, and stops where no further match is found.
   */
  lemma {:induction false} RunVisible(s: string, st: ScanState)
    requires st.lastEnd <= |s|
    ensures var r := Run(s, st, Matches(s, st.lastEnd));
            && Concat(r.parts) + VisibleFrom(s, r.lastEnd) == Concat(st.parts) + VisibleFrom(s, st.lastEnd)
            && Matches(s, r.lastEnd) == []
    decreases |s| - st.lastEnd
  {
    var a := st.lastEnd;
    var ms := Matches(s, a);
    if ms != [] {
      var e := ms[0];
      VisibleAtMatch(s, a);
      MatchesAfterFirst(s, a);
      var next := Step(s, st, e);
      assert next.lastEnd == e.end;
      StepConcat(s, st, e, VisibleFrom(s, a), VisibleFrom(s, e.end));
      RunVisible(s, next);
      var r := Run(s, next, Matches(s, e.end));
      assert Run(s, st, ms) == r;
      assert Concat(r.parts) + VisibleFrom(s, r.lastEnd) == Concat(next.parts) + VisibleFrom(s, e.end);
    }
  }

  /** A sequence of non-empty fragments concatenates to "" only when it is empty. */
  lemma ConcatNonEmpty(parts: seq<Segment>)
    requires parts != []
    requires parts[|parts| - 1].text != ""
    ensures Concat(parts) != ""
  {
  }

  /**
   * Output shape: when some text is visible, the segments are non-empty and
   * concatenate to the input with every matched escape removed; when none is,
   * the result is the single fallback segment holding the raw input in black.
   */
  lemma SegmentsShape(s: string)
    ensures Visible(s) == "" ==> Segments(s) == [Segment(s, Black)]
    ensures Visible(s) != "" ==>
              && Concat(Segments(s)) == Visible(s)
              && forall j :: 0 <= j < |Segments(s)| ==> Segments(s)[j].text != ""
  {
    assert Initial.lastEnd == 0 && Concat(Initial.parts) == "";
    RunVisible(s, Initial);
    RunTexts(s, Initial, Matches(s, 0));
    var st := Run(s, Initial, Matches(s, 0));
    assert Segments(s) == Finish(s, st);
    VisibleAfterMatches(s, st.lastEnd);
    FinishShape(s, st, Visible(s));
  }

  /** The trailing text completes the emitted texts; the fallback covers the empty case. */
  lemma FinishShape(s: string, st: ScanState, v: string)
    requires st.lastEnd <= |s|
    requires TextsNonEmpty(st.parts)
    requires Concat(st.parts) + s[st.lastEnd..] == v
    ensures v == "" ==> Finish(s, st) == [Segment(s, Black)]
    ensures v != "" ==>
              && Concat(Finish(s, st)) == v
              && forall j :: 0 <= j < |Finish(s, st)| ==> Finish(s, st)[j].text != ""
  {
    if st.lastEnd < |s| {
      var parts := st.parts + [Segment(s[st.lastEnd..], st.color)];
      assert parts[..|parts| - 1] == st.parts;
      assert Concat(parts) == v;
      ConcatNonEmpty(parts);
    } else {
      assert s[st.lastEnd..] == "";
      if st.parts != [] {
        ConcatNonEmpty(st.parts);
      }
    }
  }

  /** Every colour the segmenter emits is black or a value of the colour table. */
  lemma SegmentsColors(s: string)
    ensures forall j :: 0 <= j < |Segments(s)| ==> KnownColor(Segments(s)[j].color)
  {
    BlackIsKnown();
    RunColors(s, Initial, Matches(s, 0));
  }

  /** No escape matches anywhere exactly when the scan finds nothing. */
  lemma NoMatchesIff(s: string)
    ensures Matches(s, 0) == [] <==> forall i :: 0 <= i < |s| ==> MatchAt(s, i).None?
  {
    if Matches(s, 0) != [] {
      MatchesSound(s, 0);
      assert MatchAt(s, Matches(s, 0)[0].start) == Some(Matches(s, 0)[0]);
    } else {
      MatchesLeftmost(s, 0);
    }
  }

  /** Input with no escape sequence comes back whole, in black (also for ""). */
  lemma SegmentsNoEscape(s: string)
    requires forall i :: 0 <= i < |s| ==> MatchAt(s, i).None?
    ensures Segments(s) == [Segment(s, Black)]
  {
    NoMatchesIff(s);
    assert s[0..] == s;
  }

  /** A line that is one colour sequence and nothing else comes back raw, in black. */
  lemma OnlyEscapeExample()
    ensures Segments("\U{1B}[31m") == [Segment("\U{1B}[31m", Black)]
  {
    var s := "\U{1B}[31m";
    assert ParamEnd(s, 4) == 4;
    assert ParamEnd(s, 2) == 4;
    assert s[0] == Esc && s[1] == '[' && s[2..4] == "31" && IsLetter(s[4]);
    assert MatchAt(s, 0) == Some(Escape(0, 5, "31", 'm'));
    assert Visible(s) == VisibleFrom(s, 5) == "";
    SegmentsShape(s);
  }

  /** Running the loop over two matches is two steps. */
  lemma RunTwo(s: string, st: ScanState, e1: Escape, e2: Escape)
    requires st.lastEnd <= |s| && InBounds(s, [e1, e2])
    ensures e1.end <= |s| && e1.start < e1.end
    ensures Run(s, st, [e1, e2]) == Step(s, Step(s, st, e1), e2)
  {
    assert [e1, e2][0] == e1 && [e1, e2][1] == e2;
    RunCons(s, st, [e1, e2]);
    assert [e1, e2][1..] == [e2];
    RunCons(s, Step(s, st, e1), [e2]);
    assert [e2][1..] == [];
  }

  /** The scan passes over a stretch that holds no ESC. */
  lemma {:induction false} MatchesSkip(s: string, from: nat, until: nat)
    requires from <= until <= |s|
    requires forall p :: from <= p < until ==> s[p] != Esc
    ensures Matches(s, from) == Matches(s, until)
    decreases |s| - from
  {
    if from < until {
      assert MatchAt(s, from).None?;
      MatchesSkip(s, from + 1, until);
    }
  }

  /** `ESC[31m`, red. */
  const SetRed: string := [Esc, '[', '3', '1', 'm']
  /** `ESC[0m`, the SGR reset. */
  const Reset: string := [Esc, '[', '0', 'm']

  /** Where the pieces of `ESC[31m a ESC[0m c` sit. */
  lemma ResetPieces(a: string, c: string)
    ensures var s, n := SetRed + a + Reset + c, |a|;
            && |s| == 9 + n + |c|
            && s[..5] == SetRed && s[5..5 + n] == a && s[5 + n..9 + n] == Reset && s[9 + n..] == c
  {
  }

  /** `31` is red in the table and `0` is not in it. */
  lemma RedAndReset()
    ensures ColorMap["31"] == "red" && "0" !in ColorMap
  {
  }

  /** `ESC[31m` is matched whole, with parameters `31` and command `m`. */
  lemma SetRedMatch(s: string, k: nat)
    requires k + 5 <= |s| && s[k..k + 5] == SetRed
    ensures MatchAt(s, k) == Some(Escape(k, k + 5, "31", 'm'))
  {
    assert s[k] == Esc && s[k + 1] == '[' && s[k + 2] == '3' && s[k + 3] == '1' && s[k + 4] == 'm';
    assert ParamEnd(s, k + 4) == k + 4 && ParamEnd(s, k + 2) == k + 4;
    assert s[k + 2..k + 4] == "31";
  }

  /** `ESC[0m` is matched whole, with parameters `0` and command `m`. */
  lemma ResetMatch(s: string, k: nat)
    requires k + 4 <= |s| && s[k..k + 4] == Reset
    ensures MatchAt(s, k) == Some(Escape(k, k + 4, "0", 'm'))
  {
    assert s[k] == Esc && s[k + 1] == '[' && s[k + 2] == '0' && s[k + 3] == 'm';
    assert ParamEnd(s, k + 3) == k + 3 && ParamEnd(s, k + 2) == k + 3;
    assert s[k + 2..k + 3] == "0";
  }

  /** A final `ESC[0m` followed by text without ESC is the last match. */
  lemma ResetLastMatch(s: string, k: nat)
    requires k + 4 <= |s| && s[k..k + 4] == Reset
    requires forall p :: k + 4 <= p < |s| ==> s[p] != Esc
    ensures Matches(s, k) == [Escape(k, k + 4, "0", 'm')]
  {
    ResetMatch(s, k);
    assert Matches(s, k) == [Escape(k, k + 4, "0", 'm')] + Matches(s, k + 4);
    MatchesSkip(s, k + 4, |s|);
  }

  /** The two escapes of `ESC[31m a ESC[0m c` are the matches the scan finds. */
  lemma ResetMatches(a: string, c: string)
    requires Esc !in a && Esc !in c
    ensures var s := SetRed + a + Reset + c;
            Matches(s, 0) == [Escape(0, 5, "31", 'm'), Escape(5 + |a|, 9 + |a|, "0", 'm')]
  {
    var s := SetRed + a + Reset + c;
    var n := |a|;
    ResetPieces(a, c);
    SetRedMatch(s, 0);
    assert Matches(s, 0) == [Escape(0, 5, "31", 'm')] + Matches(s, 5);
    forall p | 5 <= p < 5 + n ensures s[p] != Esc {
      assert s[p] == a[p - 5];
    }
    MatchesSkip(s, 5, 5 + n);
    forall p | 9 + n <= p < |s| ensures s[p] != Esc {
      assert s[p] == c[p - 9 - n];
    }
    ResetLastMatch(s, 5 + n);
  }

  /** `ESC[31m` at the start of a line turns the colour red and emits nothing. */
  lemma SetRedStep(s: string)
    requires 5 <= |s|
    ensures Step(s, Initial, Escape(0, 5, "31", 'm')) == ScanState(5, "red", [])
  {
    SplitSingle("31", ';');
    RedAndReset();
    assert SgrColor(["31"], Black) == "red";
  }

  /** `ESC[0m` emits the red text before it and leaves the colour red. */
  lemma ResetStep(s: string, start: nat, end: nat)
    requires 5 < start < end <= |s|
    ensures Step(s, ScanState(5, "red", []), Escape(start, end, "0", 'm'))
            == ScanState(end, "red", [Segment(s[5..start], "red")])
  {
    SplitSingle("0", ';');
    RedAndReset();
    assert SgrColor(["0"], "red") == "red";
  }

  /** The loop over `ESC[31m a ESC[0m c` ends red, having emitted `a` in red. */
  lemma ResetRun(a: string, c: string)
    requires a != "" && Esc !in a && Esc !in c
    ensures var s := SetRed + a + Reset + c;
            Run(s, Initial, Matches(s, 0)) == ScanState(9 + |a|, "red", [Segment(a, "red")])
  {
    var s := SetRed + a + Reset + c;
    var n := |a|;
    var e1, e2 := Escape(0, 5, "31", 'm'), Escape(5 + n, 9 + n, "0", 'm');
    ResetMatches(a, c);
    ResetPieces(a, c);
    RunTwo(s, Initial, e1, e2);
    SetRedStep(s);
    ResetStep(s, 5 + n, 9 + n);
  }

  /**
   * Code `0` does not reset: after `ESC[31m` the colour stays red across
   * `ESC[0m`, so the texts on both sides are shown in red.
   */
  lemma ResetKeepsColor(a: string, c: string)
    requires a != "" && c != "" && Esc !in a && Esc !in c
    ensures Segments(SetRed + a + Reset + c) == [Segment(a, "red"), Segment(c, "red")]
  {
    ResetRun(a, c);
    ResetPieces(a, c);
  }

  /**
   * The inner loop over the codes of one `m` command: the colour of the first
   * code found in the table, or the current colour when none is.
   */
  method ApplyCodes(codes: seq<string>, current: string) returns (color: string)
    ensures color == SgrColor(codes, current)
  {
    color := current;
    var j := 0;
    while j < |codes|
      invariant 0 <= j <= |codes|
      invariant color == current
      invariant SgrColor(codes[j..], current) == SgrColor(codes, current)
    {
      if codes[j] in ColorMap {
        color := ColorMap[codes[j]];
        break;
      }
      assert codes[j..][1..] == codes[j + 1..];
      j := j + 1;
    }
  }

  /** The loop of `parse_ansi_colors`, over the matches of `finditer`. */
  method ParseAnsiColors(text: string) returns (parts: seq<Segment>)
    ensures parts == Segments(text)
    ensures Visible(text) == "" ==> parts == [Segment(text, Black)]
    ensures Visible(text) != "" ==>
              && Concat(parts) == Visible(text)
              && forall j :: 0 <= j < |parts| ==> parts[j].text != ""
    ensures forall j :: 0 <= j < |parts| ==> KnownColor(parts[j].color)
  {
    var matches := Matches(text, 0);
    var resultParts: seq<Segment> := [];
    var lastEnd: nat := 0;
    var currentColor := Black;
    ghost var rest := matches;
    for n := 0 to |matches|
      invariant lastEnd <= |text|
      invariant rest == matches[n..]
      invariant Run(text, ScanState(lastEnd, currentColor, resultParts), rest) == Run(text, Initial, matches)
    {
      var m := matches[n];
      ghost var before := ScanState(lastEnd, currentColor, resultParts);
      RunCons(text, before, rest);
      if m.start > lastEnd {
        resultParts := resultParts + [Segment(text[lastEnd..m.start], currentColor)];
      }
      if m.command == 'm' {
        currentColor := ApplyCodes(Split(m.params, ';'), currentColor);
      }
      lastEnd := m.end;
      rest := rest[1..];
    }
    assert rest == [];
    if lastEnd < |text| {
      resultParts := resultParts + [Segment(text[lastEnd..], currentColor)];
    }
    parts := if resultParts != [] then resultParts else [Segment(text, Black)];
    SegmentsShape(text);
    SegmentsColors(text);
  }
}
