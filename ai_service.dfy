/** The three response scrapers of src/services/aiService.js. Each regular
    expression is restated as an explicit scanning predicate (what a match is)
    together with the choice the regular-expression engine makes among the
    matches (leftmost start, greedy and lazy quantifiers); the functions that
    compute the result are proved to make that choice. Keywords are literal
    strings. */
module AiService {
  import opened Common
  import opened Text

  /** End of the maximal run of characters satisfying `p` from `i`. A greedy
      `\d+` or `\s*` takes exactly this run whenever what follows it cannot
      begin with such a character. */
  function RunEnd(s: string, i: nat, p: char -> bool): (j: nat)
    requires i <= |s|
    ensures i <= j <= |s|
    ensures forall k :: i <= k < j ==> p(s[k])
    ensures j < |s| ==> !p(s[j])
    decreases |s| - i
  {
    if i == |s| || !p(s[i]) then i else RunEnd(s, i + 1, p)
  }

  // ---------------------------------------------------------------------------
  // extractSection: new RegExp(keyword + "[:\\s]+(.*?)(?:\\n\\n|$)", "i")

  /** `[:\s]`. */
  predicate SepChar(c: char)
  {
    c == ':' || IsJsSpace(c)
  }

  /** `(?:\n\n|$)` at `e`: "\n\n" starts there or the text ends there (no `m`
      flag, so `$` is the end of the whole text). */
  predicate TailAt(text: string, e: nat)
  {
    e == |text| || (e + 2 <= |text| && text[e] == '\n' && text[e + 1] == '\n')
  }

  /** One way the pattern matches: the keyword at `p` (ignoring case), a
      non-empty run of separators up to `q`, the capture `text[q..e]` with no
      line terminator in it (`.` without the `s` flag), then the tail at `e`. */
  predicate MatchAt(text: string, keyword: string, p: nat, q: nat, e: nat)
  {
    && OccursCIAt(text, keyword, p)
    && p + |keyword| < q <= e <= |text|
    && (forall i :: p + |keyword| <= i < q ==> SepChar(text[i]))
    && (forall i :: q <= i < e ==> !IsLineTerminator(text[i]))
    && TailAt(text, e)
  }

  /** No match starts before `p`. */
  ghost predicate Leftmost(text: string, keyword: string, p: nat)
  {
    forall p': nat, q: nat, e: nat :: p' < p ==> !MatchAt(text, keyword, p', q, e)
  }

  /** At `p`, no match has a longer separator run than `q` (greedy `+`). */
  ghost predicate Greedy(text: string, keyword: string, p: nat, q: nat)
  {
    forall q': nat, e: nat :: q < q' ==> !MatchAt(text, keyword, p, q', e)
  }

  predicate NotLineTerminator(c: char)
  {
    !IsLineTerminator(c)
  }

  /** The first line terminator at or after `q`, or the end of the text. */
  function LineEnd(text: string, q: nat): (e: nat)
    requires q <= |text|
    ensures q <= e <= |text|
    ensures forall k :: q <= k < e ==> !IsLineTerminator(text[k])
    ensures e < |text| ==> IsLineTerminator(text[e])
  {
    RunEnd(text, q, NotLineTerminator)
  }

  /** Given where the capture starts, the lazy `(.*?)` can only stop at the
      first line terminator: the match is determined by `p` and `q`. */
  lemma CaptureEndsAtLineEnd(text: string, keyword: string, p: nat, q: nat, e: nat)
    requires MatchAt(text, keyword, p, q, e)
    ensures e == LineEnd(text, q)
  {
    var t := LineEnd(text, q);
    if e < t {
      assert IsLineTerminator(text[e]);
    }
  }

  /** Backtracking of `[:\s]+` from `q` down: the longest separator run
      ending at or before `q` after which the capture reaches the tail. */
  function LongestSeparator(text: string, keyword: string, p: nat, q: nat): (r: Option<nat>)
    requires OccursCIAt(text, keyword, p)
    requires p + |keyword| <= q <= RunEnd(text, p + |keyword|, SepChar)
    ensures r.None? ==> forall q': nat, e: nat :: q' <= q ==> !MatchAt(text, keyword, p, q', e)
    ensures r.Some? ==> r.value <= q
    ensures r.Some? ==> MatchAt(text, keyword, p, r.value, LineEnd(text, r.value))
    ensures r.Some? ==> forall q': nat, e: nat :: r.value < q' <= q ==> !MatchAt(text, keyword, p, q', e)
    decreases q
  {
    if q == p + |keyword| then None
    else if TailAt(text, LineEnd(text, q)) then Some(q)
    else
      assert forall e: nat :: !MatchAt(text, keyword, p, q, e) by {
        forall e: nat ensures !MatchAt(text, keyword, p, q, e) {
          if MatchAt(text, keyword, p, q, e) {
            CaptureEndsAtLineEnd(text, keyword, p, q, e);
          }
        }
      }
      LongestSeparator(text, keyword, p, q - 1)
  }

  /** The engine's attempt at `p`: the greedy separator run first. */
  function MatchFrom(text: string, keyword: string, p: nat): (r: Option<nat>)
    requires OccursCIAt(text, keyword, p)
    ensures r.None? ==> forall q: nat, e: nat :: !MatchAt(text, keyword, p, q, e)
    ensures r.Some? ==> r.value <= |text| && MatchAt(text, keyword, p, r.value, LineEnd(text, r.value))
    ensures r.Some? ==> Greedy(text, keyword, p, r.value)
  {
    var a := p + |keyword|;
    var top := RunEnd(text, a, SepChar);
    assert forall q: nat, e: nat :: top < q ==> !MatchAt(text, keyword, p, q, e) by {
      forall q: nat, e: nat | top < q ensures !MatchAt(text, keyword, p, q, e) {
        if top < |text| {
          assert !SepChar(text[top]);
        }
      }
    }
    LongestSeparator(text, keyword, p, top)
  }

  /** String.prototype.match without the `g` flag: the first start position
      from `p` on at which the pattern matches, with its separator end. */
  function FirstMatch(text: string, keyword: string, p: nat): (r: Option<(nat, nat)>)
    ensures r.None? ==> forall p': nat, q: nat, e: nat :: p <= p' ==> !MatchAt(text, keyword, p', q, e)
    ensures r.Some? ==> p <= r.value.0 && r.value.1 <= |text|
    ensures r.Some? ==> MatchAt(text, keyword, r.value.0, r.value.1, LineEnd(text, r.value.1))
    ensures r.Some? ==> forall p': nat, q: nat, e: nat :: p <= p' < r.value.0 ==> !MatchAt(text, keyword, p', q, e)
    ensures r.Some? ==> Greedy(text, keyword, r.value.0, r.value.1)
    decreases |text| + 1 - p
  {
    if p > |text| then None
    else if !OccursCIAt(text, keyword, p) then FirstMatch(text, keyword, p + 1)
    else match MatchFrom(text, keyword, p)
      case Some(q) => Some((p, q))
      case None => FirstMatch(text, keyword, p + 1)
  }

  /** extractSection: the trimmed capture of the leftmost, greedy match, or
      '' when the pattern matches nowhere. The result never spans a line. */
  function ExtractSection(text: string, keyword: string): (r: string)
    ensures (forall p: nat, q: nat, e: nat :: !MatchAt(text, keyword, p, q, e)) ==> r == ""
    ensures forall p: nat, q: nat, e: nat ::
      (MatchAt(text, keyword, p, q, e) && Leftmost(text, keyword, p) && Greedy(text, keyword, p, q))
      ==> r == Trim(text[q..e])
    ensures IsTrimmed(r)
    ensures forall i :: 0 <= i < |r| ==> !IsLineTerminator(r[i])
  {
    match FirstMatch(text, keyword, 0)
    case None => ""
    case Some((p0, q0)) =>
      var r := Trim(text[q0..LineEnd(text, q0)]);
      assert forall p: nat, q: nat, e: nat ::
        (MatchAt(text, keyword, p, q, e) && Leftmost(text, keyword, p) && Greedy(text, keyword, p, q))
        ==> p == p0 && q == q0 && e == LineEnd(text, q0) by {
        forall p: nat, q: nat, e: nat |
          MatchAt(text, keyword, p, q, e) && Leftmost(text, keyword, p) && Greedy(text, keyword, p, q)
          ensures p == p0 && q == q0 && e == LineEnd(text, q0)
        {
          CaptureEndsAtLineEnd(text, keyword, p, q, e);
        }
      }
      assert forall i :: 0 <= i < |r| ==> !IsLineTerminator(r[i]) by {
        forall i | 0 <= i < |r| ensures !IsLineTerminator(r[i]) {
          assert r[i] in text[q0..LineEnd(text, q0)];
        }
      }
      r
  }

  /** Whenever the pattern matches somewhere, a leftmost greedy match exists,
      so the second clause of ExtractSection's contract applies. */
  lemma SectionMatchChosen(text: string, keyword: string, p: nat, q: nat, e: nat)
    requires MatchAt(text, keyword, p, q, e)
    ensures exists p0: nat, q0: nat :: q0 <= |text| && MatchAt(text, keyword, p0, q0, LineEnd(text, q0))
                                     && Leftmost(text, keyword, p0) && Greedy(text, keyword, p0, q0)
  {
    var m := FirstMatch(text, keyword, 0);
    assert m.Some?;
  }

  /** A capture whose line is not followed by the tail is no match. */
  lemma NoMatchUnlessTail(text: string, keyword: string, p: nat, q: nat, e: nat)
    requires q <= |text| && !TailAt(text, LineEnd(text, q))
    ensures !MatchAt(text, keyword, p, q, e)
  {
  }

  /** Two characters that differ ignoring case rule out an occurrence. */
  lemma MismatchAt(s: string, pat: string, p: nat, i: nat)
    requires i < |pat| && p + i < |s| && Lower(s[p + i]) != Lower(pat[i])
    ensures !OccursCIAt(s, pat, p)
  {
    if p + |pat| <= |s| {
      assert LowerStr(s[p..p + |pat|])[i] != LowerStr(pat)[i];
    }
  }

  lemma ExampleSectionLeftmost(text: string, kw: string)
    requires text == "Analysis: a\nAnalysis: b" && kw == "analysis"
    ensures Leftmost(text, kw, 12)
  {
    forall p': nat, q: nat, e: nat | p' < 12 ensures !MatchAt(text, kw, p', q, e) {
      if p' == 0 {
        if 8 < q <= 10 {
          assert RunEnd(text, 11, NotLineTerminator) == 11;
          assert RunEnd(text, 10, NotLineTerminator) == 11;
          assert LineEnd(text, q) == 11;
          NoMatchUnlessTail(text, kw, p', q, e);
        } else if 10 < q {
          assert !SepChar(text[10]);
        }
      } else if p' == 2 || p' == 10 {
        MismatchAt(text, kw, p', 1);
      } else {
        MismatchAt(text, kw, p', 0);
      }
    }
  }

  lemma ExampleSectionMatch(text: string, kw: string)
    requires text == "Analysis: a\nAnalysis: b" && kw == "analysis"
    ensures MatchAt(text, kw, 12, 22, 23) && Greedy(text, kw, 12, 22)
    ensures Trim(text[22..23]) == "b"
  {
    assert LowerStr(text[12..20]) == LowerStr(kw);
    forall q': nat, e: nat | 22 < q' ensures !MatchAt(text, kw, 12, q', e) {
      assert !SepChar(text[22]);
    }
    assert text[22..23] == "b";
  }

  /** A keyword whose first occurrence is followed by a line that ends
      with a single "\n" is skipped for a later occurrence (the text
      "Analysis: a\nAnalysis: b" gives "b"). */
  lemma SectionSkipsUnterminatedLine()
    ensures ExtractSection("Analysis: a\nAnalysis: b", "analysis") == "b"
  {
    var text := "Analysis: a\nAnalysis: b";
    ExampleSectionLeftmost(text, "analysis");
    ExampleSectionMatch(text, "analysis");
  }

  // ---------------------------------------------------------------------------
  // extractRecommendations: /\d+\.\s+(.*?)(?=\n\d+\.|$)/gs, looped with exec

  /** `\d+\.` at `i`: a digit run starting at `i` followed by a full stop.
      (A shorter digit run would be followed by a digit, never by '.'.) */
  predicate NumberedAt(text: string, i: nat)
  {
    i < |text| && IsDigit(text[i])
    && RunEnd(text, i, IsDigit) < |text| && text[RunEnd(text, i, IsDigit)] == '.'
  }

  /** `\d+\.\s+` at `p`: a numbered marker followed by at least one blank. */
  predicate ItemAt(text: string, p: nat)
  {
    NumberedAt(text, p)
    && RunEnd(text, p, IsDigit) + 1 < |text| && IsJsSpace(text[RunEnd(text, p, IsDigit) + 1])
  }

  /** The lookahead `(?=\n\d+\.|$)` holds at `e`. */
  predicate Boundary(text: string, e: nat)
  {
    e == |text| || (e < |text| && text[e] == '\n' && NumberedAt(text, e + 1))
  }

  /** Where the capture starts: after the greedy `\s+`. */
  function CaptureStart(text: string, p: nat): (w: nat)
    requires ItemAt(text, p)
    ensures p < w <= |text|
    ensures RunEnd(text, p, IsDigit) + 1 < w
    ensures forall k :: RunEnd(text, p, IsDigit) + 1 <= k < w ==> IsJsSpace(text[k])
    ensures w == |text| || !IsJsSpace(text[w])
  {
    RunEnd(text, RunEnd(text, p, IsDigit) + 1, IsJsSpace)
  }

  /** Where the lazy capture stops: the first position from `w` on where the
      lookahead holds (with the `s` flag `.` passes line terminators, and the
      end of the text always qualifies). */
  function CaptureEnd(text: string, w: nat): (e: nat)
    requires w <= |text|
    ensures w <= e <= |text| && Boundary(text, e)
    ensures forall k :: w <= k < e ==> !Boundary(text, k)
    decreases |text| - w
  {
    if Boundary(text, w) then w else CaptureEnd(text, w + 1)
  }

  /** The first position from `from` on where an item starts. */
  function NextItem(text: string, from: nat): (p: Option<nat>)
    ensures p.None? ==> forall k :: from <= k ==> !ItemAt(text, k)
    ensures p.Some? ==> from <= p.value && ItemAt(text, p.value)
    ensures p.Some? ==> forall k :: from <= k < p.value ==> !ItemAt(text, k)
    decreases |text| - from
  {
    if from >= |text| then None
    else if ItemAt(text, from) then Some(from)
    else NextItem(text, from + 1)
  }

  /** One call of `pattern.exec` with `lastIndex` at `from`: the capture
      bounds and the new `lastIndex`, or None (no further match). */
  function Exec(text: string, from: nat): (m: Option<(nat, nat)>)
    ensures m.Some? ==> from < m.value.0 <= m.value.1 <= |text|
  {
    match NextItem(text, from)
    case None => None
    case Some(p) =>
      var w := CaptureStart(text, p);
      Some((w, CaptureEnd(text, w)))
  }

  /** The list the loop builds from `lastIndex` = `from`: the trimmed captures
      in order of appearance. */
  function Recommendations(text: string, from: nat): (r: seq<string>)
    ensures forall i :: 0 <= i < |r| ==> IsTrimmed(r[i])
    decreases |text| - from
  {
    match Exec(text, from)
    case None => []
    case Some((w, e)) => [Trim(text[w..e])] + Recommendations(text, e)
  }

  /** `exec` finds nothing exactly when no item starts at or after `from`;
      then the list ends. */
  lemma ExecNone(text: string, from: nat)
    ensures Exec(text, from).None? <==> forall k :: from <= k ==> !ItemAt(text, k)
    ensures Exec(text, from).None? ==> Recommendations(text, from) == []
  {
  }

  /** Text in which no numbered item starts yields no recommendation; text in
      which one does yields at least one. */
  lemma NoItemNoRecommendations(text: string)
    ensures Recommendations(text, 0) == [] <==> forall k :: 0 <= k ==> !ItemAt(text, k)
  {
    ExecNone(text, 0);
  }

  /** One more `exec` call: the list from `from` is the capture it finds
      followed by the list from the new `lastIndex`. */
  lemma RecommendationsStep(text: string, from: nat, w: nat, e: nat)
    requires Exec(text, from) == Some((w, e))
    ensures w <= e <= |text|
    ensures Recommendations(text, from) == [Trim(text[w..e])] + Recommendations(text, e)
  {
  }

  /** The loop invariant survives one `exec` call that finds a match. */
  lemma AccumulateStep(text: string, acc: seq<string>, from: nat, w: nat, e: nat)
    requires Exec(text, from) == Some((w, e))
    requires acc + Recommendations(text, from) == Recommendations(text, 0)
    ensures w <= e <= |text|
    ensures (acc + [Trim(text[w..e])]) + Recommendations(text, e) == Recommendations(text, 0)
  {
    RecommendationsStep(text, from, w, e);
    var item := Trim(text[w..e]);
    assert (acc + [item]) + Recommendations(text, e) == acc + ([item] + Recommendations(text, e));
  }

  /** extractRecommendations: the `exec` loop, each match pushed trimmed. */
  method ExtractRecommendations(text: string) returns (recommendations: seq<string>)
    ensures recommendations == Recommendations(text, 0)
  {
    recommendations := [];
    var lastIndex := 0;
    var m := Exec(text, lastIndex);
    while m.Some?
      invariant lastIndex <= |text| && m == Exec(text, lastIndex)
      invariant recommendations + Recommendations(text, lastIndex) == Recommendations(text, 0)
      decreases |text| - lastIndex
    {
      var w, e := m.value.0, m.value.1;
      AccumulateStep(text, recommendations, lastIndex, w, e);
      recommendations := recommendations + [Trim(text[w..e])];
      lastIndex := e;
      m := Exec(text, lastIndex);
    }
    ExecNone(text, lastIndex);
    assert recommendations + [] == recommendations;
  }

  lemma ExampleFirstItem(text: string)
    requires text == "1. Plan \n2. Rest"
    ensures Exec(text, 0) == Some((3, 8))
  {
    assert RunEnd(text, 0, IsDigit) == 1;
    assert ItemAt(text, 0);
    assert RunEnd(text, 2, IsJsSpace) == 3;
    assert RunEnd(text, 10, IsDigit) == 10;
    assert Boundary(text, 8);
    assert !Boundary(text, 3) && !Boundary(text, 4) && !Boundary(text, 5);
    assert !Boundary(text, 6) && !Boundary(text, 7);
    assert CaptureEnd(text, 3) == 8;
  }

  lemma ExampleSecondItem(text: string)
    requires text == "1. Plan \n2. Rest"
    ensures Exec(text, 8) == Some((12, 16))
  {
    assert !ItemAt(text, 8);
    assert RunEnd(text, 9, IsDigit) == 10;
    assert ItemAt(text, 9);
    assert RunEnd(text, 11, IsJsSpace) == 12;
    assert !Boundary(text, 12) && !Boundary(text, 13) && !Boundary(text, 14) && !Boundary(text, 15);
    assert CaptureEnd(text, 12) == 16;
  }

  lemma ExampleCaptures(text: string)
    requires text == "1. Plan \n2. Rest"
    ensures text[3..8] == "Plan " && text[12..16] == "Rest"
  {
    var plan, rest := text[3..8], text[12..16];
    assert |plan| == 5 && plan[0] == 'P' && plan[1] == 'l' && plan[2] == 'a' && plan[3] == 'n' && plan[4] == ' ';
    assert |rest| == 4 && rest[0] == 'R' && rest[1] == 'e' && rest[2] == 's' && rest[3] == 't';
  }

  lemma ExampleTrims(plan: string, rest: string)
    requires plan == "Plan " && rest == "Rest"
    ensures Trim(plan) == "Plan" && Trim(rest) == "Rest"
  {
    TrimDropsTrailingSpace(plan[..4], ' ');
    assert plan == plan[..4] + [' '];
  }

  /** Two numbered items on two lines are both found, in order, trimmed. */
  lemma RecommendationsExample(text: string)
    requires text == "1. Plan \n2. Rest"
    ensures Recommendations(text, 0) == ["Plan", "Rest"]
  {
    ExampleFirstItem(text);
    ExampleSecondItem(text);
    RecommendationsStep(text, 0, 3, 8);
    RecommendationsStep(text, 8, 12, 16);
    ExecNone(text, 16);
    ExampleCaptures(text);
    ExampleTrims(text[3..8], text[12..16]);
  }

  // ---------------------------------------------------------------------------
  // extractSchedule

  /** `/^\d+[:.]\d+\s*[ap]m\s*-/i` on one line. Every quantifier is followed
      by something its own class cannot match, so each takes its maximal run. */
  predicate TimeRangeLine(line: string)
  {
    var d1 := RunEnd(line, 0, IsDigit);
    && 0 < d1 < |line| && (line[d1] == ':' || line[d1] == '.')
    && var d2 := RunEnd(line, d1 + 1, IsDigit);
    && d1 + 1 < d2
    && var s1 := RunEnd(line, d2, IsJsSpace);
    && s1 + 1 < |line| && (Lower(line[s1]) == 'a' || Lower(line[s1]) == 'p') && Lower(line[s1 + 1]) == 'm'
    && var s2 := RunEnd(line, s1 + 2, IsJsSpace);
    && s2 < |line| && line[s2] == '-'
  }

  /** `^word:` with the `i` flag. */
  predicate StartsWithCI(line: string, word: string)
  {
    OccursCIAt(line, word, 0)
  }

  /** The filter of extractSchedule, applied to the untrimmed line. */
  predicate ScheduleLine(line: string)
  {
    TimeRangeLine(line) || StartsWithCI(line, "morning:")
    || StartsWithCI(line, "afternoon:") || StartsWithCI(line, "evening:")
  }

  /** extractSchedule: the lines of the text (split on '\n') that the filter
      keeps, in order, each trimmed. */
  function ExtractSchedule(text: string): (r: seq<string>)
    ensures |r| <= |Split(text, '\n')|
    ensures forall i :: 0 <= i < |r| ==> IsTrimmed(r[i])
    ensures |r| == Count(Split(text, '\n'), ScheduleLine)
    ensures forall i :: 0 <= i < |r| ==> r[i] == Trim(Filter(Split(text, '\n'), ScheduleLine)[i])
  {
    var kept := Filter(Split(text, '\n'), ScheduleLine);
    seq(|kept|, i requires 0 <= i < |kept| => Trim(kept[i]))
  }

  /** Each entry is a kept line of the text, trimmed. */
  lemma ScheduleEntriesAreKeptLines(text: string, i: nat)
    requires i < |ExtractSchedule(text)|
    ensures exists line :: (line in Split(text, '\n') && ScheduleLine(line)
                            && ExtractSchedule(text)[i] == Trim(line))
  {
    var kept := Filter(Split(text, '\n'), ScheduleLine);
    assert kept[i] in kept;
  }

  /** Entries come in the order of the lines: a kept line becomes the entry
      whose index is the number of kept lines before it. */
  lemma ScheduleEntryPosition(text: string, i: nat)
    requires i < |Split(text, '\n')| && ScheduleLine(Split(text, '\n')[i])
    ensures Count(Split(text, '\n')[..i], ScheduleLine) < |ExtractSchedule(text)|
    ensures ExtractSchedule(text)[Count(Split(text, '\n')[..i], ScheduleLine)] == Trim(Split(text, '\n')[i])
  {
    FilterPosition(Split(text, '\n'), ScheduleLine, i);
  }

  /** A line whose first character differs, ignoring case, from the first
      character of `word` does not start with `word`. */
  lemma FirstCharDecides(line: string, word: string)
    requires |line| > 0 && |word| > 0 && Lower(line[0]) != Lower(word[0])
    ensures !StartsWithCI(line, word)
  {
    if |word| <= |line| {
      assert LowerStr(line[0..|word|])[0] != LowerStr(word)[0];
    }
  }

  /** The pattern tests run on the untrimmed line, so a line that begins with
      white space is never kept, whatever follows. */
  lemma IndentedLineNeverKept(line: string)
    requires |line| > 0 && IsJsSpace(line[0])
    ensures !ScheduleLine(line)
  {
    assert RunEnd(line, 0, IsDigit) == 0;
    FirstCharDecides(line, "morning:");
    FirstCharDecides(line, "afternoon:");
    FirstCharDecides(line, "evening:");
  }

  lemma ExampleScheduleLines(text: string, a: string, b: string, c: string)
    requires a == "9:00 AM - Plan " && b == "  evening: skip" && c == "MORNING: review"
    requires text == a + "\n" + b + "\n" + c
    ensures Split(text, '\n') == [a, b, c]
  {
    assert '\n' !in a && '\n' !in b && '\n' !in c;
    assert text == a + ['\n'] + (b + ['\n'] + c);
    SplitAfterPiece(a, '\n', b + ['\n'] + c);
    SplitAfterPiece(b, '\n', c);
    SplitNoSeparator(c, '\n');
  }

  lemma ExampleTimeRangeTrim(a: string)
    requires a == "9:00 AM - Plan "
    ensures Trim(a) == "9:00 AM - Plan"
  {
    var plan := a[..14];
    assert plan == "9:00 AM - Plan" && a == plan + [' '];
    TrimDropsTrailingSpace(plan, ' ');
  }

  lemma ExampleTimeRangeDigits(a: string)
    requires a == "9:00 AM - Plan "
    ensures RunEnd(a, 0, IsDigit) == 1 && RunEnd(a, 2, IsDigit) == 4
  {
    assert RunEnd(a, 1, IsDigit) == 1;
    assert RunEnd(a, 4, IsDigit) == 4;
  }

  lemma ExampleTimeRangeSpaces(a: string)
    requires a == "9:00 AM - Plan "
    ensures RunEnd(a, 4, IsJsSpace) == 5 && RunEnd(a, 7, IsJsSpace) == 8
  {
    assert RunEnd(a, 5, IsJsSpace) == 5;
    assert RunEnd(a, 8, IsJsSpace) == 8;
  }

  lemma ExampleTimeRange(a: string)
    requires a == "9:00 AM - Plan "
    ensures TimeRangeLine(a)
  {
    ExampleTimeRangeDigits(a);
    ExampleTimeRangeSpaces(a);
  }

  lemma FilterKeepsFirstAndLast<T>(a: T, b: T, c: T, p: T -> bool)
    requires p(a) && !p(b) && p(c)
    ensures Filter([a, b, c], p) == [a, c]
  {
    var lines := [a, b, c];
    assert lines[..2] == [a, b] && lines[..1] == [a] && lines[..0] == [];
    assert Filter(lines[..1], p) == [a];
    assert Filter(lines[..2], p) == [a];
  }

  lemma ExampleMorning(c: string)
    requires c == "MORNING: review"
    ensures ScheduleLine(c) && Trim(c) == c
  {
    assert LowerStr(c[0..8]) == LowerStr("morning:");
  }

  /** The time pattern and the prefixes ignore case: "9:00 AM - Plan " and
      "MORNING: review" are kept (trimmed), an indented "evening:" line is not. */
  lemma ScheduleExample(text: string, a: string, b: string, c: string)
    requires a == "9:00 AM - Plan " && b == "  evening: skip" && c == "MORNING: review"
    requires text == a + "\n" + b + "\n" + c
    ensures ExtractSchedule(text) == ["9:00 AM - Plan", "MORNING: review"]
  {
    ExampleScheduleLines(text, a, b, c);
    ExampleTimeRange(a);
    ExampleTimeRangeTrim(a);
    ExampleMorning(c);
    IndentedLineNeverKept(b);
    FilterKeepsFirstAndLast(a, b, c, ScheduleLine);
  }
}
