/** The numbered-option pattern `/^\s*(\d+)\.\s+(.+)$/gm` of the option
    extractor (web/app/components/base/chat/chat/answer/operation.tsx:99) and
    the `exec` loop that collects all of its matches.

    `\s` includes the line terminators, so the leading `\s*` and the `\s+`
    after the period can run across line breaks, while `.` stops at them. */
module OptionScan {
  import opened Results
  import opened JsText
  import opened Regex

  const Period: Unit := 0x2E

  // The pattern, written from its end so that each suffix has a name.
  const PatEnd: seq<Node> := [LineEnd]                                      // $
  const PatText: seq<Node> := [Repeat(NotLineTerminator, 1, true)] + PatEnd // (.+)
  const PatGap: seq<Node> := [Repeat(Space, 1, false)] + PatText            // \s+
  const PatDot: seq<Node> := [Atom(Exactly(Period))] + PatGap               // \.
  const PatNumber: seq<Node> := [Repeat(Digit, 1, true)] + PatDot           // (\d+)
  const PatLead: seq<Node> := [Repeat(Space, 0, false)] + PatNumber         // \s*
  const OptionPattern: seq<Node> := [LineStart] + PatLead                   // ^

  /** One match: where it starts and ends, and the two capture groups. */
  datatype OptionMatch = OptionMatch(start: nat, end: nat, number: Span, text: Span)

  /** The declarative reading of the pattern: `m` is one way the pattern
      matches `t`, whatever backtracking order would pick. */
  predicate IsOptionMatch(t: JsString, m: OptionMatch) {
    && AtLineStart(t, m.start)
    && m.start <= m.number.lo <= |t|
    && AllIn(Space, t[m.start..m.number.lo])
    && NumberAndRest(t, m)
  }

  /** `(\d+)\.\s+(.+)$` matches from `m.number.lo` to the end of `m`. */
  predicate NumberAndRest(t: JsString, m: OptionMatch) {
    && m.number.lo < m.number.hi < |t|
    && AllIn(Digit, t[m.number.lo..m.number.hi])
    && t[m.number.hi] == Period
    && GapAndText(t, m)
  }

  /** `\s+(.+)$` matches from just after the period to the end of `m`. */
  predicate GapAndText(t: JsString, m: OptionMatch) {
    && m.number.hi + 1 < m.text.lo < m.text.hi == m.end <= |t|
    && AllIn(Space, t[m.number.hi + 1..m.text.lo])
    && AllIn(NotLineTerminator, t[m.text.lo..m.text.hi])
    && AtLineEnd(t, m.end)
  }

  lemma {:induction false} PatternCaptures()
    ensures CaptureCount(OptionPattern) == 2
  {
    assert PatEnd[1..] == [];
    assert CaptureCount(PatEnd) == 0;
    assert PatText[1..] == PatEnd;
    assert CaptureCount(PatText) == 1;
    assert PatGap[1..] == PatText;
    assert CaptureCount(PatGap) == 1;
    assert PatDot[1..] == PatGap;
    assert CaptureCount(PatDot) == 1;
    assert PatNumber[1..] == PatDot;
    assert CaptureCount(PatNumber) == 2;
    assert PatLead[1..] == PatNumber;
    assert CaptureCount(PatLead) == 2;
    assert OptionPattern[1..] == PatLead;
  }

  /** The regular expression engine's match at position `s`, if any. */
  function MatchAt(t: JsString, s: nat): (r: Option<OptionMatch>)
    requires s <= |t|
    ensures r.Some? ==> r.value.start == s <= r.value.end <= |t|
    ensures r.Some? ==> s <= r.value.number.lo <= r.value.number.hi <= r.value.end
    ensures r.Some? ==> s <= r.value.text.lo <= r.value.text.hi <= r.value.end
  {
    PatternCaptures();
    match Run(OptionPattern, t, s, [])
    case None => None
    case Some(f) => Some(OptionMatch(s, f.end, f.caps[0], f.caps[1]))
  }

  //
  // What backtracking amounts to for this pattern
  //

  /** Where `(.+)` begins once `\s+` has given back characters: the furthest
      of `q + 1 .. q + j` that holds a character other than a line
      terminator. Giving back only ever happens at the end of the input. */
  function GapEnd(t: JsString, q: nat, j: nat): (r: Option<nat>)
    requires q + j <= |t|
    ensures r.Some? ==> q < r.value <= q + j && r.value < |t| && !IsLineTerminator(t[r.value])
    ensures r.Some? ==> forall i :: r.value < i <= q + j && i < |t| ==> IsLineTerminator(t[i])
    ensures r.None? ==> forall i :: q < i <= q + j && i < |t| ==> IsLineTerminator(t[i])
  {
    if j == 0 then None
    else if q + j < |t| && !IsLineTerminator(t[q + j]) then Some(q + j)
    else GapEnd(t, q, j - 1)
  }

  /** The match computed directly: the whole leading white-space run, the
      whole digit run, a period, white space, then the rest of the line. */
  function Analysed(t: JsString, s: nat): (r: Option<OptionMatch>)
    requires s <= |t|
  {
    if !AtLineStart(t, s) then None else AnalysedNumber(t, s, s + MaxRun(Space, t, s))
  }

  function AnalysedNumber(t: JsString, s: nat, d: nat): (r: Option<OptionMatch>)
    requires s <= d <= |t|
  {
    var b := MaxRun(Digit, t, d);
    if b == 0 || d + b == |t| || t[d + b] != Period then None
    else AnalysedText(t, s, Span(d, d + b))
  }

  function AnalysedText(t: JsString, s: nat, number: Span): (r: Option<OptionMatch>)
    requires number.hi < |t|
  {
    var q := number.hi + 1;
    match GapEnd(t, q, MaxRun(Space, t, q))
    case None => None
    case Some(g) =>
      var e := g + MaxRun(NotLineTerminator, t, g);
      Some(OptionMatch(s, e, number, Span(g, e)))
  }

  lemma {:induction false} TextStep(t: JsString, r: nat, caps: seq<Span>)
    requires r <= |t|
    ensures Run(PatText, t, r, caps)
         == (var m := MaxRun(NotLineTerminator, t, r);
             if m >= 1 then Some(Found(r + m, caps + [Span(r, r + m)])) else None)
  {
    assert PatText[1..] == PatEnd;
    assert PatEnd[1..] == [];
    var m := MaxRun(NotLineTerminator, t, r);
    MaxRunSpec(NotLineTerminator, t, r);
    assert Run(PatText, t, r, caps) == Backtrack(PatText, t, r, m, caps);
    if m >= 1 {
      var caps' := caps + [Span(r, r + m)];
      assert AtLineEnd(t, r + m);
      assert Run(PatEnd, t, r + m, caps') == Run([], t, r + m, caps');
      assert Run(PatEnd, t, r + m, caps') == Some(Found(r + m, caps'));
    }
  }

  lemma {:induction false} GapStep(t: JsString, q: nat, c: nat, caps: seq<Span>)
    requires q + c <= |t|
    ensures Backtrack(PatGap, t, q, c, caps)
         == (match GapEnd(t, q, c)
             case None => None
             case Some(g) =>
               var e := g + MaxRun(NotLineTerminator, t, g);
               Some(Found(e, caps + [Span(g, e)])))
  {
    assert PatGap[1..] == PatText;
    if c > 0 {
      TextStep(t, q + c, caps);
      GapStep(t, q, c - 1, caps);
    }
  }

  lemma {:induction false} NumberBelowMax(t: JsString, d: nat, c: nat, caps: seq<Span>)
    requires d + c <= |t|
    requires c < MaxRun(Digit, t, d)
    ensures Backtrack(PatNumber, t, d, c, caps) == None
  {
    assert PatNumber[1..] == PatDot;
    MaxRunSpec(Digit, t, d);
    assert InClass(Digit, t[d + c]);
    if c > 0 {
      NumberBelowMax(t, d, c - 1, caps);
    }
  }

  lemma {:induction false} LeadBelowMax(t: JsString, s: nat, c: nat, caps: seq<Span>)
    requires s + c <= |t|
    requires c < MaxRun(Space, t, s)
    ensures Backtrack(PatLead, t, s, c, caps) == None
  {
    assert PatLead[1..] == PatNumber;
    MaxRunSpec(Space, t, s);
    assert InClass(Space, t[s + c]);
    assert MaxRun(Digit, t, s + c) == 0;
    assert Run(PatNumber, t, s + c, caps) == Backtrack(PatNumber, t, s + c, 0, caps) == None;
    if c > 0 {
      LeadBelowMax(t, s, c - 1, caps);
    }
  }

  lemma {:induction false} LeadStep(t: JsString, s: nat)
    requires s <= |t|
    ensures Run(OptionPattern, t, s, [])
         == if AtLineStart(t, s) then Run(PatNumber, t, s + MaxRun(Space, t, s), []) else None
  {
    assert OptionPattern[1..] == PatLead;
    assert PatLead[1..] == PatNumber;
    if AtLineStart(t, s) {
      var a := MaxRun(Space, t, s);
      assert Run(OptionPattern, t, s, []) == Backtrack(PatLead, t, s, a, []);
      if a > 0 {
        LeadBelowMax(t, s, a - 1, []);
      }
    }
  }

  lemma {:induction false} NumberStep(t: JsString, d: nat)
    requires d <= |t|
    ensures Run(PatNumber, t, d, [])
         == (var b := MaxRun(Digit, t, d);
             if b > 0 then Run(PatDot, t, d + b, [Span(d, d + b)]) else None)
  {
    assert PatNumber[1..] == PatDot;
    var b := MaxRun(Digit, t, d);
    assert Run(PatNumber, t, d, []) == Backtrack(PatNumber, t, d, b, []);
    if b > 0 {
      NumberBelowMax(t, d, b - 1, []);
      assert [] + [Span(d, d + b)] == [Span(d, d + b)];
    }
  }

  lemma {:induction false} DotStep(t: JsString, p: nat, caps: seq<Span>)
    requires p <= |t|
    ensures Run(PatDot, t, p, caps)
         == if p < |t| && t[p] == Period then Backtrack(PatGap, t, p + 1, MaxRun(Space, t, p + 1), caps) else None
  {
    assert PatDot[1..] == PatGap;
  }

  /** What the engine returns, written in terms of the directly computed
      match. */
  function AsFound(m: Option<OptionMatch>): Option<Found> {
    match m
    case None => None
    case Some(m) => Some(Found(m.end, [m.number, m.text]))
  }

  lemma {:induction false} TextLayer(t: JsString, s: nat, number: Span)
    requires number.hi < |t| && t[number.hi] == Period
    ensures Run(PatDot, t, number.hi, [number]) == AsFound(AnalysedText(t, s, number))
  {
    DotStep(t, number.hi, [number]);
    var q := number.hi + 1;
    var k := MaxRun(Space, t, q);
    GapStep(t, q, k, [number]);
    match GapEnd(t, q, k)
    case None =>
    case Some(g) =>
      var e := g + MaxRun(NotLineTerminator, t, g);
      assert [number] + [Span(g, e)] == [number, Span(g, e)];
  }

  lemma {:induction false} NumberLayer(t: JsString, s: nat, d: nat)
    requires s <= d <= |t|
    ensures Run(PatNumber, t, d, []) == AsFound(AnalysedNumber(t, s, d))
  {
    NumberStep(t, d);
    var b := MaxRun(Digit, t, d);
    if b > 0 {
      if d + b < |t| && t[d + b] == Period {
        TextLayer(t, s, Span(d, d + b));
      } else {
        DotStep(t, d + b, [Span(d, d + b)]);
      }
    }
  }

  lemma {:induction false} RunIsAnalysed(t: JsString, s: nat)
    requires s <= |t|
    ensures Run(OptionPattern, t, s, []) == AsFound(Analysed(t, s))
  {
    LeadStep(t, s);
    if AtLineStart(t, s) {
      NumberLayer(t, s, s + MaxRun(Space, t, s));
    }
  }

  /** The engine's match is the directly computed one. */
  lemma {:induction false} MatchAtIsAnalysed(t: JsString, s: nat)
    requires s <= |t|
    ensures MatchAt(t, s) == Analysed(t, s)
  {
    RunIsAnalysed(t, s);
  }

  lemma {:induction false} AnalysedTextSound(t: JsString, s: nat, number: Span)
    requires number.hi < |t|
    ensures AnalysedText(t, s, number).Some? ==>
      var m := AnalysedText(t, s, number).value;
      m.start == s && m.number == number && GapAndText(t, m)
  {
    var q := number.hi + 1;
    var k := MaxRun(Space, t, q);
    match GapEnd(t, q, k)
    case None =>
    case Some(g) =>
      MaxRunSpec(Space, t, q);
      AllInPrefix(Space, t, q, k, g - q);
      MaxRunSpec(NotLineTerminator, t, g);
  }

  lemma {:induction false} AnalysedNumberSound(t: JsString, s: nat, d: nat)
    requires s <= d <= |t|
    ensures AnalysedNumber(t, s, d).Some? ==>
      var m := AnalysedNumber(t, s, d).value;
      m.start == s && m.number.lo == d && NumberAndRest(t, m)
  {
    var b := MaxRun(Digit, t, d);
    if b > 0 && d + b < |t| && t[d + b] == Period {
      MaxRunSpec(Digit, t, d);
      AnalysedTextSound(t, s, Span(d, d + b));
    }
  }

  /** Every match the engine reports is an instance of the pattern. */
  lemma {:induction false} MatchAtSound(t: JsString, s: nat)
    requires s <= |t|
    ensures MatchAt(t, s).Some? ==> MatchAt(t, s).value.start == s && IsOptionMatch(t, MatchAt(t, s).value)
  {
    MatchAtIsAnalysed(t, s);
    if AtLineStart(t, s) {
      MaxRunSpec(Space, t, s);
      AnalysedNumberSound(t, s, s + MaxRun(Space, t, s));
    }
  }

  /** A match consumes at least one character. */
  lemma {:induction false} MatchAtAdvances(t: JsString, s: nat)
    requires s <= |t|
    ensures MatchAt(t, s).Some? ==> MatchAt(t, s).value.start == s < MatchAt(t, s).value.end <= |t|
  {
    MatchAtSound(t, s);
  }

  /** The engine misses nothing: wherever the pattern can match at `s`, it
      reports a match at `s`. */
  lemma {:induction false} MatchAtComplete(t: JsString, m: OptionMatch)
    requires IsOptionMatch(t, m)
    ensures MatchAt(t, m.start).Some?
  {
    var s := m.start;
    var q := m.number.hi + 1;
    assert IsDigit(t[m.number.lo]) by {
      assert t[m.number.lo] == t[m.number.lo..m.number.hi][0];
    }
    MaxRunExact(Space, t, s, m.number.lo - s);
    MaxRunExact(Digit, t, m.number.lo, m.number.hi - m.number.lo);
    MaxRunAtLeast(Space, t, q, m.text.lo - q);
    assert !IsLineTerminator(t[m.text.lo]) by {
      assert t[m.text.lo] == t[m.text.lo..m.text.hi][0];
    }
    assert GapEnd(t, q, MaxRun(Space, t, q)).Some?;
    assert Analysed(t, s).Some?;
    MatchAtIsAnalysed(t, s);
  }

  //
  // The global search: `exec` from `lastIndex`, repeated
  //

  /** One `exec` of the global pattern with its `lastIndex` at `from`: the
      leftmost match that starts at or after `from`. */
  function Exec(t: JsString, from: nat): (r: Option<OptionMatch>)
    requires from <= |t|
    ensures r.Some? ==> from <= r.value.start <= |t| && MatchAt(t, r.value.start) == r
    ensures r.Some? ==> forall s :: from <= s < r.value.start ==> MatchAt(t, s).None?
    ensures r.None? ==> forall s :: from <= s <= |t| ==> MatchAt(t, s).None?
    decreases |t| - from
  {
    var m := MatchAt(t, from);
    if m.Some? then m
    else if from == |t| then None
    else Exec(t, from + 1)
  }

  predicate Covered(ms: seq<OptionMatch>, s: nat) {
    exists i :: 0 <= i < |ms| && ms[i].start <= s < ms[i].end
  }

  /** All matches from `from` on, each search resuming where the previous
      match ended, as the `while (match !== null)` loop does. They are
      instances of the pattern, in left-to-right order, and do not overlap. */
  function ScanFrom(t: JsString, from: nat): (ms: seq<OptionMatch>)
    requires from <= |t|
    ensures forall i :: 0 <= i < |ms| ==>
      from <= ms[i].start <= |t| && MatchAt(t, ms[i].start) == Some(ms[i])
    ensures forall i :: 0 <= i < |ms| - 1 ==> ms[i].end <= ms[i + 1].start
    decreases |t| - from
  {
    match Exec(t, from)
    case None => []
    case Some(m) =>
      MatchAtAdvances(t, m.start);
      [m] + ScanFrom(t, m.end)
  }

  /** The scan skips no match: every position where the pattern matches lies
      inside one of the reported matches. */
  lemma {:induction false} ScanFromComplete(t: JsString, from: nat, s: nat)
    requires from <= s <= |t|
    requires MatchAt(t, s).Some?
    ensures Covered(ScanFrom(t, from), s)
    decreases |t| - from
  {
    match Exec(t, from)
    case None =>
    case Some(m) =>
      MatchAtAdvances(t, m.start);
      if s < m.end {
        CoveredByHead(t, from, m, s);
      } else {
        ScanFromComplete(t, m.end, s);
        CoveredByTail(t, from, m, s);
      }
  }

  lemma {:induction false} CoveredByHead(t: JsString, from: nat, m: OptionMatch, s: nat)
    requires from <= s <= |t|
    requires Exec(t, from) == Some(m)
    requires m.start <= s < m.end
    ensures Covered(ScanFrom(t, from), s)
  {
    assert ScanFrom(t, from)[0] == m;
  }

  lemma {:induction false} CoveredByTail(t: JsString, from: nat, m: OptionMatch, s: nat)
    requires from <= |t|
    requires Exec(t, from) == Some(m)
    requires from < m.end <= |t|
    requires Covered(ScanFrom(t, m.end), s)
    ensures Covered(ScanFrom(t, from), s)
  {
    var ms := ScanFrom(t, from);
    var rest := ScanFrom(t, m.end);
    assert ms == [m] + rest;
    var i :| 0 <= i < |rest| && rest[i].start <= s < rest[i].end;
    assert ms[i + 1] == rest[i];
  }

  /** Every reported match is an instance of the pattern. */
  lemma {:induction false} ScanFromSound(t: JsString, from: nat)
    requires from <= |t|
    ensures forall i :: 0 <= i < |ScanFrom(t, from)| ==> IsOptionMatch(t, ScanFrom(t, from)[i])
  {
    var ms := ScanFrom(t, from);
    forall i | 0 <= i < |ms|
      ensures IsOptionMatch(t, ms[i])
    {
      MatchAtSound(t, ms[i].start);
    }
  }
}
