/** The option list of a chat answer: the text the answer shows (its agent
    thoughts joined, or its message), cut at the first instruction line, and
    scanned for numbered lines such as `2. Try the other one`. */
module OptionExtract {
  import opened Results
  import opened JsText
  import opened Regex
  import opened OptionScan

  //
  // The displayed content of an answer
  //

  datatype AgentThought = AgentThought(thought: JsString)

  /** The parts of a chat item the extraction reads: the message text and the
      optional list of agent thoughts. */
  datatype ChatItem = ChatItem(content: JsString, agentThoughts: Option<seq<AgentThought>>)

  /** The thoughts written one after another. */
  function Concat(ts: seq<AgentThought>): JsString {
    if |ts| == 0 then [] else ts[0].thought + Concat(ts[1..])
  }

  /** The thoughts appended one by one to `acc`, from the first to the last. */
  function Reduce(acc: JsString, ts: seq<AgentThought>): JsString
    decreases |ts|
  {
    if |ts| == 0 then acc else Reduce(acc + ts[0].thought, ts[1..])
  }

  /** The left fold appends the thoughts in order. */
  lemma {:induction false} ReduceIsConcat(acc: JsString, ts: seq<AgentThought>)
    ensures Reduce(acc, ts) == acc + Concat(ts)
    decreases |ts|
  {
    if |ts| > 0 {
      ReduceIsConcat(acc + ts[0].thought, ts[1..]);
      assert acc + ts[0].thought + Concat(ts[1..]) == acc + (ts[0].thought + Concat(ts[1..]));
    }
  }

  predicate HasThoughts(item: ChatItem) {
    item.agentThoughts.Some? && |item.agentThoughts.value| > 0
  }

  /** The text an answer shows: its agent thoughts joined together when it
      has any, otherwise its message. */
  function Content(item: ChatItem): (r: JsString)
    ensures HasThoughts(item) ==> r == Concat(item.agentThoughts.value)
    ensures !HasThoughts(item) ==> r == item.content
  {
    if HasThoughts(item) then
      ReduceIsConcat([], item.agentThoughts.value);
      Reduce([], item.agentThoughts.value)
    else item.content
  }

  //
  // The instruction marker
  //

  /** `> 指令：`, the prefix of the first line that is no longer part of the
      options: GREATER-THAN SIGN, SPACE, U+6307, U+4EE4, FULLWIDTH COLON. */
  const Marker: JsString := [0x3E, 0x20, 0x6307, 0x4EE4, 0xFF1A]

  /** A line that, once trimmed, begins with the instruction marker. */
  predicate IsMarkerLine(line: JsString) {
    StartsWith(Trim(line), Marker)
  }

  /** Only the leading white space of a line matters to the marker test:
      the marker ends in a full-width colon, which trailing white space
      cannot reach. */
  lemma {:induction false} MarkerLineIgnoresTrailing(line: JsString)
    ensures IsMarkerLine(line) <==> StartsWith(TrimStart(line), Marker)
  {
    assert !IsSpace(Marker[|Marker| - 1]);
    TrimEndKeepsPrefix(TrimStart(line), Marker);
  }

  predicate NoMarkerLine(lines: seq<JsString>) {
    forall j :: 0 <= j < |lines| ==> !IsMarkerLine(lines[j])
  }

  /** The first instruction line at or after `k`, as `findIndex` finds it;
      `None` stands for the `-1` of no such line. */
  function MarkerFrom(lines: seq<JsString>, k: nat): (r: Option<nat>)
    requires k <= |lines|
    ensures r.Some? ==> k <= r.value < |lines| && IsMarkerLine(lines[r.value])
    ensures r.Some? ==> forall j :: k <= j < r.value ==> !IsMarkerLine(lines[j])
    ensures r.None? ==> forall j :: k <= j < |lines| ==> !IsMarkerLine(lines[j])
    decreases |lines| - k
  {
    if k == |lines| then None
    else if IsMarkerLine(lines[k]) then Some(k)
    else MarkerFrom(lines, k + 1)
  }

  function MarkerIndex(lines: seq<JsString>): (r: Option<nat>)
    ensures r.Some? ==> r.value < |lines| && IsMarkerLine(lines[r.value]) && NoMarkerLine(lines[..r.value])
    ensures r.None? ==> NoMarkerLine(lines)
  {
    var r := MarkerFrom(lines, 0);
    if r.Some? then
      assert forall j :: 0 <= j < r.value ==> lines[..r.value][j] == lines[j];
      r
    else r
  }

  /** The part of the content that is scanned for options: the lines before
      the first instruction line, or all of it when there is none. */
  function Region(content: JsString): (r: JsString)
    ensures |r| <= |content|
    ensures r <= content
  {
    var lines := Split(content);
    match MarkerIndex(lines)
    case Some(i) =>
      RegionPrefix(content, i);
      Join(lines[..i])
    case None => content
  }

  lemma {:induction false} RegionPrefix(content: JsString, i: nat)
    requires i < |Split(content)|
    ensures Join(Split(content)[..i]) <= content
  {
    var lines := Split(content);
    JoinSplit(content);
    if i > 0 {
      JoinPrefix(lines, i);
    }
  }

  //
  // The options
  //

  /** One option as shown on its button: the digits and the trimmed text. */
  datatype ChoiceOption = ChoiceOption(number: JsString, text: JsString)

  /** What every option looks like: a non-empty run of decimal digits, and a
      text on one line with no white space at either end. */
  predicate WellShaped(o: ChoiceOption) {
    && |o.number| > 0 && AllDigits(o.number)
    && IsTrimmed(o.text) && NoLineTerminator(o.text)
  }

  /** The option a match gives: the digits of the first group as its number,
      the second group trimmed as its text. */
  function ToChoice(t: JsString, m: OptionMatch): (o: ChoiceOption)
    requires IsOptionMatch(t, m)
    ensures WellShaped(o)
    ensures o.number == t[m.number.lo..m.number.hi]
    ensures exists p, q :: AllSpace(p) && AllSpace(q) && t[m.text.lo..m.text.hi] == p + o.text + q
  {
    var digits := t[m.number.lo..m.number.hi];
    var line := t[m.text.lo..m.text.hi];
    TrimIsTrimmed(line);
    TrimRemovesOnlySpace(line);
    TrimOnOneLine(line);
    assert forall i :: 0 <= i < |digits| ==> InClass(Digit, digits[i]);
    ChoiceOption(digits, Trim(line))
  }

  /** Trimming a piece of one line leaves a piece of that line. */
  lemma {:induction false} TrimOnOneLine(line: JsString)
    requires AllIn(NotLineTerminator, line)
    ensures NoLineTerminator(Trim(line))
  {
    var k := |line| - |TrimStart(line)|;
    var r := Trim(line);
    TrimSlices(line);
    forall i | 0 <= i < |r|
      ensures !IsLineTerminator(r[i])
    {
      assert r[i] == line[k + i];
    }
  }

  predicate AllMatches(t: JsString, ms: seq<OptionMatch>) {
    forall i :: 0 <= i < |ms| ==> IsOptionMatch(t, ms[i])
  }

  function Choices(t: JsString, ms: seq<OptionMatch>): (os: seq<ChoiceOption>)
    requires AllMatches(t, ms)
    ensures |os| == |ms|
    ensures forall i :: 0 <= i < |os| ==> WellShaped(os[i])
  {
    seq(|ms|, i requires 0 <= i < |ms| => ToChoice(t, ms[i]))
  }

  /** The matches of the global search over the region; none for empty
      content, which is returned from before any search. */
  function RegionMatches(content: JsString): (ms: seq<OptionMatch>)
    ensures AllMatches(Region(content), ms)
  {
    if |content| == 0 then []
    else
      ScanFromSound(Region(content), 0);
      ScanFrom(Region(content), 0)
  }

  /** `extractOptions`: one option per match, in the order found. */
  function Options(content: JsString): (os: seq<ChoiceOption>)
    ensures |content| == 0 ==> os == []
    ensures forall i :: 0 <= i < |os| ==> WellShaped(os[i])
  {
    Choices(Region(content), RegionMatches(content))
  }

  /** The options are exactly the matches of the pattern in the region, read
      left to right: each comes from a match, the matches do not overlap, and
      every place where the pattern could match lies inside one of them. */
  lemma {:induction false} OptionsSpec(content: JsString)
    ensures var t, ms := Region(content), RegionMatches(content);
      && |Options(content)| == |ms|
      && (forall i :: 0 <= i < |ms| ==> IsOptionMatch(t, ms[i]) && Options(content)[i] == ToChoice(t, ms[i]))
      && (forall i :: 0 <= i < |ms| - 1 ==> ms[i].end <= ms[i + 1].start)
      && (|content| > 0 ==> forall m :: IsOptionMatch(t, m) ==> Covered(ms, m.start))
  {
    var t, ms := Region(content), RegionMatches(content);
    if |content| > 0 {
      forall m | IsOptionMatch(t, m)
        ensures Covered(ms, m.start)
      {
        MatchAtComplete(t, m);
        ScanFromComplete(t, 0, m.start);
      }
    }
  }

  //
  // Where the scan stops
  //

  /** Nothing matches in the empty string. */
  lemma {:induction false} ScanEmpty()
    ensures ScanFrom([], 0) == []
  {
    MatchAtSound([], 0);
  }

  /** The region is where the content starts, and when an instruction line
      ends it, the content goes on with a line break and the instruction. */
  lemma {:induction false} RegionIsPrefix(content: JsString)
    ensures StartsWith(content, Region(content))
    ensures var lines := Split(content);
      MarkerIndex(lines).Some? && MarkerIndex(lines).value > 0 ==>
      content == Region(content) + [LF] + Join(lines[MarkerIndex(lines).value..])
  {
    var lines := Split(content);
    JoinSplit(content);
    match MarkerIndex(lines)
    case None =>
    case Some(i) =>
      if i > 0 {
        JoinPrefix(lines, i);
        assert content[..|Join(lines[..i])|] == Join(lines[..i]);
      }
  }

  /** No line of the region is an instruction line. */
  lemma {:induction false} RegionHasNoMarker(content: JsString)
    ensures NoMarkerLine(Split(Region(content)))
  {
    var lines := Split(content);
    match MarkerIndex(lines)
    case None =>
      JoinSplit(content);
    case Some(i) =>
      if i == 0 {
        assert lines[..0] == [];
        assert Split([]) == [[]];
        assert !StartsWith(Trim([]), Marker);
      } else {
        assert forall j :: 0 <= j < i ==> lines[..i][j] == lines[j];
        SplitJoin(lines[..i]);
      }
  }

  /** Without an instruction line the whole content is scanned. */
  lemma {:induction false} NoMarkerScansAll(content: JsString)
    requires NoMarkerLine(Split(content))
    ensures Region(content) == content
  {
  }

  /** An instruction on the first line leaves no options at all. */
  lemma {:induction false} MarkerOnFirstLine(content: JsString)
    requires IsMarkerLine(Split(content)[0])
    ensures Options(content) == []
  {
    assert MarkerIndex(Split(content)) == Some(0);
    assert Split(content)[..0] == [];
    assert Region(content) == [];
    ScanEmpty();
  }

  /** Whatever follows an instruction line is ignored: text without an
      instruction line, then a line break and an instruction, has the options
      of the text alone. */
  lemma {:induction false} InstructionCutsTail(pre: JsString, tail: JsString)
    requires NoMarkerLine(Split(pre))
    requires IsMarkerLine(Split(tail)[0])
    ensures Options(pre + [LF] + tail) == Options(pre)
  {
    var content := pre + [LF] + tail;
    var a, b := Split(pre), Split(tail);
    SplitConcat(pre, tail);
    assert Split(content) == a + b;
    assert MarkerFrom(a + b, 0) == MarkerFrom(a + b, |a|) by {
      MarkerFromSkips(a + b, |a|);
    }
    assert (a + b)[|a|] == b[0];
    assert MarkerIndex(Split(content)) == Some(|a|);
    assert (a + b)[..|a|] == a;
    JoinSplit(pre);
    assert Region(content) == pre;
    NoMarkerScansAll(pre);
    if |pre| == 0 {
      ScanEmpty();
    }
  }

  /** Lines without a marker are passed over by the search. */
  lemma {:induction false} MarkerFromSkips(lines: seq<JsString>, n: nat)
    requires n <= |lines|
    requires NoMarkerLine(lines[..n])
    ensures MarkerFrom(lines, 0) == MarkerFrom(lines, n)
  {
    var k := n;
    while k > 0
      invariant 0 <= k <= n
      invariant MarkerFrom(lines, k) == MarkerFrom(lines, n)
    {
      assert lines[..n][k - 1] == lines[k - 1];
      k := k - 1;
    }
  }

  //
  // The extraction as the loops of the component compute it
  //

  /** `extractOptions` step by step: `findIndex` over the lines, then `exec`
      from `lastIndex` until it finds nothing, pushing one option per match. */
  method ExtractOptions(content: JsString) returns (options: seq<ChoiceOption>)
    ensures options == Options(content)
  {
    if |content| == 0 {
      return [];
    }
    var lines := Split(content);
    var index := FindInstruction(lines);
    var t := if index < |lines| then Join(lines[..index]) else content;
    assert t == Region(content);
    options := ScanOptions(t);
  }

  /** The `findIndex` loop: the index of the first instruction line, or the
      number of lines when there is none. */
  method FindInstruction(lines: seq<JsString>) returns (index: nat)
    ensures index <= |lines|
    ensures index < |lines| <==> MarkerIndex(lines).Some?
    ensures index < |lines| ==> MarkerIndex(lines).value == index
  {
    index := 0;
    while index < |lines| && !IsMarkerLine(lines[index])
      invariant index <= |lines|
      invariant MarkerFrom(lines, 0) == MarkerFrom(lines, index)
    {
      index := index + 1;
    }
  }

  /** The `exec` loop over the scanned text: one option per match, in the
      order the global search finds them. */
  method ScanOptions(t: JsString) returns (options: seq<ChoiceOption>)
    ensures AllMatches(t, ScanFrom(t, 0))
    ensures options == Choices(t, ScanFrom(t, 0))
  {
    options := [];
    var lastIndex := 0;
    ghost var done: seq<OptionMatch> := [];
    var found := Exec(t, lastIndex);
    while found.Some?
      invariant lastIndex <= |t|
      invariant found == Exec(t, lastIndex)
      invariant done + ScanFrom(t, lastIndex) == ScanFrom(t, 0)
      invariant AllMatches(t, done)
      invariant options == Choices(t, done)
      decreases |t| - lastIndex
    {
      var m := found.value;
      ScanStep(t, lastIndex, done, m);
      ChoicesSnoc(t, done, m);
      options := options + [ToChoice(t, m)];
      done := done + [m];
      lastIndex := m.end;
      found := Exec(t, lastIndex);
    }
    ScanFromSound(t, 0);
    assert done == ScanFrom(t, 0);
  }

  /** One turn of the `exec` loop keeps its invariants. */
  lemma {:induction false} ScanStep(t: JsString, lastIndex: nat, done: seq<OptionMatch>, m: OptionMatch)
    requires lastIndex <= |t| && Exec(t, lastIndex) == Some(m)
    requires done + ScanFrom(t, lastIndex) == ScanFrom(t, 0)
    requires AllMatches(t, done)
    ensures IsOptionMatch(t, m) && lastIndex < m.end <= |t|
    ensures done + [m] + ScanFrom(t, m.end) == ScanFrom(t, 0)
  {
    MatchAtSound(t, m.start);
    MatchAtAdvances(t, m.start);
    assert ScanFrom(t, lastIndex) == [m] + ScanFrom(t, m.end);
    assert done + [m] + ScanFrom(t, m.end) == done + ([m] + ScanFrom(t, m.end));
  }

  /** Appending a match appends its option. */
  lemma {:induction false} ChoicesSnoc(t: JsString, done: seq<OptionMatch>, m: OptionMatch)
    requires AllMatches(t, done) && IsOptionMatch(t, m)
    ensures AllMatches(t, done + [m])
    ensures Choices(t, done + [m]) == Choices(t, done) + [ToChoice(t, m)]
  {
    assert forall i :: 0 <= i < |done| ==> (done + [m])[i] == done[i];
  }

  //
  // Examples
  //

  /** `\s+` may run over a line break: in `1.` followed on the next line by
      `2. foo`, the number `1` takes the whole next line as its text. */
  lemma {:induction false} GapCrossesLines()
    ensures Options([0x31, 0x2E, LF, 0x32, 0x2E, 0x20, 0x66, 0x6F, 0x6F])
      == [ChoiceOption([0x31], [0x32, 0x2E, 0x20, 0x66, 0x6F, 0x6F])]
  {
    var t: JsString := [0x31, 0x2E, LF, 0x32, 0x2E, 0x20, 0x66, 0x6F, 0x6F];
    var text: JsString := [0x32, 0x2E, 0x20, 0x66, 0x6F, 0x6F];
    var m := OptionMatch(0, 9, Span(0, 1), Span(3, 9));
    GapMatch(t, text);
    OptionsOfOne(t, m);
    GapChoice(t, text);
  }

  /** Content searched whole with one match gives its option. */
  lemma {:induction false} OptionsOfOne(t: JsString, m: OptionMatch)
    requires Region(t) == t && RegionMatches(t) == [m]
    ensures IsOptionMatch(t, m)
    ensures Options(t) == [ToChoice(t, m)]
  {
    var ms := [m];
    assert AllMatches(t, ms);
    assert IsOptionMatch(t, ms[0]);
    assert Options(t)[0] == ToChoice(t, m);
  }

  /** The option of the match that runs over the line break. */
  lemma {:induction false} GapChoice(t: JsString, text: JsString)
    requires t == [0x31, 0x2E, LF, 0x32, 0x2E, 0x20, 0x66, 0x6F, 0x6F]
    requires text == [0x32, 0x2E, 0x20, 0x66, 0x6F, 0x6F]
    requires IsOptionMatch(t, OptionMatch(0, 9, Span(0, 1), Span(3, 9)))
    ensures ToChoice(t, OptionMatch(0, 9, Span(0, 1), Span(3, 9))) == ChoiceOption([0x31], text)
  {
    assert t[3..9] == text by {
      assert |t[3..9]| == |text|;
      forall i | 0 <= i < |text|
        ensures t[3..9][i] == text[i]
      {
        assert t[3..9][i] == t[3 + i];
      }
    }
    assert t[0..1] == [0x31];
    ChoiceIs(t, OptionMatch(0, 9, Span(0, 1), Span(3, 9)), [0x31], text);
  }

  /** The search over `1.`, a line break and `2. foo` finds one match, whose
      gap runs over the line break. */
  lemma {:induction false} GapMatch(t: JsString, text: JsString)
    requires t == [0x31, 0x2E, LF, 0x32, 0x2E, 0x20, 0x66, 0x6F, 0x6F]
    requires text == [0x32, 0x2E, 0x20, 0x66, 0x6F, 0x6F]
    ensures Region(t) == t
    ensures RegionMatches(t) == [OptionMatch(0, 9, Span(0, 1), Span(3, 9))]
  {
    var first: JsString := [0x31, 0x2E];
    LinesOf(first, text);
    assert t == first + [LF] + text;
    NoMarkerScansAll(t);
    MatchAtIsAnalysed(t, 0);
    var m := OptionMatch(0, 9, Span(0, 1), Span(3, 9));
    assert MaxRun(Space, t, 0) == 0;
    assert MaxRun(Digit, t, 0) == 1 by {
      assert MaxRun(Digit, t, 1) == 0;
    }
    assert MaxRun(Space, t, 2) == 1 by {
      assert MaxRun(Space, t, 3) == 0;
    }
    assert GapEnd(t, 2, 1) == Some(3);
    MaxRunExact(NotLineTerminator, t, 3, 6);
    assert Analysed(t, 0) == Some(m);
    assert Exec(t, 0) == Some(m);
    MatchAtSound(t, 9);
    assert Exec(t, 9) == None;
    assert ScanFrom(t, 0) == [m];
  }

  /** The option a match gives, when its digits and its already trimmed text
      are known. */
  lemma {:induction false} ChoiceIs(t: JsString, m: OptionMatch, digits: JsString, text: JsString)
    requires IsOptionMatch(t, m)
    requires t[m.number.lo..m.number.hi] == digits
    requires t[m.text.lo..m.text.hi] == text
    requires IsTrimmed(text)
    ensures ToChoice(t, m) == ChoiceOption(digits, text)
  {
    TrimOfPadded([], text, []);
    assert [] + text + [] == text;
  }

  /** Two lines that neither start with white space nor with the marker. */
  lemma {:induction false} LinesOf(a: JsString, b: JsString)
    requires LF !in a && LF !in b
    requires IsTrimmed(a) && IsTrimmed(b)
    requires |a| > 0 && |b| > 0 && a[0] != Marker[0] && b[0] != Marker[0]
    ensures Split(a + [LF] + b) == [a, b]
    ensures NoMarkerLine(Split(a + [LF] + b))
  {
    SplitConcat(a, b);
    SplitLineFree(a);
    SplitLineFree(b);
    TrimOfPadded([], a, []);
    TrimOfPadded([], b, []);
    assert [] + a + [] == a;
    assert [] + b + [] == b;
  }

  /** An instruction line ends the options: in `1. A`, `2. B`, `> 指令：x`,
      `3. C` only the first two lines give options. */
  lemma {:induction false} InstructionEndsOptions()
    ensures Options([0x31, 0x2E, 0x20, 0x41, LF, 0x32, 0x2E, 0x20, 0x42, LF]
                    + Marker + [0x78, LF, 0x33, 0x2E, 0x20, 0x43])
      == [ChoiceOption([0x31], [0x41]), ChoiceOption([0x32], [0x42])]
  {
    var pre: JsString := [0x31, 0x2E, 0x20, 0x41, LF, 0x32, 0x2E, 0x20, 0x42];
    var instruction: JsString := Marker + [0x78];
    var last: JsString := [0x33, 0x2E, 0x20, 0x43];
    var tail := instruction + [LF] + last;
    assert [0x31, 0x2E, 0x20, 0x41, LF, 0x32, 0x2E, 0x20, 0x42, LF] + Marker + [0x78, LF, 0x33, 0x2E, 0x20, 0x43]
      == pre + [LF] + tail;
    InstructionLine(instruction, last);
    LinesOf([0x31, 0x2E, 0x20, 0x41], [0x32, 0x2E, 0x20, 0x42]);
    assert pre == [0x31, 0x2E, 0x20, 0x41] + [LF] + [0x32, 0x2E, 0x20, 0x42];
    InstructionCutsTail(pre, tail);
    TwoOptions(pre, 0x31, 0x41, 0x32, 0x42);
  }

  /** Two lines `d. x` and `e. y` give two options, whatever the digits and
      texts; equal lines give equal options, both kept. */
  lemma {:induction false} TwoOptions(t: JsString, d: Unit, x: Unit, e: Unit, y: Unit)
    requires IsDigit(d) && IsDigit(e) && !IsSpace(x) && !IsSpace(y)
    requires t == [d, Period, 0x20, x, LF, e, Period, 0x20, y]
    ensures Options(t) == [ChoiceOption([d], [x]), ChoiceOption([e], [y])]
  {
    var m1 := OptionMatch(0, 4, Span(0, 1), Span(3, 4));
    var m2 := OptionMatch(5, 9, Span(5, 6), Span(8, 9));
    LineChoice(t, 0, d, x);
    LineChoice(t, 5, e, y);
    TwoMatches(t, d, x, e, y);
    OptionsOfTwo(t, m1, m2);
  }

  /** Content searched whole with two matches gives their two options. */
  lemma {:induction false} OptionsOfTwo(t: JsString, m1: OptionMatch, m2: OptionMatch)
    requires Region(t) == t && RegionMatches(t) == [m1, m2]
    ensures IsOptionMatch(t, m1) && IsOptionMatch(t, m2)
    ensures Options(t) == [ToChoice(t, m1), ToChoice(t, m2)]
  {
    var ms := [m1, m2];
    assert AllMatches(t, ms);
    assert IsOptionMatch(t, ms[0]) && IsOptionMatch(t, ms[1]);
    assert Options(t)[0] == ToChoice(t, m1);
    assert Options(t)[1] == ToChoice(t, m2);
  }

  /** The option of a line `d. x` of four code units starting at `s`. */
  lemma {:induction false} LineChoice(t: JsString, s: nat, d: Unit, x: Unit)
    requires s + 4 <= |t|
    requires s == 0 || t[s - 1] == LF
    requires t[s] == d && IsDigit(d)
    requires t[s + 1] == Period && t[s + 2] == 0x20
    requires t[s + 3] == x && !IsSpace(x)
    requires s + 4 == |t| || t[s + 4] == LF
    ensures var m := OptionMatch(s, s + 4, Span(s, s + 1), Span(s + 3, s + 4));
      IsOptionMatch(t, m) && ToChoice(t, m) == ChoiceOption([d], [x])
  {
    var m := OptionMatch(s, s + 4, Span(s, s + 1), Span(s + 3, s + 4));
    OneLineOption(t, s, d, x);
    MatchAtSound(t, s);
    assert t[s..s + 1] == [d] && t[s + 3..s + 4] == [x];
    ChoiceIs(t, m, [d], [x]);
  }

  lemma {:induction false} TwoMatches(t: JsString, d: Unit, x: Unit, e: Unit, y: Unit)
    requires IsDigit(d) && IsDigit(e) && !IsSpace(x) && !IsSpace(y)
    requires t == [d, Period, 0x20, x, LF, e, Period, 0x20, y]
    ensures Region(t) == t
    ensures RegionMatches(t) == [OptionMatch(0, 4, Span(0, 1), Span(3, 4)), OptionMatch(5, 9, Span(5, 6), Span(8, 9))]
  {
    LinesOf([d, Period, 0x20, x], [e, Period, 0x20, y]);
    assert t == [d, Period, 0x20, x] + [LF] + [e, Period, 0x20, y];
    NoMarkerScansAll(t);
    var m1 := OptionMatch(0, 4, Span(0, 1), Span(3, 4));
    var m2 := OptionMatch(5, 9, Span(5, 6), Span(8, 9));
    OneLineOption(t, 0, d, x);
    OneLineOption(t, 5, e, y);
    MatchAtIsAnalysed(t, 4);
    MatchAtSound(t, 9);
    assert Exec(t, 9) == None;
    assert Exec(t, 4) == Some(m2);
    assert ScanFrom(t, 4) == [m2];
    assert ScanFrom(t, 0) == [m1, m2];
  }

  /** The same option twice is listed twice. */
  lemma {:induction false} DuplicatesKept()
    ensures Options([0x31, Period, 0x20, 0x41, LF, 0x31, Period, 0x20, 0x41])
      == [ChoiceOption([0x31], [0x41]), ChoiceOption([0x31], [0x41])]
  {
    TwoOptions([0x31, Period, 0x20, 0x41, LF, 0x31, Period, 0x20, 0x41], 0x31, 0x41, 0x31, 0x41);
  }

  /** A line `d. x` of four code units starting at `s` is one option. */
  lemma {:induction false} OneLineOption(t: JsString, s: nat, d: Unit, x: Unit)
    requires s + 4 <= |t|
    requires s == 0 || t[s - 1] == LF
    requires t[s] == d && IsDigit(d)
    requires t[s + 1] == Period && t[s + 2] == 0x20
    requires t[s + 3] == x && !IsSpace(x)
    requires s + 4 == |t| || t[s + 4] == LF
    ensures MatchAt(t, s) == Some(OptionMatch(s, s + 4, Span(s, s + 1), Span(s + 3, s + 4)))
  {
    MatchAtIsAnalysed(t, s);
    assert MaxRun(Space, t, s) == 0;
    assert MaxRun(Digit, t, s) == 1 by {
      assert MaxRun(Digit, t, s + 1) == 0;
    }
    assert MaxRun(Space, t, s + 2) == 1 by {
      assert MaxRun(Space, t, s + 3) == 0;
    }
    assert GapEnd(t, s + 2, 1) == Some(s + 3);
    assert MaxRun(NotLineTerminator, t, s + 3) == 1 by {
      assert MaxRun(NotLineTerminator, t, s + 4) == 0;
    }
  }

  lemma {:induction false} InstructionLine(instruction: JsString, last: JsString)
    requires instruction == Marker + [0x78]
    requires LF !in last
    ensures IsMarkerLine(Split(instruction + [LF] + last)[0])
  {
    SplitConcat(instruction, last);
    SplitLineFree(instruction);
    TrimOfPadded([], instruction, []);
    assert [] + instruction + [] == instruction;
    assert instruction[..|Marker|] == Marker;
  }
}
