/** ECMAScript strings as sequences of UTF-16 code units, with the handful of
    `String.prototype` operations the modelled code uses: `trim`, `split('\n')`,
    `join('\n')`, `startsWith`, `indexOf`, `includes` and `toLowerCase`. */
module JsText {
  import opened Results

  /** A UTF-16 code unit, the element of an ECMAScript string value. */
  type Unit = u: int | 0 <= u < 0x1_0000

  type JsString = seq<Unit>

  const LF: Unit := 0x0A
  const Slash: Unit := 0x2F
  const Percent: Unit := 0x25

  /** ECMAScript LineTerminator: LF, CR, LINE SEPARATOR, PARAGRAPH SEPARATOR. */
  predicate IsLineTerminator(u: Unit) {
    u == 0x0A || u == 0x0D || u == 0x2028 || u == 0x2029
  }

  /** ECMAScript WhiteSpace or LineTerminator: the set matched by the regular
      expression escape `\s` and removed by `String.prototype.trim`. */
  predicate IsSpace(u: Unit) {
    || IsLineTerminator(u)
    || u == 0x09 || u == 0x0B || u == 0x0C || u == 0x20 || u == 0xA0
    || u == 0x1680 || (0x2000 <= u <= 0x200A) || u == 0x202F || u == 0x205F
    || u == 0x3000 || u == 0xFEFF
  }

  /** The regular expression escape `\d`. */
  predicate IsDigit(u: Unit) {
    0x30 <= u <= 0x39
  }

  predicate AllDigits(s: JsString) {
    forall i :: 0 <= i < |s| ==> IsDigit(s[i])
  }

  predicate AllSpace(s: JsString) {
    forall i :: 0 <= i < |s| ==> IsSpace(s[i])
  }

  predicate NoLineTerminator(s: JsString) {
    forall i :: 0 <= i < |s| ==> !IsLineTerminator(s[i])
  }

  /** Neither the first nor the last code unit is white space. */
  predicate IsTrimmed(s: JsString) {
    |s| == 0 || (!IsSpace(s[0]) && !IsSpace(s[|s| - 1]))
  }

  //
  // trim
  //

  /** The string without its leading white space. */
  function TrimStart(s: JsString): (r: JsString)
    ensures |r| <= |s|
  {
    if |s| > 0 && IsSpace(s[0]) then TrimStart(s[1..]) else s
  }

  /** The string without its trailing white space. */
  function TrimEnd(s: JsString): (r: JsString)
    ensures |r| <= |s|
  {
    if |s| > 0 && IsSpace(s[|s| - 1]) then TrimEnd(s[..|s| - 1]) else s
  }

  /** `String.prototype.trim`: the string without its leading and trailing
      white space. */
  function Trim(s: JsString): (r: JsString)
    ensures |r| <= |s|
    ensures |s| > 0 && !IsSpace(s[0]) && !IsSpace(s[|s| - 1]) ==> r == s
    ensures AllSpace(s) ==> r == []
  {
    assert AllSpace(s) ==> TrimStart(s) == [] by {
      if AllSpace(s) {
        TrimStartOfSpace(s);
      }
    }
    TrimEnd(TrimStart(s))
  }

  lemma {:induction false} TrimStartSpec(s: JsString)
    ensures TrimStart(s) == s[|s| - |TrimStart(s)|..]
    ensures AllSpace(s[..|s| - |TrimStart(s)|])
    ensures |TrimStart(s)| == 0 || !IsSpace(TrimStart(s)[0])
  {
    if |s| > 0 && IsSpace(s[0]) {
      TrimStartSpec(s[1..]);
      var n := |s| - |TrimStart(s)|;
      assert s[..n] == [s[0]] + s[1..][..n - 1];
    }
  }

  lemma {:induction false} TrimEndSpec(s: JsString)
    ensures TrimEnd(s) == s[..|TrimEnd(s)|]
    ensures AllSpace(s[|TrimEnd(s)|..])
    ensures |TrimEnd(s)| == 0 || !IsSpace(TrimEnd(s)[|TrimEnd(s)| - 1])
  {
    if |s| > 0 && IsSpace(s[|s| - 1]) {
      var s' := s[..|s| - 1];
      TrimEndSpec(s');
      var n := |TrimEnd(s)|;
      assert s[n..] == s'[n..] + [s[|s| - 1]];
    }
  }

  /** The result of trim begins and ends with something other than white
      space. */
  lemma {:induction false} TrimIsTrimmed(s: JsString)
    ensures IsTrimmed(Trim(s))
  {
    var a := TrimStart(s);
    TrimStartSpec(s);
    TrimEndSpec(a);
    if |Trim(s)| > 0 {
      assert Trim(s)[0] == a[0];
    }
  }

  /** Trim only removes white space: the input is the result with an
      all-space prefix and an all-space suffix around it. */
  lemma {:induction false} TrimRemovesOnlySpace(s: JsString)
    ensures exists p, q :: AllSpace(p) && AllSpace(q) && s == p + Trim(s) + q
  {
    var k := |s| - |TrimStart(s)|;
    var r := Trim(s);
    TrimSlices(s);
    TrimCutsSpace(s);
    assert AllSpace(s[..k]) && AllSpace(s[k + |r|..]) && s == s[..k] + r + s[k + |r|..];
  }

  lemma {:induction false} TrimSlices(s: JsString)
    ensures var k := |s| - |TrimStart(s)|;
      k + |Trim(s)| <= |s| && s == s[..k] + Trim(s) + s[k + |Trim(s)|..]
  {
    var a := TrimStart(s);
    var k := |s| - |a|;
    var r := Trim(s);
    TrimStartSpec(s);
    TrimEndSpec(a);
    assert a == r + a[|r|..];
    assert s == s[..k] + a;
    assert a[|r|..] == s[k + |r|..];
    assert s[..k] + (r + a[|r|..]) == s[..k] + r + a[|r|..];
  }

  lemma {:induction false} TrimCutsSpace(s: JsString)
    ensures var k := |s| - |TrimStart(s)|;
      k + |Trim(s)| <= |s| && AllSpace(s[..k]) && AllSpace(s[k + |Trim(s)|..])
  {
    var a := TrimStart(s);
    var k := |s| - |a|;
    TrimStartSpec(s);
    TrimEndSpec(a);
    assert a[|Trim(s)|..] == s[k + |Trim(s)|..];
  }

  /** Trim is characterised by its result alone: stripping white space from
      a trimmed string padded with white space gives the string back. */
  lemma {:induction false} TrimOfPadded(p: JsString, r: JsString, q: JsString)
    requires AllSpace(p) && AllSpace(q) && IsTrimmed(r)
    ensures Trim(p + r + q) == r
  {
    if |r| == 0 {
      TrimStartOfSpace(p + q);
      assert p + r + q == p + q;
    } else {
      assert p + r + q == p + (r + q);
      TrimStartStopsAt(p, r + q);
      TrimEndStopsAt(r, q);
    }
  }

  lemma {:induction false} TrimStartOfSpace(s: JsString)
    requires AllSpace(s)
    ensures TrimStart(s) == []
  {
    if |s| > 0 {
      TrimStartOfSpace(s[1..]);
    }
  }

  lemma {:induction false} TrimStartStopsAt(p: JsString, t: JsString)
    requires AllSpace(p)
    requires |t| > 0 && !IsSpace(t[0])
    ensures TrimStart(p + t) == t
  {
    if |p| > 0 {
      assert (p + t)[1..] == p[1..] + t;
      TrimStartStopsAt(p[1..], t);
    } else {
      assert p + t == t;
    }
  }

  lemma {:induction false} TrimEndStopsAt(t: JsString, q: JsString)
    requires AllSpace(q)
    requires |t| > 0 && !IsSpace(t[|t| - 1])
    ensures TrimEnd(t + q) == t
  {
    if |q| > 0 {
      assert (t + q)[..|t + q| - 1] == t + q[..|q| - 1];
      TrimEndStopsAt(t, q[..|q| - 1]);
    } else {
      assert t + q == t;
    }
  }

    /** Trailing white space never decides whether a string starts with a
      prefix that ends in something other than white space. */
  lemma {:induction false} TrimEndKeepsPrefix(s: JsString, p: JsString)
    requires |p| > 0 && !IsSpace(p[|p| - 1])
    ensures StartsWith(TrimEnd(s), p) <==> StartsWith(s, p)
  {
    TrimEndSpec(s);
    var n := |TrimEnd(s)|;
    if StartsWith(TrimEnd(s), p) {
      assert s[..|p|] == s[..n][..|p|];
    }
  }

/** Trimming twice is trimming once. */
  lemma {:induction false} TrimIdempotent(s: JsString)
    ensures Trim(Trim(s)) == Trim(s)
  {
    TrimIsTrimmed(s);
    TrimOfPadded([], Trim(s), []);
    assert [] + Trim(s) + [] == Trim(s);
  }

  //
  // split('\n') and join('\n')
  //

  /** `s.split('\n')`: the maximal LF-free pieces, in order. Splitting the
      empty string gives one empty piece. */
  function Split(s: JsString): (r: seq<JsString>)
    ensures |r| >= 1
    ensures forall i :: 0 <= i < |r| ==> LF !in r[i]
  {
    if |s| == 0 then [[]]
    else
      var rest := Split(s[1..]);
      if s[0] == LF then [[]] + rest
      else [[s[0]] + rest[0]] + rest[1..]
  }

  /** `lines.join('\n')`. */
  function Join(lines: seq<JsString>): (r: JsString)
    ensures |lines| > 0 ==> lines[0] <= r
    ensures |lines| > 1 ==> |lines[0]| < |r| && r[|lines[0]|] == LF
  {
    if |lines| == 0 then []
    else if |lines| == 1 then lines[0]
    else lines[0] + [LF] + Join(lines[1..])
  }

  /** Joining the pieces of a split gives back the original string. */
  lemma {:induction false} JoinSplit(s: JsString)
    ensures Join(Split(s)) == s
  {
    if |s| > 0 {
      JoinSplit(s[1..]);
      var rest := Split(s[1..]);
      if s[0] == LF {
        assert s == [LF] + s[1..];
      } else {
        if |rest| == 1 {
          assert s == [s[0]] + s[1..];
        } else {
          assert Join(rest) == rest[0] + [LF] + Join(rest[1..]);
          assert s == [s[0]] + s[1..];
        }
      }
    }
  }

  /** Splitting a join of LF-free lines gives the lines back. */
  lemma {:induction false} SplitJoin(lines: seq<JsString>)
    requires |lines| >= 1
    requires forall i :: 0 <= i < |lines| ==> LF !in lines[i]
    ensures Split(Join(lines)) == lines
  {
    if |lines| == 1 {
      SplitLineFree(lines[0]);
    } else {
      SplitJoin(lines[1..]);
      SplitConcat(lines[0], Join(lines[1..]));
      SplitLineFree(lines[0]);
    }
  }

  lemma {:induction false} SplitLineFree(s: JsString)
    requires LF !in s
    ensures Split(s) == [s]
  {
    if |s| > 0 {
      SplitLineFree(s[1..]);
      assert [s[0]] + s[1..] == s;
    }
  }

  /** A line break splits the pieces of what precedes it from the pieces of
      what follows it. */
  lemma {:induction false} SplitConcat(a: JsString, b: JsString)
    ensures Split(a + [LF] + b) == Split(a) + Split(b)
  {
    if |a| == 0 {
      assert a + [LF] + b == [LF] + b;
      assert ([LF] + b)[1..] == b;
    } else {
      assert (a + [LF] + b)[1..] == a[1..] + [LF] + b;
      SplitConcat(a[1..], b);
    }
  }

  /** Joining a prefix of the lines gives a prefix of the whole join. */
  lemma {:induction false} JoinPrefix(lines: seq<JsString>, i: nat)
    requires 0 < i < |lines|
    ensures Join(lines) == Join(lines[..i]) + [LF] + Join(lines[i..])
  {
    if i > 1 {
      JoinPrefix(lines[1..], i - 1);
      assert lines[1..][..i - 1] == lines[..i][1..];
      assert lines[1..][i - 1..] == lines[i..];
    } else {
      assert lines[..1] == [lines[0]];
    }
  }

  //
  // startsWith, indexOf, includes, toLowerCase
  //

  predicate StartsWith(s: JsString, prefix: JsString) {
    |prefix| <= |s| && s[..|prefix|] == prefix
  }

  /** The position of the first `u` in `s`, or `None` for the `-1` of
      `indexOf` when there is none. */
  function IndexOf(s: JsString, u: Unit): (r: Option<nat>)
    ensures r.Some? ==> r.value < |s| && s[r.value] == u && u !in s[..r.value]
    ensures r.None? <==> u !in s
  {
    if |s| == 0 then None
    else if s[0] == u then Some(0)
    else
      var rest := IndexOf(s[1..], u);
      assert s == [s[0]] + s[1..];
      match rest
      case None => None
      case Some(i) =>
        assert s[..i + 1] == [s[0]] + s[1..][..i];
        Some(i + 1)
  }

  /** The first `u` is found wherever it stands. */
  lemma {:induction false} IndexOfFirst(s: JsString, u: Unit, i: nat)
    requires i < |s| && s[i] == u && u !in s[..i]
    ensures IndexOf(s, u) == Some(i)
  {
    assert s[i] in s;
  }

  /** `s.includes(sub)`. */
  predicate Contains(s: JsString, sub: JsString) {
    exists i :: 0 <= i <= |s| - |sub| && OccursAt(s, sub, i)
  }

  predicate OccursAt(s: JsString, sub: JsString, i: int) {
    0 <= i <= |s| - |sub| && s[i..i + |sub|] == sub
  }

  /** `toLowerCase` on the ASCII letters; every other code unit is kept. */
  function ToLowerAscii(s: JsString): (r: JsString)
    ensures |r| == |s|
    ensures forall i :: 0 <= i < |s| ==>
      r[i] == (if 0x41 <= s[i] <= 0x5A then s[i] + 0x20 else s[i])
  {
    if |s| == 0 then []
    else [if 0x41 <= s[0] <= 0x5A then s[0] + 0x20 else s[0]] + ToLowerAscii(s[1..])
  }

  //
  // Well-formed UTF-16
  //

  predicate IsHighSurrogate(u: Unit) { 0xD800 <= u <= 0xDBFF }
  predicate IsLowSurrogate(u: Unit) { 0xDC00 <= u <= 0xDFFF }

  /** No lone surrogate: every high surrogate is followed by a low one and
      every low surrogate follows a high one. */
  predicate WellFormed(s: JsString) {
    && (forall i :: 0 <= i < |s| && IsHighSurrogate(s[i]) ==> i + 1 < |s| && IsLowSurrogate(s[i + 1]))
    && (forall i :: 0 <= i < |s| && IsLowSurrogate(s[i]) ==> 0 < i && IsHighSurrogate(s[i - 1]))
  }

  /** The UTF-16 encoding of a Unicode scalar value. */
  function CodePointUnits(cp: int): (r: JsString)
    requires 0 <= cp < 0x11_0000 && !(0xD800 <= cp <= 0xDFFF)
    ensures 1 <= |r| <= 2
    ensures |r| == 2 <==> cp >= 0x1_0000
    ensures |r| == 1 ==> r[0] == cp
    ensures |r| == 2 ==>
      && IsHighSurrogate(r[0]) && IsLowSurrogate(r[1])
      && cp == 0x1_0000 + (r[0] as int - 0xD800) * 0x400 + (r[1] as int - 0xDC00)
  {
    if cp < 0x1_0000 then [cp]
    else [0xD800 + (cp - 0x1_0000) / 0x400, 0xDC00 + (cp - 0x1_0000) % 0x400]
  }
}
