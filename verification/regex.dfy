/** A backtracking matcher for the fragment of ECMAScript regular expressions
    the option pattern is written in: `^` and `$` under the `m` flag, a single
    character, and greedy repetition `x*` / `x+` of a character class,
    optionally wrapped in a capture group. Greedy repetition of one character
    consumes the longest run it can and then gives characters back one at a
    time until the rest of the pattern matches, which is what the
    RepeatMatcher of ECMA-262 does for an atom that always consumes exactly
    one character. */
module Regex {
  import opened Results
  import opened JsText

  datatype CharClass =
    | Space               // `\s`
    | Digit               // `\d`
    | NotLineTerminator   // `.` without the `s` flag
    | Exactly(u: Unit)    // an escaped literal such as `\.`

  predicate InClass(c: CharClass, u: Unit) {
    match c
    case Space => IsSpace(u)
    case Digit => IsDigit(u)
    case NotLineTerminator => !IsLineTerminator(u)
    case Exactly(v) => u == v
  }

  datatype Node =
    | LineStart                                        // `^` with the `m` flag
    | LineEnd                                          // `$` with the `m` flag
    | Atom(cls: CharClass)                             // exactly one character
    | Repeat(cls: CharClass, min: nat, capture: bool)  // greedy `x*` (min 0) or `x+` (min 1)

  /** The bounds of a captured substring, `lo` inclusive, `hi` exclusive. */
  datatype Span = Span(lo: nat, hi: nat)

  /** A successful match: where it ends and the capture groups it filled, in
      the order their groups open. */
  datatype Found = Found(end: nat, caps: seq<Span>)

  predicate AtLineStart(t: JsString, p: nat) {
    p == 0 || (p <= |t| && IsLineTerminator(t[p - 1]))
  }

  predicate AtLineEnd(t: JsString, p: nat) {
    p == |t| || (p < |t| && IsLineTerminator(t[p]))
  }

  /** Length of the longest run of class characters starting at `p`. */
  function MaxRun(c: CharClass, t: JsString, p: nat): (n: nat)
    requires p <= |t|
    ensures p + n <= |t|
    decreases |t| - p
  {
    if p == |t| || !InClass(c, t[p]) then 0 else 1 + MaxRun(c, t, p + 1)
  }

  function CaptureCount(pat: seq<Node>): nat {
    if |pat| == 0 then 0
    else (if pat[0].Repeat? && pat[0].capture then 1 else 0) + CaptureCount(pat[1..])
  }

  /** Whether the new captures lie between `p` and the end of the match. */
  predicate CapturesWithin(caps: seq<Span>, from: nat, p: nat, end: nat) {
    forall k :: from <= k < |caps| ==> p <= caps[k].lo <= caps[k].hi <= end
  }

  /** Matches `pat` against `t` at position `p`, with the captures so far in
      `caps`; the first successful way in backtracking order wins. */
  function Run(pat: seq<Node>, t: JsString, p: nat, caps: seq<Span>): (r: Option<Found>)
    requires p <= |t|
    ensures r.Some? ==> p <= r.value.end <= |t|
    ensures r.Some? ==> |r.value.caps| == |caps| + CaptureCount(pat)
    ensures r.Some? ==> r.value.caps[..|caps|] == caps
    ensures r.Some? ==> CapturesWithin(r.value.caps, |caps|, p, r.value.end)
    decreases |pat|, 1, 0
  {
    if |pat| == 0 then Some(Found(p, caps))
    else
      match pat[0]
      case LineStart =>
        if AtLineStart(t, p) then Run(pat[1..], t, p, caps) else None
      case LineEnd =>
        if AtLineEnd(t, p) then Run(pat[1..], t, p, caps) else None
      case Atom(c) =>
        if p < |t| && InClass(c, t[p]) then Run(pat[1..], t, p + 1, caps) else None
      case Repeat(c, _, _) =>
        Backtrack(pat, t, p, MaxRun(c, t, p), caps)
  }

  /** Greedy repetition: the rest of the pattern is tried after `count`
      repetitions, then after one fewer, down to the minimum. */
  function Backtrack(pat: seq<Node>, t: JsString, p: nat, count: nat, caps: seq<Span>): (r: Option<Found>)
    requires |pat| > 0 && pat[0].Repeat?
    requires p + count <= |t|
    ensures r.Some? ==> p <= r.value.end <= |t|
    ensures r.Some? ==> |r.value.caps| == |caps| + CaptureCount(pat)
    ensures r.Some? ==> r.value.caps[..|caps|] == caps
    ensures r.Some? ==> CapturesWithin(r.value.caps, |caps|, p, r.value.end)
    decreases |pat|, 0, count
  {
    if count < pat[0].min then None
    else
      var caps' := if pat[0].capture then caps + [Span(p, p + count)] else caps;
      match Run(pat[1..], t, p + count, caps')
      case Some(f) =>
        assert f.caps[..|caps|] == caps' [..|caps|];
        Some(f)
      case None =>
        if count == 0 then None else Backtrack(pat, t, p, count - 1, caps)
  }

  /** Every character of `u` is in the class. */
  predicate AllIn(c: CharClass, u: JsString) {
    forall i :: 0 <= i < |u| ==> InClass(c, u[i])
  }

  /** The run is made of class characters and cannot be extended. */
  lemma {:induction false} MaxRunSpec(c: CharClass, t: JsString, p: nat)
    requires p <= |t|
    ensures AllIn(c, t[p..p + MaxRun(c, t, p)])
    ensures p + MaxRun(c, t, p) < |t| ==> !InClass(c, t[p + MaxRun(c, t, p)])
    decreases |t| - p
  {
    if p < |t| && InClass(c, t[p]) {
      MaxRunSpec(c, t, p + 1);
      var n := MaxRun(c, t, p);
      assert t[p..p + n] == [t[p]] + t[p + 1..p + n];
    }
  }

  /** A run of class characters that ends at a non-class character (or at
      the end of the input) is the longest run. */
  lemma {:induction false} MaxRunExact(c: CharClass, t: JsString, p: nat, n: nat)
    requires p + n <= |t|
    requires AllIn(c, t[p..p + n])
    requires p + n < |t| ==> !InClass(c, t[p + n])
    ensures MaxRun(c, t, p) == n
    decreases n
  {
    if n > 0 {
      assert t[p..p + n] == [t[p]] + t[p + 1..p + n];
      MaxRunExact(c, t, p + 1, n - 1);
    }
  }

  lemma {:induction false} MaxRunAtLeast(c: CharClass, t: JsString, p: nat, n: nat)
    requires p + n <= |t|
    requires AllIn(c, t[p..p + n])
    ensures MaxRun(c, t, p) >= n
    decreases n
  {
    if n > 0 {
      assert t[p..p + n] == [t[p]] + t[p + 1..p + n];
      MaxRunAtLeast(c, t, p + 1, n - 1);
    }
  }

  /** A shorter prefix of a run is still a run. */
  lemma {:induction false} AllInPrefix(c: CharClass, t: JsString, p: nat, n: nat, m: nat)
    requires m <= n && p + n <= |t|
    requires AllIn(c, t[p..p + n])
    ensures AllIn(c, t[p..p + m])
  {
    var short, long := t[p..p + m], t[p..p + n];
    forall i | 0 <= i < m
      ensures InClass(c, short[i])
    {
      assert short[i] == long[i];
    }
  }
}
