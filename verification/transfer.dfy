/** The text's trip from the chat to the form: the click writes it into the
    `autoFillText` query parameter, the query layer of the receiving page
    decodes the parameter, and the form decodes the result a second time
    before filling it in. */
module Transfer {
  import opened Results
  import opened JsText
  import opened UriCodec
  import Handoff
  import RunOnce

  /** `+`, which form-encoded query values use for a space. */
  const Plus: Unit := 0x2B

  function PlusAsSpace(v: JsString): (r: JsString)
    ensures |r| == |v|
    ensures forall i :: 0 <= i < |v| ==> r[i] == (if v[i] == Plus then 0x20 else v[i])
  {
    if |v| == 0 then [] else [if v[0] == Plus then 0x20 else v[0]] + PlusAsSpace(v[1..])
  }

  /** The value `searchParams.get` returns for the raw query value `raw`:
      `+` read as a space, then the escapes decoded. A raw value with a
      malformed escape is a failure here. */
  function QueryValue(raw: JsString): (r: Result<JsString, UriError>)
    ensures Plus !in raw ==> r == Decode(raw)
  {
    assert Plus !in raw ==> PlusAsSpace(raw) == raw;
    Decode(PlusAsSpace(raw))
  }

  //
  // Reading a parameter from an address
  //

  const Question: Unit := 0x3F
  const Hash: Unit := 0x23
  const Amp: Unit := 0x26
  const Equals: Unit := 0x3D

  /** `autoFillText`, the name of the parameter the click sets. */
  const ParamName: JsString := [0x61, 0x75, 0x74, 0x6F, 0x46, 0x69, 0x6C, 0x6C, 0x54, 0x65, 0x78, 0x74]

  /** Neither a query nor a fragment can start inside `s`. */
  predicate NoQueryOrFragment(s: JsString) {
    Question !in s && Hash !in s
  }

  /** The query of an address: what follows the first `?` before the
      fragment, which starts at the first `#`. An address without a `?`
      there has an empty query. */
  function QueryOf(url: JsString): (q: JsString)
    ensures Hash !in q
    ensures Question !in url ==> q == []
    ensures |q| <= |url|
  {
    var beforeFragment := match IndexOf(url, Hash) case Some(h) => url[..h] case None => url;
    match IndexOf(beforeFragment, Question)
    case None => []
    case Some(i) =>
      assert forall u :: u in beforeFragment[i + 1..] ==> u in beforeFragment;
      assert forall u :: u in beforeFragment ==> u in url;
      beforeFragment[i + 1..]
  }

  /** The part of `s` before the first `u`, all of it when there is none. */
  function Before(s: JsString, u: Unit): (r: JsString)
    ensures u !in r && r <= s
    ensures u !in s ==> r == s
  {
    match IndexOf(s, u) case Some(i) => s[..i] case None => s
  }

  /** The part of `s` after the first `u`, if there is one. */
  function After(s: JsString, u: Unit): (r: Option<JsString>)
    ensures r.None? <==> u !in s
    ensures r.Some? ==> s == Before(s, u) + [u] + r.value
  {
    match IndexOf(s, u)
    case Some(i) =>
      assert s == s[..i] + [u] + s[i + 1..];
      Some(s[i + 1..])
    case None => None
  }

  /** The raw value of the first `name=value` pair of the query `q` whose
      name reads as `name`, as `URLSearchParams` pairs it: pairs are
      separated by `&`, and a pair without `=` has an empty value. */
  function Lookup(q: JsString, name: JsString): (r: Option<JsString>)
    ensures r.Some? ==> Amp !in r.value
    ensures Amp !in q && QueryValue(Before(q, Equals)) != Success(name) ==> r.None?
    decreases |q|
  {
    var pair := Before(q, Amp);
    var key := Before(pair, Equals);
    if QueryValue(key) == Success(name) then
      match After(pair, Equals)
      case Some(value) =>
        assert forall u :: u in value ==> u in pair;
        Some(value)
      case None => Some([])
    else
      match After(q, Amp)
      case Some(rest) => Lookup(rest, name)
      case None => None
  }

  /** `searchParams.get(name)` on the page at `url`: `None` for the `null` of
      a missing parameter, otherwise the value as the query layer reads it. */
  function SearchParam(url: JsString, name: JsString): (r: Option<Result<JsString, UriError>>)
    ensures Question !in url && |name| > 0 ==> r.None?
  {
    assert QueryValue([]) == Success([]);
    match Lookup(QueryOf(url), name)
    case None => None
    case Some(raw) => Some(QueryValue(raw))
  }

  /** The query layer hands over exactly the text that was encoded. */
  lemma {:induction false} QueryValueOfEncoded(text: JsString)
    requires WellFormed(text)
    ensures Encode(text).Success? && QueryValue(Encode(text).value) == Success(text)
  {
    DecodeEncode(text);
    EncodeAlphabet(text);
  }

  /** Whether the form now holds `text` in the field it chose. */
  predicate Delivered(a: RunOnce.Autofill, text: JsString) {
    && a.outcome.Filled?
    && a.outcome.key in a.state.published
    && a.state.published[a.outcome.key] == RunOnce.Text(text)
  }

  //
  // As the form is written: two decodes
  //

  /** What the form does with a text the click sent: the query layer's
      decode, then the form's own. */
  function ArrivalAsWritten(text: JsString, vars: seq<RunOnce.PromptVariable>, st: RunOnce.FormState): (r: RunOnce.Autofill)
    ensures r.state.mirror == st.mirror
    ensures !r.outcome.Filled? ==> r.state == st
    ensures r.outcome.Filled? ==> r.state.published.Keys == st.mirror.Keys + {r.outcome.key}
  {
    match Encode(text)
    case Failure(_) => RunOnce.AutofillFrom(None, vars, st)
    case Success(raw) =>
      match QueryValue(raw)
      case Failure(_) => RunOnce.AutofillFrom(None, vars, st)
      case Success(param) => RunOnce.AutofillFrom(Some(param), vars, st)
  }

  /** With the second decode the text arrives intact exactly when it holds
      no `%`. */
  lemma {:induction false} ArrivalAsWrittenNeedsNoPercent(text: JsString, vars: seq<RunOnce.PromptVariable>, st: RunOnce.FormState)
    requires WellFormed(text) && |text| > 0 && |vars| > 0
    ensures Delivered(ArrivalAsWritten(text, vars, st), text) <==> Percent !in text
  {
    QueryValueOfEncoded(text);
    DecodeIdentityIffNoPercent(text);
  }

  /** An option reading `%`, picked with no previous text, never reaches the
      form: the second decode throws on the lone `%`. */
  lemma {:induction false} PercentOptionIsLost(vars: seq<RunOnce.PromptVariable>, st: RunOnce.FormState)
    ensures ArrivalAsWritten(Handoff.Compose([], [Percent]), vars, st).outcome == RunOnce.DecodeFailed
    ensures ArrivalAsWritten(Handoff.Compose([], [Percent]), vars, st).state == st
  {
    var text := Handoff.Compose([], [Percent]);
    assert text == [LF, Percent];
    assert WellFormed(text);
    QueryValueOfEncoded(text);
    assert text[1..] == [Percent];
    assert Decode([Percent]).Failure?;
  }

  //
  // With one decode
  //

  /** What the form does when it fills in the query layer's value as it is,
      without decoding it again. */
  function ArrivalOnce(text: JsString, vars: seq<RunOnce.PromptVariable>, st: RunOnce.FormState): (r: RunOnce.Autofill)
    ensures r.state.mirror == st.mirror
    ensures !r.outcome.Filled? ==> r.state == st
    ensures r.outcome.Filled? ==> r.state.published.Keys == st.mirror.Keys + {r.outcome.key}
  {
    match Encode(text)
    case Failure(_) => RunOnce.Autofill(RunOnce.NoParam, st)
    case Success(raw) =>
      match QueryValue(raw)
      case Failure(_) => RunOnce.Autofill(RunOnce.DecodeFailed, st)
      case Success(param) =>
        if |param| == 0 then RunOnce.Autofill(RunOnce.NoParam, st)
        else RunOnce.FillText(param, vars, st)
  }

  /** With one decode every text the click can send arrives intact, in the
      field the resolver chooses, and nothing else in the map changes. */
  lemma {:induction false} ArrivalOnceDelivers(text: JsString, vars: seq<RunOnce.PromptVariable>, st: RunOnce.FormState)
    requires WellFormed(text) && |text| > 0 && |vars| > 0
    ensures var r := ArrivalOnce(text, vars, st);
      && Delivered(r, text)
      && r.outcome.key == RunOnce.Resolve(vars).value.key
      && r.state.published.Keys == st.mirror.Keys + {r.outcome.key}
      && (forall k :: k in st.mirror && k != r.outcome.key ==> r.state.published[k] == st.mirror[k])
  {
    QueryValueOfEncoded(text);
  }

  /** From the click to the form: whenever the click navigates with the
      text, the page it opens reads the composed text back as its
      `autoFillText` parameter, and a form that decodes it once fills it in
      unchanged. An origin is a scheme, host and port and never holds `?` or
      `#`; the configured path is assumed to hold neither. */
  lemma {:induction false} ClickToForm(ctx: Handoff.ChatContext, origin: JsString, path: JsString, option: JsString,
                                       vars: seq<RunOnce.PromptVariable>, st: RunOnce.FormState)
    requires Handoff.SentText(ctx, option).Some? && |vars| > 0
    requires Handoff.OptionClick(Some(ctx), origin, path, option).navigation.Navigate?
    requires NoQueryOrFragment(origin) && NoQueryOrFragment(path)
    ensures var text := Handoff.SentText(ctx, option).value;
      var url := Handoff.OptionClick(Some(ctx), origin, path, option).navigation.url;
      && SearchParam(url, ParamName) == Some(Success(text))
      && Delivered(RunOnce.FillText(text, vars, st), text)
      && Delivered(ArrivalOnce(text, vars, st), text)
  {
    var text := Handoff.SentText(ctx, option).value;
    Handoff.ClickCarriesText(ctx, origin, path, option);
    QueryValueOfEncoded(text);
    ArrivalOnceDelivers(text, vars, st);
    var base := Handoff.BaseUrl(origin, path);
    assert base == origin + [Slash] + Handoff.FormattedPath(path);
    assert forall u :: u in Handoff.FormattedPath(path) ==> u in path;
    assert NoQueryOrFragment(base);
    ParamOfClick(base, Encode(text).value);
  }

  /** The address the click builds carries the encoded text as its
      `autoFillText` parameter when the part before `?autoFillText=` holds
      no `?` or `#`. */
  lemma {:induction false} ParamOfClick(base: JsString, enc: JsString)
    requires NoQueryOrFragment(base) && AllEncodedUnits(enc)
    ensures SearchParam(base + Handoff.QueryKey + enc, ParamName) == Some(QueryValue(enc))
  {
    assert Handoff.QueryKey == [Question] + ParamName + [Equals];
    assert forall i :: 0 <= i < |enc| ==> IsEncodedUnit(enc[i]);
    assert Hash !in enc && Amp !in enc;
    var q := ParamName + [Equals] + enc;
    assert base + Handoff.QueryKey + enc == base + [Question] + q;
    QueryAfter(base, q);
    ParamNameReadsAsItself();
    LookupFirst(ParamName, enc, ParamName);
  }

  /** The parameter's name holds no separator and reads as itself. */
  lemma {:induction false} ParamNameReadsAsItself()
    ensures Amp !in ParamName && Equals !in ParamName
    ensures QueryValue(ParamName) == Success(ParamName)
  {
    assert forall i :: 0 <= i < |ParamName| ==> ParamName[i] >= 0x41;
    PlainReadsAsItself(ParamName);
  }

  /** A raw value without `%` or `+` reads as itself. */
  lemma {:induction false} PlainReadsAsItself(raw: JsString)
    requires Percent !in raw && Plus !in raw
    ensures QueryValue(raw) == Success(raw)
  {
    DecodePlain(raw);
  }

  /** The query of an address whose first `?` follows `pre`. */
  lemma {:induction false} QueryAfter(pre: JsString, q: JsString)
    requires NoQueryOrFragment(pre) && Hash !in q
    ensures QueryOf(pre + [Question] + q) == q
  {
    var url := pre + [Question] + q;
    assert Hash !in url;
    assert url[..|pre|] == pre;
    IndexOfFirst(url, Question, |pre|);
    assert url[|pre| + 1..] == q;
  }

  /** A query of one pair `key=value` whose key reads as `name` gives
      `value`. */
  lemma {:induction false} LookupFirst(key: JsString, value: JsString, name: JsString)
    requires Amp !in key && Amp !in value && Equals !in key
    requires QueryValue(key) == Success(name)
    ensures Lookup(key + [Equals] + value, name) == Some(value)
  {
    var q := key + [Equals] + value;
    assert Amp !in q;
    assert q[..|key|] == key;
    IndexOfFirst(q, Equals, |key|);
    assert q[|key| + 1..] == value;
  }

  /** A configured path that carries its own query hides the parameter:
      with a path such as `/w?a=1` the page's query is
      `a=1?autoFillText=…`, one pair whose name is `a`, and
      `searchParams.get` finds no `autoFillText`. */
  lemma {:induction false} PathQueryHidesText(origin: JsString, dir: JsString, key: JsString, value: JsString, enc: JsString)
    requires NoQueryOrFragment(origin) && NoQueryOrFragment(dir)
    requires Hash !in key && Amp !in key && Equals !in key && Hash !in value && Amp !in value
    requires QueryValue(key) != Success(ParamName)
    requires AllEncodedUnits(enc)
    ensures SearchParam(Handoff.BaseUrl(origin, [Slash] + dir + [Question] + key + [Equals] + value) + Handoff.QueryKey + enc,
                        ParamName).None?
  {
    var pre := origin + [Slash] + dir;
    var rest := value + Handoff.QueryKey + enc;
    var q := key + [Equals] + rest;
    PathQueryAddress(origin, dir, key, value, enc);
    QueryKeyTailFree(enc);
    assert Hash !in q && Amp !in rest;
    QueryAfter(pre, q);
    LookupMiss(key, rest, ParamName);
  }

  /** The address built from such a path splits at the path's own `?`. */
  lemma {:induction false} PathQueryAddress(origin: JsString, dir: JsString, key: JsString, value: JsString, enc: JsString)
    ensures Handoff.BaseUrl(origin, [Slash] + dir + [Question] + key + [Equals] + value) + Handoff.QueryKey + enc
         == (origin + [Slash] + dir) + [Question] + (key + [Equals] + (value + Handoff.QueryKey + enc))
  {
    var path := [Slash] + dir + [Question] + key + [Equals] + value;
    RootedBase(origin, path);
    Regroup(origin, dir, key, value, Handoff.QueryKey, enc);
  }

  /** Regrouping the pieces of such an address around the path's `?`. */
  lemma Regroup(origin: JsString, dir: JsString, key: JsString, value: JsString, qk: JsString, enc: JsString)
    ensures origin + ([Slash] + dir + [Question] + key + [Equals] + value) + qk + enc
         == (origin + [Slash] + dir) + [Question] + (key + [Equals] + (value + qk + enc))
  {
  }

  /** A path that starts with `/` is appended to the origin as it is. */
  lemma {:induction false} RootedBase(origin: JsString, path: JsString)
    requires |path| > 0 && path[0] == Slash
    ensures Handoff.BaseUrl(origin, path) == origin + path
  {
    assert path[..1] == [Slash];
  }

  /** What follows `?autoFillText=` holds neither `#` nor `&`. */
  lemma {:induction false} QueryKeyTailFree(enc: JsString)
    requires AllEncodedUnits(enc)
    ensures Hash !in Handoff.QueryKey + enc && Amp !in Handoff.QueryKey + enc
  {
    assert forall i :: 0 <= i < |Handoff.QueryKey| ==> Handoff.QueryKey[i] >= 0x3D;
    assert forall i :: 0 <= i < |enc| ==> IsEncodedUnit(enc[i]);
  }

  /** A query of one pair whose key does not read as `name` has no
      `name`. */
  lemma {:induction false} LookupMiss(key: JsString, rest: JsString, name: JsString)
    requires Amp !in key && Equals !in key && Amp !in rest
    requires QueryValue(key) != Success(name)
    ensures Lookup(key + [Equals] + rest, name).None?
  {
    var q := key + [Equals] + rest;
    assert Amp !in q;
    assert q[..|key|] == key;
    IndexOfFirst(q, Equals, |key|);
  }

  /** The path `/w?a=1` is such a path. */
  lemma {:induction false} ExamplePathQuery(origin: JsString, enc: JsString)
    requires NoQueryOrFragment(origin) && AllEncodedUnits(enc)
    ensures SearchParam(Handoff.BaseUrl(origin, [Slash, 0x77, Question, 0x61, Equals, 0x31]) + Handoff.QueryKey + enc,
                        ParamName).None?
  {
    PlainReadsAsItself([0x61]);
    assert [Slash] + [0x77] + [Question] + [0x61] + [Equals] + [0x31] == [Slash, 0x77, Question, 0x61, Equals, 0x31];
    PathQueryHidesText(origin, [0x77], [0x61], [0x31], enc);
  }

  /** A configured path with a fragment hides the parameter too: with a
      path such as `/w#top` everything from `#` on is the fragment, and the
      page has no query at all. */
  lemma {:induction false} PathFragmentHidesText(origin: JsString, dir: JsString, frag: JsString, enc: JsString)
    requires NoQueryOrFragment(origin) && NoQueryOrFragment(dir)
    ensures SearchParam(Handoff.BaseUrl(origin, [Slash] + dir + [Hash] + frag) + Handoff.QueryKey + enc, ParamName).None?
  {
    var path := [Slash] + dir + [Hash] + frag;
    var pre := origin + [Slash] + dir;
    RootedBase(origin, path);
    var url := Handoff.BaseUrl(origin, path) + Handoff.QueryKey + enc;
    RegroupFragment(origin, dir, frag, Handoff.QueryKey, enc);
    assert url[..|pre|] == pre;
    IndexOfFirst(url, Hash, |pre|);
    assert QueryOf(url) == [];
  }

  /** Regrouping the pieces of such an address around the path's `#`. */
  lemma RegroupFragment(origin: JsString, dir: JsString, frag: JsString, qk: JsString, enc: JsString)
    ensures origin + ([Slash] + dir + [Hash] + frag) + qk + enc == (origin + [Slash] + dir) + [Hash] + (frag + qk + enc)
  {
  }

  /** The path `/w#top` is such a path. */
  lemma {:induction false} ExamplePathFragment(origin: JsString, enc: JsString)
    requires NoQueryOrFragment(origin)
    ensures SearchParam(Handoff.BaseUrl(origin, [Slash, 0x77, Hash, 0x74, 0x6F, 0x70]) + Handoff.QueryKey + enc,
                        ParamName).None?
  {
    assert [Slash] + [0x77] + [Hash] + [0x74, 0x6F, 0x70] == [Slash, 0x77, Hash, 0x74, 0x6F, 0x70];
    PathFragmentHidesText(origin, [0x77], [0x74, 0x6F, 0x70], enc);
  }
}
