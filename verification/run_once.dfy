/** The receiving form: the prompt variables it shows, how an `autoFillText`
    parameter picks one of them and is written into the inputs, clearing the
    form, and the single-field edits. The inputs live in the parent: the form
    publishes a new map through `onInputsChange` and keeps a mirror of the
    latest map (`inputsRef`) that every field edit starts from. */
module RunOnce {
  import opened Results
  import opened JsText
  import opened UriCodec

  //
  // Prompt variables and inputs
  //

  /** The declared type of a prompt variable: `string`, `paragraph`,
      `select`, `number`, `file`, `file-list`, or any other. */
  datatype VarType = StringType | Paragraph | Select | Number | File | FileList | OtherType

  datatype PromptVariable = PromptVariable(key: JsString, name: JsString, vtype: VarType)

  /** A value in the inputs map: text, as every text-like field holds it, one
      processed upload, a list of them, or `undefined`. Uploads are known
      here only by an identifier. */
  datatype FieldValue = Text(text: JsString) | Upload(id: nat) | Uploads(ids: seq<nat>) | Undefined

  type Inputs = map<JsString, FieldValue>

  //
  // Choosing the field to fill
  //

  /** `text`, the substring that makes a variable's name text-like. */
  const TextWord: JsString := [0x74, 0x65, 0x78, 0x74]

  predicate IsParagraph(v: PromptVariable) {
    v.vtype == Paragraph
  }

  /** A variable of type `string`, or one whose name, lower-cased, contains
      `text`. */
  predicate IsTextLike(v: PromptVariable) {
    v.vtype == StringType || Contains(ToLowerAscii(v.name), TextWord)
  }

  /** `name` holds `text` at `i` in some mix of upper- and lower-case
      ASCII letters. */
  predicate TextAnyCaseAt(name: JsString, i: int) {
    0 <= i <= |name| - |TextWord| &&
    forall j :: 0 <= j < |TextWord| ==> name[i + j] == TextWord[j] || name[i + j] as int + 0x20 == TextWord[j]
  }

  /** A variable is text-like exactly when it is of type `string` or its
      name spells `text` somewhere, in any case: `Text`, `TEXT` and
      `context` all qualify, `txt` does not. */
  lemma {:induction false} TextLikeAnyCase(v: PromptVariable)
    ensures IsTextLike(v) <==> v.vtype == StringType || exists i :: TextAnyCaseAt(v.name, i)
  {
    var low := ToLowerAscii(v.name);
    assert forall j :: 0 <= j < |TextWord| ==> 0x61 <= TextWord[j] <= 0x7A;
    forall i | 0 <= i <= |v.name| - |TextWord|
      ensures OccursAt(low, TextWord, i) <==> TextAnyCaseAt(v.name, i)
    {
      var w := low[i..i + |TextWord|];
      assert forall j :: 0 <= j < |TextWord| ==> w[j] == low[i + j];
    }
  }

  /** The two searches of the resolver. */
  datatype Rule = ParagraphRule | TextRule

  predicate Satisfies(rule: Rule, v: PromptVariable) {
    match rule
    case ParagraphRule => IsParagraph(v)
    case TextRule => IsTextLike(v)
  }

  /** The first variable at or after position `k` that satisfies `rule`, as
      `find` finds it, given by its index. */
  function FindFrom(vars: seq<PromptVariable>, rule: Rule, k: nat): (r: Option<nat>)
    requires k <= |vars|
    ensures r.Some? ==> k <= r.value < |vars| && Satisfies(rule, vars[r.value])
    ensures r.Some? ==> forall j :: k <= j < r.value ==> !Satisfies(rule, vars[j])
    ensures r.None? ==> forall j :: k <= j < |vars| ==> !Satisfies(rule, vars[j])
    decreases |vars| - k
  {
    if k == |vars| then None
    else if Satisfies(rule, vars[k]) then Some(k)
    else FindFrom(vars, rule, k + 1)
  }

  /** `paragraphVar || textVar || vars[0]`, as the index of the chosen
      variable: the first paragraph, else the first text-like variable, else
      the first variable, else none. */
  function ResolveIndex(vars: seq<PromptVariable>): (r: Option<nat>)
    ensures r.Some? <==> |vars| > 0
    ensures r.Some? ==> r.value < |vars|
  {
    match FindFrom(vars, ParagraphRule, 0)
    case Some(i) => Some(i)
    case None =>
      match FindFrom(vars, TextRule, 0)
      case Some(i) => Some(i)
      case None => if |vars| > 0 then Some(0) else None
  }

  /** The variable `autoFillText` is written to; always one of `vars`. */
  function Resolve(vars: seq<PromptVariable>): (r: Option<PromptVariable>)
    ensures r.Some? <==> |vars| > 0
    ensures r.Some? ==> r.value in vars
  {
    match ResolveIndex(vars)
    case Some(i) => Some(vars[i])
    case None => None
  }

  /** How strongly a variable asks for the text: paragraphs first, then
      text-like variables, then the rest. */
  function Rank(v: PromptVariable): nat {
    if IsParagraph(v) then 0 else if IsTextLike(v) then 1 else 2
  }

  /** The resolver picks the first variable of the best rank: nothing in the
      list ranks better, and nothing before it ranks as well. */
  lemma {:induction false} ResolveIsFirstBest(vars: seq<PromptVariable>)
    requires |vars| > 0
    ensures var i := ResolveIndex(vars).value;
      && (forall j :: 0 <= j < |vars| ==> Rank(vars[i]) <= Rank(vars[j]))
      && (forall j :: 0 <= j < i ==> Rank(vars[i]) < Rank(vars[j]))
  {
  }

  /** Any variable that is first among those of the best rank is the one
      the resolver picks. */
  lemma {:induction false} FirstBestIsResolved(vars: seq<PromptVariable>, i: nat)
    requires i < |vars|
    requires forall j :: 0 <= j < |vars| ==> Rank(vars[i]) <= Rank(vars[j])
    requires forall j :: 0 <= j < i ==> Rank(vars[i]) < Rank(vars[j])
    ensures ResolveIndex(vars) == Some(i)
  {
    ResolveIsFirstBest(vars);
  }

  /** A paragraph anywhere in the list wins, and the first one is taken. */
  lemma {:induction false} ParagraphWins(vars: seq<PromptVariable>, i: nat)
    requires i < |vars| && IsParagraph(vars[i])
    requires forall j :: 0 <= j < i ==> !IsParagraph(vars[j])
    ensures Resolve(vars) == Some(vars[i])
  {
    FirstBestIsResolved(vars, i);
  }

  /** Without a paragraph, the first text-like variable is taken. */
  lemma {:induction false} TextLikeNext(vars: seq<PromptVariable>, i: nat)
    requires forall j :: 0 <= j < |vars| ==> !IsParagraph(vars[j])
    requires i < |vars| && IsTextLike(vars[i])
    requires forall j :: 0 <= j < i ==> !IsTextLike(vars[j])
    ensures Resolve(vars) == Some(vars[i])
  {
    FirstBestIsResolved(vars, i);
  }

  /** With neither, the first variable is taken. */
  lemma {:induction false} FirstOtherwise(vars: seq<PromptVariable>)
    requires |vars| > 0
    requires forall j :: 0 <= j < |vars| ==> !IsParagraph(vars[j]) && !IsTextLike(vars[j])
    ensures Resolve(vars) == Some(vars[0])
  {
    FirstBestIsResolved(vars, 0);
  }

  //
  // The state the form publishes
  //

  /** `published`: the last map handed to `onInputsChange`; `mirror`: the
      map in `inputsRef.current`. */
  datatype FormState = FormState(published: Inputs, mirror: Inputs)

  /** A copy of `base` with `key` set to `v`. */
  function SetKey(base: Inputs, key: JsString, v: FieldValue): (r: Inputs)
    ensures r.Keys == base.Keys + {key}
    ensures key in r && r[key] == v
    ensures forall k :: k in base && k != key ==> r[k] == base[k]
  {
    base[key := v]
  }

  /** `handleInputsChange`: publishes the map and mirrors it. */
  function HandleInputsChange(st: FormState, inputs: Inputs): (r: FormState)
    ensures r.mirror == r.published == inputs
  {
    FormState(inputs, inputs)
  }

  //
  // Autofill from `autoFillText`
  //

  datatype AutofillOutcome =
    | NoParam               // the parameter is absent or empty
    | DecodeFailed          // `decodeURIComponent` threw; the error is only logged
    | NoField               // there is no prompt variable at all
    | Filled(key: JsString) // the decoded text was written under `key`

  datatype Autofill = Autofill(outcome: AutofillOutcome, state: FormState)

  /** Writing a decoded text into the form: the resolved variable's key is
      set in a copy of the mirror's map, which is published; the mirror
      itself is not written. */
  function FillText(text: JsString, vars: seq<PromptVariable>, st: FormState): (r: Autofill)
    ensures r.state.mirror == st.mirror
    ensures r.outcome.Filled? <==> |vars| > 0
    ensures !r.outcome.Filled? ==> r.outcome == NoField && r.state == st
    ensures r.outcome.Filled? ==>
      && Resolve(vars).Some? && r.outcome.key == Resolve(vars).value.key
      && r.state.published == SetKey(st.mirror, r.outcome.key, Text(text))
  {
    match Resolve(vars)
    case None => Autofill(NoField, st)
    case Some(v) => Autofill(Filled(v.key), FormState(SetKey(st.mirror, v.key, Text(text)), st.mirror))
  }

  /** The autofill effect: `param` is what `searchParams.get('autoFillText')`
      returned. A non-empty value is decoded once more and, if that
      succeeds, filled in; a failed decode changes nothing. */
  function AutofillFrom(param: Option<JsString>, vars: seq<PromptVariable>, st: FormState): (r: Autofill)
    ensures r.state.mirror == st.mirror
    ensures !r.outcome.Filled? ==> r.state == st
    ensures r.outcome == NoParam <==> param.None? || |param.value| == 0
    ensures r.outcome == DecodeFailed <==>
      param.Some? && |param.value| > 0 && Decode(param.value).Failure?
    ensures r.outcome.Filled? <==>
      param.Some? && |param.value| > 0 && Decode(param.value).Success? && |vars| > 0
    ensures r.outcome.Filled? ==> r == FillText(Decode(param.value).value, vars, st)
  {
    if param.None? || |param.value| == 0 then Autofill(NoParam, st)
    else match Decode(param.value)
      case Failure(_) => Autofill(DecodeFailed, st)
      case Success(text) => FillText(text, vars, st)
  }

  /** The filled map differs from the mirror in the chosen key only: every
      other key keeps its value, and the keys are the mirror's plus that
      one. */
  lemma {:induction false} FillTextFrame(text: JsString, vars: seq<PromptVariable>, st: FormState)
    requires |vars| > 0
    ensures var r := FillText(text, vars, st);
      && r.state.published.Keys == st.mirror.Keys + {r.outcome.key}
      && (forall k :: k in st.mirror && k != r.outcome.key ==> r.state.published[k] == st.mirror[k])
      && r.state.published[r.outcome.key] == Text(text)
  {
  }

  /** A parameter without `%` is written as it is. */
  lemma {:induction false} AutofillPlainText(param: JsString, vars: seq<PromptVariable>, st: FormState)
    requires |param| > 0 && Percent !in param && |vars| > 0
    ensures AutofillFrom(Some(param), vars, st).outcome == Filled(Resolve(vars).value.key)
    ensures AutofillFrom(Some(param), vars, st).state.published[Resolve(vars).value.key] == Text(param)
  {
    DecodeIdentityIffNoPercent(param);
  }

  //
  // Clearing and editing
  //

  /** The map `onClear` builds: every variable's key set to the empty text,
      one `forEach` step at a time. */
  function Cleared(vars: seq<PromptVariable>): (r: Inputs)
    ensures forall k :: k in r <==> exists j :: 0 <= j < |vars| && vars[j].key == k
    ensures forall k :: k in r ==> r[k] == Text([])
  {
    if |vars| == 0 then map[]
    else
      var r := Cleared(vars[..|vars| - 1])[vars[|vars| - 1].key := Text([])];
      assert forall j :: 0 <= j < |vars| - 1 ==> vars[..|vars| - 1][j] == vars[j];
      r
  }

  /** `onClear`: publishes the cleared map; the mirror is not written. */
  function Clear(vars: seq<PromptVariable>, st: FormState): (r: FormState)
    ensures r.mirror == st.mirror
    ensures r.published.Keys == set v | v in vars :: v.key
    ensures forall k :: k in r.published ==> r.published[k] == Text([])
  {
    var m := Cleared(vars);
    assert m.Keys == set v | v in vars :: v.key by {
      forall k | k in m
        ensures k in set v | v in vars :: v.key
      {
        var j :| 0 <= j < |vars| && vars[j].key == k;
        assert vars[j] in vars;
      }
    }
    FormState(m, st.mirror)
  }

  /** The controls whose value is the typed text. */
  predicate IsTextControl(vtype: VarType) {
    vtype == Select || vtype == StringType || vtype == Paragraph || vtype == Number
  }

  /** What a field's control reports: typed or selected text, or the
      processed uploads. */
  datatype EditEvent = Typed(text: JsString) | Uploaded(ids: seq<nat>)

  /** The value each kind of control writes: text for `select`, `string`,
      `paragraph` and `number`; the first processed upload (or `undefined`
      when there is none) for `file`; all of them for `file-list`. A
      variable of another type has no control. */
  function EditValue(vtype: VarType, ev: EditEvent): (r: Option<FieldValue>)
    ensures IsTextControl(vtype) && ev.Typed? ==> r == Some(Text(ev.text))
    ensures vtype == File && ev.Uploaded? ==>
      r == Some(if |ev.ids| > 0 then Upload(ev.ids[0]) else Undefined)
    ensures vtype == FileList && ev.Uploaded? ==> r == Some(Uploads(ev.ids))
    ensures r.None? <==>
      !(IsTextControl(vtype) && ev.Typed?) && !((vtype == File || vtype == FileList) && ev.Uploaded?)
    ensures r.Some? && r.value.Text? ==> ev == Typed(r.value.text)
    ensures r.Some? && r.value.Uploads? ==> vtype == FileList && ev == Uploaded(r.value.ids)
    ensures r.Some? && r.value.Upload? ==> vtype == File && ev.Uploaded? && |ev.ids| > 0 && r.value.id == ev.ids[0]
  {
    match (vtype, ev)
    case (Select, Typed(t)) => Some(Text(t))
    case (StringType, Typed(t)) => Some(Text(t))
    case (Paragraph, Typed(t)) => Some(Text(t))
    case (Number, Typed(t)) => Some(Text(t))
    case (File, Uploaded(ids)) => Some(if |ids| > 0 then Upload(ids[0]) else Undefined)
    case (FileList, Uploaded(ids)) => Some(Uploads(ids))
    case _ => None
  }

  /** One field edit: the mirror with the field's key set to the control's
      value, handed to `handleInputsChange`. */
  function EditField(st: FormState, v: PromptVariable, ev: EditEvent): (r: FormState)
    ensures EditValue(v.vtype, ev).None? ==> r == st
    ensures EditValue(v.vtype, ev).Some? ==>
      && r.published == r.mirror
      && r.mirror.Keys == st.mirror.Keys + {v.key}
      && r.mirror[v.key] == EditValue(v.vtype, ev).value
      && (forall k :: k in st.mirror && k != v.key ==> r.mirror[k] == st.mirror[k])
  {
    match EditValue(v.vtype, ev)
    case None => st
    case Some(value) => HandleInputsChange(st, SetKey(st.mirror, v.key, value))
  }

  /** Edits after `handleInputsChange` keep the two maps equal. */
  lemma {:induction false} EditsKeepMirror(st: FormState, edits: seq<(PromptVariable, EditEvent)>)
    requires st.published == st.mirror
    ensures EditAll(st, edits).published == EditAll(st, edits).mirror
    decreases |edits|
  {
    if |edits| > 0 {
      EditsKeepMirror(EditField(st, edits[0].0, edits[0].1), edits[1..]);
    }
  }

  function EditAll(st: FormState, edits: seq<(PromptVariable, EditEvent)>): FormState
    decreases |edits|
  {
    if |edits| == 0 then st else EditAll(EditField(st, edits[0].0, edits[0].1), edits[1..])
  }

  /** Autofill does not reach the mirror, so the next edit of another field
      publishes the mirror's old value for the filled key: unless something
      outside this form writes `inputsRef`, the filled text is replaced. */
  lemma {:induction false} EditAfterAutofill(param: Option<JsString>, vars: seq<PromptVariable>,
                                             st: FormState, v: PromptVariable, ev: EditEvent)
    requires AutofillFrom(param, vars, st).outcome.Filled?
    requires v.key != AutofillFrom(param, vars, st).outcome.key
    requires EditValue(v.vtype, ev).Some?
    ensures var key := AutofillFrom(param, vars, st).outcome.key;
      var after := EditField(AutofillFrom(param, vars, st).state, v, ev);
      && (key in after.published <==> key in st.mirror)
      && (key in st.mirror ==> after.published[key] == st.mirror[key])
  {
  }
}
