/** Encoding a record as an HTML form (`FormCreate`). Each non-excluded
    field is first validated and described as a `Widget` (which control,
    with which value, under which caption), and the widgets are then
    rendered by string concatenation in the Go code's attribute order and
    framed by the fixed document preamble and submit button. */
module Encoding {
  import opened Wrappers
  import opened Text
  import opened Numbers
  import opened Schema
  import opened FailFast

  /** The fixed start of the document, up to the opening form tag. */
  const Preamble: string :=
    "<html><head><title>Dynamicly generated form</title></head><body>"
    + "<form action='/form' method='post' enctype='multipart/form-data'>"

  /** The fixed end of the document: the submit button and closing tags. */
  const Submit: string := "<input type='submit' value='Submit'></form></body></html>"

  /** A value's text: `fmt.Sprint` for bools, floats and strings, `%d` for
      the four integer kinds; any other kind is an error. Integer text reads
      back to the same number through the decode-side parsers. */
  function Stringify(v: Value, fc: FloatText): (r: Result<string, Error>)
    ensures r.Failure? <==> v.OtherValue?
    ensures r.Failure? ==> r.error == UnsupportedKind(v.goKind)
    ensures v.IntValue? ==> ParseInt64(r.value) == Some(v.i)
    ensures v.Int64Value? ==> ParseInt64(r.value) == Some(v.i64)
    ensures v.UintValue? ==> ParseUint64(r.value) == Some(v.u)
    ensures v.Uint64Value? ==> ParseUint64(r.value) == Some(v.u64)
    ensures v.StringValue? ==> r.value == v.s
  {
    match v
    case BoolValue(b) => Success(if b then "true" else "false")
    case Float64Value(x) => Success(fc.show(x))
    case StringValue(s) => Success(s)
    case IntValue(n) => ParseIntFormat(n); Success(FormatDecimal(n))
    case Int64Value(n) => ParseIntFormat(n); Success(FormatDecimal(n))
    case UintValue(n) => ParseUintFormat(n); Success(FormatDecimal(n))
    case Uint64Value(n) => ParseUintFormat(n); Success(FormatDecimal(n))
    case OtherValue(k) => Failure(UnsupportedKind(k))
  }

  /** The form control a field renders as. An `Input`'s value is the raw
      text, escaped only when rendered. */
  datatype Control =
    | Input(inputType: string, value: Option<string>, checked: bool)
    | Select(options: seq<SelectOption>)
    | TextArea(content: string)

  /** One field's part of the document: its key, whether it carries the
      `required` attribute, its control, and the caption of its label
      (`None` for a hidden input, which has no label). */
  datatype Widget = Widget(key: string, required: bool, control: Control, caption: Option<string>)

  /** The `type` tags rendered as a single-line `<input>`; `""` means text. */
  predicate IsTextLike(ty: string) {
    ty == "text" || ty == "password" || ty == "hidden" || ty == "button" || ty == ""
  }

  /** The control selected by the `type` tag, given the value's text and
      whether the `default` tag asks for it to be shown. */
  function ControlOf(f: Field, text: string, withValue: bool): (r: Result<Control, Error>)
    ensures r.Failure? ==> !IsTextLike(Tag(f, "type")) && Tag(f, "type") != "textarea"
    ensures r.Success? && r.value.Input? ==> r.value.inputType != ""
  {
    var ty := Tag(f, "type");
    if ty == "radio" || ty == "checkbox" then
      var c :- ParseChoice(ty, Tag(f, ty));
      Success(Input(ty, Some(c.value), c.checked))
    else if ty == "select" then
      var os :- ParseOptions(Tag(f, "select"));
      Success(Select(os))
    else if ty == "textarea" then
      Success(TextArea(if withValue then text else ""))
    else if IsTextLike(ty) then
      Success(Input(if ty == "" then "text" else ty, if withValue then Some(text) else None, false))
    else
      Failure(BadControl(ty))
  }

  /** The tag checks every rendered field passes, in the Go code's order
      after the key: a handled kind, then `required`, then `default`. */
  predicate Renderable(f: Field) {
    && !Excluded(f)
    && IsLetters(Key(f))
    && !f.value.OtherValue?
    && ValidTriState(Tag(f, "required"))
    && ValidTriState(Tag(f, "default"))
  }

  /** One iteration of the encode loop, for a non-excluded field: the checks
      in the Go code's order (key, kind, `required`, `default`, then the
      control's own tags), then the widget. Only a hidden input goes without
      a label. */
  function Describe(f: Field, fc: FloatText): (r: Result<Widget, Error>)
    requires !Excluded(f)
    ensures r.Success? ==> Renderable(f)
    ensures r.Success? ==> r.value.key == Key(f) && (r.value.required <==> Tag(f, "required") == "true")
    ensures r.Success? ==> (r.value.caption.None? <==> Tag(f, "type") == "hidden")
    ensures r.Success? && r.value.caption.Some? ==> r.value.caption.value == Tag(f, "name")
    ensures !IsLetters(Key(f)) ==> r == Failure(BadKey(Key(f)))
  {
    var key := Key(f);
    if !IsLetters(key) then Failure(BadKey(key))
    else
      var text :- Stringify(f.value, fc);
      var required := Tag(f, "required");
      if !ValidTriState(required) then Failure(BadRequired(required))
      else
        var shown := Tag(f, "default");
        if !ValidTriState(shown) then Failure(BadDefault(shown))
        else
          var control :- ControlOf(f, text, shown == "true");
          var caption := if Tag(f, "type") == "hidden" then None else Some(Tag(f, "name"));
          Success(Widget(key, required == "true", control, caption))
  }

  /** Every non-excluded field of `rec` passes its checks. */
  predicate AllDescribed(rec: seq<Field>, fc: FloatText) {
    forall i :: 0 <= i < |Shown(rec)| ==> Describe(Shown(rec)[i], fc).Success?
  }

  /** One iteration of the encode loop past the exclusion check. */
  function DescribeStep(fc: FloatText): Field --> Result<Widget, Error> {
    f requires !Excluded(f) => Describe(f, fc)
  }

  /** The widgets of the non-excluded fields, in order. Excluded fields are
      skipped wherever they stand, so filtering them out first changes
      nothing: the first failing field is the same either way, and a
      failure returns no partial document. */
  function Widgets(rec: seq<Field>, fc: FloatText): (r: Result<seq<Widget>, Error>)
    ensures r.Success? <==> AllDescribed(rec, fc)
    ensures r.Success? ==> |r.value| == |Shown(rec)|
    ensures r.Success? ==> forall i :: 0 <= i < |Shown(rec)| ==> Describe(Shown(rec)[i], fc) == Success(r.value[i])
  {
    MapAll(Shown(rec), DescribeStep(fc))
  }

  /** The attributes after the name: the input type, the escaped value if
      any, and the `checked` flag. */
  function InputAttributes(inputType: string, value: Option<string>, checked: bool): string {
    " type='" + inputType + "'"
    + (if value.Some? then " value='" + Escape(value.value) + "'" else "")
    + (if checked then " checked" else "")
  }

  /** `processCheckedValues`: the attributes of a radio or checkbox input,
      read from the tag named `name`. */
  function CheckedValues(name: string, spec: string): (r: Result<string, Error>)
    ensures r.Failure? <==> ParseChoice(name, spec).Failure?
  {
    var c :- ParseChoice(name, spec);
    Success(InputAttributes(name, Some(c.value), c.checked))
  }

  function OptionHtml(o: SelectOption): string {
    "<option value='" + Escape(o.value) + "'" + (if o.selected then " selected" else "") + ">" + o.caption + "</option>"
  }

  /** The `<option>` elements of a select, in order. */
  function OptionsHtml(os: seq<SelectOption>): string
    decreases |os|
  {
    if os == [] then "" else OptionHtml(os[0]) + OptionsHtml(os[1..])
  }

  /** The `name` attribute and the `required` flag every control starts with. */
  function NameAttributes(key: string, required: bool): string {
    " name='" + key + "'" + (if required then " required" else "")
  }

  /** The control's element. */
  function ControlHtml(key: string, required: bool, c: Control): string {
    var attrs := NameAttributes(key, required);
    match c
    case Input(t, v, chk) => "<input" + attrs + InputAttributes(t, v, chk) + ">"
    case Select(os) => "<select" + attrs + ">" + OptionsHtml(os) + "</select>"
    case TextArea(text) => "<textarea" + attrs + ">" + text + "</textarea>"
  }

  /** A widget's text: the control, wrapped in its label and a line break
      unless it has no caption. */
  function Render(w: Widget): string {
    var control := ControlHtml(w.key, w.required, w.control);
    match w.caption
    case None => control
    case Some(n) => "<label for name='" + w.key + "'>" + n + "</label>" + control + "<br>"
  }

  function RenderAll(ws: seq<Widget>): string
    decreases |ws|
  {
    if ws == [] then "" else Render(ws[0]) + RenderAll(ws[1..])
  }

  /** The text a non-excluded field adds to the document: its rendered
      widget, or nothing when it fails its checks. */
  function Fragment(f: Field, fc: FloatText): string
    requires !Excluded(f)
  {
    match Describe(f, fc)
    case Success(w) => Render(w)
    case Failure(_) => ""
  }

  /** Rendering a list of widgets is concatenating their renderings. */
  lemma {:induction false} RenderAllConcat(ws: seq<Widget>, parts: seq<string>)
    requires |parts| == |ws|
    requires forall i :: 0 <= i < |ws| ==> parts[i] == Render(ws[i])
    ensures RenderAll(ws) == Concat(parts)
    decreases |ws|
  {
    if ws != [] {
      assert forall i :: 0 <= i < |ws| - 1 ==> parts[1..][i] == parts[i + 1] && ws[1..][i] == ws[i + 1];
      RenderAllConcat(ws[1..], parts[1..]);
    }
  }

  /** The fragments of the non-excluded fields, in declaration order. */
  function Fragments(rec: seq<Field>, fc: FloatText): seq<string> {
    var shown := Shown(rec);
    seq(|shown|, i requires 0 <= i < |shown| => Fragment(shown[i], fc))
  }

  /** When every non-excluded field is described, their widgets render to
      their fragments. */
  lemma RenderWidgets(rec: seq<Field>, fc: FloatText, ws: seq<Widget>)
    requires Widgets(rec, fc) == Success(ws)
    ensures RenderAll(ws) == Concat(Fragments(rec, fc))
  {
    var parts := Fragments(rec, fc);
    forall i | 0 <= i < |ws|
      ensures parts[i] == Render(ws[i])
    {
      assert Describe(Shown(rec)[i], fc) == Success(ws[i]);
    }
    RenderAllConcat(ws, parts);
  }

  /** `FormCreate`: the preamble, the fragment of every non-excluded field
      in declaration order, and the submit button; or the first field's
      error. */
  function Encode(rec: seq<Field>, fc: FloatText): (r: Result<string, Error>)
    ensures r.Success? <==> AllDescribed(rec, fc)
    ensures r.Success? ==> |r.value| >= |Preamble| + |Submit|
    ensures r.Success? ==> r.value[..|Preamble|] == Preamble && r.value[|r.value| - |Submit|..] == Submit
    ensures r.Success? ==> r.value == Preamble + Concat(Fragments(rec, fc)) + Submit
  {
    match Widgets(rec, fc)
    case Failure(e) => Failure(e)
    case Success(ws) =>
      RenderWidgets(rec, fc, ws);
      var doc := Preamble + RenderAll(ws) + Submit;
      assert doc[..|Preamble|] == Preamble;
      assert doc[|doc| - |Submit|..] == Submit;
      Success(doc)
  }

  /** Excluded fields are never rendered and none of their tags is looked
      at: two records that differ only in fields both exclude encode
      alike. */
  lemma EncodeIgnoresExcluded(rec: seq<Field>, other: seq<Field>, fc: FloatText)
    requires |rec| == |other|
    requires forall i :: 0 <= i < |rec| ==> rec[i] == other[i] || (Excluded(rec[i]) && Excluded(other[i]))
    ensures Encode(rec, fc) == Encode(other, fc)
  {
    ShownAgrees(rec, other);
    assert Widgets(rec, fc) == Widgets(other, fc);
  }

  /** A failing encode reports the error of the first non-excluded field
      that fails its checks. */
  lemma EncodeReportsFirst(rec: seq<Field>, fc: FloatText, j: nat)
    requires j < |Shown(rec)|
    requires forall i :: 0 <= i < j ==> Describe(Shown(rec)[i], fc).Success?
    requires Describe(Shown(rec)[j], fc).Failure?
    ensures Encode(rec, fc) == Failure(Describe(Shown(rec)[j], fc).error)
  {
    MapAllFailsAt(Shown(rec), DescribeStep(fc), j);
  }

  /** The checks a non-excluded field fails, in the order they are made:
      the key, then the kind, then `required`, then `default`. */
  lemma EncodeRejectsBadTags(f: Field, fc: FloatText)
    requires !Excluded(f)
    ensures !IsLetters(Key(f)) ==> Describe(f, fc) == Failure(BadKey(Key(f)))
    ensures IsLetters(Key(f)) && f.value.OtherValue? ==>
      Describe(f, fc) == Failure(UnsupportedKind(f.value.goKind))
    ensures IsLetters(Key(f)) && !f.value.OtherValue? && !ValidTriState(Tag(f, "required")) ==>
      Describe(f, fc) == Failure(BadRequired(Tag(f, "required")))
    ensures (IsLetters(Key(f)) && !f.value.OtherValue? && ValidTriState(Tag(f, "required"))
      && !ValidTriState(Tag(f, "default"))) ==>
      Describe(f, fc) == Failure(BadDefault(Tag(f, "default")))
  {
  }

  /** `processCheckedValues` on a tag that spells the choice `c`: the input
      type, the escaped value, and `checked` exactly when the tag says so.
      On any other tag it fails with the tag's error. */
  lemma CheckedValuesOutput(name: string, spec: string, c: Choice)
    ensures ';' !in c.value && spec == ShowChoice(c) ==>
      CheckedValues(name, spec) ==
        Success(" type='" + name + "'" + (" value='" + Escape(c.value) + "'") + (if c.checked then " checked" else ""))
    ensures ParseChoice(name, spec).Failure? ==>
      CheckedValues(name, spec) == Failure(ParseChoice(name, spec).error)
  {
    ParseChoiceShow(name, spec, c);
  }

  /** A radio or checkbox field whose tag spells the choice `c` becomes an
      input of that type carrying `c`'s value and checked state. Neither the
      field's value nor its `default` tag plays a part. */
  lemma DescribeChoice(f: Field, fc: FloatText, c: Choice)
    requires Renderable(f)
    requires Tag(f, "type") == "radio" || Tag(f, "type") == "checkbox"
    requires ';' !in c.value && Tag(f, Tag(f, "type")) == ShowChoice(c)
    ensures Describe(f, fc) == Success(Widget(Key(f), Tag(f, "required") == "true",
      Input(Tag(f, "type"), Some(c.value), c.checked), Some(Tag(f, "name"))))
  {
    ParseChoiceShow(Tag(f, "type"), Tag(f, Tag(f, "type")), c);
  }

  /** Changing a radio or checkbox field's value (to any handled kind) or
      its `default` tag (to any valid spelling) changes nothing in its
      widget. */
  lemma ChoiceIgnoresValueAndDefault(f: Field, g: Field, fc: FloatText)
    requires !Excluded(f) && (Tag(f, "type") == "radio" || Tag(f, "type") == "checkbox")
    requires forall t :: t != "default" ==> Tag(f, t) == Tag(g, t)
    requires ValidTriState(Tag(f, "default")) && ValidTriState(Tag(g, "default"))
    requires !f.value.OtherValue? && !g.value.OtherValue?
    ensures !Excluded(g) && Describe(f, fc) == Describe(g, fc)
  {
    assert Key(f) == Key(g) && Tag(f, "type") == Tag(g, "type");
    assert Tag(f, "required") == Tag(g, "required") && Tag(f, "name") == Tag(g, "name");
    assert Tag(f, Tag(f, "type")) == Tag(g, Tag(f, "type"));
  }

  /** A radio or checkbox field renders as an input whose attributes after
      the name are exactly `processCheckedValues`' output for its tag. */
  lemma RenderChoice(f: Field, fc: FloatText)
    requires !Excluded(f) && Describe(f, fc).Success?
    requires Tag(f, "type") == "radio" || Tag(f, "type") == "checkbox"
    ensures CheckedValues(Tag(f, "type"), Tag(f, Tag(f, "type"))).Success?
    ensures var w := Describe(f, fc).value;
      ControlHtml(w.key, w.required, w.control) ==
        "<input" + NameAttributes(Key(f), Tag(f, "required") == "true")
        + CheckedValues(Tag(f, "type"), Tag(f, Tag(f, "type"))).value + ">"
  {
  }

  /** A select field whose tag spells the options `os` lists them in order;
      any other select tag fails with its first bad entry's error. */
  lemma DescribeSelect(f: Field, fc: FloatText, os: seq<SelectOption>)
    requires Renderable(f) && Tag(f, "type") == "select"
    ensures |os| >= 1 && (forall i :: 0 <= i < |os| ==> PlainOption(os[i])) && Tag(f, "select") == ShowOptions(os) ==>
      Describe(f, fc) == Success(Widget(Key(f), Tag(f, "required") == "true", Select(os), Some(Tag(f, "name"))))
    ensures ParseOptions(Tag(f, "select")).Failure? ==>
      Describe(f, fc) == Failure(ParseOptions(Tag(f, "select")).error)
  {
    ParseOptionsShow(Tag(f, "select"), os);
  }

  /** A select tag with a bad entry fails with the first bad entry's
      error. */
  lemma DescribeSelectFailsAt(f: Field, fc: FloatText, j: nat)
    requires Renderable(f) && Tag(f, "type") == "select"
    requires j < |Split(Tag(f, "select"), ',')|
    requires forall i :: 0 <= i < j ==> ParseOption(Split(Tag(f, "select"), ',')[i]).Success?
    requires ParseOption(Split(Tag(f, "select"), ',')[j]).Failure?
    ensures Describe(f, fc) == Failure(ParseOption(Split(Tag(f, "select"), ',')[j]).error)
  {
    ParseEntriesFailsAt(Split(Tag(f, "select"), ','), j);
  }

  /** A text, password, hidden or button field (or one with no `type`)
      becomes an input of that type, `text` when unset, carrying the value's
      text exactly when `default` is `true`; a textarea carries it as its
      content under the same condition. An unknown type is an error. */
  lemma DescribeTextual(f: Field, fc: FloatText)
    requires Renderable(f)
    ensures var ty := Tag(f, "type");
      var text := Stringify(f.value, fc).value;
      var caption := if ty == "hidden" then None else Some(Tag(f, "name"));
      var withValue := Tag(f, "default") == "true";
      && (IsTextLike(ty) ==> Describe(f, fc) == Success(Widget(Key(f), Tag(f, "required") == "true",
            Input(if ty == "" then "text" else ty, if withValue then Some(text) else None, false), caption)))
      && (ty == "textarea" ==> Describe(f, fc) == Success(Widget(Key(f), Tag(f, "required") == "true",
            TextArea(if withValue then text else ""), caption)))
      && (!IsTextLike(ty) && ty !in {"textarea", "radio", "checkbox", "select"} ==>
            Describe(f, fc) == Failure(BadControl(ty)))
  {
  }
}
