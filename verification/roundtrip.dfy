/** Encoding and decoding against each other: a form submitted with the
    defaults the encoder wrote into it decodes back to the encoded record,
    for records of text-like fields that show their values. */
module RoundTrip {
  import opened Wrappers
  import opened Text
  import opened Schema
  import opened FailFast
  import opened Decoding
  import opened Encoding

  /** The default value the encoder wrote under `key`: the value of the
      first input widget named `key` that carries one, `""` if there is
      none. */
  function DefaultOf(ws: seq<Widget>, key: string): string
    decreases |ws|
  {
    if ws == [] then ""
    else if ws[0].key == key && ws[0].control.Input? && ws[0].control.value.Some? then ws[0].control.value.value
    else DefaultOf(ws[1..], key)
  }

  /** The submission made of the default values the encoder wrote into
      the widgets. */
  function Defaults(ws: seq<Widget>): Posted {
    (k: string) => DefaultOf(ws, k)
  }

  /** The Go zero value of a field's kind, with the field's tags. */
  function Blank(f: Field): (g: Field)
    ensures g.tags == f.tags && KindOf(g.value) == KindOf(f.value)
  {
    var zero := match f.value
      case BoolValue(_) => BoolValue(false)
      case IntValue(_) => IntValue(0)
      case Int64Value(_) => Int64Value(0)
      case UintValue(_) => UintValue(0)
      case Uint64Value(_) => Uint64Value(0)
      case Float64Value(_) => Float64Value(0)
      case StringValue(_) => StringValue("")
      case OtherValue(k) => OtherValue(k);
    Field(zero, f.tags)
  }

  /** A freshly allocated record of the same schema. */
  function BlankAll(rec: seq<Field>): seq<Field> {
    seq(|rec|, i requires 0 <= i < |rec| => Blank(rec[i]))
  }

  /** A field the round trip covers: rendered as a text-like input that
      shows its value, of string or integer kind, and not a required field
      whose value is empty. */
  predicate Echoable(f: Field) {
    && Renderable(f)
    && IsTextLike(Tag(f, "type"))
    && Tag(f, "type") != "button"
    && Tag(f, "default") == "true"
    && (f.value.StringValue? || f.value.IntValue? || f.value.Int64Value? || f.value.UintValue? || f.value.Uint64Value?)
    && !(Tag(f, "required") == "true" && f.value == StringValue(""))
  }

  /** The first input with a value under `key` supplies the posted text. */
  lemma {:induction false} DefaultOfFirst(ws: seq<Widget>, i: nat, key: string)
    requires i < |ws| && ws[i].key == key && ws[i].control.Input? && ws[i].control.value.Some?
    requires forall j :: 0 <= j < i ==> ws[j].key != key
    ensures DefaultOf(ws, key) == ws[i].control.value.value
    decreases i
  {
    if i > 0 {
      DefaultOfFirst(ws[1..], i - 1, key);
    }
  }

  /** The widget of an echoable field is an input holding its value's text. */
  lemma EchoableWidget(f: Field, fc: FloatText)
    requires Echoable(f)
    ensures Describe(f, fc).Success?
    ensures Describe(f, fc).value.key == Key(f)
    ensures Describe(f, fc).value.control.Input?
    ensures Describe(f, fc).value.control.value == Some(Stringify(f.value, fc).value)
  {
    DescribeTextual(f, fc);
  }

  /** The text of a valued, unchecked input widget: the input, wrapped in
      its label unless it has no caption. */
  lemma RenderValuedInput(key: string, required: bool, ty: string, v: string, caption: Option<string>)
    ensures var head := "<input" + NameAttributes(key, required) + (" type='" + ty + "'") + " value='";
      var before := if caption.None? then "" else "<label for name='" + key + "'>" + caption.value + "</label>";
      var tail := if caption.None? then "" else "<br>";
      Render(Widget(key, required, Input(ty, Some(v), false), caption)) == before + head + Escape(v) + "'" + ">" + tail
  {
    var start := "<input" + NameAttributes(key, required);
    var head := start + (" type='" + ty + "'") + " value='";
    var attrs := InputAttributes(ty, Some(v), false);
    assert attrs == " type='" + ty + "'" + (" value='" + Escape(v) + "'");
    var control := ControlHtml(key, required, Input(ty, Some(v), false));
    assert control == start + attrs + ">";
    Regroup(start, " type='" + ty + "'", " value='", Escape(v), "'", ">");
    assert control == head + Escape(v) + "'" + ">";
    if caption.Some? {
      var before := "<label for name='" + key + "'>" + caption.value + "</label>";
      assert Render(Widget(key, required, Input(ty, Some(v), false), caption)) == before + control + "<br>";
      Enclose(before, head, Escape(v), "'", ">", "<br>");
    } else {
      assert "" + head == head;
    }
  }

  /** Regrouping the pieces of an attribute list. */
  lemma Regroup(a: string, b: string, c: string, d: string, e: string, f: string)
    ensures a + (b + (c + d + e)) + f == a + b + c + d + e + f
  {
  }

  /** Regrouping a control between its label and line break. */
  lemma Enclose(a: string, b: string, c: string, d: string, e: string, f: string)
    ensures a + (b + c + d + e) + f == a + b + c + d + e + f
  {
  }

  /** Whatever surrounds it, an escaped value that follows the opening
      quote of an attribute reads back, up to its closing quote and
      unescaped, as the value. */
  lemma AttributeReadsBack(p: string, v: string, q: string, r: string)
    ensures Unescape(UpToQuote((p + Escape(v) + "'" + q + r)[|p|..])) == v
  {
    assert (p + Escape(v) + "'" + q + r)[|p|..] == Escape(v) + "'" + (q + r);
    QuotedReadsBack(v, q + r);
  }

  /** The document fragment of an echoable field: an input of its type
      (`text` when unset) whose `value` attribute holds the escaped text of
      the field's value, labelled with its caption unless hidden. Read up
      to its closing quote and unescaped, that attribute is the text
      again. */
  lemma EchoableFragment(f: Field, fc: FloatText)
    requires Echoable(f)
    ensures var text := Stringify(f.value, fc).value;
      var ty := if Tag(f, "type") == "" then "text" else Tag(f, "type");
      var head := "<input" + NameAttributes(Key(f), Tag(f, "required") == "true") + (" type='" + ty + "'") + " value='";
      var hidden := Tag(f, "type") == "hidden";
      var before := if hidden then "" else "<label for name='" + Key(f) + "'>" + Tag(f, "name") + "</label>";
      var tail := if hidden then "" else "<br>";
      && Fragment(f, fc) == before + head + Escape(text) + "'" + ">" + tail
      && Unescape(UpToQuote(Fragment(f, fc)[|before + head|..])) == text
  {
    DescribeTextual(f, fc);
    var text := Stringify(f.value, fc).value;
    var ty := if Tag(f, "type") == "" then "text" else Tag(f, "type");
    var caption := if Tag(f, "type") == "hidden" then None else Some(Tag(f, "name"));
    var w := Widget(Key(f), Tag(f, "required") == "true", Input(ty, Some(text), false), caption);
    assert Describe(f, fc) == Success(w);
    RenderValuedInput(Key(f), Tag(f, "required") == "true", ty, text, caption);
    var head := "<input" + NameAttributes(Key(f), Tag(f, "required") == "true") + (" type='" + ty + "'") + " value='";
    var before := if caption.None? then "" else "<label for name='" + Key(f) + "'>" + Tag(f, "name") + "</label>";
    var tail := if caption.None? then "" else "<br>";
    AttributeReadsBack(before + head, text, ">", tail);
  }

  /** One echoable field decodes back from its own text. */
  lemma EchoableField(f: Field, posted: Posted, fc: FloatText)
    requires Echoable(f) && posted(Key(f)) == Stringify(f.value, fc).value
    ensures DecodeField(Blank(f), posted, fc) == Success(f)
  {
    var text := Stringify(f.value, fc).value;
    var g := Blank(f);
    assert Key(g) == Key(f) && Tag(g, "required") == Tag(f, "required");
    if !f.value.StringValue? {
      assert |text| >= 1;
      DecodeNumber(g, posted, fc);
    } else {
      DecodeStringAndOther(g, posted, fc);
    }
  }

  /** Every field of a record of echoable fields is described, so the
      record encodes. */
  lemma EchoableWidgets(rec: seq<Field>, fc: FloatText)
    requires forall i :: 0 <= i < |rec| ==> Echoable(rec[i])
    ensures Shown(rec) == rec && Widgets(rec, fc).Success?
  {
    assert Shown(rec) == rec;
    forall i | 0 <= i < |rec|
      ensures Describe(rec[i], fc).Success?
    {
      EchoableWidget(rec[i], fc);
    }
  }

  /** The widgets carry the keys of the non-excluded fields, in order. */
  lemma WidgetKeys(rec: seq<Field>, fc: FloatText)
    requires Widgets(rec, fc).Success?
    ensures forall j :: 0 <= j < |Shown(rec)| ==> Widgets(rec, fc).value[j].key == Key(Shown(rec)[j])
  {
    var ws := Widgets(rec, fc).value;
    forall j | 0 <= j < |Shown(rec)|
      ensures ws[j].key == Key(Shown(rec)[j])
    {
      assert Describe(Shown(rec)[j], fc) == Success(ws[j]);
    }
  }

  /** With distinct keys, the defaults of the encoded record post each
      field's own text under its key. */
  lemma EncodedDefault(rec: seq<Field>, fc: FloatText, i: nat)
    requires Shown(rec) == rec && Widgets(rec, fc).Success?
    requires forall i, j :: 0 <= i < j < |rec| ==> Key(rec[i]) != Key(rec[j])
    requires i < |rec| && Echoable(rec[i])
    ensures Defaults(Widgets(rec, fc).value)(Key(rec[i])) == Stringify(rec[i].value, fc).value
  {
    var ws := Widgets(rec, fc).value;
    WidgetKeys(rec, fc);
    EchoableWidget(rec[i], fc);
    assert Describe(Shown(rec)[i], fc) == Success(ws[i]);
    DefaultOfFirst(ws, i, Key(rec[i]));
  }

  /** A record each of whose fields decodes to the matching field of
      `target` decodes to `target` without error. */
  lemma DecodeToTarget(rec: seq<Field>, target: seq<Field>, posted: Posted, fc: FloatText)
    requires |rec| == |target|
    requires forall i :: 0 <= i < |rec| ==> DecodeField(rec[i], posted, fc) == Success(target[i])
    ensures Decode(rec, posted, fc) == Committed(target, None)
  {
    var r := Decode(rec, posted, fc);
    assert r.record == target;
  }

  /** The default values the encoder wrote into the widgets of a record of
      echoable fields with distinct keys decode, from a blank record, to
      the record itself, without error. */
  lemma EncodeDecodeRoundTrip(rec: seq<Field>, fc: FloatText)
    requires forall i :: 0 <= i < |rec| ==> Echoable(rec[i])
    requires forall i, j :: 0 <= i < j < |rec| ==> Key(rec[i]) != Key(rec[j])
    ensures Widgets(rec, fc).Success? && Encode(rec, fc).Success?
    ensures Decode(BlankAll(rec), Defaults(Widgets(rec, fc).value), fc) == Committed(rec, None)
  {
    EchoableWidgets(rec, fc);
    var posted := Defaults(Widgets(rec, fc).value);
    var blank := BlankAll(rec);
    forall i | 0 <= i < |rec|
      ensures DecodeField(blank[i], posted, fc) == Success(rec[i])
    {
      EncodedDefault(rec, fc, i);
      EchoableField(rec[i], posted, fc);
    }
    DecodeToTarget(blank, rec, posted, fc);
  }

  /** At the text level, the value attribute of an input reads back, after
      unescaping, as the widget's value. */
  lemma ValueAttributeReadsBack(t: string, v: string, checked: bool)
    ensures var attrs := InputAttributes(t, Some(v), checked);
      var start := |" type='" + t + "'" + " value='"|;
      start <= |attrs| && Unescape(UpToQuote(attrs[start..])) == v
  {
    var head := " type='" + t + "'" + " value='";
    var rest := if checked then " checked" else "";
    var attrs := InputAttributes(t, Some(v), checked);
    assert attrs == head + (Escape(v) + "'" + rest);
    assert attrs[|head|..] == Escape(v) + "'" + rest;
    QuotedReadsBack(v, rest);
  }
}
