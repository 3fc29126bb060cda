/** The record and tag model shared by both directions: a record is the
    sequence of its fields in declaration order, each field carries its
    current value (whose constructor is the field's Go kind) and its struct
    tags, already parsed into a map. */
module Schema {
  import opened Wrappers
  import opened Text
  import Numbers

  /** A Go `float64`, kept as its IEEE-754 bit pattern. */
  type FloatBits = b: int | 0 <= b < 0x1_0000_0000_0000_0000

  /** `strconv.ParseFloat(s, 64)` and `fmt.Sprint` of a `float64`, supplied by
      the caller: floating-point text is not part of this model. */
  datatype FloatText = FloatText(parse: string -> Option<FloatBits>, show: FloatBits -> string)

  /** The reflect kinds the engine distinguishes. */
  datatype Kind = BoolKind | IntKind | Int64Kind | UintKind | Uint64Kind | Float64Kind | StringKind | OtherKind

  /** A field's current value; the constructor is the field's kind.
      `time.Duration` is an `Int64Value`; every kind the engine does not
      handle (`int32`, `float32`, structs, …) is an `OtherValue`. */
  datatype Value =
    | BoolValue(b: bool)
    | IntValue(i: Numbers.Int64)
    | Int64Value(i64: Numbers.Int64)
    | UintValue(u: Numbers.Uint64)
    | Uint64Value(u64: Numbers.Uint64)
    | Float64Value(bits: FloatBits)
    | StringValue(s: string)
    | OtherValue(goKind: string)

  function KindOf(v: Value): Kind {
    match v
    case BoolValue(_) => BoolKind
    case IntValue(_) => IntKind
    case Int64Value(_) => Int64Kind
    case UintValue(_) => UintKind
    case Uint64Value(_) => Uint64Kind
    case Float64Value(_) => Float64Kind
    case StringValue(_) => StringKind
    case OtherValue(_) => OtherKind
  }

  /** One struct field: its value and its tags. */
  datatype Field = Field(value: Value, tags: map<string, string>)

  /** `StructTag.Get`: the tag's value, or `""` when the tag is absent. */
  function Tag(f: Field, name: string): string {
    if name in f.tags then f.tags[name] else ""
  }

  /** The form key, from the `field` tag. */
  function Key(f: Field): string {
    Tag(f, "field")
  }

  /** A field whose key is empty or `-` takes no part in either direction. */
  predicate Excluded(f: Field) {
    Key(f) == "" || Key(f) == "-"
  }

  /** The fields that take part in encoding and decoding, in order. */
  function Shown(rec: seq<Field>): (r: seq<Field>)
    ensures |r| <= |rec|
    ensures forall i :: 0 <= i < |r| ==> !Excluded(r[i])
    ensures forall f :: f in r <==> f in rec && !Excluded(f)
    ensures (forall i :: 0 <= i < |rec| ==> !Excluded(rec[i])) ==> r == rec
    decreases |rec|
  {
    if rec == [] then []
    else if Excluded(rec[0]) then Shown(rec[1..])
    else [rec[0]] + Shown(rec[1..])
  }

  /** Records that differ only in fields excluded on both sides, whatever
      those fields hold, have the same non-excluded fields. */
  lemma {:induction false} ShownAgrees(a: seq<Field>, b: seq<Field>)
    requires |a| == |b|
    requires forall i :: 0 <= i < |a| ==> a[i] == b[i] || (Excluded(a[i]) && Excluded(b[i]))
    ensures Shown(a) == Shown(b)
    decreases |a|
  {
    if a != [] {
      assert forall i :: 0 <= i < |a| - 1 ==> a[1..][i] == a[i + 1] && b[1..][i] == b[i + 1];
      ShownAgrees(a[1..], b[1..]);
    }
  }

  /** Filtering distributes over concatenation, so the fields that take
      part keep their declaration order and multiplicity. */
  lemma {:induction false} ShownAppend(a: seq<Field>, b: seq<Field>)
    ensures Shown(a + b) == Shown(a) + Shown(b)
    decreases |a|
  {
    if a == [] {
      assert a + b == b;
    } else {
      assert (a + b)[0] == a[0];
      assert (a + b)[1..] == a[1..] + b;
      ShownAppend(a[1..], b);
    }
  }

  /** A single field takes part exactly when it is not excluded. */
  lemma ShownSingle(f: Field)
    ensures Shown([f]) == if Excluded(f) then [] else [f]
  {
  }

  /** The three spellings the `required` and `default` tags accept. */
  predicate ValidTriState(s: string) {
    s == "true" || s == "false" || s == ""
  }

  /** The failures of either direction, one constructor per check. */
  datatype Error =
    | BadKey(key: string)
    | BadRequired(literal: string)
    | BadDefault(literal: string)
    | MissingRequired(key: string)
    | BadChoiceSpec(control: string, spec: string)
    | BadChoiceMarker(control: string, marker: string)
    | BadOptionEntry(entry: string)
    | BadOptionItem(item: string)
    | BadOptionMarker(marker: string)
    | BadControl(control: string)
    | ConversionFailed(key: string, raw: string)
    | UnsupportedKind(goKind: string)

  /** A parsed `radio` or `checkbox` tag: the control's value and whether it
      is pre-checked. */
  datatype Choice = Choice(value: string, checked: bool)

  /** The tag text that denotes a choice: `value` or `value;checked`. */
  function ShowChoice(c: Choice): string {
    if c.checked then c.value + ";checked" else c.value
  }

  /** Parses a `radio`/`checkbox` tag `value[;checked]`, for the control kind
      `control`: more than two `;`-parts, or a second part other than
      `checked`, is an error. */
  function ParseChoice(control: string, spec: string): (r: Result<Choice, Error>)
    ensures r.Failure? ==> r.error == BadChoiceSpec(control, spec) || r.error.BadChoiceMarker?
  {
    // Split never yields zero parts, so the Go code's `len < 1` guard cannot fire.
    var parts := Split(spec, ';');
    if |parts| > 2 then Failure(BadChoiceSpec(control, spec))
    else if |parts| == 2 && parts[1] != "checked" then Failure(BadChoiceMarker(control, parts[1]))
    else Success(Choice(parts[0], |parts| == 2))
  }

  /** A choice tag parses to `c` exactly when it is `c`'s own spelling and
      `c`'s value has no `;`. */
  lemma ParseChoiceShow(control: string, spec: string, c: Choice)
    ensures ParseChoice(control, spec) == Success(c) <==> ';' !in c.value && spec == ShowChoice(c)
  {
    if ParseChoice(control, spec) == Success(c) {
      var parts := Split(spec, ';');
      if |parts| == 2 {
        JoinTwo(parts, ';');
      }
    }
    if ';' !in c.value && spec == ShowChoice(c) {
      if c.checked {
        var parts := [c.value, "checked"];
        JoinTwo(parts, ';');
        assert c.value + ";checked" == c.value + [';'] + "checked";
        SplitJoin(parts, ';');
      } else {
        SplitFree(spec, ';');
      }
    }
  }

  /** One `<option>` of a select: its caption (the text shown), its value and whether it is
      pre-selected. */
  datatype SelectOption = SelectOption(caption: string, value: string, selected: bool)

  /** Text that survives the select syntax: no `,`, `;` or `=`. */
  predicate Plain(s: string) {
    ',' !in s && ';' !in s && '=' !in s
  }

  predicate PlainOption(o: SelectOption) {
    Plain(o.caption) && Plain(o.value)
  }

  /** The tag text of one option: `caption=value` or `caption=value;selected`. */
  function ShowOption(o: SelectOption): string {
    o.caption + "=" + o.value + (if o.selected then ";selected" else "")
  }

  /** The tag text of each option, in order. */
  function ShowEach(os: seq<SelectOption>): seq<string> {
    seq(|os|, i requires 0 <= i < |os| => ShowOption(os[i]))
  }

  /** The tag text of a whole option list: the options joined by `,`. */
  function ShowOptions(os: seq<SelectOption>): string
    requires |os| >= 1
  {
    Join(ShowEach(os), ',')
  }

  /** Parses one comma-separated entry `caption=value[;selected]`. The checks
      run in the Go code's order: the `;`-part count, then the `=` split, then
      the marker. */
  function ParseOption(entry: string): (r: Result<SelectOption, Error>)
    ensures r.Success? ==> ';' !in r.value.caption && ';' !in r.value.value
    ensures r.Success? ==> '=' !in r.value.caption && '=' !in r.value.value
  {
    var parts := Split(entry, ';');
    if |parts| > 2 then Failure(BadOptionEntry(entry))
    else
      var items := Split(parts[0], '=');
      if |items| != 2 then Failure(BadOptionItem(parts[0]))
      else if |parts| == 2 && parts[1] != "selected" then Failure(BadOptionMarker(parts[1]))
      else
        JoinExcludes(items, '=', ';');
        Success(SelectOption(items[0], items[1], |parts| == 2))
  }

  /** Parses the entries in order and stops at the first bad one. */
  function ParseEntries(entries: seq<string>): (r: Result<seq<SelectOption>, Error>)
    ensures r.Success? ==> |r.value| == |entries|
    ensures r.Success? ==> forall i :: 0 <= i < |entries| ==> ParseOption(entries[i]) == Success(r.value[i])
    ensures r.Success? <==> forall i :: 0 <= i < |entries| ==> ParseOption(entries[i]).Success?
    decreases |entries|
  {
    if entries == [] then Success([])
    else
      var o :- ParseOption(entries[0]);
      var rest :- ParseEntries(entries[1..]);
      Success([o] + rest)
  }

  /** The failure of a failing list is its first bad entry's. */
  lemma {:induction false} ParseEntriesFailsAt(entries: seq<string>, j: nat)
    requires j < |entries|
    requires forall i :: 0 <= i < j ==> ParseOption(entries[i]).Success?
    requires ParseOption(entries[j]).Failure?
    ensures ParseEntries(entries) == Failure(ParseOption(entries[j]).error)
    decreases j
  {
    if j > 0 {
      assert forall i :: 0 <= i < |entries| - 1 ==> entries[1..][i] == entries[i + 1];
      ParseEntriesFailsAt(entries[1..], j - 1);
    }
  }

  /** What each failure of one entry says: more than one `;` names the
      whole entry; an item (the text before any `;`) without exactly one
      `=` names that item; a marker (the text after the `;`) other than
      `selected` names that marker. */
  lemma ParseOptionErrors(entry: string)
    ensures ParseOption(entry).Failure? ==>
      match ParseOption(entry).error
      case BadOptionEntry(e) => e == entry && |Split(entry, ';')| > 2
      case BadOptionItem(item) => item <= entry && ';' !in item && |Split(item, '=')| != 2
      case BadOptionMarker(m) =>
        && m != "selected" && ';' !in m && |m| < |entry|
        && entry[|entry| - |m|..] == m && entry[|entry| - |m| - 1] == ';'
      case _ => false
  {
    var parts := Split(entry, ';');
    if |parts| == 2 {
      JoinTwo(parts, ';');
      assert entry == parts[0] + [';'] + parts[1];
      assert entry[|entry| - |parts[1]|..] == parts[1];
    } else if |parts| == 1 {
      assert entry == parts[0];
    }
  }

  /** Parses a `select` tag: a comma-separated list of options. An empty tag
      is the single empty entry, which lacks its `=`. */
  function ParseOptions(spec: string): Result<seq<SelectOption>, Error> {
    // Split never yields zero parts, so the Go code's `len == 0` guard cannot fire.
    ParseEntries(Split(spec, ','))
  }

  /** One entry parses to `o` exactly when it is `o`'s own spelling and
      `o`'s caption and value hold no `;` or `=`. */
  lemma ParseOptionShow(entry: string, o: SelectOption)
    ensures ParseOption(entry) == Success(o) <==>
      ';' !in o.caption && ';' !in o.value && '=' !in o.caption && '=' !in o.value && entry == ShowOption(o)
  {
    var item := o.caption + "=" + o.value;
    if ParseOption(entry) == Success(o) {
      var parts := Split(entry, ';');
      var items := Split(parts[0], '=');
      JoinTwo(items, '=');
      if |parts| == 2 {
        JoinTwo(parts, ';');
      }
    }
    if ';' !in o.caption && ';' !in o.value && '=' !in o.caption && '=' !in o.value && entry == ShowOption(o) {
      JoinTwo([o.caption, o.value], '=');
      assert o.caption + "=" + o.value == o.caption + ['='] + o.value;
      SplitJoin([o.caption, o.value], '=');
      if o.selected {
        JoinTwo([item, "selected"], ';');
        assert item + ";selected" == item + [';'] + "selected";
        SplitJoin([item, "selected"], ';');
      } else {
        assert entry == item;
        SplitFree(entry, ';');
      }
    }
  }

  /** A select tag parses to the options `os` exactly when it is their own
      spelling, `os` is not empty and no caption or value holds `,`, `;` or
      `=`. */
  lemma ParseOptionsShow(spec: string, os: seq<SelectOption>)
    ensures ParseOptions(spec) == Success(os) <==>
      |os| >= 1 && (forall i :: 0 <= i < |os| ==> PlainOption(os[i])) && spec == ShowOptions(os)
  {
    if ParseOptions(spec) == Success(os) {
      ParsedOptionsShow(spec, os);
    }
    if |os| >= 1 && (forall i :: 0 <= i < |os| ==> PlainOption(os[i])) && spec == ShowOptions(os) {
      ShownOptionsParse(os);
    }
  }

  /** Parsed options are plain and spell the tag they came from. */
  lemma ParsedOptionsShow(spec: string, os: seq<SelectOption>)
    requires ParseOptions(spec) == Success(os)
    ensures |os| >= 1 && (forall i :: 0 <= i < |os| ==> PlainOption(os[i])) && spec == ShowOptions(os)
  {
    var entries := Split(spec, ',');
    forall i | 0 <= i < |os|
      ensures PlainOption(os[i]) && entries[i] == ShowOption(os[i])
    {
      ParseOptionShow(entries[i], os[i]);
      assert ',' !in entries[i];
    }
    assert ShowEach(os) == entries;
  }

  /** The spelling of plain options parses back to them. */
  lemma ShownOptionsParse(os: seq<SelectOption>)
    requires |os| >= 1 && forall i :: 0 <= i < |os| ==> PlainOption(os[i])
    ensures ParseOptions(ShowOptions(os)) == Success(os)
  {
    var shown := ShowEach(os);
    assert |shown| == |os|;
    forall i | 0 <= i < |shown|
      ensures ',' !in shown[i]
    {
      assert shown[i] == ShowOption(os[i]);
    }
    SplitJoin(shown, ',');
    var entries := Split(ShowOptions(os), ',');
    assert entries == shown;
    forall i | 0 <= i < |os|
      ensures ParseOption(entries[i]) == Success(os[i])
    {
      ParseOptionShow(entries[i], os[i]);
    }
    var r := ParseEntries(entries);
    assert r.Success?;
    assert r.value == os;
  }
}
