# Dynamic form engine: a Dafny model

`dynamicForm.go` turns a tagged Go struct into an HTML form and reads a
posted form back into the struct. Each struct field carries tags:
- `field` is the form key. An empty key or `-` excludes the field.
- `required` and `default` accept `true`, `false` or nothing.
- `type` picks the control: text, password, hidden, button, textarea,
  radio, checkbox or select.
- `radio`, `checkbox` and `select` spell the choices.
- `name` is the label's caption.

The project models three functions:
- `FormCreate` is the encoder. It walks the fields in order and checks
  each field's tags. It renders one control per non-excluded field, with
  its label, and wraps the controls between a fixed preamble and a submit
  button. The first bad field fails the whole document.
- `processCheckedValues` reads a `radio` or `checkbox` tag of the form
  `value[;checked]`. It produces that input's attributes.
- `FormRead` is the decoder. It walks the fields in the same order and
  checks the same tags. It reads each field's posted text and converts
  it by the field's kind: bool (with the radio rule), `int`, `int64`,
  `uint`, `uint64`, `float64` or string. It stops at the first error, and
  the fields decoded before that error keep their new values.

The modules:
- `Wrappers`: `Option` and `Result`.
- `Text`: the standard-library string helpers the code relies on. This is
  `strings.Split` with a one-character separator, `html.EscapeString`
  with its inverse, and the key pattern `^[A-Za-z]*$`.
- `Numbers`: `fmt.Sprintf("%d")`, and `strconv.ParseInt` /
  `strconv.ParseUint` in base 0 with 64 bits. The base-0 syntax is
  modelled in full: the `0b`/`0o`/`0x` prefixes, a leading `0` for octal,
  a sign, and underscores as `underscoreOK` admits them.
- `Schema`: a record is a sequence of `Field(value, tags)`. The `Value`
  constructor is the field's reflect kind. Tags are a pre-parsed map. The
  module also holds the exclusion rule, the error enumeration, and the
  choice and select-option tag grammars with their printers.
- `FailFast`: the two loop shapes, for any per-element step.
  - `Commit` updates elements in place and stops at the first failure,
    keeping the earlier updates. This is `FormRead`'s loop.
  - `MapAll` maps elements to results and fails as a whole. This is
    `FormCreate`'s loop.
- `Decoding`: `FormRead`.
- `Encoding`: `FormCreate` and `processCheckedValues`. Each field is
  first checked and described as a structured `Widget`. The widget is
  then rendered to text in the Go code's attribute order.
- `RoundTrip`: encoding against decoding.
  - The default values the encoder writes into the widgets of text-like
    inputs decode a blank record back to the encoded record.
  - At the text level, each such field's fragment of the document holds
    an escaped `value` attribute that reads back as the value's text.
- `MyFormSchema`: the `MyForm` struct of the Go code, field by field, with
  facts about its fields.

Where the code and the form's design description disagree, the model
follows the code:
- A radio or checkbox input is pre-checked exactly when its tag carries
  the `;checked` marker. The field's value and its `default` tag play no
  part.
- An empty posted text leaves only numeric fields unchanged.
  - A bool field always becomes "something was posted", or "the radio
    value was posted".
  - A string field always takes the posted text, even when it is empty.

## Model

| member | source | states |
|---|---|---|
| Decoding.Decode | dynamicForm.go:35-167 | The record keeps its length and every field keeps its tags and kind. Each field is either untouched or replaced by its own decoding. The decode succeeds exactly when every field decodes, and then every field holds its decoding. |
| Decoding.DecodeField | dynamicForm.go:55-163 | One loop iteration. An excluded field is returned unchanged. A key that is not letters only fails with `BadKey`. A success keeps the field's tags and kind. |
| Decoding.Convert | dynamicForm.go:87-163 | The kind switch. A success keeps the field's kind, and a string field never fails. |
| Decoding.ConvertNumber | dynamicForm.go:114-158 | The numeric cases. An empty posted text keeps the current value, and a success keeps the kind. |
| Decoding.DecodeStopsAt | dynamicForm.go:46-164 | When field j is the first to fail, the decode reports j's error. The fields before j hold their decodings, and j and every later field are untouched. |
| Decoding.DecodeSkipsExcluded | dynamicForm.go:55-59 | An excluded field is never changed, whatever the outcome. |
| Decoding.DecodeReadsOnlyKeys | dynamicForm.go:68 | Two submissions that agree on the keys of the non-excluded fields decode the record identically. |
| Decoding.DecodeFieldIdempotent | dynamicForm.go:55-163 | Decoding an already decoded field again with the same submission gives the same result. |
| Decoding.DecodeIdempotent | dynamicForm.go:35-167 | Decoding the decoded record again with the same submission gives the same record and the same error. |
| Decoding.DecodeRequiredEmpty | dynamicForm.go:77-79 | A required field with nothing posted stops the decode with `MissingRequired`. That field is untouched and the earlier fields hold their decodings. |
| Decoding.DecodeRejectsBadTags | dynamicForm.go:60-63 | A bad key fails with `BadKey`. A `required` tag other than true, false or empty fails with `BadRequired` (lines 71-75). |
| Decoding.DecodeBool | dynamicForm.go:88-113 | A bool field is always overwritten. A radio becomes whether the posted text equals the tag's choice value, or fails with the tag's error. Any other type becomes whether the posted text is non-empty. |
| Decoding.DecodeNumber | dynamicForm.go:114-158 | Empty posted text keeps the value. Otherwise the text must parse as base-0 int64, uint64 or float in the field's kind, or the decode fails with `ConversionFailed`. |
| Decoding.DecodeStringAndOther | dynamicForm.go:159-162 | A string field takes the posted text verbatim, and any other kind fails with `UnsupportedKind`. |
| FailFast.Commit | dynamicForm.go:46-164 | The in-place pass keeps the length. Each element is untouched or replaced by its step's result. There is no error exactly when every step succeeds, and then every element is its step's result. |
| FailFast.CommitStopsAt | dynamicForm.go:46-164 | The first failing element's error is reported. Earlier elements are updated, and it and all later ones are unchanged. |
| FailFast.CommitAgrees | dynamicForm.go:46-164 | Steps that agree on every element give the same outcome. |
| FailFast.CommitIdempotent | dynamicForm.go:46-164 | When each step result is a fixed point of the step, a second pass changes nothing. |
| FailFast.MapAll | dynamicForm.go:202-329 | The map succeeds exactly when every step succeeds. It then yields one result per element, in order. |
| FailFast.MapAllFailsAt | dynamicForm.go:202-329 | A failing map reports the first failing element's error. |
| Schema.Shown | dynamicForm.go:55-59 | The fields that take part are exactly the non-excluded ones, at most as many as the record has, and all of them when none is excluded. |
| Schema.ShownAppend | dynamicForm.go:46-59 | Filtering a concatenation filters each part, so the fields that take part keep their declaration order and multiplicity (the same loop shape is at lines 202-217). |
| Schema.ShownSingle | dynamicForm.go:57-59 | A single field takes part exactly when it is not excluded. |
| Schema.ShownAgrees | dynamicForm.go:215-217 | Records that differ only in fields excluded on both sides have the same participating fields. |
| Schema.ParseChoice | dynamicForm.go:169-189 | The `value[;checked]` grammar. A failure is either too many `;`-parts or a bad marker. |
| Schema.ParseChoiceShow | dynamicForm.go:93-101 | A choice tag parses to c exactly when it is c's own spelling and c's value holds no `;`. This is the same grammar as lines 175-186. |
| Schema.ParseOption | dynamicForm.go:279-295 | A parsed option's caption and value hold no `;` and no `=`. |
| Schema.ParseEntries | dynamicForm.go:278-297 | The parse succeeds exactly when every entry parses, and then gives one option per entry, in order. |
| Schema.ParseEntriesFailsAt | dynamicForm.go:278-297 | A failing list reports the error of its first bad entry. |
| Schema.ParseOptionErrors | dynamicForm.go:279-295 | Each failure of one entry says what failed. More than two `;`-parts names the whole entry (line 280). An item before any `;` without exactly one `=` names that item, a prefix of the entry (line 285). A marker after the `;` other than `selected` names that marker, the entry's suffix (lines 289-293). |
| Schema.ParseOptionShow | dynamicForm.go:279-295 | An entry parses to o exactly when it is o's spelling and o's caption and value hold no `;` or `=`. |
| Schema.ParseOptionsShow | dynamicForm.go:270-297 | A select tag parses to os exactly when it is their spelling, os is non-empty and no caption or value holds `,`, `;` or `=`. |
| Schema.ParsedOptionsShow | dynamicForm.go:270-297 | The reading direction: parsed options are non-empty and plain, and they spell the tag they came from. |
| Schema.ShownOptionsParse | dynamicForm.go:270-297 | The writing direction: the spelling of non-empty plain options parses back to them. |
| Encoding.Stringify | dynamicForm.go:228-237 | Only unsupported kinds fail. A string is its own text, and an integer's `%d` text parses back to the same number in its kind. |
| Encoding.ControlOf | dynamicForm.go:255-317 | An unknown `type` is the only failure outside the choice and select tags. An input's type is never empty (line 308). |
| Encoding.Describe | dynamicForm.go:202-326 | A described field passes the key, kind, `required` and `default` checks. Its widget has the field's key and is required exactly when the tag says `true`. It has no label exactly when it is hidden. |
| Encoding.Widgets | dynamicForm.go:202-329 | The widgets exist exactly when every non-excluded field is described. There is one widget per non-excluded field, in order. |
| Encoding.CheckedValues | dynamicForm.go:169-189 | `processCheckedValues` fails exactly when the tag does not parse as a choice. |
| Encoding.CheckedValuesOutput | dynamicForm.go:169-189 | On a tag that spells c, the output is the type, the escaped value and `checked` exactly when c says so. Any other tag fails with the tag's error. |
| Encoding.Encode | dynamicForm.go:191-333 | The document exists exactly when every non-excluded field is described. It is then the preamble (line 198), the fragment of each non-excluded field in declaration order (line 328), and the submit button (line 330). A fragment is the rendering of the field's `Describe` widget. |
| Encoding.RenderAllConcat | dynamicForm.go:328 | Rendering a list of widgets is concatenating their renderings. |
| Encoding.RenderWidgets | dynamicForm.go:202-329 | When every non-excluded field is described, the rendered widgets are the fields' fragments, in order. |
| Encoding.EncodeIgnoresExcluded | dynamicForm.go:215-217 | Two records that differ only in fields excluded on both sides encode alike. |
| Encoding.EncodeReportsFirst | dynamicForm.go:202-329 | A failing encode reports the first failing non-excluded field's error. |
| Encoding.EncodeRejectsBadTags | dynamicForm.go:218-253 | The check order for a non-excluded field: key, then kind, then `required`, then `default`, each with its own error. |
| Encoding.DescribeChoice | dynamicForm.go:257-268 | A radio or checkbox whose tag spells c becomes an input of that type with c's value and checked state, under the field's caption. |
| Encoding.ChoiceIgnoresValueAndDefault | dynamicForm.go:257-268 | A radio or checkbox widget does not depend on the field's value or on its `default` tag. |
| Encoding.RenderChoice | dynamicForm.go:257-268 | A radio or checkbox renders as `<input`, the name attributes, `processCheckedValues`' output and `>`. |
| Encoding.DescribeSelect | dynamicForm.go:269-298 | A select whose tag spells os lists os in order. A select tag that does not parse fails with the parse error. |
| Encoding.DescribeSelectFailsAt | dynamicForm.go:278-297 | A select tag with a bad entry fails with the first bad entry's error. |
| Encoding.DescribeTextual | dynamicForm.go:299-317 | Text-like types become an input (type `text` when unset), and a textarea gets the value as content. The value is carried exactly when `default` is true, and any other type fails with `BadControl`. |
| Text.Split | dynamicForm.go:93 | `strings.Split` with one separator has at least one part, no part holds the separator, and joining the parts gives the input back. The same call is at lines 175, 273, 279 and 284. |
| Text.SplitJoin | dynamicForm.go:273-284 | Splitting a join of separator-free pieces gives the pieces back. |
| Text.SplitFree | dynamicForm.go:279 | A text without the separator splits into itself alone. |
| Text.JoinTwo | dynamicForm.go:284-287 | Joining two pieces puts one separator between them. |
| Text.JoinExcludes | dynamicForm.go:284-287 | A character missing from a join is missing from every piece. |
| Text.Escape | dynamicForm.go:313 | `html.EscapeString` leaves no `<`, `>`, `'` or `"` and never shortens the text. A text without special characters is unchanged. The same call is at lines 179 and 288. |
| Text.UnescapeEscape | dynamicForm.go:313 | Escaping loses nothing: unescaping the escaped text gives the original. |
| Text.UnescapeChar | dynamicForm.go:313 | One escaped character unescapes to itself, in front of any text. |
| Text.UpToQuote | dynamicForm.go:313 | A single-quoted attribute value holds no `'`. |
| Text.QuotedReadsBack | dynamicForm.go:313 | An escaped value followed by the closing quote reads back as the value. |
| Text.QuotedPrefix | dynamicForm.go:313 | Text free of markup characters ends at the closing quote. |
| Numbers.DecimalDigit | dynamicForm.go:234 | A digit below ten is a decimal digit character. |
| Numbers.DecimalDigits | dynamicForm.go:234 | The digits are decimal, at least one, with a leading `0` only for zero. |
| Numbers.FormatDecimal | dynamicForm.go:234 | `%d` text is non-empty and starts with `-` exactly for negatives. |
| Numbers.DigitOf | dynamicForm.go:125 | An alphanumeric character's digit value is below 36. |
| Numbers.BasePrefix | dynamicForm.go:125 | Base 0 picks base 2, 8, 10 or 16, and a prefix is stripped only after a leading `0`. |
| Numbers.ParseUint64 | dynamicForm.go:143 | A parsed text is non-empty and starts with a digit, so no sign is accepted. The same call is at line 152. |
| Numbers.ParseInt64 | dynamicForm.go:125 | A parsed text is non-empty, and a negative result comes from a leading `-`. The same call is at line 134. |
| Numbers.DecimalDigitsValue | dynamicForm.go:234 | The decimal digits of n read back in base 10 as n. |
| Numbers.ParseUintFormat | dynamicForm.go:233-234 | `ParseUint` undoes `%d` exactly on the uint64 range and rejects everything above it (lines 143, 152). |
| Numbers.ParseDigits | dynamicForm.go:152 | A bare digit string parses to its number exactly when the number is below 2^64. |
| Numbers.ParseIntFormat | dynamicForm.go:233-234 | `ParseInt` undoes `%d` exactly on the int64 range and rejects everything outside it (lines 125, 134). |
| Numbers.ParseNegativeFormat | dynamicForm.go:134 | The negative half: `-` and the digits parse back exactly down to the int64 minimum. |
| Numbers.ParseDecimalExamples | dynamicForm.go:134 | "18", "+7" and "0" parse as decimal. |
| Numbers.ParseRejectExamples | dynamicForm.go:134 | "abc" is no integer, and the unsigned parser rejects "-1" and "+1" (line 152). |
| Numbers.ParseHexExample | dynamicForm.go:134 | "0x1F" is 31. |
| Numbers.ParseBinaryExample | dynamicForm.go:134 | "-0b101" is -5. |
| Numbers.ParseOctalExamples | dynamicForm.go:134 | "0o17" and "017" are 15, and "08" is rejected. |
| Numbers.ParseUnderscoreExamples | dynamicForm.go:134 | "1_000" is 1000 and "0x_1" is 1. |
| Numbers.ThousandDigits | dynamicForm.go:134 | The digits of "1_000" admit their underscore and denote 1000. |
| Numbers.ParseBadUnderscoreExamples | dynamicForm.go:134 | "1__0" and "_1" are rejected. |
| RoundTrip.Blank | dynamicForm.go:15-33 | A zero-valued field keeps the schema field's tags and kind. |
| RoundTrip.DefaultOfFirst | dynamicForm.go:306-314 | The first input with a value under a key supplies the posted default. |
| RoundTrip.EchoableWidget | dynamicForm.go:306-314 | An echoable field (a text, password or hidden input, or one with no type, that shows a string or integer value) is described as an input carrying its value's text. |
| RoundTrip.EchoableField | dynamicForm.go:68-160 | An echoable field's own text decodes a blank field of its schema back to it. |
| RoundTrip.EchoableWidgets | dynamicForm.go:202-329 | A record of echoable fields excludes nothing and encodes successfully. |
| RoundTrip.WidgetKeys | dynamicForm.go:223 | The widgets carry the keys of the non-excluded fields, in order. |
| RoundTrip.EncodedDefault | dynamicForm.go:312-314 | With distinct keys, the default value the encoder wrote under each echoable field's key is that field's text. |
| RoundTrip.DecodeToTarget | dynamicForm.go:46-164 | A record whose every field decodes to the matching target field decodes to the target without error. |
| RoundTrip.EncodeDecodeRoundTrip | dynamicForm.go:312-314 | With distinct keys, echoable fields encode. The default values the encoder wrote into the widgets then decode a blank record to the original without error (decoding at lines 68-160). |
| RoundTrip.RenderValuedInput | dynamicForm.go:306-326 | A valued, unchecked input widget renders as its label (unless it has no caption), `<input`, the name attributes, the type, the escaped value in single quotes, `>`, and the line break. |
| RoundTrip.AttributeReadsBack | dynamicForm.go:313 | Whatever text surrounds it, an escaped value after an attribute's opening quote reads back, up to the closing quote and unescaped, as the value. |
| RoundTrip.EchoableFragment | dynamicForm.go:299-326 | An echoable field's document fragment is an input of its type (`text` when unset), labelled unless hidden, whose `value` attribute holds the escaped text of its value. That attribute reads back as the text. |
| RoundTrip.ValueAttributeReadsBack | dynamicForm.go:313 | The escaped `value` attribute of an input, read up to its closing quote and unescaped, is the value. |
| MyFormSchema.MyFormShown | dynamicForm.go:25-26 | `Token_1` (key "") and `Token_2` (key "-") are excluded and take no part. |
| MyFormSchema.GenderEntries | dynamicForm.go:21 | The Gender options spell the three entries of its `select` tag. |
| MyFormSchema.GenderSpelling | dynamicForm.go:21 | Gender's `select` tag is the spelling of its three options. |
| MyFormSchema.GenderOptions | dynamicForm.go:21 | Gender's `select` tag parses to the unknown (3, selected), male (1) and female (2) options. |
| MyFormSchema.GenderPlain | dynamicForm.go:21 | No Gender caption or value holds `,`, `;` or `=`. |
| MyFormSchema.MaybeMarker | dynamicForm.go:19 | A `radio` tag `1;maybe` fails on its marker. |
| MyFormSchema.MaybeNotEncoded | dynamicForm.go:19 | Resident with the tag `1;maybe` cannot be encoded. |
| MyFormSchema.MaybeNotDecoded | dynamicForm.go:19 | Resident with the tag `1;maybe` cannot be decoded, whatever is posted. |
| MyFormSchema.ResidentDecodes | dynamicForm.go:19-20 | The radio pair sharing key `resident` becomes "posted 1" and "posted 2". |
| MyFormSchema.AgeDecodes | dynamicForm.go:23 | Age takes a posted "18" as 18 and fails on "abc". |
| MyFormSchema.EmptyUserName | dynamicForm.go:16 | An empty submission stops at the required user name, the first field, and leaves the record unchanged (lines 77-79). |

## Left out

- `handler` and `main` (lines 335-377) are left out. They are HTTP serving and the process entry point.
- The `fmt.Println` tracing is left out. It has no effect on the results.
- Error texts are left out. Each failure is a constructor of `Schema.Error` that carries the offending text. The radio and checkbox error wrapping at lines 260 and 266 is dropped, and the inner error is kept.
- Reflection and struct-tag parsing are left out. A record is a sequence of fields with pre-parsed tag maps, and the `Value` constructor stands for the reflect kind.
- The tag of `Customer` at line 18 ends with `default="false"`. `StructTag.Get` stops reading at that malformed pair, so the model gives `Customer` no `default` tag. The malformed pair is last, so the other tags are still read.
- The nil checks at lines 36-41 and 193-195 are left out. A record value always exists.
- Float parsing and formatting (`strconv.ParseFloat`, `fmt.Sprint` of a `float64`) are not modelled. They are the `FloatText` parameter, and a float is an opaque bit pattern.
- `time.Duration` is left out as a separate kind. Its reflect kind is `int64`, and it is modelled as such.
- `int` and `uint` are taken to be 64 bits wide, as on a 64-bit target.
- The integer syntax is that of Go 1.13 and later: base prefixes and underscores.
- RoundTrip.EncodeDecodeRoundTrip: is stated at widget level. The posted values are the default values the encoder wrote into the widgets; they are not read from the document text. Only RoundTrip.EchoableFragment, RoundTrip.AttributeReadsBack and RoundTrip.ValueAttributeReadsBack speak of the text, and they show that each field's `value` attribute reads back. How a browser turns the document into a submission is not modelled.
- RoundTrip.EncodeDecodeRoundTrip: covers only text, password and hidden inputs, or inputs with no type, that show their values and hold strings or integers. It does not cover buttons, bools, floats, radios, checkboxes, selects or textareas. A browser does not submit a button, and a radio or checkbox posts its value only when chosen. A float's text depends on the `FloatText` parameter, and a textarea's content is not escaped.
- Escaping is modelled as the code does it. Input values and option values are escaped, while option captions, label captions and textarea content are inserted as written.
