/** Decoding a posted form into a record (`FormRead`): the fields are
    visited in declaration order, each one is validated, read from the
    posted data and converted, and the walk stops at the first error,
    keeping whatever the earlier fields were already set to. */
module Decoding {
  import opened Wrappers
  import opened Text
  import opened Numbers
  import opened Schema
  import opened FailFast

  /** The posted form as `Request.FormValue` sees it: every key reads as a
      string, `""` when it was not posted. */
  type Posted = string -> string

  /** The record after decoding, as far as decoding got, and the first error
      if there was one. */
  type Decoded = Committed<Field, Error>

  /** The posted text read into a numeric field of the given kind: empty
      text keeps the old value, text that does not parse is an error. */
  function ConvertNumber(f: Field, post: string, fc: FloatText): (r: Result<Value, Error>)
    requires f.value.IntValue? || f.value.Int64Value? || f.value.UintValue? || f.value.Uint64Value? || f.value.Float64Value?
    ensures r.Success? ==> KindOf(r.value) == KindOf(f.value)
    ensures post == "" ==> r == Success(f.value)
  {
    if post == "" then Success(f.value)
    else
      var bad := Failure(ConversionFailed(Key(f), post));
      match f.value
      case IntValue(_) => (match ParseInt64(post) case Some(n) => Success(IntValue(n)) case None => bad)
      case Int64Value(_) => (match ParseInt64(post) case Some(n) => Success(Int64Value(n)) case None => bad)
      case UintValue(_) => (match ParseUint64(post) case Some(n) => Success(UintValue(n)) case None => bad)
      case Uint64Value(_) => (match ParseUint64(post) case Some(n) => Success(Uint64Value(n)) case None => bad)
      case Float64Value(_) => (match fc.parse(post) case Some(x) => Success(Float64Value(x)) case None => bad)
  }

  /** The new value of a field, by its kind, from the posted text. A bool is
      always overwritten: with `type:"radio"` it becomes whether the posted
      text equals the radio value (after the `radio` tag has been checked),
      otherwise whether anything was posted. A string takes the posted text
      verbatim. Any other kind is rejected. */
  function Convert(f: Field, post: string, fc: FloatText): (r: Result<Value, Error>)
    ensures r.Success? ==> KindOf(r.value) == KindOf(f.value)
    ensures r.Failure? ==> !f.value.StringValue?
  {
    match f.value
    case BoolValue(_) =>
      if Tag(f, "type") == "radio" then
        var c :- ParseChoice("radio", Tag(f, "radio"));
        Success(BoolValue(post == c.value))
      else Success(BoolValue(post != ""))
    case StringValue(_) => Success(StringValue(post))
    case OtherValue(k) => Failure(UnsupportedKind(k))
    case _ => ConvertNumber(f, post, fc)
  }

  /** One iteration of the decode loop. An excluded field is left alone
      without looking at any other tag. Otherwise the key must be letters
      only, the `required` tag one of its three spellings, and a required
      field must have been posted, before the value is converted. */
  function DecodeField(f: Field, posted: Posted, fc: FloatText): (r: Result<Field, Error>)
    ensures r.Success? ==> r.value.tags == f.tags && KindOf(r.value.value) == KindOf(f.value)
    ensures Excluded(f) ==> r == Success(f)
    ensures !Excluded(f) && !IsLetters(Key(f)) ==> r == Failure(BadKey(Key(f)))
  {
    if Excluded(f) then Success(f)
    else
      var key := Key(f);
      if !IsLetters(key) then Failure(BadKey(key))
      else
        var post := posted(key);
        var required := Tag(f, "required");
        if !ValidTriState(required) then Failure(BadRequired(required))
        else if required == "true" && post == "" then Failure(MissingRequired(key))
        else
          var v :- Convert(f, post, fc);
          Success(f.(value := v))
  }

  /** One iteration of the decode loop, as a step of the in-place pass. */
  function DecodeStep(posted: Posted, fc: FloatText): Field -> Result<Field, Error> {
    f => DecodeField(f, posted, fc)
  }

  /** `FormRead`: decodes the fields in order and stops at the first failing
      one. The record keeps its shape, every field its tags and kind; each
      field is either untouched or replaced by its own decoding; and
      decoding succeeds exactly when every field decodes. */
  function Decode(rec: seq<Field>, posted: Posted, fc: FloatText): (r: Decoded)
    ensures |r.record| == |rec|
    ensures forall i {:trigger r.record[i]} :: 0 <= i < |rec| ==>
      r.record[i].tags == rec[i].tags && KindOf(r.record[i].value) == KindOf(rec[i].value)
    ensures forall i {:trigger r.record[i]} :: 0 <= i < |rec| ==>
      r.record[i] == rec[i] || DecodeField(rec[i], posted, fc) == Success(r.record[i])
    ensures r.error.None? <==> forall i :: 0 <= i < |rec| ==> DecodeField(rec[i], posted, fc).Success?
    ensures r.error.None? ==> forall i {:trigger r.record[i]} :: 0 <= i < |rec| ==>
      DecodeField(rec[i], posted, fc) == Success(r.record[i])
  {
    Commit(rec, DecodeStep(posted, fc))
  }

  /** Fail-fast with partial commit: when field `j` is the first that fails,
      decoding reports its error, the fields before it hold their decoded
      values and the field itself and all after it are untouched. */
  lemma {:induction false} DecodeStopsAt(rec: seq<Field>, posted: Posted, fc: FloatText, j: nat)
    requires j < |rec|
    requires forall i :: 0 <= i < j ==> DecodeField(rec[i], posted, fc).Success?
    requires DecodeField(rec[j], posted, fc).Failure?
    ensures Decode(rec, posted, fc).error == Some(DecodeField(rec[j], posted, fc).error)
    ensures forall i :: 0 <= i < j ==> Decode(rec, posted, fc).record[i] == DecodeField(rec[i], posted, fc).value
    ensures Decode(rec, posted, fc).record[j..] == rec[j..]
  {
    CommitStopsAt(rec, DecodeStep(posted, fc), j);
    var out := Decode(rec, posted, fc).record;
    assert forall k :: 0 <= k < |rec| - j ==> out[j..][k] == rec[j..][k];
  }

  /** An excluded field is never changed, whatever the outcome. */
  lemma DecodeSkipsExcluded(rec: seq<Field>, posted: Posted, fc: FloatText, i: nat)
    requires i < |rec| && Excluded(rec[i])
    ensures Decode(rec, posted, fc).record[i] == rec[i]
  {
  }

  /** Decoding reads the posted data only under the keys of non-excluded
      fields: two submissions that agree on those keys decode alike. */
  lemma DecodeReadsOnlyKeys(rec: seq<Field>, p1: Posted, p2: Posted, fc: FloatText)
    requires forall i :: 0 <= i < |rec| && !Excluded(rec[i]) ==> p1(Key(rec[i])) == p2(Key(rec[i]))
    ensures Decode(rec, p1, fc) == Decode(rec, p2, fc)
  {
    forall i | 0 <= i < |rec|
      ensures DecodeStep(p1, fc)(rec[i]) == DecodeStep(p2, fc)(rec[i])
    {
      assert DecodeField(rec[i], p1, fc) == DecodeField(rec[i], p2, fc);
    }
    CommitAgrees(rec, DecodeStep(p1, fc), DecodeStep(p2, fc));
  }

  /** Decoding one field twice changes nothing more. */
  lemma DecodeFieldIdempotent(f: Field, posted: Posted, fc: FloatText)
    requires DecodeField(f, posted, fc).Success?
    ensures DecodeField(DecodeField(f, posted, fc).value, posted, fc) == DecodeField(f, posted, fc)
  {
  }

  /** Decoding the decoded record again with the same submission gives the
      same record and the same error. */
  lemma DecodeIdempotent(rec: seq<Field>, posted: Posted, fc: FloatText)
    ensures Decode(Decode(rec, posted, fc).record, posted, fc) == Decode(rec, posted, fc)
  {
    var step := DecodeStep(posted, fc);
    forall i | 0 <= i < |rec| && step(rec[i]).Success?
      ensures step(step(rec[i]).value) == step(rec[i])
    {
      DecodeFieldIdempotent(rec[i], posted, fc);
    }
    CommitIdempotent(rec, step);
  }

  /** The checks every non-excluded field passes before its value is
      converted, for the posted text `post`. */
  predicate Admitted(f: Field, post: string) {
    && !Excluded(f)
    && IsLetters(Key(f))
    && ValidTriState(Tag(f, "required"))
    && !(Tag(f, "required") == "true" && post == "")
  }

  /** A required field with nothing posted fails the whole decode before
      any conversion, leaves that field as it was, and keeps the decoded
      values of the fields before it. */
  lemma DecodeRequiredEmpty(rec: seq<Field>, posted: Posted, fc: FloatText, j: nat)
    requires j < |rec|
    requires forall i :: 0 <= i < j ==> DecodeField(rec[i], posted, fc).Success?
    requires !Excluded(rec[j]) && IsLetters(Key(rec[j]))
    requires Tag(rec[j], "required") == "true" && posted(Key(rec[j])) == ""
    ensures Decode(rec, posted, fc).error == Some(MissingRequired(Key(rec[j])))
    ensures Decode(rec, posted, fc).record[j] == rec[j]
    ensures forall i :: 0 <= i < j ==> Decode(rec, posted, fc).record[i] == DecodeField(rec[i], posted, fc).value
  {
    DecodeStopsAt(rec, posted, fc, j);
    assert Decode(rec, posted, fc).record[j..][0] == rec[j..][0];
  }

  /** A key that is not letters only, or a `required` tag outside its three
      spellings, rejects a non-excluded field. */
  lemma DecodeRejectsBadTags(f: Field, posted: Posted, fc: FloatText)
    requires !Excluded(f)
    ensures !IsLetters(Key(f)) ==> DecodeField(f, posted, fc) == Failure(BadKey(Key(f)))
    ensures IsLetters(Key(f)) && !ValidTriState(Tag(f, "required")) ==>
      DecodeField(f, posted, fc) == Failure(BadRequired(Tag(f, "required")))
  {
  }

  /** A bool field is always overwritten. With `type:"radio"` it becomes
      whether the posted text equals the choice's value when the `radio`
      tag spells a choice, and the decode fails on the tag's error
      otherwise; with any other type it becomes whether anything was
      posted. */
  lemma {:induction false} DecodeBool(f: Field, posted: Posted, fc: FloatText, c: Choice)
    requires f.value.BoolValue? && Admitted(f, posted(Key(f)))
    ensures Tag(f, "type") != "radio" ==>
      DecodeField(f, posted, fc) == Success(f.(value := BoolValue(posted(Key(f)) != "")))
    ensures Tag(f, "type") == "radio" && ';' !in c.value && Tag(f, "radio") == ShowChoice(c) ==>
      DecodeField(f, posted, fc) == Success(f.(value := BoolValue(posted(Key(f)) == c.value)))
    ensures Tag(f, "type") == "radio" && ParseChoice("radio", Tag(f, "radio")).Failure? ==>
      DecodeField(f, posted, fc) == Failure(ParseChoice("radio", Tag(f, "radio")).error)
  {
    ParseChoiceShow("radio", Tag(f, "radio"), c);
  }

  /** A numeric field keeps its value when nothing was posted; otherwise
      the posted text must parse in the field's kind (base-0 integers in
      64 bits, or a float), and the field takes the parsed number. */
  lemma DecodeNumber(f: Field, posted: Posted, fc: FloatText)
    requires Admitted(f, posted(Key(f)))
    requires f.value.IntValue? || f.value.Int64Value? || f.value.UintValue? || f.value.Uint64Value? || f.value.Float64Value?
    ensures posted(Key(f)) == "" ==> DecodeField(f, posted, fc) == Success(f)
    ensures (f.value.IntValue? || f.value.Int64Value?) && posted(Key(f)) != "" ==>
      match ParseInt64(posted(Key(f)))
      case None => DecodeField(f, posted, fc) == Failure(ConversionFailed(Key(f), posted(Key(f))))
      case Some(n) => (DecodeField(f, posted, fc) ==
        Success(f.(value := if f.value.IntValue? then IntValue(n) else Int64Value(n))))
    ensures (f.value.UintValue? || f.value.Uint64Value?) && posted(Key(f)) != "" ==>
      match ParseUint64(posted(Key(f)))
      case None => DecodeField(f, posted, fc) == Failure(ConversionFailed(Key(f), posted(Key(f))))
      case Some(n) => (DecodeField(f, posted, fc) ==
        Success(f.(value := if f.value.UintValue? then UintValue(n) else Uint64Value(n))))
    ensures f.value.Float64Value? && posted(Key(f)) != "" ==>
      match fc.parse(posted(Key(f)))
      case None => DecodeField(f, posted, fc) == Failure(ConversionFailed(Key(f), posted(Key(f))))
      case Some(x) => DecodeField(f, posted, fc) == Success(f.(value := Float64Value(x)))
  {
    if posted(Key(f)) == "" {
      assert f.(value := f.value) == f;
    }
  }

  /** A string field takes the posted text verbatim, the empty text
      included; a field of an unhandled kind is an error. */
  lemma DecodeStringAndOther(f: Field, posted: Posted, fc: FloatText)
    requires Admitted(f, posted(Key(f)))
    ensures f.value.StringValue? ==> DecodeField(f, posted, fc) == Success(f.(value := StringValue(posted(Key(f)))))
    ensures f.value.OtherValue? ==> DecodeField(f, posted, fc) == Failure(UnsupportedKind(f.value.goKind))
  {
  }
}
