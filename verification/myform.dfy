/** The demo schema `MyForm` and the record the demo encodes, as concrete
    instances of the model. The malformed `default="false"` on `Customer`
    is not a tag at all, so that field has no `default` tag. */
module MyFormSchema {
  import opened Wrappers
  import opened Text
  import opened Numbers
  import opened Schema
  import opened FailFast
  import opened Decoding
  import opened Encoding

  const UserName := Field(StringValue(""), map["required" := "true", "field" := "name", "name" := "Имя пользователя", "type" := "text"])
  const UserPassword := Field(StringValue(""), map["required" := "true", "field" := "password", "name" := "Пароль пользователя", "type" := "password"])
  const Customer := Field(StringValue(""), map["required" := "false", "field" := "customer", "name" := "Имя и Фамилия", "type" := "textarea"])
  const Resident := Field(BoolValue(false), map["field" := "resident", "type" := "radio", "radio" := "1;checked", "name" := "Резидент РФ"])
  const NoResident := Field(BoolValue(false), map["field" := "resident", "type" := "radio", "radio" := "2", "name" := "Нерезидент РФ"])
  const Gender := Field(StringValue(""), map["field" := "gender", "name" := "Пол", "type" := "select", "select" := "Неизвестный=3;selected,Мужской=1,Женский=2"])
  const Salary := Field(Float64Value(0), map["field" := "salary", "name" := "Зарплата", "type" := "text", "default" := "true"])
  const Age := Field(Int64Value(0), map["field" := "age", "name" := "Возраст", "type" := "text", "default" := "true"])
  const Token := Field(StringValue(""), map["field" := "token", "type" := "hidden", "default" := "true"])
  const Token1 := Field(UintValue(0), map["field" := "", "type" := "hidden", "default" := "true"])
  const Token2 := Field(Uint64Value(0), map["field" := "-", "type" := "hidden", "default" := "true"])
  const Subscription := Field(BoolValue(false), map["field" := "subscription", "type" := "checkbox", "checkbox" := "1;checked", "name" := "Подписка"])
  const Agreement := Field(BoolValue(false), map["field" := "agreement", "type" := "checkbox", "checkbox" := "1", "name" := "Согласие"])
  const Secret := Field(StringValue(""), map["field" := "secret", "name" := "", "type" := "hidden", "default" := "true"])
  const Kids := Field(IntValue(0), map["field" := "kids", "name" := "Количество детей", "default" := "false"])
  const ClickMe := Field(StringValue(""), map["field" := "clickme", "type" := "button", "name" := "Для дополнительной информации", "default" := "true"])
  const Timestamp := Field(Int64Value(0), map["field" := "timestamp", "name" := "Метка времени", "type" := "hidden", "default" := "true"])

  /** A zero-valued `MyForm`, fields in declaration order. */
  const MyForm: seq<Field> := [UserName, UserPassword, Customer, Resident, NoResident, Gender, Salary, Age,
    Token, Token1, Token2, Subscription, Agreement, Secret, Kids, ClickMe, Timestamp]

  /** The fields keyed `""` and `-` are left out of both directions. */
  lemma MyFormShown()
    ensures Excluded(Token1) && Excluded(Token2)
    ensures Token1 !in Shown(MyForm) && Token2 !in Shown(MyForm)
  {
    assert Key(Token1) == "" && Key(Token2) == "-";
  }

  /** The options of the gender select, in tag order. */
  const GenderChoices := [SelectOption("Неизвестный", "3", true), SelectOption("Мужской", "1", false), SelectOption("Женский", "2", false)]

  lemma GenderEntries()
    ensures ShowEach(GenderChoices) == ["Неизвестный=3;selected", "Мужской=1", "Женский=2"]
  {
    var e := ShowEach(GenderChoices);
    assert e[0] == "Неизвестный=3;selected";
    assert e[1] == "Мужской=1";
    assert e[2] == "Женский=2";
  }

  lemma GenderSpelling()
    ensures Tag(Gender, "select") == ShowOptions(GenderChoices)
  {
    GenderEntries();
    var e := ShowEach(GenderChoices);
    JoinTwo(e[1..], ',');
    assert Join(e, ',') == e[0] + [','] + (e[1] + [','] + e[2]);
  }

  /** The gender select lists its three options in tag order, the first
      one pre-selected. */
  lemma GenderOptions()
    ensures Tag(Gender, "select") == ShowOptions(GenderChoices)
    ensures ParseOptions(ShowOptions(GenderChoices)) == Success(GenderChoices)
  {
    GenderSpelling();
    GenderPlain();
    ParseOptionsShow(ShowOptions(GenderChoices), GenderChoices);
  }

  lemma GenderPlain()
    ensures forall i :: 0 <= i < |GenderChoices| ==> PlainOption(GenderChoices[i])
  {
    assert Plain("Неизвестный");
    assert Plain("Мужской");
    assert Plain("Женский");
  }

  lemma MaybeMarker()
    ensures ParseChoice("radio", "1;maybe") == Failure(BadChoiceMarker("radio", "maybe"))
  {
    var parts := ["1", "maybe"];
    JoinTwo(parts, ';');
    assert Join(parts, ';') == "1;maybe";
    SplitJoin(parts, ';');
  }

  /** The resident radio with the malformed marker `1;maybe`. */
  const MaybeResident := Resident.(tags := Resident.tags["radio" := "1;maybe"])

  /** `radio:"1;maybe"` is rejected by encoding. */
  lemma MaybeNotEncoded(fc: FloatText)
    ensures Describe(MaybeResident, fc) == Failure(BadChoiceMarker("radio", "maybe"))
  {
    var f := MaybeResident;
    assert Tag(f, "radio") == "1;maybe" && Tag(f, "type") == "radio";
    assert Renderable(f) by {
      assert Key(f) == "resident";
      assert Tag(f, "required") == "" && Tag(f, "default") == "";
    }
    MaybeMarker();
  }

  /** The same tag is rejected by decoding, whatever was posted. */
  lemma MaybeNotDecoded(posted: Posted, fc: FloatText)
    ensures DecodeField(MaybeResident, posted, fc) == Failure(BadChoiceMarker("radio", "maybe"))
  {
    var f := MaybeResident;
    assert Tag(f, "radio") == "1;maybe" && Tag(f, "type") == "radio";
    assert Admitted(f, posted(Key(f))) by {
      assert Key(f) == "resident" && Tag(f, "required") == "";
    }
    MaybeMarker();
    DecodeBool(f, posted, fc, Choice("1", false));
  }

  /** The `resident` radio pair: each field becomes whether its own value
      was posted. */
  lemma ResidentDecodes(posted: Posted, fc: FloatText)
    ensures DecodeField(Resident, posted, fc) == Success(Resident.(value := BoolValue(posted("resident") == "1")))
    ensures DecodeField(NoResident, posted, fc) == Success(NoResident.(value := BoolValue(posted("resident") == "2")))
  {
    assert Key(Resident) == "resident" && IsLetters(Key(Resident));
    assert Key(NoResident) == "resident";
    assert Tag(Resident, "required") == "" && Tag(NoResident, "required") == "";
    assert Tag(Resident, "type") == "radio" && Tag(NoResident, "type") == "radio";
    assert ShowChoice(Choice("1", true)) == "1;checked";
    DecodeBool(Resident, posted, fc, Choice("1", true));
    DecodeBool(NoResident, posted, fc, Choice("2", false));
  }

  /** Posting `18` sets the age to 18; posting `abc` is a conversion error. */
  lemma AgeDecodes(fc: FloatText)
    ensures DecodeField(Age, (k: string) => "18", fc) == Success(Age.(value := Int64Value(18)))
    ensures DecodeField(Age, (k: string) => "abc", fc) == Failure(ConversionFailed("age", "abc"))
  {
    assert Admitted(Age, "18") && Admitted(Age, "abc") by {
      assert Key(Age) == "age" && Tag(Age, "required") == "";
    }
    ParseDecimalExamples();
    ParseRejectExamples();
    DecodeNumber(Age, (k: string) => "18", fc);
    DecodeNumber(Age, (k: string) => "abc", fc);
  }

  /** Nothing posted for the required user name stops decoding at the first
      field, before anything is converted. */
  lemma EmptyUserName(fc: FloatText)
    ensures Decode(MyForm, (k: string) => "", fc) == Committed(MyForm, Some(MissingRequired("name")))
  {
    assert MyForm[0] == UserName;
    assert Key(UserName) == "name" && Tag(UserName, "required") == "true";
    DecodeRequiredEmpty(MyForm, (k: string) => "", fc, 0);
    assert MyForm[0..] == MyForm;
  }
}
