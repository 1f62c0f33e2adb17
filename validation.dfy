/**
 * `validateVolunteerForm(form)`: one validation pass over the form. It
 * clears the markers of the present fields, runs the nine rules in order
 * collecting every failure, marks each failure on its field, and returns
 * the verdict with a copy of the form's values when there is no failure.
 * The host's date parser and clock are inputs: `parse` stands for
 * `new Date(value)` with its validity test, `today` for `new Date()`.
 */
module Validation {
  import opened Wrappers
  import opened FormRules
  import opened ErrorMarkers

  /** `{valid, data, errors}`. */
  datatype ValidationResult = ValidationResult(valid: bool, data: map<Field, string>, errors: seq<FieldError>)

  /** The reported errors, written out rule by rule in the fixed field order. */
  lemma ExpectedErrorsUnrolled(form: Snapshot, parse: string -> Option<Date>, today: Date)
    ensures ExpectedErrors(form, parse, today) ==
      ErrorsOf(form, parse, today, Nome) + ErrorsOf(form, parse, today, Email)
      + ErrorsOf(form, parse, today, Cpf) + ErrorsOf(form, parse, today, Telefone)
      + ErrorsOf(form, parse, today, Nascimento) + ErrorsOf(form, parse, today, Endereco)
      + ErrorsOf(form, parse, today, Cep) + ErrorsOf(form, parse, today, Cidade)
      + ErrorsOf(form, parse, today, Estado)
  {
    var fs: seq<Field> := [Nome];
    assert Collect(form, parse, today, fs) == ErrorsOf(form, parse, today, Nome) by {
      assert fs[..0] == [];
    }
    CollectSnoc(form, parse, today, fs, Email);
    fs := fs + [Email];
    CollectSnoc(form, parse, today, fs, Cpf);
    fs := fs + [Cpf];
    CollectSnoc(form, parse, today, fs, Telefone);
    fs := fs + [Telefone];
    CollectSnoc(form, parse, today, fs, Nascimento);
    fs := fs + [Nascimento];
    CollectSnoc(form, parse, today, fs, Endereco);
    fs := fs + [Endereco];
    CollectSnoc(form, parse, today, fs, Cep);
    fs := fs + [Cep];
    CollectSnoc(form, parse, today, fs, Cidade);
    fs := fs + [Cidade];
    CollectSnoc(form, parse, today, fs, Estado);
    fs := fs + [Estado];
    assert fs == FieldOrder;
  }

  lemma CollectSnoc(form: Snapshot, parse: string -> Option<Date>, today: Date, init: seq<Field>, f: Field)
    ensures Collect(form, parse, today, init + [f]) == Collect(form, parse, today, init) + ErrorsOf(form, parse, today, f)
  {
    assert (init + [f])[..|init|] == init;
  }

  /**
   * The birth-date rule: required, a date the host parser accepts, and an
   * age in whole years, counted with the month/day correction, from 18 to 90.
   */
  method BirthDateCheck(v: Option<string>, parse: string -> Option<Date>, today: Date) returns (msg: Option<string>)
    ensures msg == BirthDateMessage(v, parse, today)
    ensures msg.None? <==> v.Some? && v.value != "" && parse(v.value).Some?
                           && DateLeq(Anniversary(parse(v.value).value, 18), today)
                           && !DateLeq(Anniversary(parse(v.value).value, 91), today)
  {
    if v.None? || v.value == "" {
      return Some(BirthDateRequired);
    }
    var dob := parse(v.value);
    if dob.None? {
      return Some(BirthDateInvalid);
    }
    var age := today.year - dob.value.year;
    var m := today.month - dob.value.month;
    if m < 0 || (m == 0 && today.day < dob.value.day) {
      age := age - 1;
    }
    AgeAcceptedIff(today, dob.value);
    if age < 18 || age > 90 {
      msg := Some(AgeOutOfRange);
    } else {
      msg := None;
    }
  }

  /** Runs the rule for field `f`, appending its failure, if any, to `errors0`. */
  method ApplyRule(form: Snapshot, parse: string -> Option<Date>, today: Date, f: Field, errors0: seq<FieldError>)
    returns (errors: seq<FieldError>)
    ensures errors == errors0 + ErrorsOf(form, parse, today, f)
  {
    errors := errors0;
    match f {
      case Nome =>
        if Blank(form.nome) {
          errors := errors + [FieldError(Nome, NomeRequired)];
        }
      case Email =>
        if form.email.None? || !ValidateEmail(form.email.value) {
          errors := errors + [FieldError(Email, EmailInvalid)];
        }
      case Cpf =>
        if TooFewDigits(form.cpf, 11) {
          errors := errors + [FieldError(Cpf, CpfInvalid)];
        }
      case Telefone =>
        if TooFewDigits(form.telefone, 10) {
          errors := errors + [FieldError(Telefone, TelefoneInvalid)];
        }
      case Nascimento =>
        var birth := BirthDateCheck(form.nascimento, parse, today);
        if birth.Some? {
          errors := errors + [FieldError(Nascimento, birth.value)];
        }
      case Endereco =>
        if Blank(form.endereco) {
          errors := errors + [FieldError(Endereco, EnderecoRequired)];
        }
      case Cep =>
        if TooFewDigits(form.cep, 8) {
          errors := errors + [FieldError(Cep, CepInvalid)];
        }
      case Cidade =>
        if Blank(form.cidade) {
          errors := errors + [FieldError(Cidade, CidadeRequired)];
        }
      case Estado =>
        if StateRejected(form.estado) {
          errors := errors + [FieldError(Estado, EstadoInvalid)];
        }
    }
    assert errors == errors0 + ErrorsOf(form, parse, today, f);
  }

  /** The nine rules, run in field order, each appending its failure; none short-circuits another. */
  method RunRules(form: Snapshot, parse: string -> Option<Date>, today: Date) returns (errors: seq<FieldError>)
    ensures errors == ExpectedErrors(form, parse, today)
  {
    errors := ApplyRule(form, parse, today, Nome, []);
    errors := ApplyRule(form, parse, today, Email, errors);
    errors := ApplyRule(form, parse, today, Cpf, errors);
    errors := ApplyRule(form, parse, today, Telefone, errors);
    errors := ApplyRule(form, parse, today, Nascimento, errors);
    errors := ApplyRule(form, parse, today, Endereco, errors);
    errors := ApplyRule(form, parse, today, Cep, errors);
    errors := ApplyRule(form, parse, today, Cidade, errors);
    errors := ApplyRule(form, parse, today, Estado, errors);
    ExpectedErrorsUnrolled(form, parse, today);
  }

  /** The first loop of a validation pass: clear the marker of every tracked field the form has. */
  method ClearPresentMarkers(form: Snapshot, markers: FieldMarkers)
    modifies markers
    ensures markers.State() == ClearPresent(old(markers.State()), form, FieldOrder)
  {
    var i := 0;
    while i < |FieldOrder|
      invariant 0 <= i <= |FieldOrder|
      invariant markers.State() == ClearPresent(old(markers.State()), form, FieldOrder[..i])
    {
      var f := FieldOrder[i];
      if form.Value(f).Some? {
        markers.ClearFieldError(f);
      }
      assert FieldOrder[..i + 1][..i] == FieldOrder[..i];
      i := i + 1;
    }
    assert FieldOrder[..i] == FieldOrder;
  }

  /** The last loop of a validation pass: mark each error on its field, when the form has that field. */
  method MarkReportedErrors(form: Snapshot, errors: seq<FieldError>, markers: FieldMarkers)
    modifies markers
    ensures markers.State() == MarkErrors(old(markers.State()), form, errors)
  {
    var j := 0;
    while j < |errors|
      invariant 0 <= j <= |errors|
      invariant markers.State() == MarkErrors(old(markers.State()), form, errors[..j])
    {
      var e := errors[j];
      if form.Value(e.field).Some? {
        markers.SetFieldError(e.field, e.msg);
      }
      assert errors[..j + 1][..j] == errors[..j];
      j := j + 1;
    }
    assert errors[..j] == errors;
  }

  /** The loop that copies each form entry into `data`: the value of every field the form has. */
  method FormEntries(form: Snapshot) returns (data: map<Field, string>)
    ensures forall f :: (f in data <==> form.Value(f).Some?) && (f in data ==> data[f] == form.Value(f).value)
  {
    data := map[];
    var k := 0;
    while k < |FieldOrder|
      invariant 0 <= k <= |FieldOrder|
      invariant forall f :: f in data <==> Rank(f) < k && form.Value(f).Some?
      invariant forall f :: f in data ==> data[f] == form.Value(f).value
    {
      var f := FieldOrder[k];
      if form.Value(f).Some? {
        data := data[f := form.Value(f).value];
      }
      k := k + 1;
    }
  }

  method ValidateVolunteerForm(form: Snapshot, parse: string -> Option<Date>, today: Date, markers: FieldMarkers)
    returns (result: ValidationResult)
    modifies markers
    ensures result.errors == ExpectedErrors(form, parse, today)
    ensures result.valid <==> result.errors == []
    ensures result.valid ==> forall f ::
      (f in result.data <==> form.Value(f).Some?) && (f in result.data ==> result.data[f] == form.Value(f).value)
    ensures !result.valid ==> result.data == map[]
    ensures markers.State() == AfterValidation(old(markers.State()), form, result.errors)
    ensures old(markers.Valid()) ==> markers.Valid()
  {
    ClearPresentMarkers(form, markers);
    var errors := RunRules(form, parse, today);
    MarkReportedErrors(form, errors, markers);
    var valid := |errors| == 0;
    var data: map<Field, string> := map[];
    if valid {
      data := FormEntries(form);
    }
    result := ValidationResult(valid, data, errors);
    if old(markers.Valid()) {
      AfterValidationEffect(old(markers.State()), form, errors);
    }
  }

  /** A form none of whose fields is present reports nine errors, one per rule, in field order. */
  lemma EmptyFormFailsEveryRule(parse: string -> Option<Date>, today: Date)
    ensures ExpectedErrors(Snapshot(None, None, None, None, None, None, None, None, None), parse, today) == [
      FieldError(Nome, NomeRequired), FieldError(Email, EmailInvalid),
      FieldError(Cpf, CpfInvalid), FieldError(Telefone, TelefoneInvalid),
      FieldError(Nascimento, BirthDateRequired), FieldError(Endereco, EnderecoRequired),
      FieldError(Cep, CepInvalid), FieldError(Cidade, CidadeRequired),
      FieldError(Estado, EstadoInvalid)]
  {
    ExpectedErrorsUnrolled(Snapshot(None, None, None, None, None, None, None, None, None), parse, today);
  }
}
