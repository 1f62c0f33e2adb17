/**
 * The rules of the volunteer registration form: the helpers `onlyDigits`
 * and `validateEmail`, the age computation, the nine field rules and the
 * ordered list of errors a validation pass reports. The imperative pass
 * itself is in module Validation; this module is its specification.
 */
module FormRules {
  import opened Wrappers
  import opened JsString

  // ---------------------------------------------------------------------
  // onlyDigits: `v.replace(/\D/g, '')`

  /** The digits of `s`, in order. */
  function OnlyDigits(s: string): (r: string)
    ensures |r| <= |s|
    ensures forall k :: 0 <= k < |r| ==> IsDigit(r[k])
  {
    if s == [] then ""
    else (if IsDigit(s[0]) then [s[0]] else "") + OnlyDigits(s[1..])
  }

  /** Filtering distributes over concatenation: nothing is reordered, nothing crosses a boundary. */
  lemma {:induction false} OnlyDigitsAppend(a: string, b: string)
    ensures OnlyDigits(a + b) == OnlyDigits(a) + OnlyDigits(b)
  {
    if a == [] {
      assert a + b == b;
    } else {
      assert (a + b)[0] == a[0];
      assert (a + b)[1..] == a[1..] + b;
      OnlyDigitsAppend(a[1..], b);
    }
  }

  /** A text made of digits only is kept whole; together with OnlyDigitsAppend this pins the filter down. */
  lemma {:induction false} OnlyDigitsKeepsDigits(s: string)
    ensures OnlyDigits(s) == s <==> forall k :: 0 <= k < |s| ==> IsDigit(s[k])
  {
    if s != [] {
      OnlyDigitsKeepsDigits(s[1..]);
      if !IsDigit(s[0]) {
        assert |OnlyDigits(s)| < |s|;
      }
    }
  }

  /** Filtering twice is filtering once. */
  lemma OnlyDigitsIdempotent(s: string)
    ensures OnlyDigits(OnlyDigits(s)) == OnlyDigits(s)
  {
    OnlyDigitsKeepsDigits(OnlyDigits(s));
  }

  /** No digit survives exactly when the text has no digit. */
  lemma {:induction false} OnlyDigitsEmptyIff(s: string)
    ensures OnlyDigits(s) == "" <==> forall k :: 0 <= k < |s| ==> !IsDigit(s[k])
  {
    if s != [] {
      OnlyDigitsEmptyIff(s[1..]);
      assert forall k :: 1 <= k < |s| ==> s[k] == s[1..][k - 1];
    }
  }

  // ---------------------------------------------------------------------
  // validateEmail: `/\S+@\S+\.\S+/.test(v)`, an unanchored search

  /** No whitespace in `s[lo..hi]`. */
  predicate NoSpaceIn(s: string, lo: int, hi: int)
    requires 0 <= lo <= hi <= |s|
  {
    forall j :: lo <= j < hi ==> !IsSpace(s[j])
  }

  /**
   * `s[p - 1..d + 2]` matches `\S+@\S+\.\S+` with its `@` at `p` and its
   * `.` at `d`: a non-space before the `@`, at least one non-space between
   * them, one non-space after the dot.
   */
  ghost predicate EmailAt(s: string, p: int, d: int) {
    1 <= p && p + 2 <= d && d + 2 <= |s| && s[p] == '@' && s[d] == '.' && NoSpaceIn(s, p - 1, d + 2)
  }

  /** Some part of `s` matches the pattern. */
  ghost predicate EmailShape(s: string) {
    exists p, d :: EmailAt(s, p, d)
  }

  /** Scanning right from `k`, with `s[q..k]` free of whitespace: is there a dot after `q` with a non-space behind it? */
  function DomainFrom(s: string, q: nat, k: nat): bool
    requires q <= k <= |s|
    decreases |s| - k
  {
    if k + 1 >= |s| || IsSpace(s[k]) then false
    else if s[k] == '.' && q < k && !IsSpace(s[k + 1]) then true
    else DomainFrom(s, q, k + 1)
  }

  /** Scanning right from `p` for an `@` that starts a match. */
  function EmailFrom(s: string, p: nat): bool
    decreases |s| - p
  {
    if p >= |s| then false
    else if 1 <= p && s[p] == '@' && !IsSpace(s[p - 1]) && DomainFrom(s, p + 1, p + 1) then true
    else EmailFrom(s, p + 1)
  }

  /** `validateEmail(v)`: holds exactly when some part of the value matches `\S+@\S+\.\S+`. */
  function ValidateEmail(s: string): (ok: bool)
    ensures ok <==> EmailShape(s)
  {
    EmailFromIff(s, 0);
    EmailFrom(s, 0)
  }

  ghost predicate DomainAt(s: string, q: int, k: int, d: int)
    requires 0 <= k <= |s|
  {
    k <= d && q < d && d + 2 <= |s| && s[d] == '.' && NoSpaceIn(s, k, d + 2)
  }

  lemma {:induction false} DomainFromIff(s: string, q: nat, k: nat)
    requires q <= k <= |s|
    ensures DomainFrom(s, q, k) <==> exists d :: DomainAt(s, q, k, d)
    decreases |s| - k
  {
    if k + 1 >= |s| || IsSpace(s[k]) {
    } else if s[k] == '.' && q < k && !IsSpace(s[k + 1]) {
      assert DomainAt(s, q, k, k);
    } else {
      var k1 := k + 1;
      DomainFromIff(s, q, k1);
      if d :| DomainAt(s, q, k, d) {
        assert DomainAt(s, q, k1, d);
      }
      if d :| DomainAt(s, q, k1, d) {
        assert DomainAt(s, q, k, d);
      }
    }
  }

  lemma {:induction false} EmailFromIff(s: string, p: nat)
    ensures EmailFrom(s, p) <==> exists p', d :: p <= p' && EmailAt(s, p', d)
    decreases |s| - p
  {
    if p >= |s| {
    } else {
      DomainFromIff(s, p + 1, p + 1);
      if 1 <= p && s[p] == '@' && !IsSpace(s[p - 1]) && DomainFrom(s, p + 1, p + 1) {
        var d :| DomainAt(s, p + 1, p + 1, d);
        assert EmailAt(s, p, d);
      } else {
        EmailFromIff(s, p + 1);
        if p', d :| p <= p' && EmailAt(s, p', d) {
          if p' == p {
            assert DomainAt(s, p + 1, p + 1, d);
          }
          assert p + 1 <= p' && EmailAt(s, p', d);
        }
      }
    }
  }

  // ---------------------------------------------------------------------
  // Dates and age

  /**
   * A calendar date as the host's local-time getters report it. The host's
   * months count from 0; only month differences are used, so the origin
   * does not matter.
   */
  datatype Date = Date(year: int, month: int, day: int)

  /** Chronological order on dates. */
  predicate DateLeq(a: Date, b: Date) {
    a.year < b.year || (a.year == b.year && (a.month < b.month || (a.month == b.month && a.day <= b.day)))
  }

  /** The `n`-th birthday of someone born on `dob`. */
  function Anniversary(dob: Date, n: int): Date {
    Date(dob.year + n, dob.month, dob.day)
  }

  /**
   * Year difference, less one while today's month and day precede the birth
   * month and day: the number of the last birthday that has come.
   */
  function AgeInYears(today: Date, dob: Date): (age: int)
    ensures DateLeq(Anniversary(dob, age), today) && !DateLeq(Anniversary(dob, age + 1), today)
  {
    var m := today.month - dob.month;
    today.year - dob.year - (if m < 0 || (m == 0 && today.day < dob.day) then 1 else 0)
  }

  /** The age is the number of birthdays that have come: at least `n` exactly when the `n`-th has. */
  lemma AgeCountsBirthdays(today: Date, dob: Date, n: int)
    ensures n <= AgeInYears(today, dob) <==> DateLeq(Anniversary(dob, n), today)
  {
  }

  /** The age rule: at least 18 and at most 90 years old. */
  predicate AgeAccepted(today: Date, dob: Date) {
    var age := AgeInYears(today, dob);
    !(age < 18 || age > 90)
  }

  /** Accepted exactly from the 18th birthday up to the day before the 91st. */
  lemma AgeAcceptedIff(today: Date, dob: Date)
    ensures AgeAccepted(today, dob) <==>
      DateLeq(Anniversary(dob, 18), today) && !DateLeq(Anniversary(dob, 91), today)
  {
    AgeCountsBirthdays(today, dob, 18);
    AgeCountsBirthdays(today, dob, 91);
  }

  /** On the 18th and on the 90th birthday the age is accepted; the day before the 18th and on the 91st it is not. */
  lemma AgeBoundaries(dob: Date)
    requires 2 <= dob.day
    ensures AgeAccepted(Anniversary(dob, 18), dob)
    ensures AgeAccepted(Anniversary(dob, 90), dob)
    ensures !AgeAccepted(Date(dob.year + 18, dob.month, dob.day - 1), dob)
    ensures !AgeAccepted(Anniversary(dob, 91), dob)
  {
  }

  // ---------------------------------------------------------------------
  // The form

  /** The tracked fields, by element id. */
  datatype Field = Nome | Email | Cpf | Telefone | Nascimento | Endereco | Cep | Cidade | Estado

  /** The order in which the rules run and errors are reported. */
  const FieldOrder: seq<Field> := [Nome, Email, Cpf, Telefone, Nascimento, Endereco, Cep, Cidade, Estado]

  /** The position of a field in FieldOrder. */
  function Rank(f: Field): (r: nat)
    ensures r < |FieldOrder| && FieldOrder[r] == f
  {
    match f
    case Nome => 0
    case Email => 1
    case Cpf => 2
    case Telefone => 3
    case Nascimento => 4
    case Endereco => 5
    case Cep => 6
    case Cidade => 7
    case Estado => 8
  }

  /** The value of each tracked element of the form, or None when the form has no such element. */
  datatype Snapshot = Snapshot(
    nome: Option<string>, email: Option<string>, cpf: Option<string>,
    telefone: Option<string>, nascimento: Option<string>, endereco: Option<string>,
    cep: Option<string>, cidade: Option<string>, estado: Option<string>)
  {
    function Value(f: Field): Option<string> {
      match f
      case Nome => nome
      case Email => email
      case Cpf => cpf
      case Telefone => telefone
      case Nascimento => nascimento
      case Endereco => endereco
      case Cep => cep
      case Cidade => cidade
      case Estado => estado
    }
  }

  /** One reported failure: the field and its message. */
  datatype FieldError = FieldError(field: Field, msg: string)

  const NomeRequired := "Nome é obrigatório"
  const EmailInvalid := "E-mail inválido"
  const CpfInvalid := "CPF inválido (11 números)"
  const TelefoneInvalid := "Telefone inválido"
  const BirthDateRequired := "Data de nascimento obrigatória"
  const AgeOutOfRange := "Você deve ter entre 18 e 90 anos para se cadastrar"
  const BirthDateInvalid := "Data de nascimento inválida"
  const EnderecoRequired := "Endereço obrigatório"
  const CepInvalid := "CEP inválido"
  const CidadeRequired := "Cidade obrigatória"
  const EstadoInvalid := "Informe UF (2 letras)"

  /** `!el || !el.value.trim()`. */
  predicate Blank(v: Option<string>) {
    v.None? || Trim(v.value) == ""
  }

  /** `!el || onlyDigits(el.value).length < n`. */
  predicate TooFewDigits(v: Option<string>, n: nat) {
    v.None? || |OnlyDigits(v.value)| < n
  }

  /** The state rule as written: missing, no digit at all, or not two characters once trimmed. */
  predicate StateRejected(v: Option<string>) {
    v.None? || |OnlyDigits(v.value)| == 0 || |Trim(v.value)| != 2
  }

  /** The birth-date rule: missing or empty, unparseable, or outside the age range. */
  function BirthDateMessage(v: Option<string>, parse: string -> Option<Date>, today: Date): Option<string>
  {
    if v.None? || v.value == "" then Some(BirthDateRequired)
    else match parse(v.value)
      case None => Some(BirthDateInvalid)
      case Some(dob) => if AgeAccepted(today, dob) then None else Some(AgeOutOfRange)
  }

  /**
   * The three birth-date errors are distinct and exclusive: a missing or
   * empty value is only "required", an unparseable one only "invalid", and
   * only a parsed date is checked against the age range.
   */
  lemma BirthDateErrorsExclusive(v: Option<string>, parse: string -> Option<Date>, today: Date)
    ensures BirthDateRequired != BirthDateInvalid && BirthDateRequired != AgeOutOfRange && BirthDateInvalid != AgeOutOfRange
    ensures BirthDateMessage(v, parse, today) == Some(BirthDateRequired) <==> v.None? || v.value == ""
    ensures BirthDateMessage(v, parse, today) == Some(BirthDateInvalid) <==> v.Some? && v.value != "" && parse(v.value).None?
    ensures BirthDateMessage(v, parse, today) == Some(AgeOutOfRange) <==>
      v.Some? && v.value != "" && parse(v.value).Some? && !AgeAccepted(today, parse(v.value).value)
  {
    assert BirthDateRequired[19] == 'o' && BirthDateInvalid[19] == 'i';
    assert |AgeOutOfRange| > |BirthDateRequired| > |BirthDateInvalid|;
  }

  /** The message the rule for `f` reports on this form, or None when the rule passes. */
  function RuleMessage(form: Snapshot, parse: string -> Option<Date>, today: Date, f: Field): Option<string>
  {
    match f
    case Nome => if Blank(form.nome) then Some(NomeRequired) else None
    case Email => if form.email.None? || !ValidateEmail(form.email.value) then Some(EmailInvalid) else None
    case Cpf => if TooFewDigits(form.cpf, 11) then Some(CpfInvalid) else None
    case Telefone => if TooFewDigits(form.telefone, 10) then Some(TelefoneInvalid) else None
    case Nascimento => BirthDateMessage(form.nascimento, parse, today)
    case Endereco => if Blank(form.endereco) then Some(EnderecoRequired) else None
    case Cep => if TooFewDigits(form.cep, 8) then Some(CepInvalid) else None
    case Cidade => if Blank(form.cidade) then Some(CidadeRequired) else None
    case Estado => if StateRejected(form.estado) then Some(EstadoInvalid) else None
  }

  /** What the rule for `f` appends to the error list: one entry or none. */
  function ErrorsOf(form: Snapshot, parse: string -> Option<Date>, today: Date, f: Field): seq<FieldError>
  {
    match RuleMessage(form, parse, today, f)
    case Some(m) => [FieldError(f, m)]
    case None => []
  }

  /** The rules for `fields`, run in order, never short-circuited. */
  function Collect(form: Snapshot, parse: string -> Option<Date>, today: Date, fields: seq<Field>): (r: seq<FieldError>)
    ensures |r| <= |fields|
  {
    if fields == [] then []
    else Collect(form, parse, today, fields[..|fields| - 1]) + ErrorsOf(form, parse, today, fields[|fields| - 1])
  }

  /**
   * The errors a validation pass reports on `form`. They come in the fixed
   * field order, at most one per field and so at most nine.
   */
  function ExpectedErrors(form: Snapshot, parse: string -> Option<Date>, today: Date): (r: seq<FieldError>)
    ensures |r| <= |FieldOrder|
    ensures StrictlyRankedErrors(r)
  {
    FieldOrderRanked();
    CollectRanked(form, parse, today, FieldOrder);
    Collect(form, parse, today, FieldOrder)
  }

  predicate StrictlyRanked(fields: seq<Field>) {
    forall i, j :: 0 <= i < j < |fields| ==> Rank(fields[i]) < Rank(fields[j])
  }

  predicate StrictlyRankedErrors(errs: seq<FieldError>) {
    forall i, j :: 0 <= i < j < |errs| ==> Rank(errs[i].field) < Rank(errs[j].field)
  }

  lemma {:induction false} CollectRanked(form: Snapshot, parse: string -> Option<Date>, today: Date, fields: seq<Field>)
    requires StrictlyRanked(fields)
    ensures forall e :: e in Collect(form, parse, today, fields) ==> e.field in fields
    ensures StrictlyRankedErrors(Collect(form, parse, today, fields))
  {
    if fields != [] {
      var init := fields[..|fields| - 1];
      var last := fields[|fields| - 1];
      CollectRanked(form, parse, today, init);
      var rest := Collect(form, parse, today, init);
      var tail := ErrorsOf(form, parse, today, last);
      var r := rest + tail;
      forall e | e in rest ensures Rank(e.field) < Rank(last) {
        var k :| 0 <= k < |init| && init[k] == e.field;
        assert fields[k] == e.field;
      }
      assert StrictlyRankedErrors(rest);
      forall i, j | 0 <= i < j < |r| ensures Rank(r[i].field) < Rank(r[j].field) {
        if j < |rest| {
          assert r[i] == rest[i] && r[j] == rest[j];
        } else {
          assert r[i] == rest[i] && rest[i] in rest;
        }
      }
    }
  }

  lemma {:induction false} CollectMembership(form: Snapshot, parse: string -> Option<Date>, today: Date, fields: seq<Field>, f: Field, m: string)
    ensures FieldError(f, m) in Collect(form, parse, today, fields) <==>
      f in fields && RuleMessage(form, parse, today, f) == Some(m)
  {
    if fields != [] {
      var init := fields[..|fields| - 1];
      CollectMembership(form, parse, today, init, f, m);
      assert fields == init + [fields[|fields| - 1]];
    }
  }

  lemma FieldOrderRanked()
    ensures StrictlyRanked(FieldOrder)
  {
    assert forall i :: 0 <= i < |FieldOrder| ==> Rank(FieldOrder[i]) == i;
  }

  /** A field is reported, with a given message, exactly when its rule fails with that message. */
  lemma ErrorReportedIff(form: Snapshot, parse: string -> Option<Date>, today: Date, f: Field, m: string)
    ensures FieldError(f, m) in ExpectedErrors(form, parse, today) <==> RuleMessage(form, parse, today, f) == Some(m)
  {
    CollectMembership(form, parse, today, FieldOrder, f, m);
    assert FieldOrder[Rank(f)] == f;
  }

  /** A missing element is always reported. */
  lemma MissingFieldReported(form: Snapshot, parse: string -> Option<Date>, today: Date, f: Field)
    requires form.Value(f).None?
    ensures exists m :: FieldError(f, m) in ExpectedErrors(form, parse, today)
  {
    var m := RuleMessage(form, parse, today, f).value;
    ErrorReportedIff(form, parse, today, f, m);
  }

  /** The form is valid exactly when every rule passes. */
  lemma NoErrorsIff(form: Snapshot, parse: string -> Option<Date>, today: Date)
    ensures ExpectedErrors(form, parse, today) == [] <==>
      forall f :: RuleMessage(form, parse, today, f).None?
  {
    var r := ExpectedErrors(form, parse, today);
    if r != [] {
      ErrorReportedIff(form, parse, today, r[0].field, r[0].msg);
    } else {
      forall f ensures RuleMessage(form, parse, today, f).None? {
        if RuleMessage(form, parse, today, f).Some? {
          ErrorReportedIff(form, parse, today, f, RuleMessage(form, parse, today, f).value);
        }
      }
    }
  }

  // ---------------------------------------------------------------------
  // The digit-count and state rules

  /** Formatting characters (anything but a digit) inserted anywhere never change the outcome of a digit-count rule. */
  lemma DigitRulesIgnoreFormatting(a: string, x: string, b: string, n: nat)
    requires forall k :: 0 <= k < |x| ==> !IsDigit(x[k])
    ensures OnlyDigits(a + x + b) == OnlyDigits(a + b)
    ensures TooFewDigits(Some(a + x + b), n) == TooFewDigits(Some(a + b), n)
  {
    OnlyDigitsEmptyIff(x);
    OnlyDigitsAppend(a + x, b);
    OnlyDigitsAppend(a, x);
    OnlyDigitsAppend(a, b);
  }

  /** A CPF typed with its mask, `ddd.ddd.ddd-dd`, counts its eleven digits and passes. */
  lemma MaskedCpfAccepted(d: string)
    requires |d| == 11 && forall k :: 0 <= k < |d| ==> IsDigit(d[k])
    ensures !TooFewDigits(Some(d[..3] + "." + d[3..6] + "." + d[6..9] + "-" + d[9..]), 11)
  {
    var p1, p2, p3, p4 := d[..3], d[3..6], d[6..9], d[9..];
    OnlyDigitsKeepsDigits(p1);
    OnlyDigitsKeepsDigits(p2);
    OnlyDigitsKeepsDigits(p3);
    OnlyDigitsKeepsDigits(p4);
    assert OnlyDigits(".") == "" && OnlyDigits("-") == "";
    OnlyDigitsAppend(p1, ".");
    OnlyDigitsAppend(p1 + ".", p2);
    OnlyDigitsAppend(p1 + "." + p2, ".");
    OnlyDigitsAppend(p1 + "." + p2 + ".", p3);
    OnlyDigitsAppend(p1 + "." + p2 + "." + p3, "-");
    OnlyDigitsAppend(p1 + "." + p2 + "." + p3 + "-", p4);
  }

  /** Too short to hold enough digits, or missing: the rule fails. */
  lemma DigitRuleExamples()
    ensures TooFewDigits(Some("12345678"), 11)
    ensures TooFewDigits(Some("(11) 9876-543"), 10)
    ensures TooFewDigits(None, 8)
  {
  }

  /** As written the state rule accepts exactly the values of two trimmed characters with a digit among them. */
  lemma StateRuleIff(v: string)
    ensures !StateRejected(Some(v)) <==>
      |Trim(v)| == 2 && exists k :: 0 <= k < |v| && IsDigit(v[k])
  {
    OnlyDigitsEmptyIff(v);
  }

  /** So no two-letter code, the thing the message asks for, is ever accepted. */
  lemma StateRuleRejectsLetterCodes(v: string)
    requires |Trim(v)| == 2
    requires forall k :: 0 <= k < 2 ==> !IsDigit(Trim(v)[k])
    ensures StateRejected(Some(v))
  {
    var t := TrimStart(v);
    var i := |v| - |t|;
    var r := TrimEnd(t);
    forall k | 0 <= k < |v| ensures !IsDigit(v[k]) {
      if k < i {
        assert IsSpace(v[..i][k]);
      } else if k < i + 2 {
        assert v[k] == t[k - i] == r[k - i];
      } else {
        assert v[k] == t[2..][k - i - 2];
        assert IsSpace(t[2..][k - i - 2]);
      }
    }
    OnlyDigitsEmptyIff(v);
  }

  /** `"12"`, two characters that are not letters, is accepted. */
  lemma StateRuleAcceptsTwelve()
    ensures !StateRejected(Some("12"))
  {
    assert |OnlyDigits("12")| == 2;
    TrimKeepsUnpadded("12");
    assert |Trim("12")| == 2;
  }

  /** `"SP"`, `"S"` and `"SPX"` are rejected, and so is a missing element. */
  lemma StateRuleRejectsExamples()
    ensures StateRejected(Some("SP"))
    ensures StateRejected(Some("S"))
    ensures StateRejected(Some("SPX"))
    ensures StateRejected(None)
  {
    LettersHaveNoDigits("SP");
    TooShortForState("S");
    TooLongForState("SPX");
  }

  lemma LettersHaveNoDigits(v: string)
    requires forall k :: 0 <= k < |v| ==> 'A' <= v[k] <= 'Z'
    ensures StateRejected(Some(v))
  {
    OnlyDigitsEmptyIff(v);
  }

  lemma TooShortForState(v: string)
    requires |v| < 2
    ensures StateRejected(Some(v))
  {
  }

  lemma TooLongForState(v: string)
    requires |v| == 3 && !IsSpace(v[0]) && !IsSpace(v[2])
    ensures StateRejected(Some(v))
  {
    TrimKeepsUnpadded(v);
  }
}
