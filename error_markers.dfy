/**
 * The error markers `setFieldError` and `clearFieldError` leave on the
 * form: per field, the `has-error`/`invalid` classes and the list of
 * `.field-error` elements in its group. `setFieldError` rewrites the first
 * such element or appends one when there is none; `clearFieldError`
 * removes the classes and the first element only.
 */
module ErrorMarkers {
  import opened Wrappers
  import opened FormRules

  /** `flagged`: fields whose group and input carry the error classes; `nodes`: texts of each group's `.field-error` elements. */
  datatype MarkState = MarkState(flagged: set<Field>, nodes: map<Field, seq<string>>)

  function Nodes(st: MarkState, f: Field): seq<string> {
    if f in st.nodes then st.nodes[f] else []
  }

  /** The message a field shows: the text of its first `.field-error` element. */
  function Message(st: MarkState, f: Field): Option<string> {
    if Nodes(st, f) == [] then None else Some(Nodes(st, f)[0])
  }

  /** At most one marker per field, and the error classes exactly where a marker is. */
  ghost predicate WellFormed(st: MarkState) {
    forall f :: |Nodes(st, f)| <= 1 && (f in st.flagged <==> Nodes(st, f) != [])
  }

  /** `setFieldError(input, message)`. */
  function SetMark(st: MarkState, f: Field, msg: string): (r: MarkState)
    ensures Message(r, f) == Some(msg) && f in r.flagged
    ensures |Nodes(r, f)| == if Nodes(st, f) == [] then 1 else |Nodes(st, f)|
    ensures forall g :: g != f ==> Nodes(r, g) == Nodes(st, g) && (g in r.flagged <==> g in st.flagged)
    ensures WellFormed(st) ==> WellFormed(r)
  {
    var old_ := Nodes(st, f);
    MarkState(st.flagged + {f}, st.nodes[f := if old_ == [] then [msg] else [msg] + old_[1..]])
  }

  /** `clearFieldError(input)`. */
  function ClearMark(st: MarkState, f: Field): (r: MarkState)
    ensures f !in r.flagged
    ensures Nodes(r, f) == if Nodes(st, f) == [] then [] else Nodes(st, f)[1..]
    ensures forall g :: g != f ==> Nodes(r, g) == Nodes(st, g) && (g in r.flagged <==> g in st.flagged)
    ensures WellFormed(st) ==> WellFormed(r) && Message(r, f) == None
  {
    var old_ := Nodes(st, f);
    MarkState(st.flagged - {f}, if old_ == [] then st.nodes else st.nodes[f := old_[1..]])
  }

  /** The DOM state of the fields behind a form's element markers. */
  class FieldMarkers {
    var flagged: set<Field>
    var nodes: map<Field, seq<string>>

    function State(): MarkState
      reads this
    {
      MarkState(flagged, nodes)
    }

    ghost predicate Valid()
      reads this
    {
      WellFormed(State())
    }

    /** A freshly mounted form carries no markers. */
    constructor ()
      ensures Valid() && State() == MarkState({}, map[])
    {
      flagged := {};
      nodes := map[];
    }

    method SetFieldError(f: Field, msg: string)
      modifies this
      ensures State() == SetMark(old(State()), f, msg)
      ensures old(Valid()) ==> Valid()
    {
      flagged := flagged + {f};
      var existing := if f in nodes then nodes[f] else [];
      if existing == [] {
        nodes := nodes[f := [msg]];
      } else {
        nodes := nodes[f := [msg] + existing[1..]];
      }
    }

    method ClearFieldError(f: Field)
      modifies this
      ensures State() == ClearMark(old(State()), f)
      ensures old(Valid()) ==> Valid()
    {
      flagged := flagged - {f};
      var existing := if f in nodes then nodes[f] else [];
      if existing != [] {
        nodes := nodes[f := existing[1..]];
      }
    }
  }

  /** The first loop of a validation pass: clear the markers of the present fields among `fields`. */
  function ClearPresent(st: MarkState, form: Snapshot, fields: seq<Field>): (r: MarkState)
    ensures WellFormed(st) ==> WellFormed(r)
    ensures forall f :: form.Value(f).None? ==> Nodes(r, f) == Nodes(st, f) && (f in r.flagged <==> f in st.flagged)
  {
    if fields == [] then st
    else
      var prev := ClearPresent(st, form, fields[..|fields| - 1]);
      var f := fields[|fields| - 1];
      if form.Value(f).Some? then ClearMark(prev, f) else prev
  }

  /** The last loop of a validation pass: mark each error whose field is present. */
  function MarkErrors(st: MarkState, form: Snapshot, errs: seq<FieldError>): (r: MarkState)
    ensures WellFormed(st) ==> WellFormed(r)
    ensures forall f :: form.Value(f).None? ==> Nodes(r, f) == Nodes(st, f) && (f in r.flagged <==> f in st.flagged)
  {
    if errs == [] then st
    else
      var prev := MarkErrors(st, form, errs[..|errs| - 1]);
      var e := errs[|errs| - 1];
      if form.Value(e.field).Some? then SetMark(prev, e.field, e.msg) else prev
  }

  /** The message of the last error reported for `f`. */
  function MessageFor(errs: seq<FieldError>, f: Field): Option<string>
  {
    if errs == [] then None
    else if errs[|errs| - 1].field == f then Some(errs[|errs| - 1].msg)
    else MessageFor(errs[..|errs| - 1], f)
  }

  /** The marker state a validation pass leaves behind: still at most one marker per field, and missing fields untouched. */
  function AfterValidation(st: MarkState, form: Snapshot, errs: seq<FieldError>): (r: MarkState)
    ensures WellFormed(st) ==> WellFormed(r)
    ensures forall f :: form.Value(f).None? ==> Nodes(r, f) == Nodes(st, f) && (f in r.flagged <==> f in st.flagged)
  {
    MarkErrors(ClearPresent(st, form, FieldOrder), form, errs)
  }

  lemma {:induction false} ClearPresentEffect(st: MarkState, form: Snapshot, fields: seq<Field>)
    requires WellFormed(st)
    ensures var r := ClearPresent(st, form, fields);
      && WellFormed(r)
      && forall f :: if f in fields && form.Value(f).Some?
                     then Nodes(r, f) == [] && f !in r.flagged
                     else Nodes(r, f) == Nodes(st, f) && (f in r.flagged <==> f in st.flagged)
  {
    if fields != [] {
      var init := fields[..|fields| - 1];
      ClearPresentEffect(st, form, init);
      assert fields == init + [fields[|fields| - 1]];
    }
  }

  lemma {:induction false} MarkErrorsEffect(st: MarkState, form: Snapshot, errs: seq<FieldError>)
    requires WellFormed(st)
    ensures var r := MarkErrors(st, form, errs);
      && WellFormed(r)
      && forall f :: if form.Value(f).Some? && MessageFor(errs, f).Some?
                     then Nodes(r, f) == [MessageFor(errs, f).value] && f in r.flagged
                     else Nodes(r, f) == Nodes(st, f) && (f in r.flagged <==> f in st.flagged)
  {
    if errs != [] {
      MarkErrorsEffect(st, form, errs[..|errs| - 1]);
    }
  }

  /**
   * After a validation pass every present field shows exactly the message
   * reported for it, or nothing when none was; a missing field keeps
   * whatever it had. No field ends up with two markers.
   */
  lemma AfterValidationEffect(st: MarkState, form: Snapshot, errs: seq<FieldError>)
    requires WellFormed(st)
    ensures var r := AfterValidation(st, form, errs);
      && WellFormed(r)
      && forall f :: if form.Value(f).Some?
                     then Message(r, f) == MessageFor(errs, f) && (f in r.flagged <==> MessageFor(errs, f).Some?)
                     else Nodes(r, f) == Nodes(st, f) && (f in r.flagged <==> f in st.flagged)
  {
    ClearPresentEffect(st, form, FieldOrder);
    forall f ensures f in FieldOrder {
      assert FieldOrder[Rank(f)] == f;
    }
    MarkErrorsEffect(ClearPresent(st, form, FieldOrder), form, errs);
  }

  /** Re-validating with the same outcome leaves the markers as the first pass did: markers never pile up. */
  lemma RevalidationIsIdempotent(st: MarkState, form: Snapshot, errs: seq<FieldError>)
    requires WellFormed(st)
    ensures var once := AfterValidation(st, form, errs);
            var twice := AfterValidation(once, form, errs);
      && twice.flagged == once.flagged
      && forall f :: Nodes(twice, f) == Nodes(once, f)
  {
    var once := AfterValidation(st, form, errs);
    AfterValidationEffect(st, form, errs);
    AfterValidationEffect(once, form, errs);
    var twice := AfterValidation(once, form, errs);
    forall f ensures Nodes(twice, f) == Nodes(once, f) {
      if form.Value(f).Some? {
        assert Message(twice, f) == Message(once, f);
      }
    }
  }

  lemma {:induction false} MessageForIsReported(errs: seq<FieldError>, f: Field)
    ensures MessageFor(errs, f).Some? ==> FieldError(f, MessageFor(errs, f).value) in errs
    ensures (exists m :: FieldError(f, m) in errs) ==> MessageFor(errs, f).Some?
  {
    if errs != [] {
      var init := errs[..|errs| - 1];
      MessageForIsReported(init, f);
      assert errs == init + [errs[|errs| - 1]];
    }
  }

  /** Against the rules: after validating `form`, each present field shows its rule's message, or nothing when the rule passes. */
  lemma MarkersShowRuleMessages(st: MarkState, form: Snapshot, parse: string -> Option<Date>, today: Date, f: Field)
    requires WellFormed(st) && form.Value(f).Some?
    ensures var r := AfterValidation(st, form, ExpectedErrors(form, parse, today));
      Message(r, f) == RuleMessage(form, parse, today, f) && |Nodes(r, f)| <= 1
  {
    var errs := ExpectedErrors(form, parse, today);
    AfterValidationEffect(st, form, errs);
    MessageForIsReported(errs, f);
    var m := MessageFor(errs, f);
    if m.Some? {
      ErrorReportedIff(form, parse, today, f, m.value);
    } else if RuleMessage(form, parse, today, f).Some? {
      ErrorReportedIff(form, parse, today, f, RuleMessage(form, parse, today, f).value);
    }
  }
}
