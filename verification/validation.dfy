/** Request validation and its rendering (server/errors.go): the tag rules a
    struct field carries, the field errors the validator reports, the message
    `checkTagRules` gives each, and the per-field aggregation
    `validationError` answers with. Strings are sequences of Unicode scalar
    values, so a length is a rune count as the validator measures it. */
module Validation {
  import opened Wrappers
  import opened Text
  import opened Http

  /** A validation tag: `required`, `min=n` or `max=n` on a string field. */
  datatype Rule = Required | Min(n: nat) | Max(n: nat)

  /** A field of the validated struct: its JSON name, value and tag rules in
      the order they are written. */
  datatype Field = Field(name: string, value: string, rules: seq<Rule>)

  /** A reported failure: the field's JSON name, the tag that failed and the
      tag's parameter. */
  datatype FieldError = FieldError(field: string, tag: string, param: string)

  predicate Passes(value: string, r: Rule) {
    match r
    case Required => |value| > 0
    case Min(n) => |value| >= n
    case Max(n) => |value| <= n
  }

  function TagOf(r: Rule): string {
    match r
    case Required => "required"
    case Min(_) => "min"
    case Max(_) => "max"
  }

  function ParamOf(r: Rule): string {
    match r
    case Required => ""
    case Min(n) => NatToString(n)
    case Max(n) => NatToString(n)
  }

  /** The first failing rule of a field (the validator stops at it), if any. */
  function FirstFailingRule(value: string, rules: seq<Rule>): (r: Option<nat>)
    ensures r.None? <==> forall i :: 0 <= i < |rules| ==> Passes(value, rules[i])
    ensures r.Some? ==> r.value < |rules| && !Passes(value, rules[r.value])
    ensures r.Some? ==> forall i :: 0 <= i < r.value ==> Passes(value, rules[i])
    decreases |rules|
  {
    if |rules| == 0 then None
    else if !Passes(value, rules[0]) then Some(0)
    else
      var rest := FirstFailingRule(value, rules[1..]);
      assert forall i :: 1 <= i < |rules| ==> rules[i] == rules[1..][i - 1];
      if rest.None? then None else Some(rest.value + 1)
  }

  /** The error the validator reports for one field: the tag and parameter
      of its first failing rule, or none when every rule passes. */
  function FieldErrorOf(f: Field): (e: Option<FieldError>)
    ensures e.None? <==> forall j :: 0 <= j < |f.rules| ==> Passes(f.value, f.rules[j])
    ensures e.Some? ==> e.value.field == f.name
  {
    match FirstFailingRule(f.value, f.rules)
    case None => None
    case Some(k) => Some(FieldError(f.name, TagOf(f.rules[k]), ParamOf(f.rules[k])))
  }

  /** The positions that hold `true`, in increasing order. */
  function Positions(flags: seq<bool>): (ix: seq<nat>)
    ensures |ix| <= |flags|
    ensures forall k :: 0 <= k < |ix| ==> ix[k] < |flags| && flags[ix[k]]
    ensures forall k, l :: 0 <= k < l < |ix| ==> ix[k] < ix[l]
    ensures forall i :: 0 <= i < |flags| && flags[i] ==> i in ix
    decreases |flags|
  {
    if |flags| == 0 then []
    else
      var rest := Positions(flags[1..]);
      var ix := (if flags[0] then [0] else []) + Shift(rest);
      PositionsSound(flags, rest);
      PositionsComplete(flags, rest);
      ix
  }

  /** The positions one step on from the first, shifted, are still true
      and in range. */
  lemma PositionsSound(flags: seq<bool>, rest: seq<nat>)
    requires |flags| > 0
    requires forall k :: 0 <= k < |rest| ==> rest[k] < |flags| - 1 && flags[1..][rest[k]]
    requires forall k, l :: 0 <= k < l < |rest| ==> rest[k] < rest[l]
    ensures var ix := (if flags[0] then [0] else []) + Shift(rest);
      && (forall k :: 0 <= k < |ix| ==> ix[k] < |flags| && flags[ix[k]])
      && (forall k, l :: 0 <= k < l < |ix| ==> ix[k] < ix[l])
  {
    var head := if flags[0] then [0] else [];
    var ix := head + Shift(rest);
    forall k | 0 <= k < |ix|
      ensures ix[k] < |flags| && flags[ix[k]]
    {
      if k >= |head| {
        var j := k - |head|;
        assert ix[k] == rest[j] + 1;
        assert flags[1..][rest[j]] == flags[rest[j] + 1];
      }
    }
    PositionsIncreasing(head, rest);
  }

  /** A smaller head followed by the shifted rest stays increasing. */
  lemma PositionsIncreasing(head: seq<nat>, rest: seq<nat>)
    requires head == [] || head == [0]
    requires forall k, l :: 0 <= k < l < |rest| ==> rest[k] < rest[l]
    ensures var ix := head + Shift(rest);
      forall k, l :: 0 <= k < l < |ix| ==> ix[k] < ix[l]
  {
    var ix := head + Shift(rest);
    forall k, l | 0 <= k < l < |ix|
      ensures ix[k] < ix[l]
    {
      assert ix[l] == rest[l - |head|] + 1;
      if k >= |head| {
        assert ix[k] == rest[k - |head|] + 1;
      }
    }
  }

  /** Every true position appears among the first and the shifted rest. */
  lemma PositionsComplete(flags: seq<bool>, rest: seq<nat>)
    requires |flags| > 0
    requires forall i :: 0 <= i < |flags| - 1 && flags[1..][i] ==> i in rest
    ensures var ix := (if flags[0] then [0] else []) + Shift(rest);
      forall i :: 0 <= i < |flags| && flags[i] ==> i in ix
  {
    var head := if flags[0] then [0] else [];
    var ix := head + Shift(rest);
    forall i | 0 <= i < |flags| && flags[i]
      ensures i in ix
    {
      if i > 0 {
        assert flags[1..][i - 1];
        var k :| 0 <= k < |rest| && rest[k] == i - 1;
        assert ix[|head| + k] == i;
      }
    }
  }

  /** Every position moved one place on. */
  function Shift(ix: seq<nat>): (r: seq<nat>)
    ensures |r| == |ix| && forall k :: 0 <= k < |ix| ==> r[k] == ix[k] + 1
  {
    seq(|ix|, k requires 0 <= k < |ix| => ix[k] + 1)
  }

  /** Which of the options are present. */
  function Present(opts: seq<Option<FieldError>>): (flags: seq<bool>)
    ensures |flags| == |opts| && forall i :: 0 <= i < |opts| ==> flags[i] == opts[i].Some?
  {
    seq(|opts|, i requires 0 <= i < |opts| => opts[i].Some?)
  }

  /** `errs` is exactly the present values of `opts`, in order: the k-th
      error is the value at the k-th present position. */
  predicate Picks(opts: seq<Option<FieldError>>, errs: seq<FieldError>) {
    var ix := Positions(Present(opts));
    && |errs| == |ix|
    && forall k :: 0 <= k < |errs| ==> opts[ix[k]] == Some(errs[k])
  }

  /** Picking proceeds element by element: the first value if present, then
      the values picked from the rest. */
  lemma PicksCons(opts: seq<Option<FieldError>>, rest: seq<FieldError>)
    requires |opts| > 0 && Picks(opts[1..], rest)
    ensures Picks(opts, match opts[0]
                        case None => rest
                        case Some(e) => [e] + rest)
  {
    var flags := Present(opts);
    assert Present(opts[1..]) == flags[1..];
    var rix := Positions(flags[1..]);
    var ix := Positions(flags);
    var head := if flags[0] then [0] else [];
    assert ix == head + Shift(rix);
    var first: seq<FieldError> := if opts[0].Some? then [opts[0].value] else [];
    assert first + rest == match opts[0]
      case None => rest
      case Some(e) => [e] + rest;
    PickedAfterHead(opts, rest, rix, first, head);
  }

  /** The values picked from the rest sit one position further on. */
  lemma PickedAfterHead(opts: seq<Option<FieldError>>, rest: seq<FieldError>, rix: seq<nat>,
                        first: seq<FieldError>, head: seq<nat>)
    requires |opts| > 0 && |first| == |head| && |rest| == |rix|
    requires forall k :: 0 <= k < |rix| ==> rix[k] < |opts| - 1 && opts[1..][rix[k]] == Some(rest[k])
    ensures var ix, errs := head + Shift(rix), first + rest;
      forall k :: |head| <= k < |errs| ==> ix[k] < |opts| && opts[ix[k]] == Some(errs[k])
  {
    var ix, errs := head + Shift(rix), first + rest;
    forall k | |head| <= k < |errs|
      ensures ix[k] < |opts| && opts[ix[k]] == Some(errs[k])
    {
      var j := k - |head|;
      assert ix[k] == rix[j] + 1;
      assert errs[k] == rest[j];
      assert opts[1..][rix[j]] == opts[ix[k]];
    }
  }

  /** The outcome of validating each field: its error, if any. */
  function Outcomes(fields: seq<Field>): (opts: seq<Option<FieldError>>)
    ensures |opts| == |fields| && forall i :: 0 <= i < |fields| ==> opts[i] == FieldErrorOf(fields[i])
  {
    seq(|fields|, i requires 0 <= i < |fields| => FieldErrorOf(fields[i]))
  }

  /** `errs` is exactly one error per failing field, in field order: the
      k-th error is the one the k-th failing field reports. */
  predicate Reports(fields: seq<Field>, errs: seq<FieldError>) {
    Picks(Outcomes(fields), errs)
  }

  /** `validate.Struct`: at most one error per field, none exactly when every
      rule passes, each naming a field of the struct. Which error each field
      reports, and in what order, is `ValidateFieldsReports`. */
  function ValidateFields(fields: seq<Field>): (errs: seq<FieldError>)
    ensures |errs| <= |fields|
    ensures |errs| == 0 <==> forall i, j :: 0 <= i < |fields| && 0 <= j < |fields[i].rules| ==>
      Passes(fields[i].value, fields[i].rules[j])
    ensures forall e :: e in errs ==> exists i :: 0 <= i < |fields| && fields[i].name == e.field
    decreases |fields|
  {
    if |fields| == 0 then []
    else
      var rest := ValidateFields(fields[1..]);
      assert forall i :: 1 <= i < |fields| ==> fields[i] == fields[1..][i - 1];
      match FieldErrorOf(fields[0])
      case None => rest
      case Some(e) => [e] + rest
  }

  /** The validator reports exactly one error per failing field, in field
      order, each naming the field and the tag and parameter of its first
      failing rule. */
  lemma ValidateFieldsReports(fields: seq<Field>)
    ensures Reports(fields, ValidateFields(fields))
  {
    ValidateFieldsPicked(fields);
    PickedPicks(Outcomes(fields));
  }

  /** Reference: the present values of `opts`, in order. */
  function Picked(opts: seq<Option<FieldError>>): seq<FieldError>
    decreases |opts|
  {
    if |opts| == 0 then []
    else match opts[0]
      case None => Picked(opts[1..])
      case Some(e) => [e] + Picked(opts[1..])
  }

  /** The validator's errors are the present outcomes of its fields. */
  lemma {:induction false} ValidateFieldsPicked(fields: seq<Field>)
    ensures ValidateFields(fields) == Picked(Outcomes(fields))
    decreases |fields|
  {
    if |fields| > 0 {
      ValidateFieldsPicked(fields[1..]);
      assert Outcomes(fields[1..]) == Outcomes(fields)[1..];
    }
  }

  /** Taking the present values one by one picks them in position order. */
  lemma {:induction false} PickedPicks(opts: seq<Option<FieldError>>)
    ensures Picks(opts, Picked(opts))
    decreases |opts|
  {
    if |opts| > 0 {
      PickedPicks(opts[1..]);
      PicksCons(opts, Picked(opts[1..]));
    }
  }

  /** What follows from reporting one error per failing field. */
  lemma ReportedFields(fields: seq<Field>, errs: seq<FieldError>)
    requires Reports(fields, errs)
    ensures |errs| <= |fields|
    ensures |errs| == 0 <==> forall i, j :: 0 <= i < |fields| && 0 <= j < |fields[i].rules| ==>
      Passes(fields[i].value, fields[i].rules[j])
    ensures forall e :: e in errs ==> exists i :: 0 <= i < |fields| && fields[i].name == e.field
  {
    ReportsNothing(fields, errs);
    ReportsNames(fields, errs);
  }

  /** No error is reported exactly when no field fails. */
  lemma ReportsNothing(fields: seq<Field>, errs: seq<FieldError>)
    requires Reports(fields, errs)
    ensures |errs| == 0 <==> forall i :: 0 <= i < |fields| ==> FieldErrorOf(fields[i]).None?
  {
    var opts := Outcomes(fields);
    var ix := Positions(Present(opts));
    if |errs| == 0 {
      forall i | 0 <= i < |fields|
        ensures FieldErrorOf(fields[i]).None?
      {
        assert opts[i].Some? ==> i in ix;
      }
    } else {
      assert opts[ix[0]].Some?;
    }
  }

  /** Every reported error names one of the fields. */
  lemma ReportsNames(fields: seq<Field>, errs: seq<FieldError>)
    requires Reports(fields, errs)
    ensures forall e :: e in errs ==> exists i :: 0 <= i < |fields| && fields[i].name == e.field
  {
    var opts := Outcomes(fields);
    var ix := Positions(Present(opts));
    forall e | e in errs
      ensures exists i :: 0 <= i < |fields| && fields[i].name == e.field
    {
      var k :| 0 <= k < |errs| && errs[k] == e;
      var i := ix[k];
      assert opts[i] == Some(e);
      assert FieldErrorOf(fields[i]) == Some(e);
      assert fields[i].name == e.field;
    }
  }

  /** `checkTagRules`: the message for one field error. */
  function CheckTagRules(e: FieldError): (msg: string)
    ensures e.tag == "required" ==> msg == "this field is required"
    ensures e.tag == "min" ==> msg == e.field + " must be greater than " + e.param
    ensures e.tag == "max" ==> msg == e.field + " must be less than " + e.param
    ensures e.tag !in {"required", "min", "max"} ==> msg == ""
  {
    if e.tag == "required" then "this field is required"
    else if e.tag == "min" then e.field + " must be greater than " + e.param
    else if e.tag == "max" then e.field + " must be less than " + e.param
    else ""
  }

  /** A failed rule's message names the field and the bound for `min`/`max`. */
  lemma RuleMessage(name: string, r: Rule)
    ensures CheckTagRules(FieldError(name, TagOf(r), ParamOf(r))) ==
      match r
      case Required => "this field is required"
      case Min(n) => name + " must be greater than " + NatToString(n)
      case Max(n) => name + " must be less than " + NatToString(n)
  {
  }

  /** Reference: the messages of the errors for `field`, in report order. */
  function MessagesFor(errs: seq<FieldError>, field: string): seq<string>
    decreases |errs|
  {
    if |errs| == 0 then []
    else
      var last := errs[|errs| - 1];
      MessagesFor(errs[..|errs| - 1], field) + (if last.field == field then [CheckTagRules(last)] else [])
  }

  /** The loop of `validationError`: each error's message appended under its
      field. Every reported field gets a key, no other key appears, and each
      key holds exactly that field's messages in report order. */
  function Aggregate(errs: seq<FieldError>): (m: map<string, seq<string>>)
    ensures forall k :: k in m <==> exists i :: 0 <= i < |errs| && errs[i].field == k
    ensures forall k :: k in m ==> m[k] == MessagesFor(errs, k)
    decreases |errs|
  {
    if |errs| == 0 then map[]
    else
      var front := errs[..|errs| - 1];
      var e := errs[|errs| - 1];
      var m := Aggregate(front);
      assert forall i :: 0 <= i < |front| ==> front[i] == errs[i];
      var existing := if e.field in m then m[e.field] else [];
      assert e.field !in m ==> MessagesFor(front, e.field) == [] by {
        if e.field !in m {
          MessagesForAbsent(front, e.field);
        }
      }
      var v := existing + [CheckTagRules(e)];
      AggregateKeysSnoc(errs, front, m, m[e.field := v]);
      m[e.field := v]
  }

  /** Adding the last error's field to the keys of all but the last gives
      exactly the fields the whole list names. */
  lemma AggregateKeysSnoc(errs: seq<FieldError>, front: seq<FieldError>,
                          m: map<string, seq<string>>, m': map<string, seq<string>>)
    requires |errs| > 0 && front == errs[..|errs| - 1]
    requires forall k :: k in m <==> exists i :: 0 <= i < |front| && front[i].field == k
    requires m'.Keys == m.Keys + {errs[|errs| - 1].field}
    ensures forall k :: k in m' <==> exists i :: 0 <= i < |errs| && errs[i].field == k
  {
    forall k | k in m'
      ensures exists i :: 0 <= i < |errs| && errs[i].field == k
    {
      if k != errs[|errs| - 1].field {
        var i :| 0 <= i < |front| && front[i].field == k;
        assert errs[i].field == k;
      }
    }
    forall k | exists i :: 0 <= i < |errs| && errs[i].field == k
      ensures k in m'
    {
      var i :| 0 <= i < |errs| && errs[i].field == k;
      if i < |front| {
        assert front[i].field == k;
      }
    }
  }

  /** A single error gives its field a single message. */
  lemma AggregateSingle(e: FieldError)
    ensures Aggregate([e]) == map[e.field := [CheckTagRules(e)]]
  {
    var m := Aggregate([e][..0]);
    assert [e][..0] == [] && m == map[];
    assert Aggregate([e]) == m[e.field := [] + [CheckTagRules(e)]];
    assert [] + [CheckTagRules(e)] == [CheckTagRules(e)];
  }

  /** A field with no errors has no messages. */
  lemma {:induction false} MessagesForAbsent(errs: seq<FieldError>, field: string)
    requires forall i :: 0 <= i < |errs| ==> errs[i].field != field
    ensures MessagesFor(errs, field) == []
    decreases |errs|
  {
    if |errs| > 0 {
      MessagesForAbsent(errs[..|errs| - 1], field);
    }
  }

  /** The messages of a list of errors, one each, in order. */
  function Messages(errs: seq<FieldError>): (ms: seq<string>)
    ensures |ms| == |errs|
  {
    seq(|errs|, i requires 0 <= i < |errs| => CheckTagRules(errs[i]))
  }

  /** Nothing is lost, invented or reordered: a field's messages are the
      messages of exactly the errors reported for it, in report order. */
  lemma {:induction false} MessagesForContents(errs: seq<FieldError>, field: string)
    ensures MessagesFor(errs, field) == Messages(FieldErrorsFor(errs, field))
    decreases |errs|
  {
    if |errs| > 0 {
      var front := errs[..|errs| - 1];
      var last := errs[|errs| - 1];
      MessagesForContents(front, field);
      var tail := if last.field == field then [last] else [];
      assert Messages(FieldErrorsFor(front, field) + tail) == Messages(FieldErrorsFor(front, field)) + Messages(tail);
    }
  }

  /** The errors reported for `field`, in report order. */
  function FieldErrorsFor(errs: seq<FieldError>, field: string): seq<FieldError>
    decreases |errs|
  {
    if |errs| == 0 then []
    else
      var last := errs[|errs| - 1];
      FieldErrorsFor(errs[..|errs| - 1], field) + (if last.field == field then [last] else [])
  }

  /** What `validationError` receives: the validator's field errors, or some
      other error with its text. */
  datatype Failure = FieldErrors(errs: seq<FieldError>) | OtherError(text: string)

  /** `validationError`: always 422; field errors aggregated per field, any
      other error as its text under "non_field_error". */
  function ValidationError(v: Failure): (r: Response)
    ensures r.status == StatusUnprocessableEntity
    ensures v.FieldErrors? ==> ErrorsOf(r) == Some(ErrorM(Aggregate(v.errs)))
    ensures v.OtherError? ==> ErrorsOf(r) == Some(ErrorM(map["non_field_error" := [v.text]]))
  {
    var m := match v
      case FieldErrors(errs) => Aggregate(errs)
      case OtherError(text) => map["non_field_error" := [text]];
    ErrorResponseRoundTrip(StatusUnprocessableEntity, ErrorM(m));
    ErrorResponse(StatusUnprocessableEntity, ErrorM(m))
  }
}
