/** Field-level validation errors, grouped by field. */
module Responses {

  datatype FieldError = FieldError(field: string, code: string, message: string)

  type ErrorMap = map<string, seq<FieldError>>

  function ErrorsOf(errors: ErrorMap, field: string): seq<FieldError> {
    if field in errors then errors[field] else []
  }

  /** The errors of one field, in call order. */
  function ForField(calls: seq<FieldError>, field: string): seq<FieldError> {
    if calls == [] then []
    else ForField(calls[..|calls| - 1], field) +
         (if calls[|calls| - 1].field == field then [calls[|calls| - 1]] else [])
  }

  /** `at` lists, in order, exactly the calls that named `field`. */
  ghost predicate CallsOf(calls: seq<FieldError>, field: string, at: seq<nat>) {
    && (forall k :: 0 <= k < |at| ==> at[k] < |calls|)
    && (forall k, l :: 0 <= k < l < |at| ==> at[k] < at[l])
    && (forall i: nat :: i < |calls| ==> (i in at <==> calls[i].field == field))
  }

  lemma CallsOfSnoc(calls: seq<FieldError>, field: string, at: seq<nat>, e: FieldError)
    requires CallsOf(calls, field, at)
    ensures CallsOf(calls + [e], field, at + if e.field == field then [|calls|] else [])
  {
    var more := at + if e.field == field then [|calls|] else [];
    assert |calls| in more <==> e.field == field;
    assert forall i: nat :: i < |calls| ==> (i in more <==> i in at) && (calls + [e])[i] == calls[i];
  }

  lemma {:induction false} ForFieldExactly(calls: seq<FieldError>, field: string) returns (at: seq<nat>)
    ensures CallsOf(calls, field, at)
    ensures |ForField(calls, field)| == |at|
    ensures forall k :: 0 <= k < |at| ==> at[k] < |calls| && ForField(calls, field)[k] == calls[at[k]]
  {
    if calls == [] {
      at := [];
    } else {
      hide CallsOf;
      var n := |calls| - 1;
      var front, e := calls[..n], calls[n];
      assert calls == front + [e];
      at := ForFieldExactly(front, field);
      CallsOfSnoc(front, field, at, e);
      at := at + if e.field == field then [n] else [];
    }
  }

  /** What the map holds after those calls: exactly each field's own calls, and no empty list. */
  ghost predicate Records(errors: ErrorMap, calls: seq<FieldError>) {
    && (forall f :: ErrorsOf(errors, f) == ForField(calls, f))
    && (forall f :: f in errors ==> errors[f] != [])
  }

  ghost function Total(errors: ErrorMap): nat
  {
    if errors.Keys == {} then 0
    else
      var f :| f in errors;
      |errors[f]| + Total(errors - {f})
  }

  /** The total does not depend on the order the fields are visited in. */
  lemma {:induction false} TotalRemove(errors: ErrorMap, f: string)
    requires f in errors
    ensures Total(errors) == |errors[f]| + Total(errors - {f})
    decreases |errors|
  {
    var g :| g in errors && Total(errors) == |errors[g]| + Total(errors - {g});
    if g != f {
      TotalRemove(errors - {g}, f);
      TotalRemove(errors - {f}, g);
      assert errors - {g} - {f} == errors - {f} - {g};
    }
  }

  function Added(errors: ErrorMap, e: FieldError): ErrorMap {
    errors[e.field := ErrorsOf(errors, e.field) + [e]]
  }

  lemma TotalAdded(errors: ErrorMap, e: FieldError)
    ensures Total(Added(errors, e)) == Total(errors) + 1
  {
    var f := e.field;
    TotalRemove(Added(errors, e), f);
    assert Added(errors, e) - {f} == errors - {f};
    if f in errors {
      TotalRemove(errors, f);
    } else {
      assert errors - {f} == errors;
    }
  }

  lemma RecordsAdded(errors: ErrorMap, calls: seq<FieldError>, e: FieldError)
    requires Records(errors, calls)
    ensures Records(Added(errors, e), calls + [e])
  {
    var after := calls + [e];
    assert after[..|after| - 1] == calls;
    forall f ensures ErrorsOf(Added(errors, e), f) == ForField(after, f) {
      assert ErrorsOf(errors, f) == ForField(calls, f);
    }
  }

  class ValidationError {
    var errors: ErrorMap
    ghost var calls: seq<FieldError>

    ghost predicate Valid()
      reads this
    {
      Records(errors, calls) && Total(errors) == |calls|
    }

    constructor ()
      ensures Valid() && calls == [] && errors == map[]
    {
      errors, calls := map[], [];
    }

    /** After any sequence of calls every field's list is exactly its own calls, in order. */
    method AddFieldError(field: string, code: string, message: string)
      requires Valid()
      modifies this
      ensures Valid() && calls == old(calls) + [FieldError(field, code, message)]
      ensures errors == Added(old(errors), FieldError(field, code, message))
    {
      var e := FieldError(field, code, message);
      RecordsAdded(errors, calls, e);
      TotalAdded(errors, e);
      errors := errors[field := (if field in errors then errors[field] else []) + [e]];
      calls := calls + [e];
    }

    method HasErrors() returns (b: bool)
      requires Valid()
      ensures b <==> calls != []
    {
      b := errors != map[];
      if !b {
        assert Total(errors) == 0;
      } else {
        ghost var f :| f in errors;
        assert ErrorsOf(errors, f) == ForField(calls, f) != [];
      }
    }

    /** Conservation: as many errors as calls, however they fall over the fields. */
    method ErrorCount() returns (n: nat)
      requires Valid()
      ensures n == |calls|
    {
      n := 0;
      var rest := errors;
      while rest.Keys != {}
        invariant n + Total(rest) == Total(errors)
        decreases |rest|
      {
        var f :| f in rest.Keys;
        TotalRemove(rest, f);
        n := n + |rest[f]|;
        rest := rest - {f};
      }
    }
  }
}
