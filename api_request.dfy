/**
  Request validation of the scoring API (03/homework/api.py): the
  declared fields of each request class and `RequestBase._validate`, which
  walks them in declaration order, collecting error messages and setting
  the cleaned values as attributes.
*/
module ApiRequest {
  import opened Base
  import opened Seqs
  import opened Text
  import opened Dicts
  import opened Json
  import opened ApiFields

  /** The fields of `MethodRequest`, in declaration order. */
  const MethodRequestFields: seq<Field> := [
    Field("account", CharField, false, true),
    Field("login", CharField, true, true),
    Field("token", CharField, true, true),
    Field("arguments", ArgumentsField, true, false),
    Field("method", CharField, true, false)
  ]

  /** The fields of `OnlineScoreRequest`. */
  const OnlineScoreFields: seq<Field> := [
    Field("first_name", CharField, false, true),
    Field("last_name", CharField, false, true),
    Field("email", EmailField, false, true),
    Field("phone", PhoneField, false, true),
    Field("birthday", BirthDayField, false, true),
    Field("gender", GenderField, false, true)
  ]

  /** The fields of `ClientsInterestsRequest`. */
  const ClientsInterestsFields: seq<Field> := [
    Field("client_ids", ClientIDsField, true, false),
    Field("date", DateField, false, true)
  ]

  /** What `_validate` does with one field: set the attribute to a value, or record an error. */
  datatype Outcome = Assign(value: Value) | Reject(message: string)

  /**
    One step of `_validate`. A rejection's message starts with the field's
    name; `None` is stored only for an absent optional field or an explicit
    null on a nullable one; `""` on a nullable field is stored without
    cleaning; anything else stored is what `clean` returned.
  */
  function FieldOutcome(f: Field, data: Dict<string, Value>, cal: Calendar): (o: Outcome)
    ensures o.Reject? ==> f.name + " " <= o.message
    ensures o.Assign? && o.value == Null ==>
      (f.name !in KeySet(data) && !f.required) || (Get(data, f.name) == Some(Null) && f.nullable)
    ensures o.Assign? && o.value != Null ==> f.name in KeySet(data)
    ensures o.Assign? && o.value != Null && !(f.nullable && o.value == Str("")) ==>
      Clean(f.kind, Get(data, f.name).value, cal) == Success(o.value)
    ensures f.name in KeySet(data) && Get(data, f.name) != Some(Null) && !(f.nullable && Get(data, f.name) == Some(Str(""))) ==>
      (o.Assign? <==> Clean(f.kind, Get(data, f.name).value, cal).Success?)
    ensures f.name !in KeySet(data) ==> o == (if f.required then Reject(f.name + " is required") else Assign(Null))
    ensures Get(data, f.name) == Some(Null) ==> o == (if f.nullable then Assign(Null) else Reject(f.name + " cannot be null"))
    ensures f.nullable && Get(data, f.name) == Some(Str("")) ==> o == Assign(Str(""))
    ensures (f.name in KeySet(data) && Get(data, f.name) != Some(Null) && !(f.nullable && Get(data, f.name) == Some(Str("")))
             && Clean(f.kind, Get(data, f.name).value, cal).Failure?) ==>
      o == Reject(f.name + " " + Clean(f.kind, Get(data, f.name).value, cal).error)
  {
    if f.name !in KeySet(data) then
      if f.required then Reject(f.name + " is required") else Assign(Null)
    else
      var v := Get(data, f.name).value;
      if v == Null then
        if f.nullable then Assign(Null) else Reject(f.name + " cannot be null")
      else if v == Str("") && f.nullable then Assign(v)
      else match Clean(f.kind, v, cal)
        case Failure(m) => Reject(f.name + " " + m)
        case Success(c) =>
          assert c != Null by { CleanNeverNull(f.kind, v, cal); }
          Assign(c)
  }

  lemma CleanNeverNull(kind: FieldKind, v: Value, cal: Calendar)
    requires Clean(kind, v, cal).Success?
    ensures Clean(kind, v, cal).value != Null
  {
  }

  /** The error messages `_validate` collects over `fields`, in order. */
  function Errors(fields: seq<Field>, data: Dict<string, Value>, cal: Calendar): (r: seq<string>)
  {
    if fields == [] then []
    else
      var last := fields[|fields| - 1];
      Errors(fields[..|fields| - 1], data, cal) + MessagesOf(FieldOutcome(last, data, cal))
  }

  /** The error an outcome records, if any. */
  function MessagesOf(o: Outcome): seq<string>
  {
    match o case Reject(m) => [m] case Assign(_) => []
  }

  /** The attributes after an outcome for the field `name`. */
  function Apply(attrs: map<string, Value>, name: string, o: Outcome): map<string, Value>
  {
    match o case Assign(v) => attrs[name := v] case Reject(_) => attrs
  }

  /** The attributes `_validate` sets over `fields`, on top of `attrs`. */
  function Assigned(attrs: map<string, Value>, fields: seq<Field>, data: Dict<string, Value>, cal: Calendar): (r: map<string, Value>)
    ensures attrs.Keys <= r.Keys
  {
    if fields == [] then attrs
    else
      var last := fields[|fields| - 1];
      Apply(Assigned(attrs, fields[..|fields| - 1], data, cal), last.name, FieldOutcome(last, data, cal))
  }

  /** One more field: its outcome is appended to the errors and applied to the attributes. */
  lemma ValidateStep(attrs: map<string, Value>, fields: seq<Field>, i: nat, data: Dict<string, Value>, cal: Calendar)
    requires i < |fields|
    ensures var o := FieldOutcome(fields[i], data, cal);
      && Errors(fields[..i + 1], data, cal) == Errors(fields[..i], data, cal) + MessagesOf(o)
      && Assigned(attrs, fields[..i + 1], data, cal) == Apply(Assigned(attrs, fields[..i], data, cal), fields[i].name, o)
  {
    assert fields[..i + 1][..i] == fields[..i];
  }

  /** Field names are distinct (they are the keys of the class's `_fields`). */
  predicate DistinctNames(fields: seq<Field>)
  {
    forall i, j :: 0 <= i < j < |fields| ==> fields[i].name != fields[j].name
  }

  /** A request object: its declared fields, its data, the errors and the attributes set. */
  class Request {
    const fields: seq<Field>
    const data: Dict<string, Value>
    var errors: seq<string>
    var attrs: map<string, Value>

    /** `RequestBase.__init__`: store the data (`data or {}`) and validate it. */
    constructor (fields: seq<Field>, data: Dict<string, Value>, cal: Calendar)
      ensures this.fields == fields && this.data == data
      ensures errors == Errors(fields, data, cal)
      ensures attrs == Assigned(map[], fields, data, cal)
    {
      this.fields := fields;
      this.data := data;
      errors := [];
      attrs := map[];
      new;
      Validate(cal);
    }

    /** `_validate`: one outcome per field, in declaration order. */
    method Validate(cal: Calendar)
      modifies this
      ensures errors == old(errors) + Errors(fields, data, cal)
      ensures attrs == Assigned(old(attrs), fields, data, cal)
    {
      var i := 0;
      while i < |fields|
        invariant 0 <= i <= |fields|
        invariant errors == old(errors) + Errors(fields[..i], data, cal)
        invariant attrs == Assigned(old(attrs), fields[..i], data, cal)
      {
        ValidateStep(old(attrs), fields, i, data, cal);
        ValidateField(fields[i], cal);
        i := i + 1;
      }
      assert fields[..i] == fields;
    }

    /** The body of `_validate`'s loop for one field. */
    method ValidateField(f: Field, cal: Calendar)
      modifies this
      ensures errors == old(errors) + MessagesOf(FieldOutcome(f, data, cal))
      ensures attrs == Apply(old(attrs), f.name, FieldOutcome(f, data, cal))
    {
      if f.name !in KeySet(data) {
        if f.required {
          errors := errors + [f.name + " is required"];
        } else {
          attrs := attrs[f.name := Null];
        }
        return;
      }
      var value := Get(data, f.name).value;
      if value == Null {
        if f.nullable {
          attrs := attrs[f.name := Null];
          return;
        }
        errors := errors + [f.name + " cannot be null"];
        return;
      }
      if value == Str("") && f.nullable {
        attrs := attrs[f.name := value];
        return;
      }
      var cleaned := Clean(f.kind, value, cal);
      if cleaned.Failure? {
        errors := errors + [f.name + " " + cleaned.error];
        return;
      }
      attrs := attrs[f.name := cleaned.value];
    }

    /** `is_valid` */
    predicate IsValid()
      reads this
    {
      errors == []
    }
  }

  /** `is_valid` holds exactly when every field is accepted. */
  lemma {:induction false} ValidIff(fields: seq<Field>, data: Dict<string, Value>, cal: Calendar)
    ensures Errors(fields, data, cal) == [] <==> AllAccepted(fields, data, cal)
  {
    if fields != [] {
      var init := fields[..|fields| - 1];
      ValidIff(init, data, cal);
      ErrorsStep(fields, data, cal);
      AcceptedStep(fields, data, cal);
    }
  }

  /** Every field of `fields` is accepted. */
  predicate AllAccepted(fields: seq<Field>, data: Dict<string, Value>, cal: Calendar)
  {
    forall k :: 0 <= k < |fields| ==> FieldOutcome(fields[k], data, cal).Assign?
  }

  lemma ErrorsStep(fields: seq<Field>, data: Dict<string, Value>, cal: Calendar)
    requires fields != []
    ensures Errors(fields, data, cal) == [] <==>
      Errors(fields[..|fields| - 1], data, cal) == [] && FieldOutcome(fields[|fields| - 1], data, cal).Assign?
  {
    var o := FieldOutcome(fields[|fields| - 1], data, cal);
    assert Errors(fields, data, cal) == Errors(fields[..|fields| - 1], data, cal) + MessagesOf(o);
  }

  lemma AcceptedStep(fields: seq<Field>, data: Dict<string, Value>, cal: Calendar)
    requires fields != []
    ensures AllAccepted(fields, data, cal) <==>
      AllAccepted(fields[..|fields| - 1], data, cal) && FieldOutcome(fields[|fields| - 1], data, cal).Assign?
  {
    var init := fields[..|fields| - 1];
    assert forall k :: 0 <= k < |init| ==> init[k] == fields[k];
  }

  /** Each field adds at most one error, and each error names its field first. */
  lemma {:induction false} OneErrorPerField(fields: seq<Field>, data: Dict<string, Value>, cal: Calendar)
    ensures var errs := Errors(fields, data, cal);
      |errs| <= |fields| && forall e :: e in errs ==> exists k :: 0 <= k < |fields| && fields[k].name + " " <= e
  {
    if fields != [] {
      var init := fields[..|fields| - 1];
      OneErrorPerField(init, data, cal);
      var errs := Errors(fields, data, cal);
      forall e | e in errs ensures exists k :: 0 <= k < |fields| && fields[k].name + " " <= e {
        if e in Errors(init, data, cal) {
          var k :| 0 <= k < |init| && init[k].name + " " <= e;
          assert fields[k] == init[k];
        } else {
          assert fields[|fields| - 1].name + " " <= e;
        }
      }
    }
  }

  /**
    With distinct field names, the attribute of an accepted field holds its
    outcome, and a rejected field's attribute is left as it was (not set).
  */
  lemma {:induction false} AssignedAttr(attrs: map<string, Value>, fields: seq<Field>, data: Dict<string, Value>,
                                        cal: Calendar, k: nat)
    requires DistinctNames(fields) && k < |fields|
    ensures var a := Assigned(attrs, fields, data, cal);
      match FieldOutcome(fields[k], data, cal)
      case Assign(v) => fields[k].name in a && a[fields[k].name] == v
      case Reject(_) => (fields[k].name in a <==> fields[k].name in attrs)
                        && (fields[k].name in attrs ==> a[fields[k].name] == attrs[fields[k].name])
  {
    var init := fields[..|fields| - 1];
    if k < |fields| - 1 {
      assert DistinctNames(init) by {
        forall i, j | 0 <= i < j < |init| ensures init[i].name != init[j].name {
          assert init[i] == fields[i] && init[j] == fields[j];
        }
      }
      assert init[k] == fields[k];
      AssignedAttr(attrs, init, data, cal, k);
    } else {
      AssignedUntouched(attrs, init, data, cal, fields[k].name);
    }
  }

  /** A name no field has is never set. */
  lemma {:induction false} AssignedUntouched(attrs: map<string, Value>, fields: seq<Field>, data: Dict<string, Value>,
                                             cal: Calendar, name: string)
    requires forall i :: 0 <= i < |fields| ==> fields[i].name != name
    ensures var a := Assigned(attrs, fields, data, cal);
      (name in a <==> name in attrs) && (name in attrs ==> a[name] == attrs[name])
  {
    if fields != [] {
      AssignedUntouched(attrs, fields[..|fields| - 1], data, cal, name);
    }
  }
}
