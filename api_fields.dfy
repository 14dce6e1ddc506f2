/**
  The field validators of the scoring API (03/homework/api.py): each field
  class's `clean`, which returns the cleaned value or raises `ValueError`
  with a message.
*/
module ApiFields {
  import opened Base
  import opened Seqs
  import opened Text
  import opened Dicts
  import opened Json

  /** The field classes. */
  datatype FieldKind =
    | CharField
    | ArgumentsField
    | EmailField
    | PhoneField
    | DateField
    | BirthDayField
    | GenderField
    | ClientIDsField

  /** A declared field: its attribute name, its class and its flags. */
  datatype Field = Field(name: string, kind: FieldKind, required: bool, nullable: bool)

  /**
    What the date fields need from outside the request: whether a string
    parses with `strptime("%d.%m.%Y")`, and whether such a date is more than
    70 years before today.
  */
  datatype Calendar = Calendar(isDate: string -> bool, tooOld: string -> bool)

  /** `CharField.clean`: strings only, unchanged. */
  function CleanChar(v: Value): (r: Result<Value, string>)
    ensures r.Success? <==> v.Str?
    ensures r.Success? ==> r.value == v
    ensures r.Failure? ==> r.error == "must be a string"
  {
    if !v.Str? then Failure("must be a string") else Success(v)
  }

  /** `ArgumentsField.clean`: dicts only, unchanged. */
  function CleanArguments(v: Value): (r: Result<Value, string>)
    ensures r.Success? <==> v.Object?
    ensures r.Success? ==> r.value == v
  {
    if !v.Object? then Failure("must be a dict") else Success(v)
  }

  /** `EmailField.clean`: a string, and one that is empty or holds an `@`. */
  function CleanEmail(v: Value): (r: Result<Value, string>)
    ensures r.Success? <==> v.Str? && (v.s == "" || Contains(v.s, "@"))
    ensures r.Success? ==> r.value == v
  {
    match CleanChar(v)
    case Failure(e) => Failure(e)
    case Success(c) => if c.s != "" && !Contains(c.s, "@") then Failure("must contain @") else Success(c)
  }

  /** The checks `PhoneField.clean` makes of a non-empty string. */
  function CheckPhoneDigits(s: string): (r: Result<Value, string>)
    ensures r.Success? <==> IsDigits(s) && |s| == 11 && s[0] == '7'
    ensures r.Success? ==> r.value == Str(s)
  {
    if !IsDigits(s) then Failure("must be digits")
    else if |s| != 11 then Failure("must be length 11")
    else if s[0] != '7' then Failure("must start with 7")
    else Success(Str(s))
  }

  /**
    `PhoneField.clean`: bools are refused, ints become their decimal string;
    a non-empty string must be 11 digits starting with 7; the empty string is
    accepted as it is.
  */
  function CleanPhone(v: Value): (r: Result<Value, string>)
    ensures r.Success? ==> r.value.Str?
    ensures r.Success? ==> r.value == (if v.Int? then Str(IntToString(v.i)) else v)
  {
    if v.Bool? then Failure("must be a string or int")
    else
      var w := if v.Int? then Str(IntToString(v.i)) else v;
      if !w.Str? then Failure("must be a string or int")
      else if w.s != "" then CheckPhoneDigits(w.s)
      else Success(w)
  }

  /** `DateField.clean`: a string that parses as a date; the model keeps the string for the date. */
  function CleanDate(v: Value, cal: Calendar): (r: Result<Value, string>)
    ensures r.Success? <==> v.Str? && cal.isDate(v.s)
    ensures r.Success? ==> r.value == v
  {
    if !v.Str? then Failure("must be a string date")
    else if !cal.isDate(v.s) then Failure("invalid date format")
    else Success(v)
  }

  /** `BirthDayField.clean`: a date no more than 70 years ago. */
  function CleanBirthDay(v: Value, cal: Calendar): (r: Result<Value, string>)
    ensures r.Success? <==> v.Str? && cal.isDate(v.s) && !cal.tooOld(v.s)
    ensures r.Success? ==> r.value == v
  {
    match CleanDate(v, cal)
    case Failure(e) => Failure(e)
    case Success(d) => if cal.tooOld(d.s) then Failure("too old") else Success(d)
  }

  /** `GenderField.clean`: a non-bool int among the keys of GENDERS (0, 1, 2). */
  function CleanGender(v: Value): (r: Result<Value, string>)
    ensures r.Success? <==> v.Int? && 0 <= v.i <= 2
    ensures r.Success? ==> r.value == v
  {
    if !v.Int? then Failure("must be int")
    else if !(v.i == 0 || v.i == 1 || v.i == 2) then Failure("invalid gender")
    else Success(v)
  }

  /** Every item is a non-bool int. */
  predicate AllInts(items: seq<Value>)
  {
    forall k :: 0 <= k < |items| ==> items[k].Int?
  }

  /** `ClientIDsField.clean`: a non-empty list of non-bool ints, unchanged. */
  function CleanClientIds(v: Value): (r: Result<Value, string>)
    ensures r.Success? <==> v.List? && v.items != [] && AllInts(v.items)
    ensures r.Success? ==> r.value == v
  {
    if !v.List? then Failure("must be a list")
    else if v.items == [] then Failure("must be non-empty")
    else if !AllInts(v.items) then Failure("must be int list")
    else Success(v)
  }

  /** `field.clean(value)`, dispatched on the field's class. */
  function Clean(kind: FieldKind, v: Value, cal: Calendar): Result<Value, string>
  {
    match kind
    case CharField => CleanChar(v)
    case ArgumentsField => CleanArguments(v)
    case EmailField => CleanEmail(v)
    case PhoneField => CleanPhone(v)
    case DateField => CleanDate(v, cal)
    case BirthDayField => CleanBirthDay(v, cal)
    case GenderField => CleanGender(v)
    case ClientIDsField => CleanClientIds(v)
  }

  /** The phone numbers `PhoneField` accepts, stated without `str`. */
  predicate PhoneAccepted(v: Value)
  {
    || (v.Str? && (v.s == "" || (IsDigits(v.s) && |v.s| == 11 && v.s[0] == '7')))
    || (v.Int? && 70000000000 <= v.i < 80000000000)
  }

  /** `PhoneField.clean` accepts exactly those values. */
  lemma PhoneAcceptsIff(v: Value)
    ensures CleanPhone(v).Success? <==> PhoneAccepted(v)
  {
    if v.Int? {
      PhoneInt(v.i);
    }
  }

  lemma {:induction false} Pow10Monotone(a: nat, b: nat)
    requires a <= b
    ensures Pow10(a) <= Pow10(b)
    decreases b
  {
    if a < b {
      Pow10Monotone(a, b - 1);
    }
  }

  /** A positive number has `k` decimal digits exactly when it lies in [10^(k-1), 10^k), and its first digit weighs 10^(k-1). */
  lemma DecimalShape(n: nat)
    requires n > 0
    ensures var s := NatToString(n);
      && Pow10(|s| - 1) <= n < Pow10(|s|)
      && n == DigitValue(s[0]) * Pow10(|s| - 1) + DigitsValue(s[1..])
      && DigitsValue(s[1..]) < Pow10(|s| - 1)
  {
    var s := NatToString(n);
    assert s[0] != '0';
    DecimalRoundTrip(n);
    DigitsValueFront(s);
    DigitsValueBound(s[1..]);
    DigitsValueBound(s);
    MulAtLeast(DigitValue(s[0]), Pow10(|s| - 1));
  }

  lemma MulAtLeast(d: nat, p: nat)
    requires d >= 1
    ensures d * p >= p
  {
  }

  /** `str(i)` is eleven digits starting with 7 exactly when `i` is in [7 * 10^10, 8 * 10^10). */
  lemma PhoneInt(i: int)
    ensures var s := IntToString(i);
      (IsDigits(s) && |s| == 11 && s[0] == '7') <==> 70000000000 <= i < 80000000000
  {
    var s := IntToString(i);
    if i < 0 {
      assert s[0] == '-';
    } else if i == 0 {
      assert s == "0";
    } else {
      assert s == NatToString(i);
      Pow10Eleven();
      DecimalShape(i);
      if |s| == 11 {
        FirstDigitSeven(DigitValue(s[0]), DigitsValue(s[1..]), i);
        assert s[0] == '7' <==> DigitValue(s[0]) == 7;
      } else {
        PhoneWidth(i);
      }
    }
  }

  lemma Pow10Eleven()
    ensures Pow10(10) == 10000000000 && Pow10(11) == 100000000000
  {
    assert Pow10(2) == 100;
    assert Pow10(4) == 10 * (10 * Pow10(2));
    assert Pow10(6) == 10 * (10 * Pow10(4));
    assert Pow10(8) == 10 * (10 * Pow10(6));
    assert Pow10(10) == 10 * (10 * Pow10(8));
  }

  /** Of eleven digits, the first is 7 exactly when the number is in the phone range. */
  lemma FirstDigitSeven(d: nat, rest: nat, n: nat)
    requires d <= 9 && rest < 10000000000 && n == d * 10000000000 + rest
    ensures d == 7 <==> 70000000000 <= n < 80000000000
  {
  }

  /** A number whose decimal string is not eleven digits long is outside the phone range. */
  lemma PhoneWidth(n: nat)
    requires Pow10(10) == 10000000000 && Pow10(11) == 100000000000
    requires var s := NatToString(n); |s| != 11 && Pow10(|s| - 1) <= n < Pow10(|s|)
    ensures !(70000000000 <= n < 80000000000)
  {
    var k := |NatToString(n)|;
    if k <= 10 {
      Pow10Monotone(k, 10);
    } else {
      Pow10Monotone(11, k - 1);
    }
  }

  /** Cleaning a cleaned value changes nothing: every `clean` is idempotent. */
  lemma CleanIdempotent(kind: FieldKind, v: Value, cal: Calendar)
    requires Clean(kind, v, cal).Success?
    ensures Clean(kind, Clean(kind, v, cal).value, cal) == Clean(kind, v, cal)
  {
    if kind == PhoneField {
      var c := CleanPhone(v).value;
      assert CleanPhone(c) == Success(c);
    }
  }
}
