/**
  `method_handler` of the scoring API (03/homework/api.py): validate the
  method request, check authentication, then run `online_score` or
  `clients_interests`, or answer 404.  The context dict is threaded through
  as a value: the handler returns the context it leaves behind.
*/
module ApiHandler {
  import opened Base
  import opened Seqs
  import opened Text
  import opened Dicts
  import opened Json
  import opened ApiFields
  import opened ApiRequest

  const AdminLogin: string := "admin"
  const Ok: int := 200
  const Forbidden: int := 403
  const NotFound: int := 404
  const InvalidRequest: int := 422
  const InternalError: int := 500

  /**
    What the handler consults but this model does not contain: the digest
    comparison of `check_auth` (SHA-512 over the account, login and the
    clock) and the `scoring` module's `get_score` and `get_interests`.
  */
  datatype Services = Services(
    checkAuth: map<string, Value> -> bool,
    getScore: map<string, Value> -> Value,
    getInterests: int -> Value)

  /** The response, the status code and the context after the call. */
  datatype Reply = Reply(response: Value, code: int, ctx: Dict<string, Value>)

  /** `getattr(request, name)`: an attribute `_validate` did not set reads as `None` here. */
  function Attr(attrs: map<string, Value>, name: string): Value
  {
    if name in attrs then attrs[name] else Null
  }

  /** `MethodRequest.is_admin` */
  predicate IsAdmin(attrs: map<string, Value>)
    ensures IsAdmin(attrs) <==> "login" in attrs && attrs["login"] == Str(AdminLogin)
  {
    Attr(attrs, "login") == Str(AdminLogin)
  }

  /**
    `check_auth` raises `TypeError` before any digest is compared: for a
    non-admin it concatenates `request.login` onto a string, and `login` is
    nullable, so an explicit null login cannot be concatenated.
  */
  predicate CheckAuthRaises(attrs: map<string, Value>)
  {
    !IsAdmin(attrs) && Attr(attrs, "login") == Null
  }

  /** `method_request.arguments` (a dict once the request is valid; see `ValidMethodRequest`). */
  function Arguments(attrs: map<string, Value>): Dict<string, Value>
  {
    match Attr(attrs, "arguments")
    case Object(members) => members
    case _ => []
  }

  /** `interests_request.client_ids` (a list of ints once the request is valid; see `ValidClientIds`). */
  function ClientIds(attrs: map<string, Value>): seq<int>
  {
    match Attr(attrs, "client_ids")
    case List(items) => IntsOf(items)
    case _ => []
  }

  /** The numbers in a list of JSON values (0 for an entry that is not an int). */
  function IntsOf(items: seq<Value>): (ids: seq<int>)
    ensures |ids| == |items|
    ensures forall k :: 0 <= k < |items| && items[k].Int? ==> ids[k] == items[k].i
  {
    seq(|items|, k requires 0 <= k < |items| => if items[k].Int? then items[k].i else 0)
  }

  /** `", ".join(errors)` */
  function ErrorText(errors: seq<string>): Value
  {
    Str(Join(errors, ", "))
  }

  /** Some pair among (phone, email), (first_name, last_name), (gender, birthday) is fully present. */
  predicate HasPair(score: map<string, Value>)
  {
    (Present(Attr(score, "phone")) && Present(Attr(score, "email")))
    || (Present(Attr(score, "first_name")) && Present(Attr(score, "last_name")))
    || (Present(Attr(score, "gender")) && Present(Attr(score, "birthday")))
  }

  /** `args` maps `x` to a value that is neither `None` nor `""`. */
  predicate IsPresentKey(args: Dict<string, Value>, x: string)
  {
    exists i :: 0 <= i < |args| && args[i].0 == x && Present(args[i].1)
  }

  /** The keys of `args` whose values are neither `None` nor `""`, in order. */
  function PresentKeys(args: Dict<string, Value>): (ks: seq<string>)
    ensures |ks| <= |args|
    ensures forall x :: x in ks <==> IsPresentKey(args, x)
  {
    if args == [] then []
    else
      PresentKeyCons(args);
      var rest := PresentKeys(args[1..]);
      if Present(args[0].1) then [args[0].0] + rest else rest
  }

  lemma PresentKeyCons(args: Dict<string, Value>)
    requires args != []
    ensures forall x :: IsPresentKey(args, x) <==> (x == args[0].0 && Present(args[0].1)) || IsPresentKey(args[1..], x)
  {
    forall x ensures IsPresentKey(args, x) <==> (x == args[0].0 && Present(args[0].1)) || IsPresentKey(args[1..], x) {
      if IsPresentKey(args, x) {
        var i :| 0 <= i < |args| && args[i].0 == x && Present(args[i].1);
        if i > 0 { assert args[1..][i - 1] == args[i]; }
      }
      if IsPresentKey(args[1..], x) {
        var i :| 0 <= i < |args| - 1 && args[1..][i].0 == x && Present(args[1..][i].1);
        assert args[i + 1] == args[1..][i];
      }
    }
  }

  /** `a` and `b` are keys of `d`, and `a` comes first. */
  predicate KeyBefore(d: Dict<string, Value>, a: string, b: string)
  {
    IndexOfKey(d, a).Some? && IndexOfKey(d, b).Some? && IndexOfKey(d, a).value < IndexOfKey(d, b).value
  }

  /**
    With the distinct keys of a dict, the listed keys keep the dict's order:
    an earlier key in the list sits earlier in `args`, so none repeats.
  */
  lemma {:induction false} PresentKeysOrdered(args: Dict<string, Value>)
    requires DistinctKeys(args)
    ensures forall i, j :: 0 <= i < j < |PresentKeys(args)| ==> KeyBefore(args, PresentKeys(args)[i], PresentKeys(args)[j])
  {
    if args != [] {
      var tail := args[1..];
      DistinctTail(args);
      PresentKeysOrdered(tail);
      var rest := PresentKeys(tail);
      var ks := PresentKeys(args);
      assert IndexOfKey(args, args[0].0) == Some(0);
      if Present(args[0].1) {
        assert ks == [args[0].0] + rest;
        forall i, j | 0 <= i < j < |ks| ensures KeyBefore(args, ks[i], ks[j]) {
          KeyShift(args, ks[j]);
          if i > 0 {
            KeyShift(args, ks[i]);
            assert KeyBefore(tail, rest[i - 1], rest[j - 1]);
          }
        }
      } else {
        assert ks == rest;
        forall i, j | 0 <= i < j < |ks| ensures KeyBefore(args, ks[i], ks[j]) {
          KeyShift(args, ks[i]);
          KeyShift(args, ks[j]);
          assert KeyBefore(tail, rest[i], rest[j]);
        }
      }
    }
  }

  lemma DistinctTail(args: Dict<string, Value>)
    requires DistinctKeys(args) && args != []
    ensures DistinctKeys(args[1..])
  {
    var tail := args[1..];
    forall i, j | 0 <= i < j < |tail| ensures tail[i].0 != tail[j].0 {
      assert tail[i] == args[i + 1] && tail[j] == args[j + 1];
    }
  }

  /** A key listed for the tail is not the head's key, and sits one place later in the whole. */
  lemma KeyShift(args: Dict<string, Value>, x: string)
    requires DistinctKeys(args) && args != []
    requires x in PresentKeys(args[1..])
    ensures x != args[0].0
    ensures IndexOfKey(args[1..], x).Some? && IndexOfKey(args, x) == Some(IndexOfKey(args[1..], x).value + 1)
  {
    var tail := args[1..];
    assert IsPresentKey(tail, x);
    var i :| 0 <= i < |tail| && tail[i].0 == x && Present(tail[i].1);
    assert args[i + 1] == tail[i];
    assert x in KeySet(tail);
  }

  /** A list of strings as a JSON list. */
  function StrList(ks: seq<string>): (v: Value)
    ensures v.List? && |v.items| == |ks|
    ensures forall i :: 0 <= i < |ks| ==> v.items[i] == Str(ks[i])
  {
    List(seq(|ks|, i requires 0 <= i < |ks| => Str(ks[i])))
  }

  /** `{str(cid): get_interests(store, cid) for cid in ids}` */
  function Interests(ids: seq<int>, svc: Services): (d: Dict<string, Value>)
    ensures DistinctKeys(d)
    ensures KeySet(d) == set id | id in ids :: IntToString(id)
    ensures forall id :: id in ids ==> Get(d, IntToString(id)) == Some(svc.getInterests(id))
  {
    if ids == [] then []
    else
      var init, last := ids[..|ids| - 1], ids[|ids| - 1];
      var before := Interests(init, svc);
      var d := Put(before, IntToString(last), svc.getInterests(last));
      assert forall id :: id in ids <==> id in init || id == last;
      forall id | id in ids ensures Get(d, IntToString(id)) == Some(svc.getInterests(id)) {
        if IntToString(id) == IntToString(last) {
          IntToStringInjective(id, last);
        }
      }
      d
  }

  /** The `online_score` branch, after validation and authentication. */
  function OnlineScore(attrs: map<string, Value>, ctx: Dict<string, Value>, cal: Calendar, svc: Services): (r: Reply)
    ensures r.code == Ok || r.code == InvalidRequest
    ensures r.code != Ok ==> r.response.Str? && r.response.s != [] && r.ctx == ctx
    ensures r.code == Ok <==>
      Errors(OnlineScoreFields, Arguments(attrs), cal) == []
      && HasPair(Assigned(map[], OnlineScoreFields, Arguments(attrs), cal))
  {
    var args := Arguments(attrs);
    ErrorTextNotEmpty(OnlineScoreFields, args, cal);
    var errors := Errors(OnlineScoreFields, args, cal);
    var score := Assigned(map[], OnlineScoreFields, args, cal);
    if errors != [] then Reply(ErrorText(errors), InvalidRequest, ctx)
    else if !HasPair(score) then Reply(Str("Not enough arguments"), InvalidRequest, ctx)
    else
      var ctx' := Put(ctx, "has", StrList(PresentKeys(args)));
      if IsAdmin(attrs) then Reply(Object([("score", Int(42))]), Ok, ctx')
      else Reply(Object([("score", svc.getScore(score))]), Ok, ctx')
  }

  /** The `clients_interests` branch, after validation and authentication. */
  function ClientsInterests(attrs: map<string, Value>, ctx: Dict<string, Value>, cal: Calendar, svc: Services): (r: Reply)
    ensures r.code == Ok || r.code == InvalidRequest
    ensures r.code != Ok ==> r.response.Str? && r.response.s != [] && r.ctx == ctx
    ensures r.code == Ok <==> Errors(ClientsInterestsFields, Arguments(attrs), cal) == []
  {
    var args := Arguments(attrs);
    ErrorTextNotEmpty(ClientsInterestsFields, args, cal);
    var errors := Errors(ClientsInterestsFields, args, cal);
    var request := Assigned(map[], ClientsInterestsFields, args, cal);
    if errors != [] then Reply(ErrorText(errors), InvalidRequest, ctx)
    else
      var ids := ClientIds(request);
      Reply(Object(Interests(ids, svc)), Ok, Put(ctx, "nclients", Int(|ids|)))
  }

  /**
    `method_handler` on a request body, as `do_POST` answers it. The
    exception `check_auth` raises on a null login escapes `method_handler`
    and `do_POST` turns it into 500 "Internal Server Error". The date and
    scoring oracles cannot raise here, so within the model that is the only
    500, and otherwise 200, 403, 404 or 422 comes out. Every answer other
    than 200 is a non-empty message and leaves the context as it was.
  */
  function MethodHandler(body: Dict<string, Value>, ctx: Dict<string, Value>, cal: Calendar, svc: Services): (r: Reply)
    ensures r.code == Ok || r.code == Forbidden || r.code == NotFound || r.code == InvalidRequest || r.code == InternalError
    ensures r.code != Ok ==> r.response.Str? && r.response.s != [] && r.ctx == ctx
    ensures r.code == InternalError <==>
      Errors(MethodRequestFields, body, cal) == [] && CheckAuthRaises(Assigned(map[], MethodRequestFields, body, cal))
  {
    var errors := Errors(MethodRequestFields, body, cal);
    var attrs := Assigned(map[], MethodRequestFields, body, cal);
    if errors != [] then
      ErrorTextNotEmpty(MethodRequestFields, body, cal);
      Reply(ErrorText(errors), InvalidRequest, ctx)
    else if CheckAuthRaises(attrs) then Reply(Str("Internal Server Error"), InternalError, ctx)
    else if !svc.checkAuth(attrs) then Reply(Str("Forbidden"), Forbidden, ctx)
    else if Attr(attrs, "method") == Str("online_score") then
      OnlineScore(attrs, ctx, cal, svc)
    else if Attr(attrs, "method") == Str("clients_interests") then
      ClientsInterests(attrs, ctx, cal, svc)
    else Reply(Str("Not Found"), NotFound, ctx)
  }

  // ---- validation facts the handler relies on ----

  /** Every collected error message is non-empty, and so is their join when there is one. */
  lemma {:induction false} ErrorTextNotEmpty(fields: seq<Field>, data: Dict<string, Value>, cal: Calendar)
    ensures var errors := Errors(fields, data, cal);
      (forall e :: e in errors ==> e != []) && (errors != [] ==> Join(errors, ", ") != [])
  {
    OneErrorPerField(fields, data, cal);
    var errors := Errors(fields, data, cal);
    if errors != [] {
      assert errors[0] in errors;
      JoinLength(errors, ", ");
    }
  }

  lemma {:induction false} JoinLength(parts: seq<string>, sep: string)
    requires |parts| > 0
    ensures |Join(parts, sep)| >= |parts[0]|
  {
  }

  /**
    In a valid request, a required non-nullable field is present in the data
    and its attribute is what `clean` made of the data's value.
  */
  lemma ValidRequiredCleaned(fields: seq<Field>, data: Dict<string, Value>, cal: Calendar, k: nat)
    requires DistinctNames(fields) && k < |fields|
    requires Errors(fields, data, cal) == []
    requires fields[k].required && !fields[k].nullable
    ensures var attrs := Assigned(map[], fields, data, cal);
      fields[k].name in attrs && fields[k].name in KeySet(data)
      && Clean(fields[k].kind, Get(data, fields[k].name).value, cal) == Success(attrs[fields[k].name])
  {
    ValidIff(fields, data, cal);
    AssignedAttr(map[], fields, data, cal, k);
  }

  /** A valid method request has a dict of arguments and a string method name. */
  lemma ValidMethodRequest(body: Dict<string, Value>, cal: Calendar)
    requires Errors(MethodRequestFields, body, cal) == []
    ensures var attrs := Assigned(map[], MethodRequestFields, body, cal);
      Attr(attrs, "arguments") == Object(Arguments(attrs)) && Get(body, "arguments") == Some(Attr(attrs, "arguments"))
      && Attr(attrs, "method").Str? && Get(body, "method") == Some(Attr(attrs, "method"))
  {
    assert DistinctNames(MethodRequestFields);
    ValidRequiredCleaned(MethodRequestFields, body, cal, 3);
    ValidRequiredCleaned(MethodRequestFields, body, cal, 4);
  }

  /** A valid clients-interests request holds the ints of the list it was given. */
  lemma ValidClientIds(args: Dict<string, Value>, cal: Calendar)
    requires Errors(ClientsInterestsFields, args, cal) == []
    ensures var request := Assigned(map[], ClientsInterestsFields, args, cal);
      exists items: seq<Value> :: Get(args, "client_ids") == Some(List(items)) && Attr(request, "client_ids") == List(items)
        && |items| > 0 && AllInts(items)
        && ClientIds(request) == IntsOf(items)
  {
    var f := ClientsInterestsFields[0];
    assert f.name == "client_ids" && f.kind == ClientIDsField && f.required && !f.nullable;
    assert DistinctNames(ClientsInterestsFields);
    ValidRequiredCleaned(ClientsInterestsFields, args, cal, 0);
    var request := Assigned(map[], ClientsInterestsFields, args, cal);
    var v := Get(args, "client_ids").value;
    assert CleanClientIds(v) == Success(request["client_ids"]);
    assert Attr(request, "client_ids") == v;
    var items := v.items;
    assert ClientIds(request) == IntsOf(items);
  }

  // ---- the decision order ----

  /** An invalid method request is answered 422 with the joined errors, before authentication is consulted. */
  lemma InvalidBeforeAuth(body: Dict<string, Value>, ctx: Dict<string, Value>, cal: Calendar, svc: Services, other: Services)
    requires Errors(MethodRequestFields, body, cal) != []
    ensures MethodHandler(body, ctx, cal, svc) == Reply(ErrorText(Errors(MethodRequestFields, body, cal)), InvalidRequest, ctx)
    ensures MethodHandler(body, ctx, cal, svc) == MethodHandler(body, ctx, cal, other)
  {
  }

  /** An empty body is an invalid request (`login` is required). */
  lemma EmptyRequest(ctx: Dict<string, Value>, cal: Calendar, svc: Services)
    ensures MethodHandler([], ctx, cal, svc).code == InvalidRequest
  {
    ValidIff(MethodRequestFields, [], cal);
    assert FieldOutcome(MethodRequestFields[1], [], cal).Reject?;
  }

  /**
    A valid request whose login is the admin's or a string, and that fails
    the digest comparison, is 403 "Forbidden", whatever the method.
  */
  lemma BadAuth(body: Dict<string, Value>, ctx: Dict<string, Value>, cal: Calendar, svc: Services)
    requires Errors(MethodRequestFields, body, cal) == []
    requires !CheckAuthRaises(Assigned(map[], MethodRequestFields, body, cal))
    requires !svc.checkAuth(Assigned(map[], MethodRequestFields, body, cal))
    ensures MethodHandler(body, ctx, cal, svc) == Reply(Str("Forbidden"), Forbidden, ctx)
  {
  }

  /**
    A valid request whose login is an explicit null makes `check_auth`
    raise, whatever the account, token and method: the answer is 500.
  */
  lemma NullLoginCrashes(body: Dict<string, Value>, ctx: Dict<string, Value>, cal: Calendar, svc: Services)
    requires Errors(MethodRequestFields, body, cal) == []
    requires Get(body, "login") == Some(Null)
    ensures MethodHandler(body, ctx, cal, svc) == Reply(Str("Internal Server Error"), InternalError, ctx)
  {
    NullLoginRaises(body, cal);
  }

  /** A null login is stored as null (the field is nullable), so `check_auth` raises on it. */
  lemma NullLoginRaises(body: Dict<string, Value>, cal: Calendar)
    requires Get(body, "login") == Some(Null)
    ensures CheckAuthRaises(Assigned(map[], MethodRequestFields, body, cal))
  {
    var f := MethodRequestFields[1];
    assert f == Field("login", CharField, true, true);
    assert DistinctNames(MethodRequestFields);
    assert FieldOutcome(f, body, cal) == Assign(Null);
    AssignedAttr(map[], MethodRequestFields, body, cal, 1);
  }

  /** A valid, authenticated request for any other method is 404 "Not Found". */
  lemma UnknownMethod(body: Dict<string, Value>, ctx: Dict<string, Value>, cal: Calendar, svc: Services)
    requires Errors(MethodRequestFields, body, cal) == []
    requires !CheckAuthRaises(Assigned(map[], MethodRequestFields, body, cal))
    requires svc.checkAuth(Assigned(map[], MethodRequestFields, body, cal))
    requires Get(body, "method") != Some(Str("online_score")) && Get(body, "method") != Some(Str("clients_interests"))
    ensures MethodHandler(body, ctx, cal, svc) == Reply(Str("Not Found"), NotFound, ctx)
  {
    ValidMethodRequest(body, cal);
  }

  /** `online_score` with valid arguments but no fully present pair is 422 "Not enough arguments". */
  lemma NotEnoughArguments(attrs: map<string, Value>, ctx: Dict<string, Value>, cal: Calendar, svc: Services)
    requires Errors(OnlineScoreFields, Arguments(attrs), cal) == []
    requires !HasPair(Assigned(map[], OnlineScoreFields, Arguments(attrs), cal))
    ensures OnlineScore(attrs, ctx, cal, svc) == Reply(Str("Not enough arguments"), InvalidRequest, ctx)
  {
  }

  /**
    A successful `online_score`: 200, `ctx["has"]` lists exactly the
    argument keys with a value, the rest of the context is unchanged, and
    the admin's score is 42.
  */
  lemma OnlineScoreAnswer(attrs: map<string, Value>, ctx: Dict<string, Value>, cal: Calendar, svc: Services)
    requires Errors(OnlineScoreFields, Arguments(attrs), cal) == []
    requires HasPair(Assigned(map[], OnlineScoreFields, Arguments(attrs), cal))
    ensures var r := OnlineScore(attrs, ctx, cal, svc);
      var args := Arguments(attrs);
      r.code == Ok
      && (exists has :: Get(r.ctx, "has") == Some(List(has))
            && forall x :: Str(x) in has <==> exists i :: 0 <= i < |args| && args[i].0 == x && Present(args[i].1))
      && (forall k :: k != "has" ==> Get(r.ctx, k) == Get(ctx, k))
      && (IsAdmin(attrs) ==> r.response == Object([("score", Int(42))]))
  {
    var args := Arguments(attrs);
    var ks := PresentKeys(args);
    var ctx' := Put(ctx, "has", StrList(ks));
    var r := OnlineScore(attrs, ctx, cal, svc);
    assert r.ctx == ctx' && r.code == Ok;
    assert IsAdmin(attrs) ==> r.response == Object([("score", Int(42))]);
    HasListsPresent(args);
    assert Get(ctx', "has") == Some(List(StrList(ks).items));
  }

  /** The `has` list names exactly the keys with a present value. */
  lemma HasListsPresent(args: Dict<string, Value>)
    ensures var has := StrList(PresentKeys(args)).items;
      forall x :: Str(x) in has <==> exists i :: 0 <= i < |args| && args[i].0 == x && Present(args[i].1)
  {
    var ks := PresentKeys(args);
    var has := StrList(ks).items;
    forall x ensures Str(x) in has <==> x in ks {
      if Str(x) in has {
        var i :| 0 <= i < |has| && has[i] == Str(x);
        assert ks[i] == x;
      }
      if x in ks {
        var i :| 0 <= i < |ks| && ks[i] == x;
        assert has[i] == Str(x);
      }
    }
  }

  /**
    A successful `clients_interests`: 200, `ctx["nclients"]` is the number of
    ids given, and the answer has one entry per id, keyed by `str(id)`.
  */
  lemma ClientsInterestsAnswer(attrs: map<string, Value>, ctx: Dict<string, Value>, cal: Calendar, svc: Services)
    requires Errors(ClientsInterestsFields, Arguments(attrs), cal) == []
    ensures var r := ClientsInterests(attrs, ctx, cal, svc);
      exists items: seq<Value> :: Get(Arguments(attrs), "client_ids") == Some(List(items)) && AllInts(items)
        && r.code == Ok
        && Get(r.ctx, "nclients") == Some(Int(|items|))
        && (forall k :: k != "nclients" ==> Get(r.ctx, k) == Get(ctx, k))
        && r.response.Object?
        && KeySet(r.response.members) == (set id | id in IntsOf(items) :: IntToString(id))
        && (forall id :: id in IntsOf(items) ==> Get(r.response.members, IntToString(id)) == Some(svc.getInterests(id)))
  {
    ValidClientIds(Arguments(attrs), cal);
  }
}
