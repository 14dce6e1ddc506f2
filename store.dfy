/**
  The key-value store used by the scoring API (04/homework/store.py): a
  `Store` that connects lazily through a client factory, retries a failed
  client call up to `retries` times, reconnecting after every failure, and
  re-raises the last error; and the `InMemoryClient` it is used with.

  The client object itself is outside the model: what the client answers on
  the i-th attempt of one call is the oracle `attempt(op, i)`.
*/
module KeyValueStore {
  import opened Base
  import opened Dicts
  import opened Json

  /** A client call: `get(key)` or `set(key, value, expire)`. */
  datatype ClientOp = GetOp(key: string) | SetOp(key: string, value: Value, expire: int)

  /** What the connected client does on attempt `i` of one `_call`: returns or raises. */
  type Attempts = (ClientOp, nat) -> Result<Value, Exception>

  const NoAttemptMessage := "store call failed without exception"

  /**
    How many attempts `_call` makes when attempts `i`, `i+1`, ... may still be
    made out of `n`: it stops after the first success or after attempt `n-1`.
  */
  function UsedFrom(op: ClientOp, attempt: Attempts, i: nat, n: nat): (r: nat)
    requires i < n
    ensures i < r <= n
    ensures attempt(op, r - 1).Success? || r == n
    ensures forall j :: i <= j < r - 1 ==> attempt(op, j).Failure?
    decreases n - i
  {
    if attempt(op, i).Success? || i + 1 == n then i + 1 else UsedFrom(op, attempt, i + 1, n)
  }

  /** The number of client attempts one `_call` with `retries` makes. */
  function Used(op: ClientOp, attempt: Attempts, retries: int): (r: nat)
    ensures retries <= 0 ==> r == 0
    ensures retries > 0 ==> 0 < r <= retries
  {
    if retries <= 0 then 0 else UsedFrom(op, attempt, 0, retries)
  }

  /**
    What `_call` returns or raises: the answer of the last attempt made, or
    RuntimeError when `retries <= 0` leaves no attempt at all.
  */
  function Outcome(op: ClientOp, attempt: Attempts, retries: int): (r: Result<Value, Exception>)
    ensures retries <= 0 ==> r == Failure(RuntimeError(NoAttemptMessage))
    ensures retries > 0 ==> r == attempt(op, Used(op, attempt, retries) - 1)
  {
    if retries <= 0 then Failure(RuntimeError(NoAttemptMessage))
    else attempt(op, Used(op, attempt, retries) - 1)
  }

  /** `Used` is the first success plus one, or all of the retries: the only count fitting both. */
  lemma UsedIsFirst(op: ClientOp, attempt: Attempts, retries: int, k: nat)
    requires k < retries
    requires forall j :: 0 <= j < k ==> attempt(op, j).Failure?
    requires attempt(op, k).Success? || k == retries - 1
    ensures Used(op, attempt, retries) == k + 1
  {
  }

  /** `_call` succeeds exactly when some attempt within the retries returns. */
  lemma SucceedsIff(op: ClientOp, attempt: Attempts, retries: int)
    ensures Outcome(op, attempt, retries).Success? <==> exists j :: 0 <= j < retries && attempt(op, j).Success?
  {
    if retries > 0 {
      var u := Used(op, attempt, retries);
      if exists j :: 0 <= j < retries && attempt(op, j).Success? {
        var j :| 0 <= j < retries && attempt(op, j).Success?;
        assert u - 1 <= j;
      }
    }
  }

  /** On success the answer is that of the first attempt that returned. */
  lemma FirstAnswerReturned(op: ClientOp, attempt: Attempts, retries: int, k: nat)
    requires k < retries && attempt(op, k).Success?
    requires forall j :: 0 <= j < k ==> attempt(op, j).Failure?
    ensures Outcome(op, attempt, retries) == attempt(op, k)
  {
    UsedIsFirst(op, attempt, retries, k);
  }

  /** When every attempt raises, the exception of the last one is re-raised. */
  lemma LastErrorReraised(op: ClientOp, attempt: Attempts, retries: int)
    requires retries > 0
    requires forall j :: 0 <= j < retries ==> attempt(op, j).Failure?
    ensures Outcome(op, attempt, retries) == attempt(op, retries - 1)
  {
    UsedIsFirst(op, attempt, retries, retries - 1);
  }

  /** One failure then a success, with two retries, returns the success (a flaky client recovers). */
  lemma FlakyClientRecovers(op: ClientOp, attempt: Attempts, e: Exception, v: Value)
    requires attempt(op, 0) == Failure(e) && attempt(op, 1) == Success(v)
    ensures Outcome(op, attempt, 2) == Success(v)
    ensures Used(op, attempt, 2) == 2
  {
    UsedIsFirst(op, attempt, 2, 1);
  }

  /** A client that keeps failing, with two retries, makes the call raise its second error. */
  lemma FlakyClientGivesUp(op: ClientOp, attempt: Attempts, e0: Exception, e1: Exception)
    requires attempt(op, 0) == Failure(e0) && attempt(op, 1) == Failure(e1)
    ensures Outcome(op, attempt, 2) == Failure(e1)
  {
    LastErrorReraised(op, attempt, 2);
  }

  /**
    `Store`: `connected` is `_client is not None`; `connects` counts calls
    of the client factory and `attempts` counts client method calls, so
    that the contracts can say how often each happens.
  */
  class Store {
    const retries: int
    const timeout: int
    var connected: bool
    var connects: nat
    var attempts: nat

    constructor (retries: int, timeout: int)
      ensures this.retries == retries && this.timeout == timeout
      ensures !connected && connects == 0 && attempts == 0
    {
      this.retries := retries;
      this.timeout := timeout;
      connected := false;
      connects := 0;
      attempts := 0;
    }

    /** `_connect`: a fresh client from the factory. */
    method Connect()
      modifies this
      ensures connected && connects == old(connects) + 1 && attempts == old(attempts)
    {
      connected := true;
      connects := connects + 1;
    }

    /**
      `_call`: the result is `Outcome`; exactly `Used` attempts are made;
      the factory is called before every attempt except a first one that
      finds a client already connected; the client is kept after a success
      and dropped after a failure.
    */
    method Call(op: ClientOp, attempt: Attempts) returns (r: Result<Value, Exception>)
      modifies this
      ensures r == Outcome(op, attempt, retries)
      ensures attempts == old(attempts) + Used(op, attempt, retries)
      ensures connects == old(connects) + Used(op, attempt, retries)
                          - (if old(connected) && retries > 0 then 1 else 0)
      ensures connected == (if retries <= 0 then old(connected) else r.Success?)
    {
      var lastExc: Option<Exception> := None;
      var i := 0;
      while i < retries
        invariant 0 <= i && (i == 0 || i <= retries)
        invariant forall j :: 0 <= j < i ==> attempt(op, j).Failure?
        invariant i == 0 ==> lastExc.None? && connected == old(connected)
        invariant i > 0 ==> lastExc == Some(attempt(op, i - 1).error) && !connected
        invariant attempts == old(attempts) + i
        invariant connects == old(connects) + i - (if old(connected) && i > 0 then 1 else 0)
      {
        if !connected {
          Connect();
        }
        attempts := attempts + 1;
        var answer := attempt(op, i);
        if answer.Success? {
          UsedIsFirst(op, attempt, retries, i);
          return answer;
        }
        lastExc := Some(answer.error);
        connected := false;
        i := i + 1;
      }
      if lastExc.Some? {
        UsedIsFirst(op, attempt, retries, i - 1);
        return Failure(lastExc.value);
      }
      return Failure(RuntimeError(NoAttemptMessage));
    }

    /** `get`: the client's `get`, with retries. */
    method Get(key: string, attempt: Attempts) returns (r: Result<Value, Exception>)
      modifies this
      ensures r == Outcome(GetOp(key), attempt, retries)
      ensures attempts == old(attempts) + Used(GetOp(key), attempt, retries)
      ensures connects == old(connects) + Used(GetOp(key), attempt, retries)
                          - (if old(connected) && retries > 0 then 1 else 0)
      ensures connected == (if retries <= 0 then old(connected) else r.Success?)
    {
      r := Call(GetOp(key), attempt);
    }

    /** `cache_get`: the same client `get` as `get`. */
    method CacheGet(key: string, attempt: Attempts) returns (r: Result<Value, Exception>)
      modifies this
      ensures r == Outcome(GetOp(key), attempt, retries)
      ensures attempts == old(attempts) + Used(GetOp(key), attempt, retries)
      ensures connects == old(connects) + Used(GetOp(key), attempt, retries)
                          - (if old(connected) && retries > 0 then 1 else 0)
      ensures connected == (if retries <= 0 then old(connected) else r.Success?)
    {
      r := Call(GetOp(key), attempt);
    }

    /** `cache_set`: the client's `set`, with retries. */
    method CacheSet(key: string, value: Value, expire: int, attempt: Attempts) returns (r: Result<Value, Exception>)
      modifies this
      ensures r == Outcome(SetOp(key, value, expire), attempt, retries)
      ensures attempts == old(attempts) + Used(SetOp(key, value, expire), attempt, retries)
      ensures connects == old(connects) + Used(SetOp(key, value, expire), attempt, retries)
                          - (if old(connected) && retries > 0 then 1 else 0)
      ensures connected == (if retries <= 0 then old(connected) else r.Success?)
    {
      r := Call(SetOp(key, value, expire), attempt);
    }
  }

  /** `dict.get`: the stored value, or None (`Null`) for a missing key. */
  function Lookup(data: Dict<string, Value>, key: string): (r: Value)
    ensures key !in KeySet(data) ==> r == Null
    ensures key in KeySet(data) ==> Get(data, key) == Some(r)
  {
    match Get(data, key)
    case None => Null
    case Some(v) => v
  }

  /** What an `InMemoryClient` holding `data` answers: never an exception. */
  function Respond(data: Dict<string, Value>, op: ClientOp): (r: Value)
    ensures op.GetOp? ==> r == Lookup(data, op.key)
    ensures op.SetOp? ==> r == Bool(true)
  {
    match op
    case GetOp(key) => Lookup(data, key)
    case SetOp(_, _, _) => Bool(true)
  }

  /** The data an `InMemoryClient` holds after answering `op`; `expire` is ignored. */
  function Apply(data: Dict<string, Value>, op: ClientOp): (r: Dict<string, Value>)
    ensures op.GetOp? ==> r == data
    ensures op.SetOp? ==> Lookup(r, op.key) == op.value
    ensures op.SetOp? ==> forall k :: k != op.key ==> Lookup(r, k) == Lookup(data, k)
  {
    match op
    case GetOp(_) => data
    case SetOp(key, value, _) => Put(data, key, value)
  }

  /** `InMemoryClient`: a dictionary; `timeout` is accepted and unused. */
  class InMemoryClient {
    var data: Dict<string, Value>

    constructor (timeout: int)
      ensures data == []
    {
      data := [];
    }

    method Get(key: string) returns (r: Value)
      ensures r == Respond(data, GetOp(key))
    {
      r := Lookup(data, key);
    }

    method Set(key: string, value: Value, expire: int) returns (r: Value)
      modifies this
      ensures r == Respond(old(data), SetOp(key, value, expire))
      ensures data == Apply(old(data), SetOp(key, value, expire))
    {
      data := Put(data, key, value);
      r := Bool(true);
    }
  }

  /** A get after a set of the same key on an in-memory client answers the value set. */
  lemma SetThenGet(data: Dict<string, Value>, key: string, value: Value, expire: int, other: string)
    ensures Respond(Apply(data, SetOp(key, value, expire)), GetOp(key)) == value
    ensures other != key ==>
      Respond(Apply(data, SetOp(key, value, expire)), GetOp(other)) == Respond(data, GetOp(other))
  {
  }

  /** A store over a client that never raises answers after one attempt with the client's answer. */
  lemma ReliableClientOneAttempt(op: ClientOp, attempt: Attempts, retries: int, data: Dict<string, Value>)
    requires retries > 0
    requires forall i: nat :: attempt(op, i) == Success(Respond(data, op))
    ensures Outcome(op, attempt, retries) == Success(Respond(data, op))
    ensures Used(op, attempt, retries) == 1
  {
    UsedIsFirst(op, attempt, retries, 0);
  }
}
