/**
  The request side of the static-file server (06/homework/httpd.py):
  the connection as the server sees it, the header reader `read_request`
  and the request-line parser `parse_request`.
*/
module HttpRequest {
  import opened Base
  import opened Seqs
  import opened Text

  newtype byte = x: int | 0 <= x < 256

  /** `b"\r\n\r\n"`, the end of the header block. */
  const Terminator: seq<byte> := [13, 10, 13, 10]
  /** `b"\r\n"`, the end of a line. */
  const LineEnd: seq<byte> := [13, 10]
  /** MAX_HEADER_SIZE */
  const MaxHeaderSize: nat := 8192
  /** READ_BUFFER: the most bytes one `recv` (and one file read) returns. */
  const ReadBuffer: nat := 64 * 1024
  /** READ_TIMEOUT, in seconds. */
  const ReadTimeout: real := 5.0

  /**
    What the peer does before the server's next `recv` returns: send some
    bytes (an empty `Data` is an orderly close), or stay silent for longer
    than the socket's timeout, which makes `recv` raise `socket.timeout`.
  */
  datatype RecvEvent = Data(bytes: seq<byte>) | Silence

  /** Every chunk the peer delivers fits in one `recv(READ_BUFFER)`. */
  predicate ChunksFit(events: seq<RecvEvent>)
  {
    forall k :: 0 <= k < |events| ==> events[k].Data? ==> |events[k].bytes| <= ReadBuffer
  }

  /**
    An accepted socket. `incoming` is what the peer will do, in order; once
    it is exhausted the peer has closed and every `recv` returns `b""`.
    `sent` is everything written with `sendall`.
  */
  class Connection {
    var timeout: Option<real>
    var incoming: seq<RecvEvent>
    var sent: seq<byte>
    var closed: bool

    constructor (incoming: seq<RecvEvent>, timeout: Option<real>)
      ensures this.incoming == incoming && this.timeout == timeout
      ensures sent == [] && !closed
    {
      this.incoming := incoming;
      this.timeout := timeout;
      sent := [];
      closed := false;
    }

    /** `conn.settimeout(t)` */
    method SetTimeout(t: Option<real>)
      modifies this
      ensures timeout == t
      ensures incoming == old(incoming) && sent == old(sent) && closed == old(closed)
    {
      timeout := t;
    }

    /** `conn.recv(READ_BUFFER)`: the bytes received, or None when it raised `socket.timeout`. */
    method Recv() returns (r: Option<seq<byte>>)
      modifies this
      ensures old(incoming) == [] ==> r == Some([]) && incoming == []
      ensures old(incoming) != [] ==>
        (incoming == old(incoming)[1..] && r == (if old(incoming)[0].Data? then Some(old(incoming)[0].bytes) else None))
      ensures timeout == old(timeout) && sent == old(sent) && closed == old(closed)
    {
      if incoming == [] {
        r := Some([]);
      } else {
        r := if incoming[0].Data? then Some(incoming[0].bytes) else None;
        incoming := incoming[1..];
      }
    }

    /** `conn.sendall(b)` */
    method SendAll(b: seq<byte>)
      modifies this
      ensures sent == old(sent) + b
      ensures timeout == old(timeout) && incoming == old(incoming) && closed == old(closed)
    {
      sent := sent + b;
    }

    /** `conn.close()` */
    method Close()
      modifies this
      ensures closed
      ensures timeout == old(timeout) && incoming == old(incoming) && sent == old(sent)
    {
      closed := true;
    }
  }

  function Payload(e: RecvEvent): seq<byte>
  {
    if e.Data? then e.bytes else []
  }

  /** All bytes the peer sent in the first `n` events, in order. */
  function Received(events: seq<RecvEvent>, n: nat): seq<byte>
    requires n <= |events|
  {
    if n == 0 then [] else Received(events, n - 1) + Payload(events[n - 1])
  }

  datatype ReadEnd = TimedOut | Stopped(data: seq<byte>)

  /**
    The loop of `read_request` from the state where `data` has been read and
    `events[i..]` is still to come; also gives the index of the first event it
    does not consume.
  */
  function ReadFrom(events: seq<RecvEvent>, i: nat, data: seq<byte>): (r: (ReadEnd, nat))
    requires i <= |events|
    ensures i <= r.1 <= |events|
    decreases |events| - i
  {
    if Contains(data, Terminator) then (Stopped(data), i)
    else if i == |events| then (Stopped(data), i)
    else match events[i]
      case Silence => (TimedOut, i + 1)
      case Data(chunk) =>
        if chunk == [] then (Stopped(data), i + 1)
        else if |data + chunk| > MaxHeaderSize then (Stopped(data + chunk), i + 1)
        else ReadFrom(events, i + 1, data + chunk)
  }

  /** What `read_request` returns for a peer that behaves as `events`, and how many of them it consumes. */
  function ReadRequestSpec(events: seq<RecvEvent>): (r: (Option<seq<byte>>, nat))
    ensures r.1 <= |events|
  {
    var (end, used) := ReadFrom(events, 0, []);
    match end
    case TimedOut => (None, used)
    case Stopped(data) => (if data == [] then None else Some(data), used)
  }

  /**
    `read_request`: read until the header terminator, an orderly close or more
    than MAX_HEADER_SIZE bytes; a read timeout discards everything. The socket's
    previous timeout is restored on every path.
  */
  method ReadRequest(conn: Connection) returns (r: Option<seq<byte>>)
    modifies conn
    ensures conn.timeout == old(conn.timeout) && conn.sent == old(conn.sent) && conn.closed == old(conn.closed)
    ensures r == ReadRequestSpec(old(conn.incoming)).0
    ensures conn.incoming == old(conn.incoming)[ReadRequestSpec(old(conn.incoming)).1..]
  {
    var data: seq<byte> := [];
    var previous := conn.timeout;
    conn.SetTimeout(Some(ReadTimeout));
    ghost var events := conn.incoming;
    ghost var i: nat := 0;
    while !Contains(data, Terminator)
      invariant i <= |events| && conn.incoming == events[i..]
      invariant ReadFrom(events, i, data) == ReadFrom(events, 0, [])
      invariant conn.sent == old(conn.sent) && conn.closed == old(conn.closed)
      decreases |conn.incoming|
    {
      var chunk := conn.Recv();
      if chunk.None? {
        conn.SetTimeout(previous);
        return None;
      }
      if chunk.value == [] {
        if i < |events| { i := i + 1; }
        break;
      }
      data := data + chunk.value;
      i := i + 1;
      if |data| > MaxHeaderSize {
        break;
      }
    }
    conn.SetTimeout(previous);
    r := if data == [] then None else Some(data);
  }

  /** The loop read event `k`: nothing read before it ended the header or passed the size limit. */
  predicate WasRead(events: seq<RecvEvent>, k: nat)
    requires k <= |events|
  {
    !Contains(Received(events, k), Terminator) && |Received(events, k)| <= MaxHeaderSize
  }

  /** The loop read event `k` and went on: it delivered bytes. */
  predicate KeptReading(events: seq<RecvEvent>, k: nat)
    requires k < |events|
  {
    WasRead(events, k) && events[k].Data? && events[k].bytes != []
  }

  /** The last `recv` returned `b""`. */
  predicate PeerClosed(events: seq<RecvEvent>, used: nat)
    requires used <= |events|
  {
    used == |events| || (used > 0 && events[used - 1] == Data([]))
  }

  /** Every event before the `n`-th was read and delivered bytes. */
  predicate KeptReadingBefore(events: seq<RecvEvent>, n: nat)
    requires n <= |events|
  {
    forall k :: 0 <= k < n ==> KeptReading(events, k)
  }

  /** How the loop can end after consuming `used` events: it read the last one, and stopped for a reason. */
  predicate EndsForAReason(events: seq<RecvEvent>, end: ReadEnd, used: nat)
    requires used <= |events|
  {
    && (used > 0 ==> WasRead(events, used - 1))
    && (end.Stopped? ==>
          end.data == Received(events, used)
          && (Contains(end.data, Terminator) || |end.data| > MaxHeaderSize || PeerClosed(events, used)))
    && (end.TimedOut? <==> used > 0 && events[used - 1] == Silence)
  }

  /** The loop reads on from event `i` exactly when it holds no terminator and event `i` delivers bytes that fit. */
  predicate Continues(events: seq<RecvEvent>, i: nat, data: seq<byte>)
    requires i <= |events|
  {
    !Contains(data, Terminator) && i < |events| && events[i].Data? && events[i].bytes != []
    && |data + events[i].bytes| <= MaxHeaderSize
  }

  /** The loop's end and consumption are explained: it kept reading before its last event and stopped for a reason. */
  predicate WellEnded(events: seq<RecvEvent>, r: (ReadEnd, nat))
  {
    && r.1 <= |events|
    && (r.1 == 0 || KeptReadingBefore(events, r.1 - 1))
    && EndsForAReason(events, r.0, r.1)
  }

  lemma ReadFromStops(events: seq<RecvEvent>, i: nat, data: seq<byte>)
    requires i <= |events| && !Continues(events, i, data)
    requires data == Received(events, i) && |data| <= MaxHeaderSize
    requires KeptReadingBefore(events, i)
    ensures WellEnded(events, ReadFrom(events, i, data))
  {
    if Contains(data, Terminator) || i == |events| {
      StopsAtOnce(events, i, data);
    } else {
      StopsAfterOne(events, i, data);
    }
  }

  lemma StopsAtOnce(events: seq<RecvEvent>, i: nat, data: seq<byte>)
    requires i <= |events| && (Contains(data, Terminator) || i == |events|)
    requires data == Received(events, i)
    requires KeptReadingBefore(events, i)
    ensures ReadFrom(events, i, data) == (Stopped(data), i)
    ensures i == 0 || KeptReadingBefore(events, i - 1)
    ensures EndsForAReason(events, Stopped(data), i)
  {
    if i > 0 {
      assert KeptReading(events, i - 1);
    }
  }

  lemma StopsAfterOne(events: seq<RecvEvent>, i: nat, data: seq<byte>)
    requires i < |events| && !Contains(data, Terminator) && !Continues(events, i, data)
    requires data == Received(events, i) && |data| <= MaxHeaderSize
    ensures var (end, used) := ReadFrom(events, i, data);
      used == i + 1 && EndsForAReason(events, end, used)
  {
    var e := events[i];
    assert WasRead(events, i);
    assert Received(events, i + 1) == data + Payload(e);
    if e.Silence? {
      assert ReadFrom(events, i, data) == (TimedOut, i + 1);
    } else if e.bytes == [] {
      assert ReadFrom(events, i, data) == (Stopped(data), i + 1);
      assert PeerClosed(events, i + 1);
    } else {
      assert ReadFrom(events, i, data) == (Stopped(data + e.bytes), i + 1);
    }
  }

  lemma {:induction false} ReadFromShape(events: seq<RecvEvent>, i: nat, data: seq<byte>)
    requires i <= |events|
    requires data == Received(events, i) && |data| <= MaxHeaderSize
    requires KeptReadingBefore(events, i)
    ensures WellEnded(events, ReadFrom(events, i, data))
    decreases |events| - i
  {
    if !Continues(events, i, data) {
      ReadFromStops(events, i, data);
    } else {
      var chunk := events[i].bytes;
      assert WasRead(events, i);
      assert Received(events, i + 1) == data + chunk;
      assert KeptReadingBefore(events, i + 1);
      assert ReadFrom(events, i, data) == ReadFrom(events, i + 1, data + chunk);
      ReadFromShape(events, i + 1, data + chunk);
    }
  }

  /**
    `read_request` reads event after event while nothing read so far holds the
    terminator or exceeds MAX_HEADER_SIZE, and stops at the first of: the
    terminator appears, the size limit is passed, the peer closes (the result
    is then exactly the bytes received), or a timeout (everything is dropped).
  */
  lemma ReadRequestStops(events: seq<RecvEvent>)
    ensures var (r, used) := ReadRequestSpec(events);
      && (forall k :: 0 <= k < used - 1 ==> KeptReading(events, k))
      && (used > 0 ==> WasRead(events, used - 1))
      && (r.Some? ==>
            r.value == Received(events, used) && r.value != []
            && (Contains(r.value, Terminator) || |r.value| > MaxHeaderSize || PeerClosed(events, used)))
      && (r.None? ==> (Received(events, used) == [] && PeerClosed(events, used)) || (used > 0 && events[used - 1] == Silence))
      && (used > 0 && events[used - 1] == Silence ==> r.None?)
  {
    ReadFromShape(events, 0, []);
  }

  /** With chunks of at most READ_BUFFER bytes, the header block never exceeds MAX_HEADER_SIZE + READ_BUFFER. */
  lemma ReadRequestBound(events: seq<RecvEvent>)
    requires ChunksFit(events)
    ensures var r := ReadRequestSpec(events).0; r.Some? ==> |r.value| <= MaxHeaderSize + ReadBuffer
  {
    var (r, used) := ReadRequestSpec(events);
    ReadRequestStops(events);
    if r.Some? {
      assert Received(events, used) == Received(events, used - 1) + Payload(events[used - 1]);
    }
  }

  /** ISO-8859-1 decoding: byte `b` becomes the character with code `b`; it never fails. */
  function Latin1Decode(b: seq<byte>): (s: string)
    ensures |s| == |b|
    ensures forall i :: 0 <= i < |b| ==> s[i] as int == b[i] as int
  {
    seq(|b|, i requires 0 <= i < |b| => b[i] as int as char)
  }

  predicate IsLatin1(s: string)
  {
    forall i :: 0 <= i < |s| ==> s[i] as int < 256
  }

  /** ISO-8859-1 encoding of a string whose characters all have codes below 256. */
  function Latin1Encode(s: string): (b: seq<byte>)
    requires IsLatin1(s)
    ensures |b| == |s|
    ensures forall i :: 0 <= i < |s| ==> b[i] as int == s[i] as int
  {
    seq(|s|, i requires 0 <= i < |s| => s[i] as int as byte)
  }

  datatype RequestLine = RequestLine(verb: string, target: string, version: string)

  /**
    `parse_request`: the first `\r\n`-line of the bytes before the first
    `\r\n\r\n`, decoded as ISO-8859-1, must split into exactly three
    whitespace-separated tokens.
  */
  function ParseRequest(data: seq<byte>): (r: Option<RequestLine>)
    ensures r.Some? ==> r.value.verb != [] && NoSpace(r.value.verb)
    ensures r.Some? ==> r.value.target != [] && NoSpace(r.value.target)
    ensures r.Some? ==> r.value.version != [] && NoSpace(r.value.version)
  {
    var headerPart := BeforeFirst(data, Terminator);
    // `split` never returns an empty list and ISO-8859-1 decoding never fails,
    // so neither of the source's other `return None` paths can be taken.
    var lines := Split(Latin1Decode(headerPart), "\r\n");
    var parts := Words(lines[0]);
    if |parts| != 3 then None else Some(RequestLine(parts[0], parts[1], parts[2]))
  }

  /** The first line of the header block is the first line of everything received. */
  lemma FirstLineOfHeader(data: seq<byte>)
    ensures BeforeFirst(BeforeFirst(data, Terminator), LineEnd) == BeforeFirst(data, LineEnd)
  {
    var h := BeforeFirst(data, Terminator);
    if Contains(data, Terminator) {
      var q := |h|;
      assert OccursAt(data, LineEnd, q) by { assert data[q..q + 2] == data[q..q + 4][..2]; }
      var p := IndexOf(data, LineEnd).value;
      assert p <= q;
      if p == q {
        BeforeFirstAt(data, LineEnd, p);
        forall j: nat ensures !OccursAt(h, LineEnd, j) {
          OccursInPrefix(data, h, LineEnd, j);
        }
      } else {
        assert p + 2 <= q by {
          assert data[q] == 13 by { assert data[q..q + 4][0] == data[q]; }
          assert data[p + 1] == 10 by { assert data[p..p + 2][1] == data[p + 1]; }
        }
        assert OccursAt(h, LineEnd, p) by { assert h[p..p + 2] == data[p..p + 2]; }
        forall j: nat | j < p ensures !OccursAt(h, LineEnd, j) {
          OccursInPrefix(data, h, LineEnd, j);
        }
        BeforeFirstAt(h, LineEnd, p);
        BeforeFirstAt(data, LineEnd, p);
      }
    }
  }

  /** Decoding commutes with cutting at the first line end. */
  lemma DecodeFirstLine(b: seq<byte>)
    ensures Latin1Decode(BeforeFirst(b, LineEnd)) == BeforeFirst(Latin1Decode(b), "\r\n")
  {
    var s := Latin1Decode(b);
    forall j: nat ensures OccursAt(b, LineEnd, j) <==> OccursAt(s, "\r\n", j) {
      if j + 2 <= |b| {
        assert b[j..j + 2] == LineEnd <==> (b[j] == 13 && b[j + 1] == 10);
        assert s[j..j + 2] == "\r\n" <==> (s[j] == '\r' && s[j + 1] == '\n');
      }
    }
    if Contains(b, LineEnd) {
      var p := IndexOf(b, LineEnd).value;
      BeforeFirstAt(s, "\r\n", p);
    } else {
      assert !Contains(s, "\r\n") by { ContainsIff(s, "\r\n"); ContainsIff(b, LineEnd); }
    }
  }

  /**
    `parse_request` succeeds exactly when the first line of the received bytes
    (up to the first `\r\n`) holds three whitespace-separated tokens, and then
    returns them; where the header block ends does not matter.
  */
  lemma ParseRequestFirstLine(data: seq<byte>)
    ensures var ws := Words(Latin1Decode(BeforeFirst(data, LineEnd)));
      ParseRequest(data) == if |ws| == 3 then Some(RequestLine(ws[0], ws[1], ws[2])) else None
  {
    var headerPart := BeforeFirst(data, Terminator);
    SplitHeadIsBeforeFirst(Latin1Decode(headerPart), "\r\n");
    DecodeFirstLine(headerPart);
    FirstLineOfHeader(data);
  }

  /** A word followed by one space is split off whole. */
  lemma WordsSpaceCons(w: string, rest: string)
    requires w != [] && NoSpace(w)
    ensures Words(w + " " + rest) == [w] + Words(rest)
  {
    WordsCons(w, " " + rest);
    WordsSkipSpace(" ", rest);
    assert w + (" " + rest) == w + " " + rest;
  }

  /** Three tokens joined by single spaces split back into those tokens. */
  lemma WordsOfThree(m: string, t: string, v: string)
    requires m != [] && t != [] && v != []
    requires NoSpace(m) && NoSpace(t) && NoSpace(v)
    ensures Words(m + " " + t + " " + v) == [m, t, v]
  {
    WordsOfOne(v);
    WordsSpaceCons(t, v);
    var tv := t + " " + v;
    assert Words(tv) == [t, v] by { assert [t] + [v] == [t, v]; }
    WordsSpaceCons(m, tv);
    assert Words(m + " " + tv) == [m, t, v] by { assert [m] + [t, v] == [m, t, v]; }
    assert m + " " + tv == m + " " + t + " " + v;
  }

  lemma WordsOfOne(w: string)
    requires w != [] && NoSpace(w)
    ensures Words(w) == [w]
  {
    WordsCons(w, "");
    assert w + "" == w;
  }

  /** A request line built from three tokens is parsed back into those tokens, whatever follows it. */
  lemma ParseRequestRoundTrip(m: string, t: string, v: string, rest: seq<byte>)
    requires m != [] && t != [] && v != []
    requires NoSpace(m) && NoSpace(t) && NoSpace(v)
    requires IsLatin1(m) && IsLatin1(t) && IsLatin1(v)
    ensures ParseRequest(Latin1Encode(m + " " + t + " " + v) + LineEnd + rest) == Some(RequestLine(m, t, v))
  {
    var line := m + " " + t + " " + v;
    var lineBytes := Latin1Encode(line);
    forall j | 0 <= j < |lineBytes| ensures lineBytes[j] != 13 {
      if j < |m| { assert line[j] == m[j]; }
      else if j == |m| { }
      else if j < |m| + 1 + |t| { assert line[j] == t[j - |m| - 1]; }
      else if j == |m| + 1 + |t| { }
      else { assert line[j] == v[j - |m| - 2 - |t|]; }
    }
    BeforeFirstFree(lineBytes, LineEnd, rest);
    assert Latin1Decode(lineBytes) == line;
    ParseRequestFirstLine(lineBytes + LineEnd + rest);
    WordsOfThree(m, t, v);
  }
}
