/** Receiving requests from a client connection (`vss_client`): a 48-byte header, verified by
    a task of its own, then a body of the announced length, then the server's verdict before
    the next request is read. The socket may deliver the bytes in any pieces. */
module RequestFraming {

  import opened Bytes

  const MAX_BODY := 0x20_0000

  datatype Request = Request(header: seq<byte>, body: seq<byte>)

  /** What the sessions answer: is the `k`-th header authentic, is the `k`-th body? */
  datatype Verdicts = Verdicts(authentic: (nat, seq<byte>) -> bool, intact: (nat, Request) -> bool)

  predicate Accepted(v: Verdicts, k: nat, h: seq<byte>) {
    |h| == HEADER_SIZE && v.authentic(k, h) && DataLength(h) <= MAX_BODY
  }

  /** A header gets through when it is authentic and announces two megabytes at most. */
  lemma AcceptedIff(v: Verdicts, k: nat, h: seq<byte>)
    ensures Accepted(v, k, h)
       <==> && |h| == 48 && v.authentic(k, h) && h[24] == 0
            && (h[25] < 0x20 || (h[25] == 0x20 && h[26] == 0 && h[27] == 0))
  {
    if |h| == 48 {
      DataLengthBytes(h);
    }
  }

  /** The requests in a byte stream, from the `k`-th on, up to the first refused header or bad
      body, or the first incomplete request. */
  function Parse(v: Verdicts, k: nat, stream: seq<byte>): seq<Request>
    decreases |stream|
  {
    if |stream| < HEADER_SIZE || !Accepted(v, k, stream[..HEADER_SIZE]) then []
    else
      var end := HEADER_SIZE + DataLength(stream[..HEADER_SIZE]);
      if |stream| < end then []
      else
        var r := Request(stream[..HEADER_SIZE], stream[HEADER_SIZE..end]);
        [r] + (if v.intact(k, r) then Parse(v, k + 1, stream[end..]) else [])
  }

  predicate Framed(r: Request) {
    |r.header| == HEADER_SIZE && |r.body| == DataLength(r.header)
  }

  /** The bytes of whole requests, one after the other. */
  function Raw(rs: seq<Request>): seq<byte> {
    if rs == [] then [] else rs[0].header + rs[0].body + Raw(rs[1..])
  }

  lemma {:induction false} RawAppend(rs: seq<Request>, r: Request)
    ensures Raw(rs + [r]) == Raw(rs) + (r.header + r.body)
  {
    if rs == [] {
      assert rs + [r] == [r] && Raw([r][1..]) == [];
    } else {
      RawAppend(rs[1..], r);
      assert (rs + [r])[1..] == rs[1..] + [r];
      assert rs[0].header + rs[0].body + (Raw(rs[1..]) + (r.header + r.body)) == Raw(rs) + (r.header + r.body);
    }
  }

  /** Requests that were framed, accepted and, but for the last one, intact. */
  ghost predicate Served(v: Verdicts, k: nat, rs: seq<Request>) {
    && (forall i | 0 <= i < |rs| :: Framed(rs[i]) && Accepted(v, k + i, rs[i].header))
    && (forall i | 0 <= i < |rs| - 1 :: v.intact(k + i, rs[i]))
  }

  lemma ParseFirst(v: Verdicts, k: nat, r: Request, tail: seq<byte>)
    requires Framed(r) && Accepted(v, k, r.header)
    ensures Parse(v, k, r.header + r.body + tail) == [r] + (if v.intact(k, r) then Parse(v, k + 1, tail) else [])
  {
    var s := r.header + r.body + tail;
    var end := HEADER_SIZE + |r.body|;
    assert s[..HEADER_SIZE] == r.header && s[HEADER_SIZE..end] == r.body && s[end..] == tail;
  }

  predicate LastIntact(v: Verdicts, k: nat, rs: seq<Request>) {
    rs != [] ==> v.intact(k + |rs| - 1, rs[|rs| - 1])
  }

  lemma ServedTail(v: Verdicts, k: nat, rs: seq<Request>)
    requires Served(v, k, rs) && rs != []
    ensures Served(v, k + 1, rs[1..]) && (|rs| > 1 ==> v.intact(k, rs[0]))
    ensures |rs| > 1 ==> LastIntact(v, k + 1, rs[1..]) == LastIntact(v, k, rs)
  {
    hide Framed, Accepted;
    var rest := rs[1..];
    forall i | 0 <= i < |rest| ensures Framed(rest[i]) && Accepted(v, k + 1 + i, rest[i].header) {
      assert rest[i] == rs[i + 1];
    }
    forall i | 0 <= i < |rest| - 1 ensures v.intact(k + 1 + i, rest[i]) {
      assert rest[i] == rs[i + 1];
    }
    if |rs| > 1 {
      assert v.intact(k + 0, rs[0]);
    }
  }

  /** Parsing gives back the requests that were served, and then parses what follows. */
  lemma {:induction false} ParseServed(v: Verdicts, k: nat, rs: seq<Request>, tail: seq<byte>)
    requires Served(v, k, rs)
    ensures Parse(v, k, Raw(rs) + tail) == rs + (if LastIntact(v, k, rs) then Parse(v, k + |rs|, tail) else [])
    decreases |rs|
  {
    hide Parse, Framed, Accepted, LastIntact;
    if rs == [] {
      assert LastIntact(v, k, rs) by { EmptyIntact(v, k); }
      assert Raw(rs) + tail == tail;
    } else {
      var rest := rs[1..];
      ServedTail(v, k, rs);
      ParseServed(v, k + 1, rest, tail);
      assert Raw(rs) + tail == rs[0].header + rs[0].body + (Raw(rest) + tail);
      assert Framed(rs[0]) && Accepted(v, k + 0, rs[0].header);
      ParseFirst(v, k, rs[0], Raw(rest) + tail);
      if |rs| == 1 {
        OneIntact(v, k, rs);
      }
    }
  }

  lemma EmptyIntact(v: Verdicts, k: nat)
    ensures LastIntact(v, k, [])
  {
  }

  lemma OneIntact(v: Verdicts, k: nat, rs: seq<Request>)
    requires |rs| == 1
    ensures LastIntact(v, k, rs) == v.intact(k, rs[0]) && LastIntact(v, k + 1, rs[1..])
  {
  }

  /** A stream of whole requests, all good, parses back to them. */
  lemma ParseInvertsRaw(v: Verdicts, rs: seq<Request>)
    requires forall i | 0 <= i < |rs| :: Framed(rs[i]) && Accepted(v, i, rs[i].header) && v.intact(i, rs[i])
    ensures Parse(v, 0, Raw(rs)) == rs
  {
    forall i | 0 <= i < |rs| ensures Framed(rs[i]) && Accepted(v, 0 + i, rs[i].header) && v.intact(0 + i, rs[i]) {
    }
    ParseServed(v, 0, rs, []);
    assert Raw(rs) + [] == Raw(rs);
  }

  /** An incomplete request parses to nothing. */
  predicate Incomplete(v: Verdicts, k: nat, p: seq<byte>) {
    |p| < HEADER_SIZE || (Accepted(v, k, p[..HEADER_SIZE]) && |p| < HEADER_SIZE + DataLength(p[..HEADER_SIZE]))
  }

  lemma ParseIncomplete(v: Verdicts, rs: seq<Request>, p: seq<byte>)
    requires Served(v, 0, rs) && (LastIntact(v, 0, rs) ==> Incomplete(v, |rs|, p))
    ensures Parse(v, 0, Raw(rs) + p) == rs
  {
    assert LastIntact(v, 0, rs) ==> Parse(v, |rs|, p) == [];
    hide Parse, Incomplete, Accepted, Framed, LastIntact;
    ParseServed(v, 0, rs, p);
  }

  lemma ParseRefused(v: Verdicts, rs: seq<Request>, h: seq<byte>)
    requires Served(v, 0, rs) && |h| == HEADER_SIZE && !Accepted(v, |rs|, h)
    ensures Parse(v, 0, Raw(rs) + h) == rs
  {
    hide Parse, Accepted, Framed, LastIntact;
    RefusedParsesToNothing(v, |rs|, h);
    ParseServed(v, 0, rs, h);
  }

  lemma RefusedParsesToNothing(v: Verdicts, k: nat, h: seq<byte>)
    requires |h| == HEADER_SIZE && !Accepted(v, k, h)
    ensures Parse(v, k, h) == []
  {
    assert h[..HEADER_SIZE] == h;
  }

  lemma ServedOneMore(v: Verdicts, rs: seq<Request>, r: Request)
    requires Served(v, 0, rs) && LastIntact(v, 0, rs) && Framed(r) && Accepted(v, |rs|, r.header)
    ensures Served(v, 0, rs + [r])
  {
    var s := rs + [r];
    forall i | 0 <= i < |s| ensures Framed(s[i]) && Accepted(v, 0 + i, s[i].header) {
      if i < |rs| { assert Framed(rs[i]) && Accepted(v, 0 + i, rs[i].header); }
    }
    forall i | 0 <= i < |s| - 1 ensures v.intact(0 + i, s[i]) {
      if i < |rs| - 1 { assert v.intact(0 + i, rs[i]); }
    }
  }

  lemma PrefixGrows(a: seq<byte>, off: nat, data: seq<byte>)
    requires off + |data| <= |a| && a[off..off + |data|] == data
    ensures a[..off + |data|] == a[..off] + data
  {
    assert a[..off + |data|] == a[..off] + a[off..off + |data|];
  }

  /** Who may act next on the connection. */
  datatype Phase = Reading | Verifying | Serving | Broken

  /** What the socket answers. */
  datatype Delivery = Bytes(data: seq<byte>) | Again | Lost

  class Connection {
    ghost const verdicts: Verdicts
    var header: array?<byte>   // with `body`, the request coming in; null when there is none
    var body: array?<byte>
    var reqlen: nat
    var reqSoFar: nat
    var receiving: bool
    var recvError: bool
    var disconnected: bool
    var received: seq<Request>      // trace: requests handed to the server
    ghost var consumed: seq<byte>   // trace: bytes taken from the socket
    ghost var phase: Phase

    /** The bytes of the request coming in. */
    ghost function Partial(): seq<byte>
      reads this, header, body
    {
      if header == null || header.Length != HEADER_SIZE then []
      else if reqSoFar <= HEADER_SIZE then header[..reqSoFar]
      else if body == null || body.Length < reqSoFar - HEADER_SIZE then header[..]
      else header[..] + body[..reqSoFar - HEADER_SIZE]
    }

    ghost predicate ShapeValid()
      reads this, header, body
    {
      && (header != null ==> header.Length == HEADER_SIZE)
      && (body != null ==> header != null && reqlen > 0 && body.Length == reqlen && body != header)
      && (recvError ==> phase == Broken) && (phase == Broken ==> recvError || disconnected)
      && (receiving ==> phase == Reading) && (phase == Reading && !disconnected ==> receiving)
      && (match phase
          case Reading =>
            (header != null ==>
              if reqlen == 0 then body == null && reqSoFar < HEADER_SIZE
              else HEADER_SIZE <= reqSoFar < HEADER_SIZE + reqlen && (body == null ==> reqSoFar == HEADER_SIZE)
                   && reqlen == DataLength(header[..]) && Accepted(verdicts, |received|, header[..]))
          case Verifying => header != null && body == null && reqlen == 0 && reqSoFar == HEADER_SIZE
          case Serving => header == null && received != []
          case Broken => header == null)
    }

    ghost predicate TraceValid()
      reads this, header, body
    {
      && Served(verdicts, 0, received)
      && (phase == Broken ==> received == Parse(verdicts, 0, consumed))
      && (phase != Broken ==> consumed == Raw(received) + Partial())
      && (phase == Reading || phase == Verifying ==> LastIntact(verdicts, 0, received))
    }

    ghost predicate Valid()
      reads this, header, body
    {
      ShapeValid() && TraceValid()
    }

    constructor (ghost verdicts: Verdicts)
      ensures Valid() && this.verdicts == verdicts && consumed == [] && received == [] && phase == Reading
    {
      this.verdicts := verdicts;
      header, body, reqlen, reqSoFar := null, null, 0, 0;
      receiving, recvError, disconnected, received, consumed, phase := true, false, false, [], [], Reading;
    }

    /** How many bytes the connection is ready to take. */
    ghost function Wanted(): int
      reads this
    {
      if header == null then HEADER_SIZE
      else if reqlen == 0 then HEADER_SIZE - reqSoFar
      else HEADER_SIZE + reqlen - reqSoFar
    }

    /** The request or its body has yet to be allocated. */
    ghost predicate NeedsMemory()
      reads this
    {
      header == null || (reqlen > 0 && body == null)
    }

    /** The window to receive into: inside the header, or inside a body of exactly the
        announced length. There is none if memory is needed and cannot be had. */
    method ReceiveBuffer(memory: bool) returns (buf: array?<byte>, off: nat, size: nat)
      requires Valid() && phase == Reading
      modifies this`header, this`body, this`reqlen, this`reqSoFar
      ensures Valid() && Wanted() == old(Wanted()) > 0
      ensures buf == null <==> !memory && old(NeedsMemory())
      ensures header != null ==> header == old(header) || fresh(header)
      ensures body != null ==> body == old(body) || fresh(body)
      ensures buf != null ==>
                && header != null && size == Wanted() && off + size == buf.Length
                && if reqlen == 0 then buf == header && off == reqSoFar else buf == body && off == reqSoFar - HEADER_SIZE
    {
      hide Served, Parse, LastIntact, Accepted, DataLength, Raw;
      buf, off, size := null, 0, 0;
      if header == null {
        reqlen, reqSoFar := 0, 0;
        if !memory {
          return;
        }
        header := new byte[HEADER_SIZE];
        assert Partial() == [];
      }
      if reqlen == 0 {
        buf, off, size := header, reqSoFar, HEADER_SIZE - reqSoFar;
      } else {
        if body == null {
          if !memory {
            return;
          }
          assert Partial() == header[..];
          body := new byte[reqlen](_ => 0);
          assert Partial() == header[..];
        }
        buf, off := body, reqSoFar - HEADER_SIZE;
        size := reqlen - off;
      }
    }

    /** The bytes land in the window; nothing else of the request changes. */
    method Store(buf: array<byte>, off: nat, data: seq<byte>)
      requires off + |data| <= buf.Length
      modifies buf
      ensures buf[..off] == old(buf[..off]) && buf[off..off + |data|] == data
      ensures buf[off + |data|..] == old(buf[off + |data|..])
    {
      forall i | 0 <= i < |data| {
        buf[off + i] := data[i];
      }
    }

    /** Bytes have been taken in and are not looked at yet. */
    ghost predicate Arrived()
      reads this, header, body
    {
      && phase == Reading && receiving && !recvError
      && header != null && header.Length == HEADER_SIZE && TraceValid()
      && (if reqlen == 0 then body == null && 0 < reqSoFar <= HEADER_SIZE
          else body != null && body != header && body.Length == reqlen && HEADER_SIZE < reqSoFar <= HEADER_SIZE + reqlen
               && reqlen == DataLength(header[..]) && Accepted(verdicts, |received|, header[..]))
    }

    /** The socket writes into the window. */
    method TakeIn(data: seq<byte>)
      requires Valid() && phase == Reading && receiving && 0 < |data| <= Wanted()
      requires header != null && (reqlen > 0 ==> body != null)
      modifies this`reqSoFar, this`consumed, header, body
      ensures Arrived() && consumed == old(consumed) + data
    {
      hide TraceValid, Accepted, DataLength;
      if reqlen == 0 {
        TakeInHeader(data);
      } else {
        TakeInBody(data);
      }
    }

    method TakeInHeader(data: seq<byte>)
      requires Valid() && receiving && header != null && reqlen == 0 && 0 < |data| <= HEADER_SIZE - reqSoFar
      modifies this`reqSoFar, this`consumed, header
      ensures Arrived() && consumed == old(consumed) + data
    {
      hide Served, Parse, LastIntact, Accepted, DataLength, Raw;
      ghost var before := Partial();
      Store(header, reqSoFar, data);
      PrefixGrows(header[..], reqSoFar, data);
      assert header[..reqSoFar + |data|] == before + data;
      reqSoFar := reqSoFar + |data|;
      consumed := consumed + data;
      assert Raw(received) + (before + data) == Raw(received) + before + data;
    }

    method TakeInBody(data: seq<byte>)
      requires Valid() && receiving && body != null && 0 < |data| <= HEADER_SIZE + reqlen - reqSoFar
      modifies this`reqSoFar, this`consumed, body
      ensures Arrived() && consumed == old(consumed) + data
    {
      hide Served, Parse, LastIntact, Accepted, DataLength, Raw;
      var off := reqSoFar - HEADER_SIZE;
      ghost var before := Partial();
      assert before == header[..] + body[..off];
      Store(body, off, data);
      PrefixGrows(body[..], off, data);
      assert header[..] + (body[..off] + data) == before + data;
      reqSoFar := reqSoFar + |data|;
      consumed := consumed + data;
      assert Partial() == before + data;
      assert Raw(received) + (before + data) == Raw(received) + before + data;
    }

    /** Has the header or the body become complete? */
    method HandleReceived()
      requires Arrived()
      modifies this
      ensures Valid() && consumed == old(consumed) && phase != Broken
    {
      if reqSoFar < HEADER_SIZE {
      } else if reqSoFar == HEADER_SIZE {
        receiving, phase := false, Verifying;
      } else if reqlen > 0 && reqSoFar == reqlen + HEADER_SIZE {
        assert Partial() == header[..] + body[..];
        HandOver(body[..]);
      }
    }

    /** Give the complete request to the server and wait for its verdict. */
    method HandOver(data: seq<byte>)
      requires header != null && header.Length == HEADER_SIZE && !recvError
      requires TraceValid() && (phase == Reading || phase == Verifying)
      requires Accepted(verdicts, |received|, header[..]) && |data| == DataLength(header[..])
      requires Partial() == header[..] + data
      modifies this
      ensures Valid() && phase == Serving && consumed == old(consumed)
    {
      var r := Request(header[..], data);
      RawAppend(received, r);
      ServedOneMore(verdicts, received, r);
      assert consumed == Raw(received) + (r.header + r.body);
      hide Served, Raw;
      received := received + [r];
      header, body, receiving, phase := null, null, false, Serving;
      assert Partial() == [] && Raw(received) + [] == Raw(received);
    }

    /** One receive from the socket, while the connection takes part in receiving. */
    method DoReceive(memory: bool, delivery: Delivery)
      requires Valid() && receiving
      requires delivery.Bytes? ==> 0 < |delivery.data| <= Wanted()
      modifies this, header, body
      ensures Valid() && (phase == Broken <==> delivery.Lost? && (memory || !old(NeedsMemory())))
      ensures consumed == old(consumed) + (if delivery.Bytes? && (memory || !old(NeedsMemory())) then delivery.data else [])
    {
      var buf, _, _ := ReceiveBuffer(memory);
      if buf == null {
        return;
      }
      match delivery
      case Again =>
      case Lost =>
        HandedSoFar();
        disconnected := true;
        Break();
      case Bytes(data) =>
        TakeIn(data);
        HandleReceived();
    }

    /** The sending side gives the connection up. Nothing more is read, unless a header or a
        request is just being looked at: when that is done, reading goes on. */
    method Disconnect()
      requires Valid()
      modifies this`disconnected, this`receiving
      ensures Valid() && disconnected && !receiving && phase == old(phase)
    {
      hide Served, Parse, LastIntact, Accepted, DataLength, Raw;
      disconnected, receiving := true, false;
      assert Partial() == old(Partial());
    }

    method Break()
      requires recvError || disconnected
      requires Served(verdicts, 0, received) && received == Parse(verdicts, 0, consumed)
      modifies this
      ensures Valid() && phase == Broken && consumed == old(consumed) && received == old(received)
      ensures disconnected == old(disconnected)
    {
      header, body, receiving, phase := null, null, false, Broken;
    }

    /** The task that verifies a header: it refuses it, serves a request without a body, or
        lets the body in. */
    method VerifyIncomingHeader(authentic: bool)
      requires Valid() && phase == Verifying
      requires authentic == verdicts.authentic(|received|, header[..])
      modifies this
      ensures Valid() && consumed == old(consumed) && phase != Verifying && receiving == (phase == Reading)
    {
      assert Partial() == header[..];
      var length := DataLength(header[..]);
      if !authentic || length > MAX_BODY {
        ParseRefused(verdicts, received, header[..]);
        recvError := true;
        Break();
      } else if length == 0 {
        assert header[..] + [] == header[..];
        HandOver([]);
      } else {
        reqlen, receiving, phase := length, true, Reading;
        assert Partial() == header[..];
      }
    }

    /** The server's verdict on the request it was given. */
    method VerifyRequest(intact: bool)
      requires Valid() && phase == Serving
      requires intact == verdicts.intact(|received| - 1, received[|received| - 1])
      modifies this
      ensures Valid() && consumed == old(consumed) && received == old(received)
      ensures phase == (if intact then Reading else Broken) && receiving == intact && disconnected == old(disconnected)
    {
      if !intact {
        HandedSoFar();
        recvError := true;
        Break();
      } else {
        receiving, phase := true, Reading;
      }
    }

    /** Except while a header is being verified, the server has been given exactly the
        requests in the bytes received so far. */
    lemma HandedSoFar()
      requires Valid() && phase != Verifying
      ensures received == Parse(verdicts, 0, consumed)
    {
      if phase == Reading && header != null && reqlen > 0 {
        assert Partial()[..HEADER_SIZE] == header[..];
      }
      if phase != Broken {
        ParseIncomplete(verdicts, received, Partial());
      }
    }
  }

  /** Main result: what the server is given depends on the bytes alone, not on the pieces in
      which the socket delivered them. */
  lemma PiecesDoNotMatter(a: Connection, b: Connection)
    requires a.Valid() && b.Valid() && a.phase != Verifying && b.phase != Verifying
    requires a.verdicts == b.verdicts && a.consumed == b.consumed
    ensures a.received == b.received == Parse(a.verdicts, 0, a.consumed)
  {
    a.HandedSoFar();
    b.HandedSoFar();
  }
}
