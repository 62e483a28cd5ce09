// S3FS_Control_Client: length-prefixed packets over a socket that delivers its
// bytes in arbitrary pieces.

module Framing {
  import opened Bytes
  import MetaStream

  const MAX: nat := 131072

  /** A QByteArray's length is a C int. */
  predicate Sendable(p: bytes) { |p| < 0x8000_0000 }

  function Frame(p: bytes): bytes { BigEndian(|p|, 4) + p }

  /** What send leaves on the wire for a list of packets: empty ones are not sent. */
  function Wire(ps: seq<bytes>): bytes {
    if ps == [] then [] else (if ps[0] == [] then [] else Frame(ps[0])) + Wire(ps[1..])
  }

  /** On the wire: a packet of three bytes and one of a single byte, with an empty one between. */
  lemma PacketsOnTheWire()
    ensures Wire([[7, 8, 9], [], [5]]) == [0, 0, 0, 3, 7, 8, 9] + [0, 0, 0, 1, 5]
  {
    FramesOnTheWire();
    var ps: seq<bytes> := [[7, 8, 9], [], [5]];
    assert ps[1..] == [[], [5]] && ps[1..][1..] == [[5]] && ps[1..][1..][1..] == [];
    assert Wire([[5]]) == Frame([5]) + Wire([]);
    assert Wire(ps[1..]) == [] + Wire(ps[1..][1..]);
  }

  lemma FramesOnTheWire()
    ensures Frame([7, 8, 9]) == [0, 0, 0, 3, 7, 8, 9] && Frame([5]) == [0, 0, 0, 1, 5]
  {
    FourBytes(3);
    FourBytes(1);
  }

  function Frames(ps: seq<bytes>): bytes { if ps == [] then [] else Frame(ps[0]) + Frames(ps[1..]) }

  datatype Parsed = Parsed(packets: seq<bytes>, rest: bytes, dropped: bool)

  /** The loop of read over what is buffered. */
  function Parse(buf: bytes): (r: Parsed)
    ensures r.dropped ==> r.rest == []
    decreases |buf|
  {
    if |buf| < 4 then Parsed([], buf, false)
    else
      var len := Number(buf[..4]);
      if len > MAX then Parsed([], [], true)
      else if |buf| < 4 + len then Parsed([], buf, false)
      else
        var r := Parse(buf[4 + len..]);
        Parsed([buf[4..4 + len]] + r.packets, r.rest, r.dropped)
  }

  /** Packets handed over so far; a closed connection reads no more. */
  datatype Conn = Conn(buf: bytes, open: bool, handed: seq<bytes>)

  const FRESH := Conn([], true, [])

  /** handlePacket closes the connection on some packets, such as those that are not JSON objects. */
  predicate NoneCloses(closes: bytes -> bool, ps: seq<bytes>) { forall i :: 0 <= i < |ps| ==> !closes(ps[i]) }

  function HandOver(closes: bytes -> bool, handed: seq<bytes>, r: Parsed): Conn {
    Conn(r.rest, !r.dropped && NoneCloses(closes, r.packets), handed + r.packets)
  }

  /** One call of read that finds chunk on the socket. */
  function Arrive(closes: bytes -> bool, c: Conn, chunk: bytes): Conn {
    if !c.open then c else HandOver(closes, c.handed, Parse(c.buf + chunk))
  }

  function Arrivals(closes: bytes -> bool, c: Conn, chunks: seq<bytes>): Conn
    decreases |chunks|
  {
    if chunks == [] then c else Arrivals(closes, Arrive(closes, c, chunks[0]), chunks[1..])
  }

  function Concat(chunks: seq<bytes>): bytes {
    if chunks == [] then [] else chunks[0] + Concat(chunks[1..])
  }

  function Joined(r: Parsed, more: Parsed): Parsed {
    if r.dropped then r else Parsed(r.packets + more.packets, more.rest, more.dropped)
  }

  /** The buffer begins with a complete frame of len bytes. */
  predicate Complete(buf: bytes, len: nat) {
    |buf| >= 4 + len && Number(buf[..4]) == len && len <= MAX
  }

  lemma ParseFirst(a: bytes, b: bytes, len: nat)
    requires Complete(a, len)
    ensures var r := Parse(a[4 + len..] + b);
            Parse(a + b) == Parsed([a[4..4 + len]] + r.packets, r.rest, r.dropped)
  {
    assert (a + b)[..4] == a[..4];
    assert (a + b)[4 + len..] == a[4 + len..] + b && (a + b)[4..4 + len] == a[4..4 + len];
  }

  /** Parsing in two steps: what the first step leaves is taken up by the second. */
  lemma {:induction false} ParseAppend(a: bytes, b: bytes)
    ensures Parse(a + b) == Joined(Parse(a), Parse(Parse(a).rest + b))
    decreases |a|
  {
    if |a| >= 4 {
      var len := Number(a[..4]);
      if Complete(a, len) {
        var rest := a[4 + len..];
        ParseFirst(a, b, len);
        ParseAppend(rest, b);
        PrependJoined(a[4..4 + len], Parse(rest), Parse(Parse(rest).rest + b));
      } else if len > MAX {
        assert (a + b)[..4] == a[..4];
      }
    }
  }

  lemma PrependJoined(p: bytes, r: Parsed, more: Parsed)
    ensures var j := Joined(r, more);
            Parsed([p] + j.packets, j.rest, j.dropped) == Joined(Parsed([p] + r.packets, r.rest, r.dropped), more)
  {
    assert [p] + (r.packets + more.packets) == [p] + r.packets + more.packets;
  }

  /** Nothing complete is kept back. */
  lemma {:induction false} RestIncomplete(a: bytes)
    ensures Parse(Parse(a).rest) == Parsed([], Parse(a).rest, false)
    decreases |a|
  {
    if |a| >= 4 {
      var len := Number(a[..4]);
      if len <= MAX && |a| >= 4 + len {
        RestIncomplete(a[4 + len..]);
      }
    }
  }

  ghost predicate Incomplete(buf: bytes) { Parse(buf) == Parsed([], buf, false) }

  lemma HandOverTwice(closes: bytes -> bool, handed: seq<bytes>, r: Parsed, more: Parsed)
    requires !r.dropped && NoneCloses(closes, r.packets)
    ensures HandOver(closes, HandOver(closes, handed, r).handed, more) == HandOver(closes, handed, Joined(r, more))
  {
    SomeCloses(closes, r.packets, more.packets);
    assert handed + r.packets + more.packets == handed + (r.packets + more.packets);
  }

  lemma ArrivalSplits(closes: bytes -> bool, c: Conn, a: bytes, b: bytes)
    requires c.open && NoneCloses(closes, Parse(c.buf + (a + b)).packets)
    ensures Arrive(closes, Arrive(closes, c, a), b) == Arrive(closes, c, a + b)
    ensures var r := Parse(c.buf + a); !r.dropped ==>
              NoneCloses(closes, r.packets) && NoneCloses(closes, Parse(r.rest + b).packets)
  {
    var r := Parse(c.buf + a);
    assert c.buf + (a + b) == c.buf + a + b;
    ParseAppend(c.buf + a, b);
    if !r.dropped {
      var more := Parse(r.rest + b);
      SomeCloses(closes, r.packets, more.packets);
      HandOverTwice(closes, c.handed, r, more);
    }
  }

  lemma SomeCloses(closes: bytes -> bool, a: seq<bytes>, b: seq<bytes>)
    ensures NoneCloses(closes, a + b) <==> NoneCloses(closes, a) && NoneCloses(closes, b)
  {
    if NoneCloses(closes, a + b) {
      assert forall i :: 0 <= i < |a| ==> a[i] == (a + b)[i];
      assert forall i :: 0 <= i < |b| ==> b[i] == (a + b)[|a| + i];
    }
  }

  /** Framing is independent of chunking: however the bytes are cut, the connection ends in the
      same state, with the same packets handed over in order and the same incomplete suffix kept. */
  lemma {:induction false} ChunkingIrrelevant(closes: bytes -> bool, c: Conn, chunks: seq<bytes>)
    requires c.open && Incomplete(c.buf) && NoneCloses(closes, Parse(c.buf + Concat(chunks)).packets)
    ensures Arrivals(closes, c, chunks) == Arrive(closes, c, Concat(chunks))
    decreases |chunks|
  {
    if chunks == [] {
      assert c.buf + [] == c.buf && c.handed + [] == c.handed;
    } else {
      var a, b := chunks[0], Concat(chunks[1..]);
      var next := Arrive(closes, c, a);
      ArrivalSplits(closes, c, a, b);
      if next.open {
        RestIncomplete(c.buf + a);
        ChunkingIrrelevant(closes, next, chunks[1..]);
      } else {
        ClosedStays(closes, next, chunks[1..]);
      }
    }
  }

  lemma {:induction false} ClosedStays(closes: bytes -> bool, c: Conn, chunks: seq<bytes>)
    requires !c.open
    ensures Arrivals(closes, c, chunks) == c
    decreases |chunks|
  {
    if chunks != [] {
      ClosedStays(closes, c, chunks[1..]);
    }
  }

  // ---- what send writes, read hands over

  function NonEmpty(ps: seq<bytes>): seq<bytes> {
    if ps == [] then [] else (if ps[0] == [] then [] else [ps[0]]) + NonEmpty(ps[1..])
  }

  /** The packets before the first one that is too large. */
  function Small(ps: seq<bytes>): seq<bytes> {
    if ps == [] || |ps[0]| > MAX then [] else [ps[0]] + Small(ps[1..])
  }

  predicate AllSendable(ps: seq<bytes>) { forall i :: 0 <= i < |ps| ==> Sendable(ps[i]) }

  lemma ParseFrame(p: bytes, tail: bytes)
    requires Sendable(p)
    ensures var r := Parse(tail);
            Parse(Frame(p) + tail) ==
            if |p| > MAX then Parsed([], [], true) else Parsed([p] + r.packets, r.rest, r.dropped)
  {
    var buf := Frame(p) + tail;
    MetaStream.Pow4();
    NumberOfBigEndian(|p|, 4);
    assert buf[..4] == BigEndian(|p|, 4);
    if |p| <= MAX {
      assert buf[4..4 + |p|] == p && buf[4 + |p|..] == tail;
    }
  }

  lemma {:induction false} ParseFrames(ps: seq<bytes>)
    requires AllSendable(ps)
    ensures Parse(Frames(ps)) == Parsed(Small(ps), [], Small(ps) != ps)
  {
    if ps != [] {
      ParseFrames(ps[1..]);
      ParseFrame(ps[0], Frames(ps[1..]));
      assert ps == [ps[0]] + ps[1..];
      assert |ps[0]| <= MAX ==> Small(ps)[1..] == Small(ps[1..]);
    }
  }

  lemma {:induction false} WireIsFrames(ps: seq<bytes>)
    requires AllSendable(ps)
    ensures Wire(ps) == Frames(NonEmpty(ps)) && AllSendable(NonEmpty(ps))
  {
    if ps != [] {
      WireIsFrames(ps[1..]);
      var rest := NonEmpty(ps[1..]);
      assert ([ps[0]] + rest)[1..] == rest && [] + rest == rest;
    }
  }

  lemma HandedOver(closes: bytes -> bool, ps: seq<bytes>, chunks: seq<bytes>)
    requires AllSendable(ps) && Concat(chunks) == Wire(ps) && NoneCloses(closes, NonEmpty(ps))
    ensures var got := Small(NonEmpty(ps));
            Arrivals(closes, FRESH, chunks) == Conn([], got == NonEmpty(ps), got)
  {
    var all, got := NonEmpty(ps), Small(NonEmpty(ps));
    WireIsFrames(ps);
    ParseFrames(all);
    assert got <= all by { SmallIsPrefix(all); }
    assert [] + Concat(chunks) == Frames(all) && [] + got == got;
    ChunkingIrrelevant(closes, FRESH, chunks);
  }

  /** Round trip over any chunking: the receiver gets exactly the non-empty packets, in order, up to
      the first one above the limit, which ends the connection. */
  lemma SentIsHandedOver(closes: bytes -> bool, ps: seq<bytes>, chunks: seq<bytes>) returns (got: seq<bytes>)
    requires AllSendable(ps) && Concat(chunks) == Wire(ps) && NoneCloses(closes, NonEmpty(ps))
    ensures Arrivals(closes, FRESH, chunks) == Conn([], got == NonEmpty(ps), got)
    ensures var all := NonEmpty(ps);
            && got <= all && (forall i :: 0 <= i < |got| ==> |got[i]| <= 131072)
            && (got != all ==> |all[|got|]| > 131072)
  {
    got := Small(NonEmpty(ps));
    HandedOver(closes, ps, chunks);
    SmallIsPrefix(NonEmpty(ps));
  }

  lemma {:induction false} SmallIsPrefix(ps: seq<bytes>)
    ensures Small(ps) <= ps && forall i :: 0 <= i < |Small(ps)| ==> |Small(ps)[i]| <= MAX
    ensures Small(ps) != ps ==> |ps[|Small(ps)|]| > MAX
  {
    if ps != [] {
      SmallIsPrefix(ps[1..]);
      assert ps == [ps[0]] + ps[1..];
    }
  }

  // ---- packets that close the connection

  /** What a buffer parses to is what its frames were. */
  lemma {:induction false} ParseLayout(buf: bytes) returns (tail: bytes)
    ensures buf == Frames(Parse(buf).packets) + tail && AllSmall(Parse(buf).packets)
    decreases |buf|
  {
    tail := buf;
    if |buf| >= 4 {
      var len := Number(buf[..4]);
      if len <= MAX && |buf| >= 4 + len {
        tail := ParseLayout(buf[4 + len..]);
        FramesFront(buf, len, Parse(buf[4 + len..]).packets, tail);
      }
    }
  }

  predicate AllSmall(ps: seq<bytes>) { forall i :: 0 <= i < |ps| ==> |ps[i]| <= MAX }

  lemma FramesFront(buf: bytes, len: nat, ps: seq<bytes>, tail: bytes)
    requires 4 + len <= |buf| && Number(buf[..4]) == len && buf[4 + len..] == Frames(ps) + tail
    ensures buf == Frames([buf[4..4 + len]] + ps) + tail
  {
    var p := buf[4..4 + len];
    BigEndianOfNumber(buf[..4]);
    assert ([p] + ps)[1..] == ps;
    assert buf == buf[..4] + p + buf[4 + len..];
  }

  lemma {:induction false} AllSmallStay(ps: seq<bytes>)
    requires AllSmall(ps)
    ensures Small(ps) == ps && AllSendable(ps)
  {
    if ps != [] {
      AllSmallStay(ps[1..]);
      assert ps == [ps[0]] + ps[1..];
    }
  }

  lemma {:induction false} FramesAppend(a: seq<bytes>, b: seq<bytes>)
    ensures Frames(a + b) == Frames(a) + Frames(b)
  {
    if a == [] {
      assert a + b == b;
    } else {
      assert (a + b)[0] == a[0] && (a + b)[1..] == a[1..] + b;
      FramesAppend(a[1..], b);
    }
  }

  /** No packet closes the connection, except possibly the last. */
  predicate OnlyLastCloses(closes: bytes -> bool, ps: seq<bytes>) {
    forall i :: 0 <= i < |ps| - 1 ==> !closes(ps[i])
  }

  /** A closing packet takes effect for later arrivals only, so what is handed over after it depends
      on the cutting.  All cuttings of a byte stream hand over the same packets exactly if none but
      the last packet in it closes the connection. */
  lemma ChunkingIrrelevantIff(closes: bytes -> bool, stream: bytes)
    ensures (forall chunks :: Concat(chunks) == stream ==>
              Arrivals(closes, FRESH, chunks).handed == Parse(stream).packets) <==>
            OnlyLastCloses(closes, Parse(stream).packets)
  {
    var ps := Parse(stream).packets;
    if OnlyLastCloses(closes, ps) {
      forall chunks | Concat(chunks) == stream ensures Arrivals(closes, FRESH, chunks).handed == ps {
        assert FRESH.buf + Concat(chunks) == stream;
        AllHandedOver(closes, FRESH, chunks);
        assert [] + ps == ps;
      }
    } else {
      var i :| 0 <= i < |ps| - 1 && closes(ps[i]);
      var chunks := CutAfter(closes, stream, i);
    }
  }

  lemma CutAfter(closes: bytes -> bool, stream: bytes, i: nat) returns (chunks: seq<bytes>)
    requires var ps := Parse(stream).packets; i < |ps| - 1 && closes(ps[i])
    ensures Concat(chunks) == stream
    ensures Arrivals(closes, FRESH, chunks).handed == Parse(stream).packets[..i + 1]
  {
    var ps := Parse(stream).packets;
    var front, b := CutFrames(stream, i + 1);
    assert front[i] == ps[i];
    FirstChunk(closes, front);
    chunks := [Frames(front), b];
    TwoChunks(Frames(front), b);
    ClosedFirst(closes, Frames(front), b);
  }

  /** A stream cut after its first n packets. */
  lemma CutFrames(stream: bytes, n: nat) returns (front: seq<bytes>, b: bytes)
    requires n <= |Parse(stream).packets|
    ensures front == Parse(stream).packets[..n] && AllSmall(front) && stream == Frames(front) + b
  {
    var ps := Parse(stream).packets;
    var tail := ParseLayout(stream);
    var back := ps[n..];
    front, b := ps[..n], Frames(back) + tail;
    assert ps == front + back;
    FramesCut(front, back, tail);
  }

  lemma FramesCut(a: seq<bytes>, b: seq<bytes>, tail: bytes)
    ensures Frames(a + b) + tail == Frames(a) + (Frames(b) + tail)
  {
    FramesAppend(a, b);
    ConcatAssociates(Frames(a), Frames(b), tail);
  }

  lemma ClosedFirst(closes: bytes -> bool, a: bytes, b: bytes)
    requires !Arrive(closes, FRESH, a).open
    ensures Arrivals(closes, FRESH, [a, b]) == Arrive(closes, FRESH, a)
  {
    assert [a, b][1..] == [b];
    ClosedStays(closes, Arrive(closes, FRESH, a), [b]);
  }

  lemma FirstChunk(closes: bytes -> bool, front: seq<bytes>)
    requires AllSmall(front) && !NoneCloses(closes, front)
    ensures var c := Arrive(closes, FRESH, Frames(front)); !c.open && c.handed == front
  {
    AllSmallStay(front);
    ParseFrames(front);
    assert [] + Frames(front) == Frames(front) && [] + front == front;
  }

  lemma TwoChunks(a: bytes, b: bytes)
    ensures [a, b][1..] == [b] && Concat([a, b]) == a + b
  {
    assert [a, b][1..] == [b] && [a, b][1..][1..] == [];
    assert Concat([b]) == b + Concat([]) == b;
  }

  lemma {:induction false} AllHandedOver(closes: bytes -> bool, c: Conn, chunks: seq<bytes>)
    requires c.open && Incomplete(c.buf) && OnlyLastCloses(closes, Parse(c.buf + Concat(chunks)).packets)
    ensures Arrivals(closes, c, chunks).handed == c.handed + Parse(c.buf + Concat(chunks)).packets
    decreases |chunks|
  {
    if chunks == [] {
      assert c.buf + [] == c.buf;
    } else {
      var a, b := chunks[0], Concat(chunks[1..]);
      var r, next := Parse(c.buf + a), Arrive(closes, c, a);
      assert c.buf + (a + b) == c.buf + a + b;
      ParseAppend(c.buf + a, b);
      var more := Parse(r.rest + b);
      if !r.dropped {
        OnlyLastInParts(closes, r, more);
      }
      if next.open {
        RestIncomplete(c.buf + a);
        AllHandedOver(closes, next, chunks[1..]);
        HandOverTwice(closes, c.handed, r, more);
      } else {
        ClosedStays(closes, next, chunks[1..]);
      }
    }
  }

  lemma OnlyLastInParts(closes: bytes -> bool, r: Parsed, more: Parsed)
    requires OnlyLastCloses(closes, Joined(r, more).packets) && !r.dropped
    ensures OnlyLastCloses(closes, more.packets)
    ensures !NoneCloses(closes, r.packets) ==> more.packets == [] && r.packets + more.packets == r.packets
  {
    var all := r.packets + more.packets;
    assert forall i :: 0 <= i < |more.packets| ==> more.packets[i] == all[|r.packets| + i];
    assert forall i :: 0 <= i < |r.packets| ==> r.packets[i] == all[i];
  }

  class ControlClient {
    const closes: bytes -> bool // whether handlePacket ends the connection
    var readBuf: bytes
    var connected: bool
    var handed: seq<bytes>
    var written: bytes

    ghost function State(): Conn
      reads this
    {
      Conn(readBuf, connected, handed)
    }

    constructor (closes: bytes -> bool)
      ensures State() == FRESH && written == [] && this.closes == closes
    {
      this.closes := closes;
      readBuf, connected, handed, written := [], true, [], [];
    }

    method Send(data: bytes)
      requires Sendable(data)
      modifies `written
      ensures written == old(written) + Wire([data])
    {
      assert Wire([data]) == (if data == [] then [] else Frame(data)) + [];
      if |data| == 0 {
        return;
      }
      written := written + BigEndian(|data|, 4);
      written := written + data;
    }

    /** read; arrived is what readAll returns. */
    method Read(arrived: bytes)
      modifies `readBuf, `connected, `handed
      ensures State() == Arrive(closes, old(State()), arrived)
    {
      if !connected {
        return;
      }
      readBuf := readBuf + arrived;
      ghost var end := Settle(closes, State());
      while true
        invariant Settle(closes, State()) == end
        decreases |readBuf|
      {
        SettleStep(closes, State());
        if |readBuf| < 4 {
          return;
        }
        var len := Number(readBuf[..4]);
        if len > MAX {
          readBuf := [];
          connected := false;
          return;
        }
        if |readBuf| < 4 + len {
          return;
        }
        var packet := readBuf[4..4 + len];
        readBuf := readBuf[4 + len..];
        handed := handed + [packet];
        if closes(packet) {
          connected := false;
        }
      }
    }
  }

  /** Where the loop of read will end. */
  function Settle(closes: bytes -> bool, c: Conn): Conn {
    var end := HandOver(closes, c.handed, Parse(c.buf));
    end.(open := c.open && end.open)
  }

  /** Handing over a packet and then the rest is handing over all. */
  lemma HandOverFirst(closes: bytes -> bool, handed: seq<bytes>, p: bytes, r: Parsed)
    ensures NoneCloses(closes, [p] + r.packets) <==> !closes(p) && NoneCloses(closes, r.packets)
    ensures handed + ([p] + r.packets) == handed + [p] + r.packets
  {
    SomeCloses(closes, [p], r.packets);
    assert NoneCloses(closes, [p]) <==> !closes([p][0]);
  }

  lemma SettleFrame(closes: bytes -> bool, c: Conn, len: nat)
    requires Complete(c.buf, len)
    ensures var p := c.buf[4..4 + len];
            Settle(closes, c) == Settle(closes, Conn(c.buf[4 + len..], c.open && !closes(p), c.handed + [p]))
  {
    HandOverFirst(closes, c.handed, c.buf[4..4 + len], Parse(c.buf[4 + len..]));
  }

  lemma SettleStep(closes: bytes -> bool, c: Conn)
    ensures var len := if |c.buf| < 4 then 0 else Number(c.buf[..4]);
            if |c.buf| < 4 then Settle(closes, c) == c
            else if len > MAX then Settle(closes, c) == Conn([], false, c.handed)
            else if |c.buf| < 4 + len then Settle(closes, c) == c
            else
              var p := c.buf[4..4 + len];
              Settle(closes, c) == Settle(closes, Conn(c.buf[4 + len..], c.open && !closes(p), c.handed + [p]))
  {
    assert c.handed + [] == c.handed;
    if |c.buf| >= 4 && Complete(c.buf, Number(c.buf[..4])) {
      SettleFrame(closes, c, Number(c.buf[..4]));
    }
  }
}
