/**
 The length-prefixed wire protocol and the loop that drains a connection's input buffer. Bytes
 arrive in arbitrary chunks. Payloads are opaque: a codec turns them into bytes and back.
 */
module LvProtocol {
  import opened Bytes
  import opened Options

  datatype Codec<!P> = Codec(encode: P -> seq<byte>, decode: (int32, seq<byte>) -> Option<P>)

  datatype Message<P> = Message(kind: int32, id: seq<byte>, payload: P)

  const MAX_DATA: nat := 10 * 1024 * 1024

  /** The types MessageFactory::create knows; the two FlatBuffers types are not among them. */
  predicate Creatable(kind: int32) { 0 <= kind <= 11 }

  /** A size cut to the 32 bits of its field. */
  function Low32(n: nat): (r: nat)
    ensures r < TWO32
  {
    if n < TWO32 then n else n % TWO32
  }

  /** total length | type | id length | id | data; an empty payload serialises to nothing. */
  function Serialize<P>(c: Codec<P>, m: Message<P>): seq<byte> {
    var data := c.encode(m.payload);
    if data == [] then [] else Layout(m.kind, m.id, data)
  }

  function Layout(kind: int32, id: seq<byte>, data: seq<byte>): seq<byte> {
    BE32(Low32(8 + |id| + |data|)) + BE32(ToU32(kind)) + BE32(Low32(|id|)) + id + data
  }

  /** The integer o bytes into the buffer. */
  function IntAt(buf: seq<byte>, o: nat): int32
    requires o + 4 <= |buf|
  {
    FromU32(FromBE32(buf[o..o + 4]))
  }

  /** canProcessed: the length field is there, is not negative, and the rest has arrived. */
  predicate CanProcess(buf: seq<byte>) {
    |buf| >= 4 && 0 <= IntAt(buf, 0) <= |buf| - 4
  }

  datatype Outcome<P> =
    | Got(msg: Message<P>, rest: seq<byte>)
    | Reject(rest: seq<byte>)
    | Overrun                       // a field is read past the end of the buffer

  /** onMessage on a buffer that canProcessed accepts. */
  function OnMessage<P>(c: Codec<P>, buf: seq<byte>): Outcome<P>
    requires CanProcess(buf)
  {
    if |buf| < 12 then Overrun
    else
      var total, kind, idLen := IntAt(buf, 0), IntAt(buf, 4), IntAt(buf, 8);
      var dataLen := total - 8 - idLen;
      if idLen < 0 || dataLen < 0 then Reject(buf[12..])
      else
        var id, data, rest := buf[12..12 + idLen], buf[12 + idLen..12 + idLen + dataLen], buf[12 + idLen + dataLen..];
        if !Creatable(kind) then Reject(rest)
        else
          match c.decode(kind, data)
          case None => Reject(rest)
          case Some(p) => Got(Message(kind, id, p), rest)
  }

  lemma GotShrinks<P>(c: Codec<P>, buf: seq<byte>)
    requires CanProcess(buf) && OnMessage(c, buf).Got?
    ensures |OnMessage(c, buf).rest| < |buf|
  {
  }

  /** How draining a buffer ends: waiting for more, with a shutdown, or with a read past the end, after which nothing is known. */
  datatype End = Waits | Shuts | Overruns

  /** What draining a buffer yields: messages, what stays in the buffer, and how it ended. */
  datatype Drained<P> = Drained(msgs: seq<Message<P>>, rest: seq<byte>, end: End)

  function Drain<P>(c: Codec<P>, buf: seq<byte>): Drained<P>
    decreases |buf|
  {
    if !CanProcess(buf) then Drained([], buf, if |buf| > MAX_DATA then Shuts else Waits)
    else
      match OnMessage(c, buf)
      case Got(m, rest) =>
        GotShrinks(c, buf);
        var d := Drain(c, rest);
        d.(msgs := [m] + d.msgs)
      case Reject(rest) => Drained([], rest, Shuts)
      case Overrun => Drained([], buf, Overruns)
  }

  /** A connection's input side: MuduoServer::onMessage, called with each chunk that arrives. */
  class Connection<P> {
    const codec: Codec<P>
    var buffer: seq<byte>
    var inbox: seq<Message<P>>
    var shut: bool
    var overran: bool

    constructor (codec: Codec<P>)
      ensures this.codec == codec && buffer == [] && inbox == [] && !shut && !overran
    {
      this.codec, buffer, inbox, shut, overran := codec, [], [], false, false;
    }

    method OnData(chunk: seq<byte>)
      modifies this
      ensures var d := Drain(codec, old(buffer) + chunk);
              && inbox == old(inbox) + d.msgs && buffer == d.rest
              && shut == (old(shut) || d.end == Shuts) && overran == (old(overran) || d.end == Overruns)
    {
      buffer := buffer + chunk;
      ghost var all := Drain(codec, buffer);
      while true
        invariant var d := Drain(codec, buffer);
                  && inbox + d.msgs == old(inbox) + all.msgs && d.rest == all.rest && d.end == all.end
                  && shut == old(shut) && overran == old(overran)
        decreases |buffer|
      {
        if !CanProcess(buffer) {
          if |buffer| > MAX_DATA { shut := true; }
          return;
        }
        match OnMessage(codec, buffer)
        case Got(m, rest) =>
          GotShrinks(codec, buffer);
          assert inbox + ([m] + Drain(codec, rest).msgs) == inbox + [m] + Drain(codec, rest).msgs;
          buffer, inbox := rest, inbox + [m];
        case Reject(rest) => buffer, shut := rest, true; return;
        case Overrun => overran := true; return;
      }
    }
  }

  // ----- streams of well-formed messages -----

  /** The message is sendable and its payload survives the codec. */
  ghost predicate Good<P>(c: Codec<P>, m: Message<P>) {
    var data := c.encode(m.payload);
    && 0 <= m.kind < 12 && data != []
    && c.decode(m.kind, data) == Some(m.payload)
    && 8 + |m.id| + |data| < TWO31
  }

  /** Short enough that an incomplete frame never exceeds the buffer limit of 10 MB. */
  ghost predicate Fits<P>(c: Codec<P>, m: Message<P>) { |Serialize(c, m)| <= 10_485_761 }

  function Stream<P>(c: Codec<P>, ms: seq<Message<P>>): seq<byte> {
    if ms == [] then [] else Serialize(c, ms[0]) + Stream(c, ms[1..])
  }

  /** Reading back three integers, an id and data laid out one after the other. */
  lemma WireFields(a: seq<byte>, b: seq<byte>, e: seq<byte>, id: seq<byte>, d: seq<byte>, tail: seq<byte>)
    requires |a| == |b| == |e| == 4
    ensures var s, n := a + b + e + id + d + tail, |id|;
            && s[0..4] == a && s[4..8] == b && s[8..12] == e
            && s[12..12 + n] == id && s[12 + n..12 + n + |d|] == d && s[12 + n + |d|..] == tail
  {
  }

  /** What the parser reads from the front of a buffer that starts with a serialised message. */
  lemma SerializedFields<P>(c: Codec<P>, m: Message<P>, tail: seq<byte>)
    requires Good(c, m)
    ensures var buf, n, d := Serialize(c, m) + tail, |m.id|, c.encode(m.payload);
            && |Serialize(c, m)| == 12 + n + |d|
            && IntAt(buf, 0) == 8 + n + |d| && IntAt(buf, 4) == m.kind && IntAt(buf, 8) == n
            && buf[12..12 + n] == m.id && buf[12 + n..12 + n + |d|] == d && buf[12 + n + |d|..] == tail
  {
    LayoutFields(m.kind, m.id, c.encode(m.payload), tail);
  }

  /** A frame laid out field by field, read back. */
  lemma LayoutFields(kind: int32, id: seq<byte>, d: seq<byte>, tail: seq<byte>)
    requires 8 + |id| + |d| < TWO31
    ensures var f, buf := Layout(kind, id, d), Layout(kind, id, d) + tail;
            && |f| == 12 + |id| + |d|
            && IntAt(buf, 0) == 8 + |id| + |d| && IntAt(buf, 4) == kind && IntAt(buf, 8) == |id|
            && buf[12..12 + |id|] == id && buf[12 + |id|..12 + |id| + |d|] == d && buf[12 + |id| + |d|..] == tail
  {
    var a, b, e := LayoutParts(kind, id, d);
    WireIntegers(a, b, e, id, d, tail, Layout(kind, id, d) + tail);
  }

  lemma LayoutParts(kind: int32, id: seq<byte>, d: seq<byte>) returns (a: seq<byte>, b: seq<byte>, e: seq<byte>)
    requires 8 + |id| + |d| < TWO31
    ensures |a| == |b| == |e| == 4 && Layout(kind, id, d) == a + b + e + id + d
    ensures FromU32(FromBE32(a)) == 8 + |id| + |d| && FromU32(FromBE32(b)) == kind && FromU32(FromBE32(e)) == |id|
  {
    LayoutIs(kind, id, d);
    a := IntField(8 + |id| + |d|);
    b := IntField(kind);
    e := IntField(|id|);
  }

  /** Nothing is cut from the length fields of a frame below 2^31 bytes. */
  lemma LayoutIs(kind: int32, id: seq<byte>, d: seq<byte>)
    requires 8 + |id| + |d| < TWO31
    ensures Layout(kind, id, d) == BE32(ToU32(8 + |id| + |d|)) + BE32(ToU32(kind)) + BE32(ToU32(|id|)) + id + d
  {
  }

  lemma IntField(n: int32) returns (a: seq<byte>)
    ensures |a| == 4 && a == BE32(ToU32(n)) && FromU32(FromBE32(a)) == n
  {
    a := BE32(ToU32(n));
    RoundTripBE32(ToU32(n));
  }

  lemma WireIntegers(a: seq<byte>, b: seq<byte>, e: seq<byte>, id: seq<byte>, d: seq<byte>, tail: seq<byte>, s: seq<byte>)
    requires |a| == |b| == |e| == 4 && s == a + b + e + id + d + tail
    ensures var n := |id|;
            && |s| == 12 + n + |d| + |tail|
            && IntAt(s, 0) == FromU32(FromBE32(a)) && IntAt(s, 4) == FromU32(FromBE32(b)) && IntAt(s, 8) == FromU32(FromBE32(e))
            && s[12..12 + n] == id && s[12 + n..12 + n + |d|] == d && s[12 + n + |d|..] == tail
  {
    WireFields(a, b, e, id, d, tail);
  }

  /** Parsing a serialised message gives it back and leaves exactly the bytes after it. */
  lemma ParseSerialized<P>(c: Codec<P>, m: Message<P>, tail: seq<byte>)
    requires Good(c, m)
    ensures CanProcess(Serialize(c, m) + tail)
    ensures OnMessage(c, Serialize(c, m) + tail) == Got(m, tail)
  {
    ParsesExactly(c, m.kind, m.id, c.encode(m.payload), tail);
  }

  /**
   A complete frame at the front of the buffer gives its message exactly if its type is one of the
   twelve known ones and its data can be decoded; otherwise it is rejected. It is consumed either way.
   */
  lemma ParsesExactly<P>(c: Codec<P>, kind: int32, id: seq<byte>, data: seq<byte>, rest: seq<byte>)
    requires 8 + |id| + |data| < TWO31
    ensures var buf := Layout(kind, id, data) + rest;
            && CanProcess(buf)
            && OnMessage(c, buf) == if 0 <= kind < 12 && c.decode(kind, data).Some?
                                    then Got(Message(kind, id, c.decode(kind, data).value), rest) else Reject(rest)
  {
    LayoutFields(kind, id, data, rest);
    ParseFields(c, kind, id, data, Layout(kind, id, data) + rest, rest);
  }

  lemma ParseFields<P>(c: Codec<P>, kind: int32, id: seq<byte>, d: seq<byte>, buf: seq<byte>, tail: seq<byte>)
    requires |buf| == 12 + |id| + |d| + |tail| && 8 + |id| + |d| < TWO31
    requires && IntAt(buf, 0) == 8 + |id| + |d| && IntAt(buf, 4) == kind && IntAt(buf, 8) == |id|
             && buf[12..12 + |id|] == id && buf[12 + |id|..12 + |id| + |d|] == d && buf[12 + |id| + |d|..] == tail
    ensures CanProcess(buf)
    ensures OnMessage(c, buf) == if 0 <= kind < 12 && c.decode(kind, d).Some?
                                 then Got(Message(kind, id, c.decode(kind, d).value), tail) else Reject(tail)
  {
  }

  /** The four bytes at a position, as the encoding of the integer read there. */
  lemma FieldIs(buf: seq<byte>, o: nat)
    requires o + 4 <= |buf|
    ensures BE32(ToU32(IntAt(buf, o))) == buf[o..o + 4]
  {
    BytesOfBE32(buf[o..o + 4]);
  }

  lemma FiveParts(buf: seq<byte>, n: nat, m: nat)
    requires 12 + n + m <= |buf|
    ensures buf == buf[0..4] + buf[4..8] + buf[8..12] + buf[12..12 + n] + buf[12 + n..12 + n + m] + buf[12 + n + m..]
  {
  }

  /** And only a complete frame at the front gives a message. */
  lemma GotIsFrame<P>(c: Codec<P>, buf: seq<byte>) returns (data: seq<byte>)
    requires CanProcess(buf) && OnMessage(c, buf).Got?
    ensures var Got(m, rest) := OnMessage(c, buf);
            && 8 + |m.id| + |data| < TWO31 && 0 <= m.kind < 12
            && buf == Layout(m.kind, m.id, data) + rest && c.decode(m.kind, data) == Some(m.payload)
  {
    var n := IntAt(buf, 8);
    data := buf[12 + n..4 + IntAt(buf, 0)];
    FrameBytes(buf, n, IntAt(buf, 0) - 8 - n);
  }

  /** A buffer cut where its length fields say is a frame and what follows it. */
  lemma FrameBytes(buf: seq<byte>, n: nat, k: nat)
    requires 12 + n + k <= |buf| && 8 + n + k < TWO31 && IntAt(buf, 0) == 8 + n + k && IntAt(buf, 8) == n
    ensures buf == Layout(IntAt(buf, 4), buf[12..12 + n], buf[12 + n..12 + n + k]) + buf[12 + n + k..]
  {
    HeadBytes(buf, n, k);
    FiveParts(buf, n, k);
    assert buf == buf[0..4] + buf[4..8] + buf[8..12] + buf[12..12 + n] + buf[12 + n..12 + n + k] + buf[12 + n + k..];
  }

  lemma HeadBytes(buf: seq<byte>, n: nat, k: nat)
    requires 12 + n + k <= |buf| && 8 + n + k < TWO31 && IntAt(buf, 0) == 8 + n + k && IntAt(buf, 8) == n
    ensures Layout(IntAt(buf, 4), buf[12..12 + n], buf[12 + n..12 + n + k])
         == buf[0..4] + buf[4..8] + buf[8..12] + buf[12..12 + n] + buf[12 + n..12 + n + k]
  {
    FieldIs(buf, 0);
    FieldIs(buf, 4);
    FieldIs(buf, 8);
    LayoutIs(IntAt(buf, 4), buf[12..12 + n], buf[12 + n..12 + n + k]);
  }

  lemma LengthField<P>(c: Codec<P>, m: Message<P>)
    requires Good(c, m)
    ensures |Serialize(c, m)| > 12 && IntAt(Serialize(c, m), 0) == |Serialize(c, m)| - 4
  {
    SerializedFields(c, m, []);
    assert Serialize(c, m) + [] == Serialize(c, m);
  }

  /** A proper prefix of a serialised message is not processable. */
  lemma PrefixWaits<P>(c: Codec<P>, m: Message<P>, buf: seq<byte>)
    requires Good(c, m) && |buf| < |Serialize(c, m)| && buf == Serialize(c, m)[..|buf|]
    ensures !CanProcess(buf)
  {
    LengthField(c, m);
    if |buf| >= 4 { assert buf[0..4] == Serialize(c, m)[0..4]; }
  }

  /** A complete message at the front of the buffer is delivered before the rest is drained. */
  lemma DrainWhole<P>(c: Codec<P>, m: Message<P>, more: seq<byte>)
    requires Good(c, m)
    ensures Drain(c, Serialize(c, m) + more) == Drain(c, more).(msgs := [m] + Drain(c, more).msgs)
  {
    ParseSerialized(c, m, more);
  }

  /** An incomplete message stays in the buffer, which never grows past the limit. */
  lemma DrainWaits<P>(c: Codec<P>, m: Message<P>, buf: seq<byte>)
    requires Good(c, m) && Fits(c, m) && |buf| < |Serialize(c, m)| && buf == Serialize(c, m)[..|buf|]
    ensures Drain(c, buf) == Drained([], buf, Waits)
  {
    PrefixWaits(c, m, buf);
  }

  /** Draining a prefix of a stream yields its complete messages, keeps the bytes of the next one, and never shuts down. */
  lemma {:induction false} DrainPrefix<P>(c: Codec<P>, ms: seq<Message<P>>, buf: seq<byte>, tail: seq<byte>) returns (k: nat)
    requires forall m :: m in ms ==> Good(c, m) && Fits(c, m)
    requires buf + tail == Stream(c, ms)
    ensures k <= |ms|
    ensures var d := Drain(c, buf);
            d.msgs == ms[..k] && d.rest + tail == Stream(c, ms[k..]) && d.end == Waits
    ensures tail == [] ==> k == |ms|
    decreases |ms|
  {
    k := 0;
    if ms == [] { return; }
    var f := Serialize(c, ms[0]);
    if |buf| < |f| {
      assert buf == (f + Stream(c, ms[1..]))[..|buf|] == f[..|buf|];
      DrainWaits(c, ms[0], buf);
      assert ms[0..] == ms;
    } else {
      var more := buf[|f|..];
      CutFront(buf, tail, f, Stream(c, ms[1..]));
      DrainWhole(c, ms[0], more);
      var j := DrainPrefix(c, ms[1..], more, tail);
      k := j + 1;
      HeadAndTail(ms, j);
    }
  }

  lemma HeadAndTail<T>(s: seq<T>, j: nat)
    requires j < |s|
    ensures s[..j + 1] == [s[0]] + s[1..][..j] && s[j + 1..] == s[1..][j..]
  {
  }

  lemma CutFront(buf: seq<byte>, tail: seq<byte>, f: seq<byte>, rest: seq<byte>)
    requires buf + tail == f + rest && |f| <= |buf|
    ensures buf == f + buf[|f|..] && buf[|f|..] + tail == rest
  {
    assert f == (buf + tail)[..|f|] == buf[..|f|];
    assert buf[|f|..] + tail == (buf + tail)[|f|..] == rest;
  }

  // ----- any chunking -----

  function Join(chunks: seq<seq<byte>>): seq<byte> {
    if chunks == [] then [] else chunks[0] + Join(chunks[1..])
  }

  /** The connection after all chunks, from a given buffer. */
  function Feed<P>(c: Codec<P>, buf: seq<byte>, chunks: seq<seq<byte>>): Drained<P>
    decreases |chunks|
  {
    if chunks == [] then Drained([], buf, Waits)
    else
      var d := Drain(c, buf + chunks[0]);
      var r := Feed(c, d.rest, chunks[1..]);
      Drained(d.msgs + r.msgs, r.rest, if d.end == Waits then r.end else d.end)
  }

  lemma Regroup(a: seq<byte>, b: seq<byte>, x: seq<byte>)
    ensures (a + b) + x == a + (b + x)
  {
  }

  lemma {:induction false} FeedStream<P>(c: Codec<P>, ms: seq<Message<P>>, buf: seq<byte>, chunks: seq<seq<byte>>)
    requires forall m :: m in ms ==> Good(c, m) && Fits(c, m)
    requires buf + Join(chunks) == Stream(c, ms) && (chunks == [] ==> ms == [])
    ensures Feed(c, buf, chunks) == Drained(ms, [], Waits)
    decreases |chunks|
  {
    if chunks == [] {
      assert buf + [] == buf;
    } else {
      var now, tail := buf + chunks[0], Join(chunks[1..]);
      Regroup(buf, chunks[0], tail);
      var k := DrainPrefix(c, ms, now, tail);
      var d := Drain(c, now);
      assert ms[..k] + ms[k..] == ms;
      assert forall m :: m in ms[k..] ==> m in ms;
      FeedStream(c, ms[k..], d.rest, chunks[1..]);
    }
  }

  /** However a stream of well-formed messages is cut, the drain loop delivers exactly those messages, in order, and consumes every byte. */
  lemma AnyChunkingDelivers<P>(c: Codec<P>, ms: seq<Message<P>>, chunks: seq<seq<byte>>)
    requires forall m :: m in ms ==> Good(c, m) && Fits(c, m)
    requires Join(chunks) == Stream(c, ms)
    ensures Feed(c, [], chunks) == Drained(ms, [], Waits)
  {
    assert [] + Join(chunks) == Join(chunks);
    if ms != [] { LengthField(c, ms[0]); }
    FeedStream(c, ms, [], chunks);
  }

  /** The size limit is exact: every chunking of a message is delivered iff its frame is at most one byte over the limit. */
  lemma SizeLimitExact<P>(c: Codec<P>, m: Message<P>)
    requires Good(c, m)
    ensures (forall chunks :: Join(chunks) == Serialize(c, m) ==> Feed(c, [], chunks) == Drained([m], [], Waits)) <==> Fits(c, m)
  {
    var f := Serialize(c, m);
    assert Stream(c, [m]) == f + Stream(c, []) == f;
    if Fits(c, m) {
      forall chunks | Join(chunks) == f ensures Feed(c, [], chunks) == Drained([m], [], Waits) {
        AnyChunkingDelivers(c, [m], chunks);
      }
    } else {
      var head := f[..MAX_DATA + 1];
      var chunks := [head, f[MAX_DATA + 1..]];
      PrefixWaits(c, m, head);
      assert chunks[1..] == [chunks[1]] && Join(chunks[1..]) == chunks[1] + Join([]) == chunks[1];
      assert Join(chunks) == f;
      assert [] + head == head;
      assert Feed(c, [], chunks).end == Shuts;
    }
  }

  // ----- a length field too short for its own header -----

  /** A frame that claims fewer bytes than its two header fields, all of them here, but not 12 bytes in the buffer. */
  predicate Stunted(buf: seq<byte>) { 4 <= |buf| < 12 && 0 <= IntAt(buf, 0) <= |buf| - 4 }

  /** onMessage reads past the buffer exactly on a stunted frame; with 12 bytes buffered such a length is rejected. */
  lemma OverrunsOnStunted<P>(c: Codec<P>, buf: seq<byte>)
    requires CanProcess(buf)
    ensures OnMessage(c, buf).Overrun? <==> Stunted(buf)
    ensures Stunted(buf) ==> IntAt(buf, 0) < 8
    ensures IntAt(buf, 0) < 8 && !Stunted(buf) ==> OnMessage(c, buf) == Reject(buf[12..])
  {
  }

  /** Over all input: the drain loop reads past its buffer exactly when what is left after the delivered messages is a stunted frame. */
  lemma {:induction false} DrainOverrunsExactly<P>(c: Codec<P>, buf: seq<byte>)
    ensures var d := Drain(c, buf);
            && (d.end == Overruns ==> Stunted(d.rest))
            && (d.end == Waits ==> !Stunted(d.rest))
    decreases |buf|
  {
    if CanProcess(buf) {
      OverrunsOnStunted(c, buf);
      if OnMessage(c, buf).Got? {
        GotShrinks(c, buf);
        DrainOverrunsExactly(c, OnMessage(c, buf).rest);
      }
    }
  }

  /** Well-formed messages followed by a stunted frame: all are delivered, then the loop reads past the buffer. */
  lemma {:induction false} StuntedFrameOverruns<P>(c: Codec<P>, ms: seq<Message<P>>, x: seq<byte>)
    requires forall m :: m in ms ==> Good(c, m)
    requires |x| < 12
    ensures Drain(c, Stream(c, ms) + x) == Drained(ms, x, if Stunted(x) then Overruns else Waits)
    decreases |ms|
  {
    if ms == [] {
      assert [] + x == x;
    } else {
      var rest := Stream(c, ms[1..]) + x;
      Regroup(Serialize(c, ms[0]), Stream(c, ms[1..]), x);
      DrainWhole(c, ms[0], rest);
      StuntedFrameOverruns(c, ms[1..], x);
    }
  }

  /** Well-formed messages followed by a complete frame of unknown type or with undecodable data: all are delivered, then the connection is shut down. */
  lemma {:induction false} BadFrameShuts<P>(c: Codec<P>, ms: seq<Message<P>>, kind: int32, id: seq<byte>, data: seq<byte>, rest: seq<byte>)
    requires (forall m :: m in ms ==> Good(c, m)) && 8 + |id| + |data| < TWO31
    requires !(0 <= kind < 12) || c.decode(kind, data).None?
    ensures Drain(c, Stream(c, ms) + (Layout(kind, id, data) + rest)) == Drained(ms, rest, Shuts)
    decreases |ms|
  {
    var bad := Layout(kind, id, data) + rest;
    if ms == [] {
      assert [] + bad == bad;
      ParsesExactly(c, kind, id, data, rest);
    } else {
      Regroup(Serialize(c, ms[0]), Stream(c, ms[1..]), bad);
      DrainWhole(c, ms[0], Stream(c, ms[1..]) + bad);
      BadFrameShuts(c, ms[1..], kind, id, data, rest);
    }
  }
}
