/** What xmit puts on the wire. The loop of xmit decides on the fly, slice by slice, when to start a
    new Homa message and where the trailers go; Packets says in one place what the result must be.
    The theorems: the loop emits exactly those packets, for every slicing of the body, and it fails
    to terminate in exactly one family of cases. */
module Fragmentation {
  import opened Basics
  import opened Wire
  import opened StreamModel

  /** The three parts of one Homa message, in wire order. */
  datatype Packet = Packet(initMd: Bytes, trailMd: Bytes, body: Bytes)
  {
    function Size(): nat { |initMd| + |trailMd| + |body| }
    function Payload(): Bytes { initMd + trailMd + body }
  }

  /** The packets for a gRPC message, given the room p that each has after its header. Trailers need
      room to spare: an exact fit sends them to a packet of their own. */
  function Packets(init: Bytes, body: Bytes, trail: Bytes, p: nat): (r: seq<Packet>)
    requires p > 0 && |init| <= p
    ensures |r| > 0
    decreases |init| + |body|
  {
    var n := |init| + |body|;
    if n > p || (n == p && trail != []) then
      [Packet(init, [], body[..p - |init|])] + Packets([], body[p - |init|..], trail, p)
    else if trail == [] || n + |trail| < p then [Packet(init, trail, body)]
    else [Packet(init, [], body), Packet([], trail, [])]
  }

  function BodyOf(ps: seq<Packet>): Bytes { if ps == [] then [] else ps[0].body + BodyOf(ps[1..]) }

  /** Fragmentation loses nothing and keeps its bounds: the bodies add up to the body, initial
      metadata is in the first packet only and trailers in the last only, no packet exceeds the room,
      and every packet before the last two is full (before the last one, if there are no trailers). */
  lemma {:induction false} PacketsSound(init: Bytes, body: Bytes, trail: Bytes, p: nat)
    requires p > 0 && |init| <= p && |trail| <= p
    ensures var r := Packets(init, body, trail, p);
            BodyOf(r) == body && r[0].initMd == init && r[|r| - 1].trailMd == trail &&
            (forall i :: 0 < i < |r| ==> r[i].initMd == []) &&
            (forall i :: 0 <= i < |r| - 1 ==> r[i].trailMd == []) &&
            (forall i :: 0 <= i < |r| ==> r[i].Size() <= p) &&
            (forall i :: 0 <= i < |r| - 2 ==> r[i].Size() == p) &&
            (trail == [] ==> forall i :: 0 <= i < |r| - 1 ==> r[i].Size() == p)
    decreases |init| + |body|
  {
    var n := |init| + |body|;
    var r := Packets(init, body, trail, p);
    if n > p || (n == p && trail != []) {
      var cut := p - |init|;
      PacketsSound([], body[cut..], trail, p);
      var rest := Packets([], body[cut..], trail, p);
      assert r[1..] == rest;
      assert body == body[..cut] + body[cut..];
      assert forall i :: 0 < i < |r| ==> r[i] == rest[i - 1];
    } else if trail == [] || n + |trail| < p {
      assert r[1..] == [];
    } else {
      assert r[1..] == [Packet([], trail, [])] && r[1..][1..] == [];
      assert BodyOf(r[1..]) == [] + BodyOf(r[1..][1..]);
      assert BodyOf(r) == body + [];
    }
  }

  /** How many Homa messages an op costs. */
  function PacketCount(n: nat, t: nat, p: nat): nat
    requires p > 0
  {
    if t == 0 then (if n == 0 then 1 else (n + p - 1) / p)
    else if n % p + t < p then n / p + 1
    else n / p + 2
  }

  lemma {:induction false} CountPackets(init: Bytes, body: Bytes, trail: Bytes, p: nat)
    requires p > 0 && |init| <= p && |trail| < p
    ensures |Packets(init, body, trail, p)| == PacketCount(|init| + |body|, |trail|, p)
    decreases |init| + |body|
  {
    var n := |init| + |body|;
    if n > p || (n == p && trail != []) {
      CountPackets([], body[p - |init|..], trail, p);
      DivModStep(n, p);
      DivModStep(n + p - 1, p);
    } else if trail == [] {
      if 0 < n { DivModUnique(n + p - 1, p, 1, n - 1); }
    } else {
      DivModSmall(n, p);
    }
  }

  // ------------------------------------------------ from packets to messages

  /** The header counts and the payload of the message under construction agree. */
  predicate LaidOut(tx: Tx) {
    tx.hdr.initMdBytes + tx.hdr.trailMdBytes + tx.hdr.messageBytes == |tx.payload|
  }

  /** The parts of the message under construction. */
  function Cur(tx: Tx): (c: Packet)
    requires LaidOut(tx)
    ensures c.Payload() == tx.payload
  {
    var a, b := tx.hdr.initMdBytes, tx.hdr.initMdBytes + tx.hdr.trailMdBytes;
    Packet(tx.payload[..a], tx.payload[a..b], tx.payload[b..])
  }

  /** The state that follows the sending of the current message. */
  function NextTx(tx: Tx): Tx { ResetXmit(tx.(homaRequestId := 0)) }

  /** The message that carries a packet: the header counts are the lengths of its parts. */
  function MessageFor(tx: Tx, flags: Flags, p: Packet): HomaMessage {
    Outgoing(tx.(hdr := Header(tx.hdr.streamId, tx.hdr.sequenceNum, |p.initMd|, |p.trailMd|, |p.body|, flags),
                 payload := p.Payload()))
  }

  function FinalFlags(f: Flags, op: SendOp): Flags {
    f.(messageComplete := f.messageComplete || op.message.Some?,
       trailMdPresent := f.trailMdPresent || op.trailMd.Some?)
  }

  /** The messages that carry packets: numbered consecutively, the first answering the waiting request
      if there is one, and only the last saying that the message or the stream is complete. */
  function Messages(tx: Tx, ps: seq<Packet>, op: SendOp): seq<HomaMessage>
    requires |ps| > 0
    decreases |ps|
  {
    if |ps| == 1 then [MessageFor(tx, FinalFlags(tx.hdr.flags, op), ps[0])]
    else [MessageFor(tx, tx.hdr.flags, ps[0])] + Messages(NextTx(tx), ps[1..], op)
  }

  function Room(tx: Tx): int { tx.maxMessageLength - HEADER_LENGTH }

  /** The bytes that are in the message and still to come, trailers included: constant between flushes. */
  function Total(l: Loop): nat { |l.s.tx.payload| + |l.trail| + l.Left() }

  /** What holds at the top of xmit's loop on a stream that is not cancelled. Once the message holds
      body bytes and trailers are pending, it is already known that they cannot fit. */
  predicate InLoop(l: Loop) {
    && !l.s.cancelled
    && Room(l.s.tx) > 0
    && LaidOut(l.s.tx)
    && |l.s.tx.payload| <= Room(l.s.tx)
    && |l.trail| <= Room(l.s.tx)
    && (l.s.tx.hdr.trailMdBytes > 0 ==> l.trail == [] && Total(l) < Room(l.s.tx))
    && (l.trail != [] && l.s.tx.hdr.messageBytes > 0 ==> Total(l) >= Room(l.s.tx))
  }

  /** The body bytes that are still to come. */
  function Rest(l: Loop): Bytes { l.cut + Concat(l.data) }

  /** The packets that the rest of the loop has to send. */
  function PacketsLeft(l: Loop): (r: seq<Packet>)
    requires InLoop(l)
    ensures |r| > 0
  {
    var c := Cur(l.s.tx);
    var body := c.body + Rest(l);
    if c.trailMd != [] then [Packet(c.initMd, c.trailMd, body)]
    else Packets(c.initMd, body, l.trail, Room(l.s.tx))
  }

  /** Everything sent so far and everything still to be sent. */
  function Emitted(l: Loop, op: SendOp): seq<HomaMessage>
    requires InLoop(l)
  {
    l.s.tx.sent + Messages(l.s.tx, PacketsLeft(l), op)
  }

  /** The loop of xmit cannot end: trailers are pending and, at the end, they would fill the room
      exactly, so the strict test for writing them and the strict test for flushing both fail. */
  predicate Stuck(n: nat, t: nat, p: int)
    requires p > 0
  {
    t > 0 && (t == p || n % p + t == p)
  }

  predicate StuckLoop(l: Loop)
    requires Room(l.s.tx) > 0
  {
    Stuck(|l.s.tx.payload| + l.Left(), |l.trail|, Room(l.s.tx))
  }

  lemma MessageForCurrent(tx: Tx)
    requires LaidOut(tx)
    ensures MessageFor(tx, tx.hdr.flags, Cur(tx)) == Outgoing(tx)
  {
    var c := Cur(tx);
    assert Header(tx.hdr.streamId, tx.hdr.sequenceNum, |c.initMd|, |c.trailMd|, |c.body|, tx.hdr.flags) == tx.hdr;
  }

  /** Messages look at the transmit state only through the header, the request slot and the numbering. */
  lemma {:induction false} MessagesDependOn(a: Tx, b: Tx, ps: seq<Packet>, op: SendOp)
    requires |ps| > 0
    requires a.hdr.streamId == b.hdr.streamId && a.hdr.sequenceNum == b.hdr.sequenceNum
    requires a.hdr.flags == b.hdr.flags && a.homaRequestId == b.homaRequestId
    requires a.streamId == b.streamId && a.nextXmitSequence == b.nextXmitSequence
    ensures Messages(a, ps, op) == Messages(b, ps, op)
    decreases |ps|
  {
    if |ps| > 1 {
      MessagesDependOn(NextTx(a), NextTx(b), ps[1..], op);
    }
  }

  predicate IsFull(l: Loop) {
    |l.s.tx.payload| == Room(l.s.tx) || (l.Left() == 0 && |l.s.tx.payload| + |l.trail| > Room(l.s.tx))
  }

  /** When the loop flushes there is always something to send. */
  lemma FlushFacts(l: Loop)
    requires InLoop(l) && l.Guard()
    ensures var a := FlushIfFull(l);
            a.trail == l.trail && a.cut == l.cut && a.data == l.data && InLoop(a) && !IsFull(a) &&
            (if IsFull(l) then a.s.tx.payload == [] && a.s.tx.sent == l.s.tx.sent + [Outgoing(l.s.tx)] else a == l)
  {}

  lemma FlushStuck(l: Loop)
    requires InLoop(l) && l.Guard() && (|l.trail| < Room(l.s.tx) || StuckLoop(l))
    ensures StuckLoop(FlushIfFull(l)) <==> StuckLoop(l)
  {
    var tx, p := l.s.tx, Room(l.s.tx);
    FlushFacts(l);
    if |tx.payload| == p {
      DivModStep(|tx.payload| + l.Left(), p);
    } else if IsFull(l) {
      DivModSmall(|tx.payload|, p);
      DivModSmall(0, p);
    }
  }

  lemma FlushEmitted(l: Loop, op: SendOp)
    requires InLoop(l) && l.Guard() && |l.trail| < Room(l.s.tx)
    ensures InLoop(FlushIfFull(l)) && Emitted(FlushIfFull(l), op) == Emitted(l, op)
  {
    FlushFacts(l);
    if IsFull(l) {
      var tx, a := l.s.tx, FlushIfFull(l);
      FlushPackets(l);
      MessageForCurrent(tx);
      var rest := PacketsLeft(a);
      assert ([Cur(tx)] + rest)[1..] == rest;
      MessagesDependOn(NextTx(tx), a.s.tx, rest, op);
      assert Emitted(a, op) == tx.sent + ([Outgoing(tx)] + Messages(a.s.tx, rest, op));
    }
  }

  /** What a flush does to the packet under construction and to what is still to come. */
  lemma FlushParts(l: Loop)
    requires InLoop(l) && l.Guard() && IsFull(l)
    ensures var a, c, p := FlushIfFull(l), Cur(l.s.tx), Room(l.s.tx);
            InLoop(a) && Cur(a.s.tx) == Packet([], [], []) && Rest(a) == Rest(l) && a.trail == l.trail &&
            Room(a.s.tx) == p && c.trailMd == [] && |c.initMd| + |c.body| <= p &&
            (|c.initMd| + |c.body| == p ==> Rest(l) != [] || l.trail != []) &&
            (|c.initMd| + |c.body| < p ==> Rest(l) == [] && |c.initMd| + |c.body| + |l.trail| > p)
  {
    FlushFacts(l);
    var a := FlushIfFull(l);
    assert Rest(a) == Rest(l) && |Rest(l)| == l.Left();
    hide Concat, Flush, FlushIfFull;
    assert |Cur(l.s.tx).trailMd| == l.s.tx.hdr.trailMdBytes;
  }

  /** A flush takes the first packet off. */
  lemma FlushPackets(l: Loop)
    requires InLoop(l) && l.Guard() && |l.trail| < Room(l.s.tx) && IsFull(l)
    ensures InLoop(FlushIfFull(l)) && PacketsLeft(l) == [Cur(l.s.tx)] + PacketsLeft(FlushIfFull(l))
  {
    var c, a, p := Cur(l.s.tx), FlushIfFull(l), Room(l.s.tx);
    hide InLoop, IsFull, FlushIfFull, Flush, Concat, Packets, Cur, Rest, PacketsLeft;
    FlushParts(l);
    PacketsLeftOf(l);
    PacketsLeftOf(a);
    FirstPacket(c.initMd, c.body, Rest(l), l.trail, p);
    assert c == Packet(c.initMd, [], c.body);
  }

  /** What a flush sends is the first packet: it is full, or all that is left are trailers that do not fit. */
  lemma FirstPacket(init: Bytes, first: Bytes, rest: Bytes, trail: Bytes, p: nat)
    requires |trail| < p && |init| + |first| <= p
    requires |init| + |first| == p ==> rest != [] || trail != []
    requires |init| + |first| < p ==> rest == [] && |init| + |first| + |trail| > p
    ensures Packets(init, first + rest, trail, p) == [Packet(init, [], first)] + Packets([], [] + rest, trail, p)
  {
    hide Packets;
    assert [] + rest == rest;
    if |init| + |first| == p {
      FullPacket(init, first, rest, trail, p);
    } else {
      assert first + rest == first;
      LastBody(init, first, trail, p);
    }
  }

  lemma PacketsLeftOf(l: Loop)
    requires InLoop(l) && Cur(l.s.tx).trailMd == []
    ensures var c := Cur(l.s.tx);
            |c.initMd| <= Room(l.s.tx) && PacketsLeft(l) == Packets(c.initMd, c.body + Rest(l), l.trail, Room(l.s.tx))
  {
    hide Packets, Rest;
  }

  /** When initial metadata and the first of the data fill a packet, the rest follows in others. */
  lemma FullPacket(init: Bytes, first: Bytes, rest: Bytes, trail: Bytes, p: nat)
    requires 0 < p == |init| + |first| && (rest != [] || trail != [])
    ensures Packets(init, first + rest, trail, p) == [Packet(init, [], first)] + Packets([], rest, trail, p)
  {
    SplitAt(first, rest, |first|);
  }

  /** When the trailers do not fit behind the last of the data, they follow in a packet of their own. */
  lemma LastBody(init: Bytes, body: Bytes, trail: Bytes, p: nat)
    requires |init| + |body| < p < |init| + |body| + |trail| && |trail| < p
    ensures Packets(init, body, trail, p) == [Packet(init, [], body)] + Packets([], [], trail, p)
  {}

  lemma SplitAt<T>(a: seq<T>, b: seq<T>, n: nat)
    requires n == |a|
    ensures (a + b)[..n] == a && (a + b)[n..] == b
  {}

  lemma WriteTrailersFacts(l: Loop)
    requires InLoop(l)
    ensures var b := WriteTrailers(l);
            InLoop(b) && (StuckLoop(b) <==> StuckLoop(l)) && (b.trail != [] ==> Total(b) >= Room(b.s.tx))
  {
    if WriteTrailers(l) != l { DivModSmall(|l.s.tx.payload| + l.Left(), Room(l.s.tx)); }
  }

  /** Trailers are written only into a message that has no body yet, and are then followed by no
      other message. */
  lemma WriteTrailersEmitted(l: Loop, op: SendOp)
    requires InLoop(l)
    ensures InLoop(WriteTrailers(l)) && Emitted(WriteTrailers(l), op) == Emitted(l, op)
  {
    var b := WriteTrailers(l);
    WriteTrailersFacts(l);
    if b != l {
      var c := Cur(l.s.tx);
      assert c.body == [] && c.trailMd == [];
      assert Cur(b.s.tx) == Packet(c.initMd, l.trail, []);
      MessagesDependOn(l.s.tx, b.s.tx, PacketsLeft(l), op);
    }
  }

  lemma TakeDataFacts(l: Loop)
    requires InLoop(l) && (l.trail != [] ==> Total(l) >= Room(l.s.tx))
    ensures var b := TakeData(l);
            InLoop(b) && Total(b) == Total(l) && b.trail == l.trail && (StuckLoop(b) <==> StuckLoop(l))
  {
    if l.Left() > 0 {
      TakeSliceKeeps(l);
      PutChunkKeeps(TakeSlice(l));
    }
  }

  lemma TakeDataEmitted(l: Loop, op: SendOp)
    requires InLoop(l) && (l.trail != [] ==> Total(l) >= Room(l.s.tx))
    ensures InLoop(TakeData(l)) && Emitted(TakeData(l), op) == Emitted(l, op)
  {
    TakeDataFacts(l);
    if l.Left() > 0 {
      TakeSliceKeeps(l);
      PutChunkEmitted(TakeSlice(l), op);
    }
  }

  lemma Regroup<T>(body: seq<T>, cut: seq<T>, data: seq<T>, n: nat)
    requires n <= |cut|
    ensures body + cut[..n] + (cut[n..] + data) == body + (cut + data)
  {}

  /** Data added to a message joins its body. */
  lemma CurGrows(tx: Tx, chunk: Bytes)
    requires LaidOut(tx)
    ensures var r := tx.(payload := tx.payload + chunk, hdr := tx.hdr.(messageBytes := tx.hdr.messageBytes + |chunk|));
            LaidOut(r) && Cur(r) == Cur(tx).(body := Cur(tx).body + chunk)
  {
    var a, b := tx.hdr.initMdBytes, tx.hdr.initMdBytes + tx.hdr.trailMdBytes;
    var q := tx.payload + chunk;
    assert q[..a] == tx.payload[..a] && q[a..b] == tx.payload[a..b] && q[b..] == tx.payload[b..] + chunk;
  }

  lemma PutChunkEmitted(l: Loop, op: SendOp)
    requires InLoop(l) && InLoop(PutChunk(l))
    ensures Emitted(PutChunk(l), op) == Emitted(l, op)
  {
    var b, n := PutChunk(l), ChunkSize(l.s.tx, |l.cut|);
    CurGrows(l.s.tx, l.cut[..n]);
    Regroup(Cur(l.s.tx).body, l.cut, Concat(l.data), n);
    PutChunkKeeps(l);
    assert Cur(b.s.tx).body + Rest(b) == Cur(l.s.tx).body + Rest(l);
    assert PacketsLeft(b) == PacketsLeft(l) by { hide PutChunk, Cur, Packets, Rest; }
    MessagesDependOn(l.s.tx, b.s.tx, PacketsLeft(l), op);
  }

  lemma StepInLoop(l: Loop)
    requires InLoop(l) && l.Guard() && (|l.trail| < Room(l.s.tx) || StuckLoop(l))
    ensures InLoop(Step(l)) && (StuckLoop(Step(l)) <==> StuckLoop(l))
  {
    FlushFacts(l);
    FlushStuck(l);
    WriteTrailersFacts(FlushIfFull(l));
    TakeDataFacts(WriteTrailers(FlushIfFull(l)));
  }

  lemma StepEmitted(l: Loop, op: SendOp)
    requires InLoop(l) && l.Guard() && |l.trail| < Room(l.s.tx)
    ensures InLoop(Step(l)) && Emitted(Step(l), op) == Emitted(l, op)
  {
    FlushEmitted(l, op);
    WriteTrailersEmitted(FlushIfFull(l), op);
    WriteTrailersFacts(FlushIfFull(l));
    TakeDataEmitted(WriteTrailers(FlushIfFull(l)), op);
  }

  /** Without a flush, an iteration that can move a byte does move one. */
  lemma ChunkMoves(l: Loop)
    requires InLoop(l) && l.Left() > 0 && |l.s.tx.payload| < Room(l.s.tx)
    ensures TakeData(l).cut != l.cut || TakeData(l).data != l.data
  {
    TakeSliceKeeps(l);
    PutChunkKeeps(TakeSlice(l));
  }

  /** An iteration that changes nothing is one where the trailers would fit exactly. */
  lemma StepFixpoint(l: Loop)
    requires InLoop(l) && l.Guard() && Step(l) == l
    ensures StuckLoop(l)
  {
    FlushFacts(l);
    var a := FlushIfFull(l);
    var b := WriteTrailers(a);
    assert |Step(l).s.tx.sent| == |a.s.tx.sent|;
    assert a == l;
    assert |b.trail| == |l.trail|;
    if l.Left() > 0 {
      ChunkMoves(b);
    }
    DivModSmall(|l.s.tx.payload|, Room(l.s.tx));
  }

  /** The loop runs for ever exactly when the trailers are stuck; otherwise it emits the packets. */
  lemma {:induction false} LoopResult(l: Loop, op: SendOp)
    requires InLoop(l) && (|l.trail| < Room(l.s.tx) || StuckLoop(l))
    ensures var r := RunLoop(l);
            InLoop(r) && (r.Guard() <==> StuckLoop(l)) &&
            (!StuckLoop(l) ==> Emitted(r, op) == Emitted(l, op))
    decreases |l.trail|, l.Left(), |l.data|, Pending(l.s.tx)
  {
    if !l.Guard() {
    } else if Step(l) == l {
      StepFixpoint(l);
    } else {
      StepProgress(l);
      StepInLoop(l);
      if |l.trail| < Room(l.s.tx) { StepEmitted(l, op); }
      LoopResult(Step(l), op);
    }
  }

  /** When the loop ends, the last packet is the message under construction. */
  lemma EmittedAtEnd(l: Loop, op: SendOp)
    requires InLoop(l) && !l.Guard()
    ensures Emitted(l, op) == l.s.tx.sent + Messages(l.s.tx, [Cur(l.s.tx)], op)
  {
    var c := Cur(l.s.tx);
    assert c.body + Rest(l) == c.body;
    assert PacketsLeft(l) == [c];
  }

  // ------------------------------------------------ a message that is too long

  /** Initial metadata that was rejected stays in the message under construction, which is then too long
      before the loop begins. The room left is an unsigned difference, so all of the data follows. */
  predicate TooLong(l: Loop) {
    !l.s.cancelled && LaidOut(l.s.tx) && |l.s.tx.payload| > Room(l.s.tx) > 0 && l.s.tx.hdr.trailMdBytes == 0
  }

  function LongPackets(init: Bytes, body: Bytes, trail: Bytes): seq<Packet> {
    [Packet(init, [], body)] + if trail == [] then [] else [Packet([], trail, [])]
  }

  function LongEmitted(l: Loop, op: SendOp): seq<HomaMessage>
    requires TooLong(l)
  {
    l.s.tx.sent + Messages(l.s.tx, LongPackets(Cur(l.s.tx).initMd, Cur(l.s.tx).body + Rest(l), l.trail), op)
  }

  /** As long as there is data, an iteration moves a whole slice. */
  lemma LongStep(l: Loop, op: SendOp)
    requires TooLong(l) && l.Left() > 0
    ensures Step(l) != l && TooLong(Step(l)) && Step(l).trail == l.trail && Room(Step(l).s.tx) == Room(l.s.tx)
    ensures LongEmitted(Step(l), op) == LongEmitted(l, op)
  {
    LongMoves(l);
    var tx, a, b := l.s.tx, TakeSlice(l), Step(l);
    assert Rest(l) == a.cut + Rest(b) by { TakeSliceKeeps(l); }
    hide Step, TakeSlice, Concat, Rest;
    CurGrows(tx, a.cut);
    hide Cur;
    assert Cur(tx).body + Rest(l) == Cur(b.s.tx).body + Rest(b);
    MessagesDependOn(tx, b.s.tx, LongPackets(Cur(tx).initMd, Cur(tx).body + Rest(l), l.trail), op);
  }

  lemma LongMoves(l: Loop)
    requires TooLong(l) && l.Left() > 0
    ensures var tx, a := l.s.tx, TakeSlice(l);
            Step(l) == Loop(l.s.(tx := tx.(payload := tx.payload + a.cut,
                                           hdr := tx.hdr.(messageBytes := tx.hdr.messageBytes + |a.cut|))),
                            l.trail, [], a.data) && Step(l) != l
  {
    assert FlushIfFull(l) == l && WriteTrailers(l) == l;
    TakeSliceKeeps(l);
    var a := TakeSlice(l);
    hide FlushIfFull, WriteTrailers, Concat;
    assert a.cut[..|a.cut|] == a.cut && a.cut[|a.cut|..] == [];
  }

  /** When the data is in, pending trailers make the message go out; they follow in one of their own. */
  lemma LongTrailers(l: Loop, op: SendOp)
    requires TooLong(l) && l.Left() == 0 && 0 < |l.trail| <= Room(l.s.tx)
    ensures var a := FlushIfFull(l);
            Step(l) == WriteTrailers(a) && Step(l) != l && InLoop(a) && a.trail == l.trail && a.Left() == 0 &&
            Room(a.s.tx) == Room(l.s.tx) && Cur(a.s.tx) == Packet([], [], []) &&
            a.s.tx.sent + Messages(a.s.tx, [Packet([], l.trail, [])], op) == LongEmitted(l, op)
  {
    var tx, a := l.s.tx, FlushIfFull(l);
    var c := Cur(tx);
    MessageForCurrent(tx);
    assert c.body + Rest(l) == c.body && c == Packet(c.initMd, [], c.body);
    var ps := LongPackets(c.initMd, c.body, l.trail);
    assert ps[1..] == [Packet([], l.trail, [])];
    MessagesDependOn(NextTx(tx), a.s.tx, ps[1..], op);
    assert |a.s.tx.sent| == |tx.sent| + 1;
    assert |Step(l).s.tx.sent| == |a.s.tx.sent|;
    hide MessageFor, Outgoing;
    assert LongEmitted(l, op) == tx.sent + ([Outgoing(tx)] + Messages(a.s.tx, ps[1..], op));
  }

  /** The loop sends everything, in one message that is too long and one for the trailers, unless these
      fill a message exactly. */
  lemma {:induction false} LongResult(l: Loop, op: SendOp)
    requires TooLong(l) && |l.trail| <= Room(l.s.tx)
    ensures var r := RunLoop(l);
            (r.Guard() <==> |l.trail| == Room(l.s.tx)) &&
            (|l.trail| < Room(l.s.tx) ==>
               !r.s.cancelled && LaidOut(r.s.tx) &&
               r.s.tx.sent + Messages(r.s.tx, [Cur(r.s.tx)], op) == LongEmitted(l, op))
    decreases |l.trail|, l.Left(), |l.data|, Pending(l.s.tx)
  {
    hide InLoop, TooLong, Step, FlushIfFull, WriteTrailers, Messages, Cur, LaidOut;
    if l.Left() > 0 {
      LongStep(l, op);
      StepProgress(l);
      LongResult(Step(l), op);
    } else if l.trail != [] {
      LongTrailers(l, op);
      StepProgress(l);
      LongEnd(l, op);
    } else {
      LongPlain(l, op);
    }
  }

  lemma LongPlain(l: Loop, op: SendOp)
    requires TooLong(l) && !l.Guard()
    ensures !l.s.cancelled && LaidOut(l.s.tx) && Room(l.s.tx) > 0
    ensures LongEmitted(l, op) == l.s.tx.sent + Messages(l.s.tx, [Cur(l.s.tx)], op)
  {
    var c := Cur(l.s.tx);
    assert c.body + Rest(l) == c.body && c == Packet(c.initMd, [], c.body);
    assert LongPackets(c.initMd, c.body, []) == [c];
  }

  lemma LongEnd(l: Loop, op: SendOp)
    requires TooLong(l) && l.Left() == 0 && 0 < |l.trail| <= Room(l.s.tx)
    ensures var r := RunLoop(Step(l));
            (r.Guard() <==> |l.trail| == Room(l.s.tx)) &&
            (|l.trail| < Room(l.s.tx) ==>
               !r.s.cancelled && LaidOut(r.s.tx) &&
               r.s.tx.sent + Messages(r.s.tx, [Cur(r.s.tx)], op) == LongEmitted(l, op))
  {
    hide FlushIfFull, InLoop, TooLong, Step, LongEmitted, Messages, Packets, PacketsLeft, Rest, Cur, WriteTrailers,
      LaidOut;
    LongTrailers(l, op);
    var a := FlushIfFull(l);
    var b := WriteTrailers(a);
    WriteTrailersFacts(a);
    if |l.trail| < Room(l.s.tx) {
      WriteTrailersEmitted(a, op);
      TrailersAlone(a);
      TrailersWritten(a);
      InLoopLaidOut(b);
      EmittedAtEnd(b, op);
    } else {
      TrailersStuck(a);
      LoopResult(b, op);
    }
  }

  lemma TrailersAlone(l: Loop)
    requires InLoop(l) && Cur(l.s.tx) == Packet([], [], []) && l.Left() == 0 && 0 < |l.trail| < Room(l.s.tx)
    ensures PacketsLeft(l) == [Packet([], l.trail, [])]
  {
    hide PacketsLeft, InLoop, Cur;
    PacketsLeftOf(l);
    assert Rest(l) == [] && [] + Rest(l) == [];
  }

  lemma TrailersWritten(l: Loop)
    requires InLoop(l) && Cur(l.s.tx) == Packet([], [], []) && l.Left() == 0 && 0 < |l.trail| < Room(l.s.tx)
    ensures var b := WriteTrailers(l); !b.Guard() && RunLoop(b) == b && Room(b.s.tx) == Room(l.s.tx)
  {
    assert l.s.tx.payload == [] by { assert Cur(l.s.tx).Payload() == []; }
    hide InLoop, Cur, Step;
  }

  lemma TrailersStuck(l: Loop)
    requires InLoop(l) && Cur(l.s.tx) == Packet([], [], []) && l.Left() == 0 && |l.trail| == Room(l.s.tx)
    ensures StuckLoop(l) && WriteTrailers(l) == l
  {
    assert l.s.tx.payload == [] by { assert Cur(l.s.tx).Payload() == []; }
    hide Cur;
  }

  lemma InLoopLaidOut(l: Loop)
    requires InLoop(l)
    ensures LaidOut(l.s.tx) && !l.s.cancelled
  {}

  // ------------------------------------------------ termination, over iterations

  function Iterate(l: Loop, n: nat): Loop
    decreases n
  { if n == 0 then l else Iterate(Step(l), n - 1) }

  lemma {:induction false} IterateFixpoint(l: Loop, n: nat)
    requires Step(l) == l
    ensures Iterate(l, n) == l
  {
    if n > 0 { IterateFixpoint(l, n - 1); }
  }

  ghost predicate RunsForever(l: Loop) { forall n: nat :: Iterate(l, n).Guard() }

  /** RunLoop ends with its guard true exactly when every iteration finds it true. */
  lemma {:induction false} SpinsMeansForever(l: Loop)
    ensures RunLoop(l).Guard() <==> RunsForever(l)
    decreases |l.trail|, l.Left(), |l.data|, Pending(l.s.tx)
  {
    if !l.Guard() {
      assert Iterate(l, 0) == l;
    } else if Step(l) == l {
      forall n: nat ensures Iterate(l, n).Guard() { IterateFixpoint(l, n); }
    } else {
      var next := Step(l);
      StepProgress(l);
      SpinsMeansForever(next);
      assert RunLoop(l) == RunLoop(next);
      if RunsForever(next) {
        forall n: nat ensures Iterate(l, n).Guard() {
          if n > 0 { assert Iterate(l, n) == Iterate(next, n - 1); }
        }
      } else {
        var n: nat :| !Iterate(next, n).Guard();
        assert Iterate(l, n + 1) == Iterate(next, n);
      }
    }
  }
}
