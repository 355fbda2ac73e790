/** The code of homa_socket.cc and HomaIncoming::read, working on its objects in place. */
module HomaSockets {
  import opened Basics
  import opened Wire
  import opened Pages
  import opened Sockets
  import Model = Sockets

  /** The arguments of recvmsg: buffers to give back on the way in, those of the message on the way out. */
  class RecvArgs {
    const bpageOffsets: array<nat>
    var numBpages: nat

    ghost predicate Valid()
      reads this
    {
      numBpages <= bpageOffsets.Length
    }

    ghost function Pages(): seq<nat>
      requires Valid()
      reads this, bpageOffsets
    {
      bpageOffsets[..numBpages]
    }

    constructor (maxPages: nat)
      ensures Valid() && Pages() == [] && bpageOffsets.Length == maxPages && fresh(bpageOffsets)
    {
      bpageOffsets, numBpages := new nat[maxPages], 0;
    }
  }

  class HomaSocket {
    /** Buffers that have to go back to Homa. */
    var savedBuffers: seq<nat>

    constructor ()
      ensures savedBuffers == []
    {
      savedBuffers := [];
    }

    /** Takes over the buffers of a message that is no longer needed. */
    method SaveBuffers(args: RecvArgs)
      requires args.Valid()
      modifies this, args
      ensures args.Valid() && args.Pages() == []
      ensures savedBuffers == old(savedBuffers) + old(args.Pages())
    {
      for i := 0 to args.numBpages
        invariant args.Valid() && args.numBpages == old(args.numBpages)
        invariant savedBuffers == old(savedBuffers) + args.bpageOffsets[..i]
      {
        savedBuffers := savedBuffers + [args.bpageOffsets[i]];
      }
      args.numBpages := 0;
    }

    /** Adds as many saved buffers to the arguments as they have room for. */
    method GetSavedBuffers(args: RecvArgs)
      requires args.Valid()
      modifies this, args, args.bpageOffsets
      ensures args.Valid()
      ensures var n := Filling(old(savedBuffers), old(args.Pages()), args.bpageOffsets.Length);
              args.Pages() == old(args.Pages()) + old(savedBuffers)[..n] && savedBuffers == old(savedBuffers)[n..]
    {
      var count := args.numBpages;
      ghost var saved, n := savedBuffers, 0;
      while count < args.bpageOffsets.Length && savedBuffers != []
        invariant args.Valid() && args.numBpages == old(args.numBpages) && count == args.numBpages + n
        invariant 0 <= n <= |saved| && savedBuffers == saved[n..] && count <= args.bpageOffsets.Length
        invariant args.bpageOffsets[..count] == old(args.Pages()) + saved[..n]
        decreases |savedBuffers|
      {
        args.bpageOffsets[count] := savedBuffers[0];
        savedBuffers := savedBuffers[1..];
        count, n := count + 1, n + 1;
      }
      args.numBpages := count;
    }
  }

  /** Homa itself, as far as receiving goes. */
  class Homa {
    const region: array<Byte>
    const pageSize: nat
    var pool: seq<nat>
    var script: seq<Delivery>

    ghost function View(): Kernel
      reads this, region
    {
      Kernel(pool, region[..], pageSize, script)
    }

    constructor (region: array<Byte>, pageSize: nat, pool: seq<nat>, script: seq<Delivery>)
      ensures this.region == region && View() == Kernel(pool, region[..], pageSize, script)
    {
      this.region, this.pageSize, this.pool, this.script := region, pageSize, pool, script;
    }

    /** Puts a message into its pages. */
    method Fill(pages: seq<nat>, bytes: Bytes)
      requires Placed(pages, pageSize, |bytes|, region.Length)
      modifies region
      ensures region[..] == Written(old(region[..]), pages, pageSize, bytes, |bytes|)
    {
      for i := 0 to |bytes|
        invariant region[..] == Written(old(region[..]), pages, pageSize, bytes, i)
      {
        PlacedAddress(pages, pageSize, |bytes|, region.Length, i);
        region[Address(pages, pageSize, i)] := bytes[i];
      }
    }

    /** Tells the caller where the message is. */
    method ListPages(args: RecvArgs, pages: seq<nat>)
      requires args.Valid() && |pages| <= args.bpageOffsets.Length
      modifies args, args.bpageOffsets
      ensures args.Valid() && args.Pages() == pages
    {
      forall i | 0 <= i < |pages| {
        args.bpageOffsets[i] := pages[i];
      }
      args.numBpages := |pages|;
    }

    /** What the next call meets. */
    method NextDelivery(maxPages: nat) returns (d: Delivery)
      modifies this
      ensures d == Meets(old(View()), maxPages) && pool == old(pool)
      ensures script == if old(script) == [] then [] else old(script)[1..]
    {
      d := NOTHING_NOW;
      if script != [] {
        if script[0].Failure? || Deliverable(Kernel(pool, region[..], pageSize, script), script[0], maxPages) {
          d := script[0];
        }
        script := script[1..];
      }
    }

    /** The recvmsg call. */
    method RecvMsg(args: RecvArgs) returns (d: Delivery)
      requires args.Valid()
      modifies this, region, args, args.bpageOffsets
      ensures args.Valid() && d == Met(old(View()), old(args.Pages()), args.bpageOffsets.Length)
      ensures View() == Model.RecvMsg(old(View()), old(args.Pages()), args.bpageOffsets.Length)
      ensures args.Pages() == PagesOf(d)
    {
      hide Placed, Has, Written, RemoveAll;
      pool := pool + args.bpageOffsets[..args.numBpages];
      d := NextDelivery(args.bpageOffsets.Length);
      ListPages(args, PagesOf(d));
      pool := RemoveAll(pool, PagesOf(d));
      if d.Arrival? {
        Fill(d.pages, d.bytes);
      }
    }
  }

  lemma HeaderAlone(b: Bytes)
    requires |b| >= HEADER_LENGTH
    ensures DecodeHeader(b[0..HEADER_LENGTH]) == DecodeHeader(b)
  {
    var h := b[0..HEADER_LENGTH];
    assert h[0..4] == b[0..4] && h[4..8] == b[4..8] && h[8..12] == b[8..12] && h[12..16] == b[12..16];
    assert h[16..20] == b[16..20] && h[20] == b[20];
    hide DecodeBe32;
  }

  /** Looks at the length and the header of a message that has been received. */
  method Judge(homaId: nat, msg: HomaIncoming) returns (verdict: Verdict)
    requires msg.Valid()
    ensures verdict == Examine(homaId, msg.Flat()) && (verdict.Accept? ==> msg.length >= HEADER_LENGTH)
    ensures verdict.Reject? ==> !verdict.result.Got?
  {
    hide DecodeHeader, Placed, FlatOf;
    if msg.length < HEADER_LENGTH {
      return Reject(TooShort(homaId));
    }
    var aux := new Byte[HEADER_LENGTH];
    var bytes := msg.Get(0, HEADER_LENGTH, aux);
    HeaderAlone(msg.Flat());
    var hdr := DecodeHeader(bytes.value);
    if hdr.flags.emptyResponse {
      return Discard;
    }
    var expected := (HEADER_LENGTH + hdr.initMdBytes + hdr.messageBytes + hdr.trailMdBytes) % TWO_32;
    if msg.length != expected {
      return Reject(BadLength(homaId, hdr.streamId));
    }
    return Accept;
  }

  /** A message that is not returned is destroyed: its buffers are saved. */
  method Abandon(sock: HomaSocket, homa: Homa, args: RecvArgs, ghost result: ReadResult)
    requires args.Valid()
    modifies sock, args
    ensures args.Valid()
    ensures Over(Reading(homa.View(), sock.savedBuffers, result)) ==
            GiveUp(old(homa.View()), old(sock.savedBuffers), old(args.Pages()), result)
  {
    sock.SaveBuffers(args);
  }

  /** The body of the loop of read. */
  method ReadRound(sock: HomaSocket, homa: Homa, args: RecvArgs)
    returns (over: bool, result: ReadResult, msg: HomaIncoming?)
    requires args.Valid() && Once([], homa.pool, sock.savedBuffers + args.Pages(), homa.pageSize)
    modifies sock, homa, homa.region, args, args.bpageOffsets
    ensures args.Valid()
    ensures ReadOnce(old(homa.View()), old(sock.savedBuffers), old(args.Pages()), args.bpageOffsets.Length) ==
            if over then Over(Reading(homa.View(), sock.savedBuffers, result))
            else Another(homa.View(), sock.savedBuffers, args.Pages())
    ensures msg != null <==> over && result.Got?
    ensures over && result.Got? ==>
              msg.region == homa.region && msg.Valid() && msg.Flat() == result.bytes && msg.sliceRefs == 1
  {
    hide Once, Placed, FlatOf, Model.RecvMsg, Met, Filling, Examine, DecodeHeader;
    ghost var n := Filling(sock.savedBuffers, args.Pages(), args.bpageOffsets.Length);
    GivenOnce([], homa.pool, sock.savedBuffers, args.Pages(), n, homa.pageSize);
    sock.GetSavedBuffers(args);
    RecvDeliversOrNot(homa.View(), args.Pages(), args.bpageOffsets.Length);
    var d := homa.RecvMsg(args);
    over, result, msg := true, TooShort(0), null;
    match d
    case Failure(errno, homaId, cookie) =>
      result := if errno.Again? then NothingRead(homaId, cookie) else RecvFailed(errno.code, homaId, cookie);
      Abandon(sock, homa, args, result);
    case Arrival(homaId, bytes, _) =>
      var m := new HomaIncoming(homa.region, homa.pageSize, args.bpageOffsets[..args.numBpages], |bytes|);
      assert m.Flat() == bytes;
      var verdict := Judge(homaId, m);
      match verdict
      case Reject(why) =>
        result := why;
        Abandon(sock, homa, args, result);
      case Discard =>
        over := false;
      case Accept =>
        result, msg := Got(homaId, DecodeHeader(bytes).streamId, bytes, args.bpageOffsets[..args.numBpages]), m;
  }

  lemma RecvDeliversOrNot(k: Kernel, given: seq<nat>, maxPages: nat)
    requires Once([], k.pool, given, k.pageSize)
    ensures var r, d := Model.RecvMsg(k, given, maxPages), Met(k, given, maxPages);
            d.Arrival? ==> Placed(d.pages, k.pageSize, |d.bytes|, |r.region|) && r.pageSize == k.pageSize &&
                           FlatOf(r.region, d.pages, k.pageSize, |d.bytes|) == d.bytes
  {
    hide Once, Placed, FlatOf, Model.RecvMsg, Met;
    if Met(k, given, maxPages).Arrival? { RecvDelivers(k, given, maxPages); }
  }

  /** HomaIncoming::read. The message returned lies in Homa's memory; without one, all buffers are
      with Homa or saved. */
  method ReadMessage(sock: HomaSocket, homa: Homa, maxPages: nat) returns (result: ReadResult, msg: HomaIncoming?)
    requires Once([], homa.pool, sock.savedBuffers + [], homa.pageSize)
    modifies sock, homa, homa.region
    ensures var r := Read(old(homa.View()), old(sock.savedBuffers), [], maxPages);
            homa.View() == r.k && sock.savedBuffers == r.saved && result == r.result
    ensures Answers(LastOf(Deliveries(old(homa.View()), old(sock.savedBuffers), [], maxPages)), result)
    ensures msg != null <==> result.Got?
    ensures result.Got? ==> msg.region == homa.region && msg.Valid() && msg.Flat() == result.bytes && msg.sliceRefs == 1
  {
    hide Once, Placed, FlatOf, ReadOnce, Answers, Deliveries;
    ghost var r := Read(homa.View(), sock.savedBuffers, [], maxPages);
    ReadAnswers(homa.View(), sock.savedBuffers, [], maxPages);
    var args := new RecvArgs(maxPages);
    while true
      invariant args.Valid() && args.bpageOffsets.Length == maxPages && fresh(args) && fresh(args.bpageOffsets)
      invariant Once([], homa.pool, sock.savedBuffers + args.Pages(), homa.pageSize)
      invariant Read(homa.View(), sock.savedBuffers, args.Pages(), maxPages) == r
      decreases |homa.script|
    {
      RoundsEnd(homa.View(), sock.savedBuffers, args.Pages(), maxPages);
      RoundStaysOnce(homa.View(), sock.savedBuffers, args.Pages(), maxPages);
      var over;
      over, result, msg := ReadRound(sock, homa, args);
      if over {
        return;
      }
    }
  }

  lemma RoundStaysOnce(k: Kernel, saved: seq<nat>, args: seq<nat>, maxPages: nat)
    requires Once([], k.pool, saved + args, k.pageSize)
    ensures var r := ReadOnce(k, saved, args, maxPages);
            r.Another? ==> Once([], r.k.pool, r.saved + r.args, r.k.pageSize)
  {
    hide Once, ReadOnce, Placed, FlatOf;
    OnceSize([], k.pool, saved + args, k.pageSize);
    EmptyPlaced(k);
    var r := ReadOnce(k, saved, args, maxPages);
    if r.Another? {
      RoundElsewhere(k, saved, args, maxPages, [], 0);
      RoundOnce(k, saved, args, maxPages, [], k.pageSize);
    }
  }
}
