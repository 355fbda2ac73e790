/** From one stream to the other through memory: the messages that streams send are those that read
    accepts, and their parts are where the receiving stream looks for them. */
module Messages {
  import opened Basics
  import opened Wire
  import opened StreamModel
  import opened StreamRuns
  import opened EndToEnd
  import opened Pages
  import Sockets

  /** A message as it travels. */
  function WireBytes(m: HomaMessage): Bytes
    requires m.header.Fits()
  {
    EncodeHeader(m.header) + m.payload
  }

  /** What a stream gets to see of the bytes of a message. */
  function AsIncoming(flat: Bytes): Incoming
    requires |flat| >= HEADER_LENGTH
  {
    var h := DecodeHeader(flat);
    Incoming(h.sequenceNum, h.flags, flat[HEADER_LENGTH..], h.initMdBytes, h.trailMdBytes, h.messageBytes)
  }

  /** A coherent message is accepted and understood. */
  lemma CoherentIsAccepted(m: HomaMessage, streamId: nat, n: nat, homaId: nat)
    requires Coherent(m, streamId, n) && m.header.Fits() && m.header.MessageLength() < TWO_32
    ensures var b := WireBytes(m);
            Sockets.Examine(homaId, b).Accept? && DecodeHeader(b) == m.header && AsIncoming(b) == Received(m)
  {
    hide DecodeHeader, EncodeHeader;
    HeaderRoundTrip(m.header, m.payload);
    assert WireBytes(m)[HEADER_LENGTH..] == m.payload;
  }

  /** A coherent message of a stream is read as one for that stream, with all of its bytes: if it is what
      recvmsg meets after some dummy responses, it is what read returns. */
  lemma SentIsReadFor(m: HomaMessage, streamId: nat, n: nat, homaId: nat, k: Sockets.Kernel, saved: seq<nat>,
                      maxPages: nat)
    requires Coherent(m, streamId, n) && m.header.Fits() && m.header.MessageLength() < TWO_32
    ensures var d := Sockets.LastOf(Sockets.Deliveries(k, saved, [], maxPages));
            d.Arrival? && d.homaId == homaId && d.bytes == WireBytes(m) ==>
              Sockets.Read(k, saved, [], maxPages).result == Sockets.Got(homaId, streamId, WireBytes(m), d.pages)
  {
    hide DecodeHeader, EncodeHeader, Sockets.Read, Sockets.Deliveries;
    HeaderRoundTrip(m.header, m.payload);
    Sockets.ReadAnswers(k, saved, [], maxPages);
  }

  /** Without dummy responses: Homa has the message and the pages for it. */
  lemma DeliveredIsRead(m: HomaMessage, streamId: nat, n: nat, homaId: nat, k: Sockets.Kernel, pages: seq<nat>,
                        maxPages: nat)
    requires Coherent(m, streamId, n) && m.header.Fits() && m.header.MessageLength() < TWO_32
    requires k.script != [] && k.script[0] == Sockets.Arrival(homaId, WireBytes(m), pages)
    requires Sockets.Deliverable(k, k.script[0], maxPages)
    ensures Sockets.Read(k, [], [], maxPages).result == Sockets.Got(homaId, streamId, WireBytes(m), pages)
  {
    hide DecodeHeader, EncodeHeader, Sockets.Read, Sockets.Has, Placed;
    HeaderRoundTrip(m.header, m.payload);
    assert k.pool + ([] + [][..Sockets.Filling([], [], maxPages)]) == k.pool;
    Sockets.ReadAnswers(k, [], [], maxPages);
  }

  /** The parts of an accepted message are inside it, exactly if the sum of the lengths that its header
      gives does not overflow 32 bits. */
  lemma AcceptedPartsFit(homaId: nat, flat: Bytes)
    requires Sockets.Examine(homaId, flat).Accept?
    ensures var h := DecodeHeader(flat); |flat| == h.MessageLength() <==> h.MessageLength() < TWO_32
  {
    hide DecodeHeader;
    var h := DecodeHeader(flat);
    if h.MessageLength() < TWO_32 { DivModSmall(h.MessageLength(), TWO_32); }
    assert Sockets.Expected(h) < TWO_32;
  }

  /** Such an overflow passes the check: a message of a header only, which announces 2^32 bytes more. */
  lemma OverflowIsAccepted(homaId: nat)
    ensures var h := Header(1, 1, TWO_32 - 1, 1, 0, NO_FLAGS);
            var flat := EncodeHeader(h);
            |flat| == HEADER_LENGTH && h.MessageLength() == HEADER_LENGTH + TWO_32 && DecodeHeader(flat) == h &&
            Sockets.Examine(homaId, flat).Accept?
  {
    hide DecodeHeader, EncodeHeader;
    var h := Header(1, 1, TWO_32 - 1, 1, 0, NO_FLAGS);
    assert EncodeHeader(h) + [] == EncodeHeader(h);
    HeaderRoundTrip(h, []);
    DivModUnique(HEADER_LENGTH + TWO_32, TWO_32, 1, HEADER_LENGTH);
  }

  /** Every message that is sent in a run of two connected streams passes the checks of read, with its
      number and its parts, as long as the numbers and the length fit the fields of a header. */
  lemma SentMessagesAreAccepted(l: Link, evs: seq<LinkEvent>, i: nat, homaId: nat)
    requires NewLink(l) && AllowedRun(l, evs)
    ensures var tx := RunLink(l, evs).a.tx;
            i < |tx.sent| < TWO_32 && tx.streamId < TWO_32 && tx.sent[i].header.MessageLength() < TWO_32 ==>
              tx.sent[i].header.Fits() && Sockets.Examine(homaId, WireBytes(tx.sent[i])).Accept? &&
              AsIncoming(WireBytes(tx.sent[i])) == Received(tx.sent[i]) && Received(tx.sent[i]).sequence == i + 1
  {
    SentWithinLimit(l, evs);
    hide RunLink, AllowedRun, NewLink, WireBytes, AsIncoming, Sockets.Examine, LongSent;
    var tx := RunLink(l, evs).a.tx;
    if i < |tx.sent| < TWO_32 && tx.streamId < TWO_32 && tx.sent[i].header.MessageLength() < TWO_32 {
      CoherentIsAccepted(tx.sent[i], tx.streamId, i + 1, homaId);
    }
  }

  /** A dummy response is discarded: it never reaches a stream. */
  lemma DummiesAreDiscarded(tx: Tx, homaId: nat)
    requires tx.streamId < TWO_32
    ensures DummyResponse(tx).header.Fits() && Sockets.Examine(homaId, WireBytes(DummyResponse(tx))).Discard?
  {
    HeaderRoundTrip(DummyResponse(tx).header, []);
    hide DecodeHeader, EncodeHeader;
  }

  /** MarkFlags in memory: the stream sees the new flags, and the rest of the message as it was. */
  lemma FlagsInMemory(s: Sockets.State, i: nat, flags: Flags)
    requires Sockets.Intact(s) && Sockets.Possible(s, Sockets.MarkFlags(i, EncodeFlags(flags)))
    ensures var r := Sockets.Apply(s, Sockets.MarkFlags(i, EncodeFlags(flags)));
            r.live[i].pages == s.live[i].pages && |r.live[i].bytes| == |s.live[i].bytes| &&
            AsIncoming(FlatOf(r.k.region, r.live[i].pages, r.k.pageSize, |r.live[i].bytes|)) ==
              AsIncoming(s.live[i].bytes).(flags := flags)
  {
    Sockets.MarkMine(s, i, EncodeFlags(flags));
    hide AsIncoming, EncodeFlags, FlatOf, Placed, Sockets.Intact, Sockets.SetByte;
    FlagsInPlace(s.live[i].bytes, flags);
  }

  /** Overwriting the flags of a message in place changes them and nothing else. */
  lemma FlagsInPlace(flat: Bytes, flags: Flags)
    requires |flat| >= HEADER_LENGTH
    ensures AsIncoming(flat[Sockets.FLAGS_OFFSET := EncodeFlags(flags)]) == AsIncoming(flat).(flags := flags)
  {
    var b := flat[Sockets.FLAGS_OFFSET := EncodeFlags(flags)];
    assert b[0..4] == flat[0..4] && b[4..8] == flat[4..8] && b[8..12] == flat[8..12] && b[12..16] == flat[12..16];
    assert b[16..20] == flat[16..20] && b[HEADER_LENGTH..] == flat[HEADER_LENGTH..];
    FlagsRoundTrip(flags);
    hide DecodeFlags, EncodeFlags, DecodeBe32;
  }
}
