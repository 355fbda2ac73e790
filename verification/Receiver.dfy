/** The reorder queue of a stream: it stays sorted, retires messages in order and once each, and never
    holds anything back without a reason. */
module Receiver {
  import opened Basics
  import opened Wire
  import opened StreamModel

  /** Waiting messages are in strictly increasing order, none of them is below the next one expected. */
  predicate QueueOk(rx: Rx) {
    Sorted(rx.incoming) && forall i :: 0 <= i < |rx.incoming| ==> rx.nextIncomingSequence <= rx.incoming[i].sequence
  }

  predicate Sorted(q: seq<Incoming>) {
    forall i, j :: 0 <= i < j < |q| ==> q[i].sequence < q[j].sequence
  }

  predicate Waiting(q: seq<Incoming>, sequence: nat) {
    exists i :: 0 <= i < |q| && q[i].sequence == sequence
  }

  /** Where a message belongs: behind all smaller numbers. */
  function Place(q: seq<Incoming>, sequence: nat): (p: nat)
    ensures p <= |q|
  {
    if q == [] || q[|q| - 1].sequence < sequence then |q| else Place(q[..|q| - 1], sequence)
  }

  lemma {:induction false} PlaceSound(q: seq<Incoming>, sequence: nat)
    requires Sorted(q)
    ensures forall i :: 0 <= i < Place(q, sequence) ==> q[i].sequence < sequence
    ensures forall i :: Place(q, sequence) <= i < |q| ==> q[i].sequence >= sequence
  {
    if q != [] && q[|q| - 1].sequence >= sequence {
      var r := q[..|q| - 1];
      PlaceSound(r, sequence);
      assert forall i :: 0 <= i < |r| ==> r[i] == q[i];
    }
  }

  /** The search drops a message exactly if its number is waiting already. */
  lemma {:induction false} InsertDropsDuplicates(q: seq<Incoming>, m: Incoming)
    requires Sorted(q)
    ensures Insert(q, m).None? <==> Waiting(q, m.sequence)
  {
    if q != [] {
      var r, last := q[..|q| - 1], q[|q| - 1];
      assert q[|q| - 1] == last;
      if last.sequence > m.sequence {
        InsertDropsDuplicates(r, m);
        if Waiting(r, m.sequence) {
          var i :| 0 <= i < |r| && r[i].sequence == m.sequence;
          assert q[i].sequence == m.sequence;
        } else {
          assert forall i :: 0 <= i < |r| ==> q[i] == r[i];
        }
      }
    }
  }

  lemma {:induction false} InsertAtPlace(q: seq<Incoming>, m: Incoming)
    requires Insert(q, m).Some?
    ensures var p := Place(q, m.sequence); Insert(q, m).value == q[..p] + [m] + q[p..]
  {
    if q != [] && q[|q| - 1].sequence > m.sequence {
      var r, p := q[..|q| - 1], Place(q, m.sequence);
      InsertAtPlace(r, m);
      assert r[..p] == q[..p];
      assert r[p..] + [q[|q| - 1]] == q[p..];
    }
  }

  /** Queueing a new message keeps the queue in order. */
  lemma InsertKeepsOrder(rx: Rx, m: Incoming)
    requires QueueOk(rx) && rx.nextIncomingSequence <= m.sequence && Insert(rx.incoming, m).Some?
    ensures QueueOk(rx.(incoming := Insert(rx.incoming, m).value))
  {
    var q, p := rx.incoming, Place(rx.incoming, m.sequence);
    assert forall i :: p <= i < |q| ==> q[i].sequence > m.sequence by {
      PlaceSound(q, m.sequence);
      InsertDropsDuplicates(q, m);
    }
    PlaceSound(q, m.sequence);
    InsertAtPlace(q, m);
    SortedWith(q, p, m);
    var r := q[..p] + [m] + q[p..];
    forall i | 0 <= i < |r| ensures rx.nextIncomingSequence <= r[i].sequence {
      assert r[i] == if i < p then q[i] else if i == p then m else q[i - 1];
    }
  }

  lemma SortedWith(q: seq<Incoming>, p: nat, m: Incoming)
    requires Sorted(q) && p <= |q|
    requires forall i :: 0 <= i < p ==> q[i].sequence < m.sequence
    requires forall i :: p <= i < |q| ==> q[i].sequence > m.sequence
    ensures Sorted(q[..p] + [m] + q[p..])
  {
    var r := q[..p] + [m] + q[p..];
    forall i, j | 0 <= i < j < |r| ensures r[i].sequence < r[j].sequence {
      assert r[i] == if i < p then q[i] else if i == p then m else q[i - 1];
      assert r[j] == if j < p then q[j] else if j == p then m else q[j - 1];
    }
  }

  /** Number of messages that TransferLoop retires. */
  function Retired(rx: Rx): nat
    decreases |rx.incoming|
  {
    if !FrontAvailable(rx) || Held(Offer(rx).incoming[0]) then 0 else 1 + Retired(Retire(Offer(rx)))
  }

  /** Messages are retired from the front, in sequence, and the expected number advances by one for
      each: no number is retired twice, none is skipped. */
  lemma {:induction false} RetiredInOrder(rx: Rx)
    requires QueueOk(rx)
    ensures var r, k := TransferLoop(rx), Retired(rx);
            QueueOk(r) && k <= |rx.incoming| && r.nextIncomingSequence == rx.nextIncomingSequence + k &&
            (forall i :: 0 <= i < k ==> rx.incoming[i].sequence == rx.nextIncomingSequence + i) &&
            |r.incoming| == |rx.incoming| - k &&
            (k < |rx.incoming| ==> r.incoming[1..] == rx.incoming[k + 1..] &&
                                   r.incoming[0].sequence == rx.incoming[k].sequence)
    decreases |rx.incoming|
  {
    if FrontAvailable(rx) {
      OfferKeepsQueue(rx);
      var o := Offer(rx);
      if !Held(o.incoming[0]) {
        var n := Retire(o);
        RetiredInOrder(n);
        assert forall i :: 0 < i < Retired(rx) ==> rx.incoming[i] == n.incoming[i - 1];
      }
    }
  }

  lemma OfferKeepsQueue(rx: Rx)
    requires QueueOk(rx) && FrontAvailable(rx)
    ensures QueueOk(Offer(rx)) && Offer(rx).incoming[1..] == rx.incoming[1..]
    ensures QueueOk(Retire(Offer(rx))) && Retire(Offer(rx)).incoming == rx.incoming[1..]
    ensures rx.incoming[0].sequence == rx.nextIncomingSequence
  {
    var o := Offer(rx);
    assert forall i :: 0 < i < |o.incoming| ==> o.incoming[i] == rx.incoming[i];
  }

  lemma TransferKeepsQueue(rx: Rx)
    requires QueueOk(rx)
    ensures QueueOk(TransferData(rx))
  {
    RetiredInOrder(rx);
  }

  /** The reasons for which the front message may wait: a callback that gRPC has not given, or, on a
      server, trailers of its own that have not been sent. */
  predicate Blocked(rx: Rx, m: Incoming) {
    || (m.flags.initMdPresent && rx.initMdCb.None?)
    || ((m.flags.messageComplete || m.bodyLength != 0) && rx.messageCb.None?)
    || (m.flags.trailMdPresent && (rx.trailMdCb.None? || (rx.isServer && !rx.trailMdSent)))
  }

  /** Could gRPC take something of the message now? */
  predicate Wanted(rx: Rx, m: Incoming) {
    || (m.flags.initMdPresent && rx.initMdCb.Some?)
    || ((m.flags.messageComplete || m.bodyLength != 0) && rx.messageCb.Some?)
    || (m.flags.trailMdPresent && rx.trailMdCb.Some? && !(rx.isServer && !rx.trailMdSent))
  }

  /** Nothing more can be handed over: the front message waits for a reason, and no callback that is
      there waits for anything in it. */
  predicate Settled(rx: Rx) {
    && (|rx.incoming| == 0
        || rx.incoming[0].sequence > rx.nextIncomingSequence
        || (Blocked(rx, rx.incoming[0]) && !Wanted(rx, rx.incoming[0])))
    && !(rx.eof && rx.messageCb.Some?)
  }

  lemma {:induction false} LoopProgress(rx: Rx)
    ensures var r := TransferLoop(rx);
            |r.incoming| == 0 || r.incoming[0].sequence > r.nextIncomingSequence ||
            (Held(r.incoming[0]) && Remains(r, r.incoming[0]) == r.incoming[0] && Blocked(r, r.incoming[0]) &&
             (r.incoming[0].flags.trailMdPresent ==> r.eof))
    decreases |rx.incoming|
  {
    if FrontAvailable(rx) {
      if !Held(Offer(rx).incoming[0]) { LoopProgress(Retire(Offer(rx))); }
    }
  }

  /** After transferData nothing is held back without a reason. */
  lemma MaximalProgress(rx: Rx)
    ensures Settled(TransferData(rx))
  {
    LoopProgress(rx);
  }

  /** The number that is expected next never goes back, whatever is in the queue. */
  lemma {:induction false} NeverGoesBack(rx: Rx)
    ensures TransferData(rx).nextIncomingSequence >= rx.nextIncomingSequence
    decreases |rx.incoming|
  {
    if FrontAvailable(rx) && !Held(Offer(rx).incoming[0]) { NeverGoesBack(Retire(Offer(rx))); }
  }

  predicate Among(c: Completion, before: seq<Completion>, after: seq<Completion>) {
    before <= after && c in after[|before|..]
  }

  lemma AmongLater(c: Completion, a: seq<Completion>, b: seq<Completion>, d: seq<Completion>)
    requires Among(c, a, b) && b <= d
    ensures Among(c, a, d)
  {
    var i :| 0 <= i < |b[|a|..]| && b[|a|..][i] == c;
    assert d[|a|..][i] == c;
  }

  lemma AmongEarlier(c: Completion, a: seq<Completion>, b: seq<Completion>, d: seq<Completion>)
    requires Among(c, b, d) && a <= b
    ensures Among(c, a, d)
  {
    var i :| 0 <= i < |d[|b|..]| && d[|b|..][i] == c;
    assert d[|a|..][i + |b| - |a|] == c;
  }

  /** Without a callback for it, the message holder is left alone. */
  lemma {:induction false} HolderKept(rx: Rx)
    requires rx.messageCb.None?
    ensures var r := TransferLoop(rx); r.messageCb.None? && r.messageBody == rx.messageBody && rx.done <= r.done
    decreases |rx.incoming|
  {
    hide ParseMetadata, Part;
    if FrontAvailable(rx) && !Held(Offer(rx).incoming[0]) { HolderKept(Retire(Offer(rx))); }
  }

  lemma OfferHolder(rx: Rx, cb: nat)
    requires |rx.incoming| > 0 && rx.messageCb == Some(cb)
    ensures var o := Offer(rx);
            rx.done <= o.done &&
            (o.messageCb == Some(cb) || (o.messageCb.None? && o.messageBody.Some? &&
                                         Among(MessageReady(cb, o.messageBody.value), rx.done, o.done)))
  {
    hide ParseMetadata, Part;
    var o := Offer(rx);
    var c := CompletedBy(rx, rx.incoming[0]);
    assert o.done[|rx.done|..] == c;
    if GivesMessage(rx, rx.incoming[0]) {
      var k := if GivesInitMd(rx, rx.incoming[0]) then 1 else 0;
      assert c[k] == MessageReady(cb, o.messageBody.value);
    }
  }

  lemma {:induction false} LoopHolder(rx: Rx, cb: nat)
    requires rx.messageCb == Some(cb)
    ensures var r := TransferLoop(rx);
            rx.done <= r.done &&
            (r.messageCb == Some(cb) || (r.messageCb.None? && r.messageBody.Some? &&
                                         Among(MessageReady(cb, r.messageBody.value), rx.done, r.done)))
    decreases |rx.incoming|
  {
    hide Offer, Among, Held;
    if FrontAvailable(rx) {
      var o, r := Offer(rx), TransferLoop(rx);
      OfferHolder(rx, cb);
      if !Held(o.incoming[0]) {
        var n := Retire(o);
        if n.messageCb.Some? {
          LoopHolder(n, cb);
          if r.messageCb.None? { AmongEarlier(MessageReady(cb, r.messageBody.value), rx.done, n.done, r.done); }
        } else {
          HolderKept(n);
          AmongLater(MessageReady(cb, n.messageBody.value), rx.done, n.done, r.done);
        }
      }
    }
  }

  /** When the callback for a message has been completed, its holder has the message, or is empty if there is
      none. */
  lemma HolderAnswers(rx: Rx, cb: nat)
    requires rx.messageCb == Some(cb)
    ensures var r := TransferData(rx);
            r.messageCb == Some(cb) ||
            (r.messageCb.None? &&
             Among(if r.messageBody.Some? then MessageReady(cb, r.messageBody.value) else NoMessage(cb),
                   rx.done, r.done))
  {
    LoopHolder(rx, cb);
    var l, r := TransferLoop(rx), TransferData(rx);
    hide TransferLoop;
    if l.messageCb.Some? && r.messageCb.None? { assert r.done[|rx.done|..][|l.done| - |rx.done|] == NoMessage(cb); }
  }

  /** A second transferData, with no news, completes no callback and retires nothing. */
  lemma TransferDataSettles(rx: Rx)
    requires QueueOk(rx)
    ensures var r := TransferData(rx);
            TransferData(r).done == r.done && TransferData(r).incoming == r.incoming &&
            TransferData(r).nextIncomingSequence == r.nextIncomingSequence
  {
    LoopProgress(rx);
    var r := TransferData(rx);
    assert SignalEof(r) == r;
    if FrontAvailable(r) { OfferBlocked(r); }
  }

  /** A blocked front message with nothing left to give stays as it is. */
  lemma OfferBlocked(rx: Rx)
    requires |rx.incoming| > 0 && Held(rx.incoming[0])
    requires rx.initMdCb.Some? ==> !rx.incoming[0].flags.initMdPresent
    requires rx.messageCb.Some? ==> !rx.incoming[0].flags.messageComplete && rx.incoming[0].bodyLength == 0
    requires rx.trailMdCb.Some? && MayTakeTrailers(rx) ==> !rx.incoming[0].flags.trailMdPresent
    ensures Offer(rx).done == rx.done && Offer(rx).incoming == rx.incoming
  {
    assert rx.done + CompletedBy(rx, rx.incoming[0]) == rx.done;
  }
}
