/** What the merged printout of several trace buffers contains, given everything that was ever recorded
    in each of them. */
module TraceMerge {
  import opened Basics

  /** A time stamp that no event can have: the search for the earliest event starts from it. */
  const NEVER: int := 0xFFFF_FFFF_FFFF_FFFF

  datatype Event = Event(timestamp: nat, format: string, args: seq<nat>)

  /** An event and the buffer that it comes from. */
  datatype Entry = Entry(buffer: nat, event: Event)

  predicate Ordered(s: seq<Event>) { forall i, j :: 0 <= i < j < |s| ==> s[i].timestamp <= s[j].timestamp }

  /** Time stamps are positive and below the one that no event can have. */
  predicate Timely(s: seq<Event>) { forall i :: 0 <= i < |s| ==> 0 < s[i].timestamp < NEVER }

  // ------------------------------------------------ the window of a ring

  /** The events of a ring that are printed: the slot to be overwritten next is left out. */
  function WindowStart(n: nat, size: nat): (k: nat)
    requires size > 1
    ensures k <= n
  {
    n - Min(n, size - 1)
  }

  /** The ring counts as wrapped as soon as the slot after the next one has been used. */
  predicate Wrapped(n: nat, size: nat) { n >= size - 1 }

  // ------------------------------------------------ where the printout starts

  /** The latest of the first events of the wrapped rings; 0 if there is none. */
  function LatestWrapStart(hs: seq<seq<Event>>, size: nat): nat
    requires size > 1
  {
    if hs == [] then 0
    else
      var rest, h := LatestWrapStart(hs[..|hs| - 1], size), hs[|hs| - 1];
      if Wrapped(|h|, size) && h[WindowStart(|h|, size)].timestamp > rest then h[WindowStart(|h|, size)].timestamp
      else rest
  }

  /** What is found in the first slot of a ring that has not wrapped: 0 if it is empty. */
  function FirstTime(h: seq<Event>): nat { if h == [] then 0 else h[0].timestamp }

  function EarliestNoWrapStart(hs: seq<seq<Event>>, size: nat): nat
    requires size > 1
  {
    if hs == [] then NEVER
    else
      var rest, h := EarliestNoWrapStart(hs[..|hs| - 1], size), hs[|hs| - 1];
      if !Wrapped(|h|, size) && FirstTime(h) < rest then FirstTime(h) else rest
  }

  function StartTime(hs: seq<seq<Event>>, size: nat): nat
    requires size > 1
  {
    if LatestWrapStart(hs, size) != 0 then LatestWrapStart(hs, size) else EarliestNoWrapStart(hs, size)
  }

  /** The first event from k on that is not too early. */
  function Skip(h: seq<Event>, k: nat, start: nat): (r: nat)
    requires k <= |h|
    ensures k <= r <= |h|
    decreases |h| - k
  {
    if k < |h| && h[k].timestamp < start then Skip(h, k + 1, start) else k
  }

  /** The first event of a ring that is printed. */
  function FirstPrinted(h: seq<Event>, size: nat, start: nat): (r: nat)
    requires size > 1
    ensures r <= |h|
  {
    Skip(h, WindowStart(|h|, size), start)
  }

  lemma {:induction false} SkipSound(h: seq<Event>, k: nat, start: nat)
    requires Ordered(h) && k <= |h|
    ensures var r := Skip(h, k, start);
            (forall i :: k <= i < r ==> h[i].timestamp < start) &&
            (forall i :: r <= i < |h| ==> h[i].timestamp >= start)
    decreases |h| - k
  {
    if k < |h| && h[k].timestamp < start { SkipSound(h, k + 1, start); }
  }

  lemma {:induction false} LatestIsLatest(hs: seq<seq<Event>>, size: nat, i: nat)
    requires size > 1 && i < |hs| && Wrapped(|hs[i]|, size)
    ensures hs[i][WindowStart(|hs[i]|, size)].timestamp <= LatestWrapStart(hs, size)
    decreases |hs|
  {
    if i < |hs| - 1 { LatestIsLatest(hs[..|hs| - 1], size, i); }
  }

  /** Printing starts late enough for every ring: what a ring has lost, or what is skipped, is not later
      than the start; everything later is there. */
  lemma NothingLaterIsLost(hs: seq<seq<Event>>, size: nat, i: nat)
    requires size > 1 && i < |hs| && Ordered(hs[i]) && Timely(hs[i])
    ensures var start := StartTime(hs, size);
            var first := FirstPrinted(hs[i], size, start);
            (forall k :: 0 <= k < first ==> hs[i][k].timestamp <= start) &&
            (forall k :: first <= k < |hs[i]| ==> hs[i][k].timestamp >= start)
  {
    var h, start := hs[i], StartTime(hs, size);
    SkipSound(h, WindowStart(|h|, size), start);
    if Wrapped(|h|, size) {
      LatestIsLatest(hs, size, i);
      var w := WindowStart(|h|, size);
      assert h[w].timestamp <= start;
      assert forall k :: 0 <= k < w ==> h[k].timestamp <= h[w].timestamp;
    }
  }

  // ------------------------------------------------ merging

  /** The queue whose first event is the earliest; of several, the one with the lowest number. None if
      there is no event that is earlier than NEVER. */
  function Earliest(qs: seq<seq<Event>>): (r: Option<nat>)
    ensures r.Some? ==> r.value < |qs| && qs[r.value] != [] && qs[r.value][0].timestamp < NEVER
  {
    if qs == [] then None
    else
      var rest, q := Earliest(qs[..|qs| - 1]), qs[|qs| - 1];
      var bound := if rest.Some? then qs[rest.value][0].timestamp else NEVER;
      if q != [] && q[0].timestamp < bound then Some(|qs| - 1) else rest
  }

  function Pop(qs: seq<seq<Event>>, i: nat): (r: seq<seq<Event>>)
    requires i < |qs| && qs[i] != []
    ensures |r| == |qs|
  {
    qs[i := qs[i][1..]]
  }

  function Size(qs: seq<seq<Event>>): nat { if qs == [] then 0 else Size(qs[..|qs| - 1]) + |qs[|qs| - 1]| }

  lemma {:induction false} PopSize(qs: seq<seq<Event>>, i: nat)
    requires i < |qs| && qs[i] != []
    ensures Size(Pop(qs, i)) == Size(qs) - 1
    decreases |qs|
  {
    var n := |qs| - 1;
    if i == n {
      assert Pop(qs, i)[..n] == qs[..n];
    } else {
      PopSize(qs[..n], i);
      assert Pop(qs, i)[..n] == Pop(qs[..n], i);
    }
  }

  /** The printout: the earliest event first, until none is left. */
  function Merge(qs: seq<seq<Event>>): seq<Entry>
    decreases Size(qs)
  {
    var i := Earliest(qs);
    if i.None? then []
    else
      PopSize(qs, i.value);
      [Entry(i.value, qs[i.value][0])] + Merge(Pop(qs, i.value))
  }

  /** The entries of one buffer. */
  function From(out: seq<Entry>, i: nat): seq<Event> {
    if out == [] then [] else (if out[0].buffer == i then [out[0].event] else []) + From(out[1..], i)
  }

  lemma {:induction false} EarliestSound(qs: seq<seq<Event>>, j: nat)
    requires j < |qs| && qs[j] != [] && qs[j][0].timestamp < NEVER
    ensures var r := Earliest(qs);
            r.Some? && (qs[r.value][0].timestamp < qs[j][0].timestamp ||
                        (qs[r.value][0].timestamp == qs[j][0].timestamp && r.value <= j))
    decreases |qs|
  {
    if j < |qs| - 1 { EarliestSound(qs[..|qs| - 1], j); }
  }

  predicate AllTimely(qs: seq<seq<Event>>) { forall i :: 0 <= i < |qs| ==> Timely(qs[i]) }

  predicate AllOrdered(qs: seq<seq<Event>>) { forall i :: 0 <= i < |qs| ==> Ordered(qs[i]) }

  /** Each buffer's events are printed completely, once, and in their own order. */
  lemma {:induction false} MergeKeepsEach(qs: seq<seq<Event>>, i: nat)
    requires AllTimely(qs)
    ensures From(Merge(qs), i) == if i < |qs| then qs[i] else []
    decreases Size(qs)
  {
    var e := Earliest(qs);
    if e.None? {
      if i < |qs| && qs[i] != [] { EarliestSound(qs, i); }
    } else {
      PopSize(qs, e.value);
      var rest := Pop(qs, e.value);
      PopTimely(qs, e.value);
      MergeKeepsEach(rest, i);
      assert Merge(qs)[0] == Entry(e.value, qs[e.value][0]) && Merge(qs)[1..] == Merge(rest);
    }
  }

  lemma PopTimely(qs: seq<seq<Event>>, i: nat)
    requires AllTimely(qs) && i < |qs| && qs[i] != []
    ensures AllTimely(Pop(qs, i))
  {}

  lemma PopOrdered(qs: seq<seq<Event>>, i: nat)
    requires AllOrdered(qs) && i < |qs| && qs[i] != []
    ensures AllOrdered(Pop(qs, i))
  {}

  predicate InOrder(out: seq<Entry>) {
    forall i, j :: 0 <= i < j < |out| ==> out[i].event.timestamp <= out[j].event.timestamp
  }

  /** No event in the queues is earlier. */
  predicate NotBefore(qs: seq<seq<Event>>, time: nat) {
    forall i, k :: 0 <= i < |qs| && 0 <= k < |qs[i]| ==> time <= qs[i][k].timestamp
  }

  lemma {:induction false} MergeNotBefore(qs: seq<seq<Event>>, time: nat)
    requires NotBefore(qs, time)
    ensures forall i :: 0 <= i < |Merge(qs)| ==> time <= Merge(qs)[i].event.timestamp
    decreases Size(qs)
  {
    var e := Earliest(qs);
    if e.Some? {
      PopSize(qs, e.value);
      MergeNotBefore(Pop(qs, e.value), time);
      hide Earliest, Size;
    }
  }

  lemma EarliestNotBefore(qs: seq<seq<Event>>)
    requires AllTimely(qs) && AllOrdered(qs) && Earliest(qs).Some?
    ensures NotBefore(qs, qs[Earliest(qs).value][0].timestamp)
  {
    forall i, k | 0 <= i < |qs| && 0 <= k < |qs[i]|
      ensures qs[Earliest(qs).value][0].timestamp <= qs[i][k].timestamp
    {
      EarliestSound(qs, i);
      assert Ordered(qs[i]);
      hide Earliest;
    }
  }

  lemma PopNotBefore(qs: seq<seq<Event>>, i: nat, time: nat)
    requires NotBefore(qs, time) && i < |qs| && qs[i] != []
    ensures NotBefore(Pop(qs, i), time)
  {
    forall j, k | 0 <= j < |qs| && 0 <= k < |Pop(qs, i)[j]| ensures time <= Pop(qs, i)[j][k].timestamp {
      assert Pop(qs, i)[j][k] == qs[j][if j == i then k + 1 else k];
    }
  }

  /** The printout is in the order of time. */
  lemma {:induction false} MergeInOrder(qs: seq<seq<Event>>)
    requires AllTimely(qs) && AllOrdered(qs)
    ensures InOrder(Merge(qs))
    decreases Size(qs)
  {
    var e := Earliest(qs);
    if e.Some? {
      PopSize(qs, e.value);
      var first, rest := qs[e.value][0], Pop(qs, e.value);
      EarliestNotBefore(qs);
      PopNotBefore(qs, e.value, first.timestamp);
      MergeNotBefore(rest, first.timestamp);
      PopTimely(qs, e.value);
      PopOrdered(qs, e.value);
      MergeInOrder(rest);
      assert Merge(qs) == [Entry(e.value, first)] + Merge(rest);
      hide Earliest, AllTimely, AllOrdered, NotBefore, Size, Merge;
    }
  }

  // ------------------------------------------------ the whole printout

  /** The events of each buffer from some position on. */
  function Tails(hs: seq<seq<Event>>, ks: seq<nat>): (r: seq<seq<Event>>)
    requires |ks| == |hs|
    ensures |r| == |hs| && forall i :: 0 <= i < |hs| ==> r[i] == if ks[i] <= |hs[i]| then hs[i][ks[i]..] else []
  {
    seq(|hs|, i requires 0 <= i < |hs| => if ks[i] <= |hs[i]| then hs[i][ks[i]..] else [])
  }

  lemma TailsPop(hs: seq<seq<Event>>, ks: seq<nat>, i: nat)
    requires |ks| == |hs| && i < |hs| && ks[i] < |hs[i]|
    ensures Tails(hs, ks)[i] != [] && Tails(hs, ks)[i][0] == hs[i][ks[i]]
    ensures Tails(hs, ks[i := ks[i] + 1]) == Pop(Tails(hs, ks), i)
  {}

  function WindowStarts(hs: seq<seq<Event>>, size: nat): (ks: seq<nat>)
    requires size > 1
    ensures |ks| == |hs| && forall i :: 0 <= i < |hs| ==> ks[i] == WindowStart(|hs[i]|, size)
  {
    seq(|hs|, i requires 0 <= i < |hs| => WindowStart(|hs[i]|, size))
  }

  function FirstsPrinted(hs: seq<seq<Event>>, size: nat, start: nat): (ks: seq<nat>)
    requires size > 1
    ensures |ks| == |hs| && forall i :: 0 <= i < |hs| ==> ks[i] == FirstPrinted(hs[i], size, start)
  {
    seq(|hs|, i requires 0 <= i < |hs| => FirstPrinted(hs[i], size, start))
  }

  function Output(hs: seq<seq<Event>>, size: nat): seq<Entry>
    requires size > 1
  {
    Merge(Tails(hs, FirstsPrinted(hs, size, StartTime(hs, size))))
  }

  /** The printout is in order and has no gap: of each buffer it holds, once and in their order, the
      events from some point on, and everything recorded before that point is not later than the start
      time. */
  lemma GapFree(hs: seq<seq<Event>>, size: nat, i: nat)
    requires size > 1 && AllTimely(hs) && AllOrdered(hs) && i < |hs|
    ensures InOrder(Output(hs, size))
    ensures var start := StartTime(hs, size);
            var first := FirstPrinted(hs[i], size, start);
            From(Output(hs, size), i) == hs[i][first..] &&
            (forall k :: 0 <= k < first ==> hs[i][k].timestamp <= start) &&
            (forall k :: first <= k < |hs[i]| ==> hs[i][k].timestamp >= start)
  {
    var qs := Tails(hs, FirstsPrinted(hs, size, StartTime(hs, size)));
    forall j | 0 <= j < |qs| ensures Ordered(qs[j]) && Timely(qs[j]) {
      assert Ordered(hs[j]) && Timely(hs[j]);
    }
    MergeInOrder(qs);
    MergeKeepsEach(qs, i);
    NothingLaterIsLost(hs, size, i);
    hide Merge, StartTime, FirstPrinted;
  }

  lemma {:induction false} NoneWrapped(hs: seq<seq<Event>>, size: nat)
    requires size > 1 && forall i :: 0 <= i < |hs| ==> !Wrapped(|hs[i]|, size)
    ensures LatestWrapStart(hs, size) == 0
    ensures forall i :: 0 <= i < |hs| ==> EarliestNoWrapStart(hs, size) <= FirstTime(hs[i])
    ensures EarliestNoWrapStart(hs, size) == NEVER ||
            exists i :: 0 <= i < |hs| && EarliestNoWrapStart(hs, size) == FirstTime(hs[i])
    decreases |hs|
  {
    if hs != [] {
      var rest := hs[..|hs| - 1];
      NoneWrapped(rest, size);
      assert FirstTime(hs[|hs| - 1]) == FirstTime(hs[|hs| - 1]);
      if EarliestNoWrapStart(hs, size) == EarliestNoWrapStart(rest, size) != NEVER {
        var i :| 0 <= i < |rest| && EarliestNoWrapStart(rest, size) == FirstTime(rest[i]);
        assert hs[i] == rest[i];
      }
    }
  }

  /** Has so much been recorded that the ring holds no more events? */
  predicate FullRing(h: seq<Event>, size: nat) { size > 1 && |h| >= size - 1 }

  /** Is a time not before the first event of any ring that has been filled? What lies earlier may have been
      overwritten there. */
  predicate Due(hs: seq<seq<Event>>, size: nat, time: nat) {
    forall j :: 0 <= j < |hs| && FullRing(hs[j], size) ==> hs[j][|hs[j]| - (size - 1)].timestamp <= time
  }

  lemma {:induction false} LatestIsSome(hs: seq<seq<Event>>, size: nat) returns (j: nat)
    requires size > 1 && LatestWrapStart(hs, size) != 0
    ensures j < |hs| && FullRing(hs[j], size)
    ensures hs[j][|hs[j]| - (size - 1)].timestamp == LatestWrapStart(hs, size)
    decreases |hs|
  {
    var n := |hs| - 1;
    if LatestWrapStart(hs, size) == LatestWrapStart(hs[..n], size) {
      j := LatestIsSome(hs[..n], size);
    } else {
      j := n;
    }
  }

  /** The start that is computed is not after an event exactly if the event is due. */
  lemma StartIsDue(hs: seq<seq<Event>>, size: nat, i: nat, k: nat)
    requires size > 1 && AllTimely(hs) && AllOrdered(hs) && i < |hs| && k < |hs[i]|
    ensures StartTime(hs, size) <= hs[i][k].timestamp <==> Due(hs, size, hs[i][k].timestamp)
  {
    hide LatestWrapStart, EarliestNoWrapStart;
    forall j | 0 <= j < |hs| && FullRing(hs[j], size)
      ensures 0 < hs[j][|hs[j]| - (size - 1)].timestamp <= LatestWrapStart(hs, size)
    {
      assert Timely(hs[j]);
      LatestIsLatest(hs, size, j);
    }
    if LatestWrapStart(hs, size) != 0 {
      var j := LatestIsSome(hs, size);
    } else {
      NoneWrapped(hs, size);
      assert Ordered(hs[i]);
      assert EarliestNoWrapStart(hs, size) <= FirstTime(hs[i]) <= hs[i][k].timestamp;
    }
  }

  /** Of each buffer the printout holds its last events, once and in their order; of the events that the
      buffer still holds, these are exactly those that are due. */
  lemma PrintedExactly(hs: seq<seq<Event>>, size: nat, i: nat)
    requires size > 1 && AllTimely(hs) && AllOrdered(hs) && i < |hs|
    ensures var h, printed := hs[i], From(Output(hs, size), i);
            |printed| <= Min(|h|, size - 1) && printed == h[|h| - |printed|..] &&
            forall k :: |h| - Min(|h|, size - 1) <= k < |h| ==>
              (k >= |h| - |printed| <==> Due(hs, size, h[k].timestamp))
  {
    hide Output, StartTime, Due, From;
    var h, start, printed := hs[i], StartTime(hs, size), From(Output(hs, size), i);
    GapFree(hs, size, i);
    SkipSound(h, WindowStart(|h|, size), start);
    assert |h| - |printed| == FirstPrinted(h, size, start);
    forall k | |h| - Min(|h|, size - 1) <= k < |h|
      ensures k >= |h| - |printed| <==> Due(hs, size, h[k].timestamp)
    {
      StartIsDue(hs, size, i, k);
    }
  }

  /** If no ring has been filled, everything that was recorded is printed. */
  lemma AllIsPrinted(hs: seq<seq<Event>>, size: nat, i: nat)
    requires size > 1 && AllTimely(hs) && AllOrdered(hs) && i < |hs|
    requires forall j :: 0 <= j < |hs| ==> !FullRing(hs[j], size)
    ensures From(Output(hs, size), i) == hs[i]
  {
    hide Output, From;
    PrintedExactly(hs, size, i);
    if hs[i] != [] { assert Due(hs, size, hs[i][0].timestamp); }
  }

  /** If some ring has been filled, everything that one such ring holds is printed. */
  lemma SomeRingIsPrinted(hs: seq<seq<Event>>, size: nat, i: nat) returns (j: nat)
    requires size > 1 && AllTimely(hs) && AllOrdered(hs) && i < |hs| && FullRing(hs[i], size)
    ensures j < |hs| && FullRing(hs[j], size)
    ensures From(Output(hs, size), j) == hs[j][|hs[j]| - (size - 1)..]
  {
    hide Output, From, LatestWrapStart;
    assert Timely(hs[i]);
    LatestIsLatest(hs, size, i);
    j := LatestIsSome(hs, size);
    forall l | 0 <= l < |hs| && FullRing(hs[l], size)
      ensures hs[l][|hs[l]| - (size - 1)].timestamp <= LatestWrapStart(hs, size)
    {
      LatestIsLatest(hs, size, l);
    }
    PrintedExactly(hs, size, j);
  }

  /** When no ring has wrapped the printout is meant to start at the oldest event; it starts at 0 instead
      exactly if some buffer has not been used yet, because its first slot holds time 0. */
  lemma UnusedBufferStartsAtZero(hs: seq<seq<Event>>, size: nat)
    requires size > 1 && hs != [] && AllTimely(hs) && forall i :: 0 <= i < |hs| ==> !Wrapped(|hs[i]|, size)
    ensures StartTime(hs, size) == 0 <==> [] in hs
  {
    NoneWrapped(hs, size);
    if StartTime(hs, size) == 0 {
      var i :| 0 <= i < |hs| && FirstTime(hs[i]) == 0;
      assert Timely(hs[i]);
      assert hs[i] == [];
    }
    if [] in hs {
      var i :| 0 <= i < |hs| && hs[i] == [];
      assert FirstTime(hs[i]) == 0;
    }
  }
}
