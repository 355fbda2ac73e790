/** The trace buffers of time_trace.cc and the method that prints them. */
module TimeTraces {
  import opened Basics
  import opened TraceMerge

  /** A slot of a ring; format is null until the slot is used. */
  datatype Slot = Slot(timestamp: nat, format: Option<string>, args: seq<nat>)

  const UNUSED := Slot(0, None, [])

  function SlotOf(e: Event): Slot { Slot(e.timestamp, Some(e.format), e.args) }

  class Buffer {
    const size: nat
    const events: array<Slot>
    var nextIndex: nat

    /** Everything that has been recorded. */
    ghost var history: seq<Event>

    /** Each slot holds the last event that was recorded in it. */
    ghost predicate Valid()
      reads this, events
    {
      && size > 1 && events.Length == size
      && nextIndex == |history| % size
      && (forall k :: 0 <= k < |history| && |history| - size <= k ==> events[k % size] == SlotOf(history[k]))
      && (forall i :: |history| <= i < size ==> events[i] == UNUSED)
    }

    constructor (size: nat)
      requires size > 1
      ensures Valid() && this.size == size && history == [] && fresh(events)
    {
      this.size, nextIndex, history := size, 0, [];
      events := new Slot[size](i => UNUSED);
    }

    /** Records an event, unless a printout is being made. */
    method Record(frozen: bool, e: Event)
      requires Valid()
      modifies this, events
      ensures Valid() && history == if frozen then old(history) else old(history) + [e]
    {
      if frozen {
        return;
      }
      ghost var n := |history|;
      events[nextIndex] := SlotOf(e);
      nextIndex := (nextIndex + 1) % size;
      history := history + [e];
      NextSlot(n, size);
      forall k | 0 <= k < n && n + 1 - size <= k ensures k % size != n % size { Apart(k, n, size); }
      if n < size { DivModSmall(n, size); }
    }

    /** A position in what is printed of the buffer, and the index of its slot. */
    ghost predicate Position(k: nat, index: nat)
      requires size > 1
      reads this
    {
      WindowStart(|history|, size) <= k <= |history| && index == k % size
    }

    /** The slot after the next one holds the oldest event that is printed, unless it has not been used:
        then no event has been lost. */
    lemma OldestSlot()
      requires Valid()
      ensures var n, index := |history|, (nextIndex + 1) % size;
              if Wrapped(n, size)
              then Position(WindowStart(n, size), index) && events[index] == SlotOf(history[WindowStart(n, size)])
              else events[index] == UNUSED && Position(0, 0) && WindowStart(n, size) == 0 &&
                   events[0].timestamp == FirstTime(history)
    {
      var n := |history|;
      NextSlot(n, size);
      if Wrapped(n, size) {
        DivModStep(n + 1, size);
      } else {
        DivModSmall(n + 1, size);
        DivModSmall(0, size);
      }
    }

    /** A position is at the end exactly if its slot is the one to be overwritten next. */
    lemma AtPosition(k: nat, index: nat)
      requires Valid() && Position(k, index)
      ensures index == nextIndex <==> k == |history|
      ensures k < |history| ==> events[index] == SlotOf(history[k]) && Position(k + 1, (index + 1) % size)
    {
      NextSlot(k, size);
      if k < |history| { Apart(k, |history|, size); }
    }

    /** Moves past the events that are too early. */
    method SkipEarly(index0: nat, start: nat, ghost k0: nat) returns (index: nat)
      requires Valid() && Position(k0, index0)
      ensures Position(Skip(history, k0, start), index)
    {
      ghost var k := k0;
      index := index0;
      AtPosition(k, index);
      while events[index].format.Some? && events[index].timestamp < start && index != nextIndex
        invariant Position(k, index) && Skip(history, k, start) == Skip(history, k0, start)
        invariant index == nextIndex <==> k == |history|
        invariant k < |history| ==> events[index] == SlotOf(history[k])
        decreases |history| - k
      {
        AtPosition(k, index);
        index, k := (index + 1) % size, k + 1;
        AtPosition(k, index);
      }
    }
  }

  ghost predicate AllValid(buffers: seq<Buffer>, size: nat)
    reads buffers, set b | b in buffers :: b.events
  {
    size > 1 && forall i :: 0 <= i < |buffers| ==> buffers[i].size == size && buffers[i].Valid()
  }

  ghost function Histories(buffers: seq<Buffer>): (hs: seq<seq<Event>>)
    reads buffers
    ensures |hs| == |buffers| && forall i :: 0 <= i < |hs| ==> hs[i] == buffers[i].history
  {
    seq(|buffers|, i requires 0 <= i < |buffers| reads buffers => buffers[i].history)
  }

  /** The indices stand for the positions. */
  ghost predicate Positions(buffers: seq<Buffer>, current: seq<nat>, ks: seq<nat>)
    reads buffers
  {
    |current| == |ks| == |buffers| &&
    forall i :: 0 <= i < |ks| ==> buffers[i].size > 1 && buffers[i].Position(ks[i], current[i])
  }

  /** Looks at the first event of a buffer: where it is, and what it says about the time of the start. */
  method FirstEvent(buffer: Buffer, latest0: nat, earliest0: nat) returns (index: nat, latest: nat, earliest: nat)
    requires buffer.Valid()
    ensures var h, size := buffer.history, buffer.size;
            buffer.Position(WindowStart(|h|, size), index) &&
            latest == (if Wrapped(|h|, size) && h[WindowStart(|h|, size)].timestamp > latest0
                       then h[WindowStart(|h|, size)].timestamp else latest0) &&
            earliest == if !Wrapped(|h|, size) && FirstTime(h) < earliest0 then FirstTime(h) else earliest0
  {
    latest, earliest := latest0, earliest0;
    index := (buffer.nextIndex + 1) % buffer.size;
    buffer.OldestSlot();
    if buffer.events[index].format.Some? {
      if buffer.events[index].timestamp > latest {
        latest := buffer.events[index].timestamp;
      }
    } else {
      index := 0;
      if buffer.events[0].timestamp < earliest {
        earliest := buffer.events[0].timestamp;
      }
    }
  }

  lemma NothingYet(size: nat)
    requires size > 1
    ensures LatestWrapStart([], size) == 0 && EarliestNoWrapStart([], size) == NEVER
  {}

  /** What one more buffer changes about the start. */
  lemma OneMore(hs: seq<seq<Event>>, size: nat, i: nat)
    requires size > 1 && i < |hs|
    ensures var h, latest, earliest := hs[i], LatestWrapStart(hs[..i], size), EarliestNoWrapStart(hs[..i], size);
            LatestWrapStart(hs[..i + 1], size) ==
              (if Wrapped(|h|, size) && h[WindowStart(|h|, size)].timestamp > latest
               then h[WindowStart(|h|, size)].timestamp else latest) &&
            EarliestNoWrapStart(hs[..i + 1], size) ==
              if !Wrapped(|h|, size) && FirstTime(h) < earliest then FirstTime(h) else earliest
  {
    assert hs[..i + 1][..i] == hs[..i] && hs[..i + 1][i] == hs[i];
  }

  /** Finds the first event of each buffer and the time at which the printout starts. */
  method FindStart(buffers: seq<Buffer>, size: nat) returns (current: seq<nat>, start: nat)
    requires AllValid(buffers, size)
    ensures start == StartTime(Histories(buffers), size)
    ensures Positions(buffers, current, WindowStarts(Histories(buffers), size))
  {
    hide Wrapped, WindowStart, FirstTime, LatestWrapStart, EarliestNoWrapStart;
    NothingYet(size);
    current := [];
    var latestWrapStart: nat, earliestNoWrapStart: nat := 0, NEVER;
    ghost var hs := Histories(buffers);
    for i := 0 to |buffers|
      invariant |current| == i && hs == Histories(buffers)
      invariant forall j :: 0 <= j < i ==> buffers[j].Position(WindowStart(|hs[j]|, size), current[j])
      invariant latestWrapStart == LatestWrapStart(hs[..i], size)
      invariant earliestNoWrapStart == EarliestNoWrapStart(hs[..i], size)
    {
      var index;
      index, latestWrapStart, earliestNoWrapStart := FirstEvent(buffers[i], latestWrapStart, earliestNoWrapStart);
      current := current + [index];
      OneMore(hs, size, i);
    }
    assert hs[..|buffers|] == hs;
    start := if latestWrapStart != 0 then latestWrapStart else earliestNoWrapStart;
  }

  /** Skips the events before the start. */
  method SkipAll(buffers: seq<Buffer>, size: nat, current0: seq<nat>, start: nat) returns (current: seq<nat>)
    requires AllValid(buffers, size) && Positions(buffers, current0, WindowStarts(Histories(buffers), size))
    ensures Positions(buffers, current, FirstsPrinted(Histories(buffers), size, start))
  {
    current := current0;
    ghost var hs := Histories(buffers);
    for i := 0 to |buffers|
      invariant |current| == |buffers| && hs == Histories(buffers)
      invariant forall j :: i <= j < |current| ==> current[j] == current0[j]
      invariant forall j :: 0 <= j < i ==> buffers[j].Position(FirstPrinted(hs[j], size, start), current[j])
    {
      var index := buffers[i].SkipEarly(current[i], start, WindowStart(|hs[i]|, size));
      current := current[i := index];
    }
  }

  /** The buffer whose next event is the earliest. */
  method FindEarliest(buffers: seq<Buffer>, size: nat, current: seq<nat>, ghost ks: seq<nat>)
    returns (curBuf: Option<nat>)
    requires AllValid(buffers, size) && Positions(buffers, current, ks)
    ensures curBuf == Earliest(Tails(Histories(buffers), ks))
  {
    curBuf := None;
    var earliestTime := NEVER;
    ghost var qs := Tails(Histories(buffers), ks);
    for i := 0 to |buffers|
      invariant curBuf == Earliest(qs[..i])
      invariant earliestTime == if curBuf.Some? then qs[curBuf.value][0].timestamp else NEVER
    {
      var buffer := buffers[i];
      var event := buffer.events[current[i]];
      buffer.AtPosition(ks[i], current[i]);
      assert qs[..i + 1][..i] == qs[..i] && qs[..i + 1][i] == qs[i];
      if current[i] != buffer.nextIndex && event.format.Some? && event.timestamp < earliestTime {
        curBuf, earliestTime := Some(i), event.timestamp;
      }
    }
    assert qs[..|buffers|] == qs;
  }

  /** Prints the earliest event that is left, if there is one. */
  method PrintOne(buffers: seq<Buffer>, size: nat, current0: seq<nat>, ghost ks0: seq<nat>)
    returns (entry: Option<Entry>, current: seq<nat>, ghost ks: seq<nat>)
    requires AllValid(buffers, size) && |ks0| == |buffers| && Positions(buffers, current0, ks0)
    ensures |ks| == |buffers| && Positions(buffers, current, ks)
    ensures var qs := Tails(Histories(buffers), ks0);
            match Earliest(qs)
            case None => entry.None?
            case Some(i) => entry == Some(Entry(i, qs[i][0])) && Tails(Histories(buffers), ks) == Pop(qs, i)
  {
    hide Earliest, Pop, Positions;
    current, ks := current0, ks0;
    var curBuf := FindEarliest(buffers, size, current, ks);
    if curBuf.None? {
      return None, current, ks;
    }
    var i := curBuf.value;
    PositionsAt(buffers, current, ks, i);
    var e, next := NextEvent(buffers[i], current[i], ks[i]);
    TailsPop(Histories(buffers), ks, i);
    PositionsAdvance(buffers, current, ks, i, next);
    return Some(Entry(i, e)), current[i := next], ks[i := ks[i] + 1];
  }

  /** Prints one event after the other, the earliest first. */
  method MergeBuffers(buffers: seq<Buffer>, size: nat, current0: seq<nat>, ghost ks0: seq<nat>)
    returns (out: seq<Entry>)
    requires AllValid(buffers, size) && |ks0| == |buffers| && Positions(buffers, current0, ks0)
    ensures out == Merge(Tails(Histories(buffers), ks0))
  {
    hide Size, Earliest, Merge, Pop, Positions, AllValid;
    var current: seq<nat> := current0;
    ghost var ks: seq<nat>, qs := ks0, Tails(Histories(buffers), ks0);
    ghost var all := Merge(qs);
    out := [];
    while true
      invariant Positions(buffers, current, ks) && |ks| == |buffers| && qs == Tails(Histories(buffers), ks)
      invariant out + Merge(qs) == all
      decreases Size(qs)
    {
      var entry;
      entry, current, ks := PrintOne(buffers, size, current, ks);
      if entry.None? {
        MergeEnds(qs);
        return;
      }
      ghost var i := Earliest(qs).value;
      PopSize(qs, i);
      MergeStep(out, qs, i);
      out, qs := out + [entry.value], Pop(qs, i);
    }
  }

  lemma PositionsAt(buffers: seq<Buffer>, current: seq<nat>, ks: seq<nat>, i: nat)
    requires Positions(buffers, current, ks) && i < |buffers|
    ensures |current| == |ks| == |buffers| && buffers[i].size > 1 && buffers[i].Position(ks[i], current[i])
  {}

  lemma PositionsAdvance(buffers: seq<Buffer>, current: seq<nat>, ks: seq<nat>, i: nat, next: nat)
    requires Positions(buffers, current, ks) && i < |buffers| && buffers[i].size > 1
    requires buffers[i].Position(ks[i] + 1, next)
    ensures Positions(buffers, current[i := next], ks[i := ks[i] + 1])
  {}

  lemma MergeEnds(qs: seq<seq<Event>>)
    requires Earliest(qs).None?
    ensures Merge(qs) == []
  {}

  lemma MergeStep(out: seq<Entry>, qs: seq<seq<Event>>, i: nat)
    requires Earliest(qs) == Some(i)
    ensures out + Merge(qs) == out + [Entry(i, qs[i][0])] + Merge(Pop(qs, i))
  {}

  /** The next event of a buffer, and the index after it. */
  method NextEvent(buffer: Buffer, index: nat, ghost k: nat) returns (e: Event, next: nat)
    requires buffer.Valid() && buffer.Position(k, index) && k < |buffer.history|
    ensures e == buffer.history[k] && buffer.Position(k + 1, next)
  {
    buffer.AtPosition(k, index);
    var slot := buffer.events[index];
    e := Event(slot.timestamp, slot.format.value, slot.args);
    next := (index + 1) % buffer.size;
  }

  class TimeTrace {
    const size: nat
    var frozen: bool
    var threadBuffers: seq<Buffer>

    constructor (size: nat)
      requires size > 1
      ensures AllValid(threadBuffers, size) && this.size == size && !frozen
    {
      this.size, frozen, threadBuffers := size, false, [];
    }

    /** Prints the events of all buffers; recording stops in the meantime. */
    method PrintInternal() returns (out: seq<Entry>)
      requires AllValid(threadBuffers, size)
      modifies this
      ensures threadBuffers == old(threadBuffers) && AllValid(threadBuffers, size) && !frozen
      ensures Histories(threadBuffers) == old(Histories(threadBuffers))
      ensures out == Output(Histories(threadBuffers), size)
    {
      hide Merge, StartTime, FirstsPrinted;
      frozen := true;
      var buffers := threadBuffers;
      var current, startTime := FindStart(buffers, size);
      current := SkipAll(buffers, size, current, startTime);
      out := MergeBuffers(buffers, size, current, FirstsPrinted(Histories(buffers), size, startTime));
      frozen := false;
    }
  }

  lemma NextSlot(n: nat, size: nat)
    requires size > 1
    ensures (n % size + 1) % size == (n + 1) % size
  {
    if n % size + 1 < size {
      DivModWithin(n, size, 1);
      DivModSmall(n % size + 1, size);
    } else {
      DivModNext(n, size);
      DivModStep(size, size);
    }
  }

  /** Two events fewer than a ring's size apart are in different slots. */
  lemma Apart(k: nat, n: nat, size: nat)
    requires size > 1 && k < n < k + size
    ensures k % size != n % size
  {
    if k % size + (n - k) < size {
      DivModWithin(k, size, n - k);
    } else {
      DivModNext(k, size);
      var m := k + (size - k % size);
      DivModWithin(m, size, n - m);
    }
  }
}
