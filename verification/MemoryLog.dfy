/** The circular log in memory of stress.cc. */
module MemoryLogs {
  import opened Basics

  /** The last n elements, or all if there are fewer. */
  function Last<T>(s: seq<T>, n: nat): (r: seq<T>)
    ensures |r| == Min(|s|, n)
  {
    s[|s| - Min(|s|, n)..]
  }

  /** Of what was kept and what is added, the same is kept as of everything. */
  lemma LastOfLast<T>(all: seq<T>, more: seq<T>, n: nat)
    ensures Last(Last(all, n) + more, n) == Last(all + more, n)
  {
    var kept := Last(all, n);
    assert all + more == all[..|all| - |kept|] + (kept + more);
    DropFront(all[..|all| - |kept|], kept + more, n);
  }

  lemma DropFront<T>(front: seq<T>, s: seq<T>, n: nat)
    requires |s| >= n || front == []
    ensures Last(front + s, n) == Last(s, n)
  {
    if front == [] {
      assert front + s == s;
    }
  }

  /** A ring in the order of time. */
  function Unrolled<T>(memory: seq<T>, offset: nat, wrapped: bool): seq<T>
    requires offset <= |memory|
  {
    if wrapped then memory[offset..] + memory[..offset] else memory[..offset]
  }

  /** A chunk that fits before the end of the ring pushes out what is oldest. */
  lemma ChunkAppended<T>(memory: seq<T>, offset: nat, wrapped: bool, chunk: seq<T>)
    requires offset + |chunk| <= |memory|
    ensures var m, o := memory[..offset] + chunk + memory[offset + |chunk|..], offset + |chunk|;
            var now := if o == |memory| then Unrolled(m, 0, true) else Unrolled(m, o, wrapped);
            now == Last(Unrolled(memory, offset, wrapped) + chunk, |memory|)
  {
    var m, o := memory[..offset] + chunk + memory[offset + |chunk|..], offset + |chunk|;
    var was := Unrolled(memory, offset, wrapped);
    assert m[..o] == memory[..offset] + chunk && m[o..] == memory[o..];
    if wrapped {
      assert was + chunk == memory[offset..o] + (memory[o..] + (memory[..offset] + chunk));
      DropFront(memory[offset..o], memory[o..] + (memory[..offset] + chunk), |memory|);
    }
  }

  class MemoryLog {
    /** How much memory is allocated when the log is first used. */
    const capacity: nat
    var logMemory: array?<char>
    var logOffset: nat
    var logWrapped: bool
    var logPrinted: bool

    /** Everything that has been appended before the log was printed. */
    ghost var appended: string

    ghost predicate Valid()
      reads this, logMemory
    {
      capacity > 0 &&
      if logMemory == null then appended == []
      else logMemory.Length == capacity && logOffset < capacity && Contents() == Last(appended, capacity)
    }

    ghost function Contents(): string
      reads this, logMemory
      requires logMemory != null && logOffset <= logMemory.Length
    {
      Unrolled(logMemory[..], logOffset, logWrapped)
    }

    constructor (capacity: nat)
      requires capacity > 0
      ensures Valid() && appended == [] && !logPrinted && this.capacity == capacity && logMemory == null
    {
      this.capacity, logMemory, appended := capacity, null, [];
      logOffset, logWrapped, logPrinted := 0, false, false;
    }

    /** Copies a chunk to the current place in the ring. */
    method CopyChunk(chunk: string)
      requires Valid() && logMemory != null && logOffset + |chunk| <= capacity
      modifies this, logMemory
      ensures Valid() && logMemory == old(logMemory) && logPrinted == old(logPrinted)
      ensures appended == old(appended) + chunk
      ensures logOffset == if old(logOffset) + |chunk| == capacity then 0 else old(logOffset) + |chunk|
    {
      hide Last, Unrolled;
      ChunkAppended(logMemory[..], logOffset, logWrapped, chunk);
      LastOfLast(appended, chunk, capacity);
      Memcpy(chunk);
      logOffset, appended := logOffset + |chunk|, appended + chunk;
      if logOffset >= capacity {
        logOffset, logWrapped := 0, true;
      }
    }

    method Memcpy(chunk: string)
      requires logMemory != null && logOffset + |chunk| <= logMemory.Length
      modifies logMemory
      ensures logMemory[..] == old(logMemory[..])[..logOffset] + chunk + old(logMemory[..])[logOffset + |chunk|..]
    {
      forall i | 0 <= i < |chunk| {
        logMemory[logOffset + i] := chunk[i];
      }
    }

    method Allocate()
      requires Valid() && logMemory == null
      modifies this
      ensures Valid() && logMemory != null && fresh(logMemory) && appended == [] && logPrinted == old(logPrinted)
    {
      logMemory := new char[capacity];
      logOffset, logWrapped := 0, false;
    }

    /** Adds a message of any length to the log, unless the log has been printed. */
    method AppendToLog(message: string)
      requires Valid()
      modifies this, logMemory
      ensures Valid() && logPrinted == old(logPrinted)
      ensures appended == if old(logPrinted) then old(appended) else old(appended) + message
      ensures logMemory == old(logMemory) || fresh(logMemory)
    {
      hide Last, Unrolled;
      if logPrinted {
        return;
      }
      if logMemory == null {
        Allocate();
      }
      var p := message;
      while |p| > capacity - logOffset
        invariant Valid() && logMemory != null && (logMemory == old(logMemory) || fresh(logMemory)) && !logPrinted
        invariant appended + p == old(appended) + message
        decreases |p|
      {
        var chunkSize := capacity - logOffset;
        CopyChunk(p[..chunkSize]);
        p := p[chunkSize..];
      }
      if |p| > 0 {
        CopyChunk(p);
      }
    }

    /** Writes the log: the last bytes appended, in order, as many as the ring holds. */
    method PrintLog() returns (written: Option<string>)
      requires Valid()
      modifies this
      ensures Valid() && appended == old(appended)
      ensures if old(logMemory) == null then written.None? && logPrinted == old(logPrinted)
              else logPrinted && written == Some(Last(appended, capacity))
    {
      if logMemory == null {
        return None;
      }
      logPrinted := true;
      var file: string := "";
      if logWrapped {
        file := logMemory[logOffset..];
      }
      assert logMemory[logOffset..] == logMemory[..][logOffset..];
      assert logMemory[..logOffset] == logMemory[..][..logOffset];
      file := file + logMemory[..logOffset];
      assert file == Contents();
      return Some(file);
    }
  }
}
