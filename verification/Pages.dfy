/** Incoming messages, which Homa scatters over pages of a buffer region. Every access to a message is
    proved to see the bytes of a flat message, wherever its pages are. */
module Pages {
  import opened Basics
  import opened Wire

  /** The number of pages that a message occupies. */
  function PageCount(length: nat, size: nat): (n: nat)
    requires size > 0
    ensures length > 0 ==> n > 0
  {
    if length > 0 then (length - 1) / size + 1 else 0
  }

  /** Where in the region a byte of a message lies. */
  function Address(pages: seq<nat>, size: nat, i: nat): nat
    requires size > 0 && i / size < |pages|
  {
    pages[i / size] + i % size
  }

  /** The pages are in the region, and there are as many as the message needs. */
  predicate Placed(pages: seq<nat>, size: nat, length: nat, regionLength: nat) {
    size > 0 && |pages| == PageCount(length, size) && forall k :: 0 <= k < |pages| ==> pages[k] + size <= regionLength
  }

  lemma DivMonotone(a: nat, b: nat, p: nat)
    requires p > 0 && a <= b
    ensures a / p <= b / p
  {
    assert a == (a / p) * p + a % p && b == (b / p) * p + b % p;
    if a / p > b / p { MulAtLeast(a / p - b / p, p); }
  }

  lemma PageOf(i: nat, length: nat, size: nat)
    requires size > 0 && i < length
    ensures i / size < PageCount(length, size)
    ensures i / size == PageCount(length, size) - 1 ==> length - i <= size - i % size
    ensures i / size < PageCount(length, size) - 1 ==> i + (size - i % size) < length
  {
    DivMonotone(i, length - 1, size);
    var q, r := i / size, i % size;
    var lq, lr := (length - 1) / size, (length - 1) % size;
    assert i == q * size + r && length - 1 == lq * size + lr;
    if q < lq {
      MulAtLeast(lq - q, size);
      assert (lq - q) * size == lq * size - q * size;
    }
  }

  lemma PlacedAddress(pages: seq<nat>, size: nat, length: nat, regionLength: nat, i: nat)
    requires Placed(pages, size, length, regionLength) && i < length
    ensures i / size < |pages| && Address(pages, size, i) < regionLength
  {
    PageOf(i, length, size);
    assert i % size < size;
    hide PageCount;
  }

  /** One byte of a message. */
  function ByteAt(region: seq<Byte>, pages: seq<nat>, size: nat, i: nat): Byte
    requires size > 0
  {
    if i / size < |pages| && Address(pages, size, i) < |region| then region[Address(pages, size, i)] else 0
  }

  /** The message as one sequence of bytes. */
  function FlatOf(region: seq<Byte>, pages: seq<nat>, size: nat, length: nat): (r: Bytes)
    requires size > 0
    ensures |r| == length && forall i :: 0 <= i < length ==> r[i] == ByteAt(region, pages, size, i)
  {
    seq(length, i requires 0 <= i < length => ByteAt(region, pages, size, i))
  }

  /** The bytes of a message that lie in one page are next to each other. */
  lemma Neighbours(pages: seq<nat>, size: nat, i: nat, k: nat)
    requires size > 0 && i % size + k < size && i / size < |pages|
    ensures (i + k) / size < |pages| && Address(pages, size, i + k) == Address(pages, size, i) + k
  {
    DivModWithin(i, size, k);
  }

  lemma {:induction false} Range(region: seq<Byte>, pages: seq<nat>, size: nat, length: nat, offset: nat, n: nat)
    requires Placed(pages, size, length, |region|) && offset + n <= length && offset % size + n <= size
    requires offset / size < |pages|
    ensures var a := Address(pages, size, offset);
            a + n <= |region| && region[a..a + n] == FlatOf(region, pages, size, length)[offset..offset + n]
    decreases n
  {
    hide FlatOf;
    if n > 0 {
      Range(region, pages, size, length, offset, n - 1);
      Neighbours(pages, size, offset, n - 1);
      var a, flat := Address(pages, size, offset), FlatOf(region, pages, size, length);
      assert flat[offset + n - 1] == ByteAt(region, pages, size, offset + n - 1) == region[a + n - 1];
      hide Placed, Address, ByteAt;
      assert region[a..a + n] == region[a..a + n - 1] + [region[a + n - 1]];
      assert flat[offset..offset + n] == flat[offset..offset + n - 1] + [flat[offset + n - 1]];
    }
  }

  /** What a range of bytes shares with a message. */
  function Clip(flat: Bytes, offset: nat, n: nat): (r: Bytes)
    ensures |r| <= n
  {
    if offset >= |flat| then [] else flat[offset..Min(offset + n, |flat|)]
  }

  lemma ClipMore(flat: Bytes, offset: nat, n: nat, more: nat)
    requires offset + n + more <= |flat|
    ensures Clip(flat, offset, n + more) == Clip(flat, offset, n) + flat[offset + n..offset + n + more]
  {}

  lemma ClipEnds(flat: Bytes, offset: nat, n: nat, m: nat)
    requires n <= m && offset + n >= |flat|
    ensures Clip(flat, offset, m) == Clip(flat, offset, n)
  {}

  /** The memory has been filled from its beginning. */
  predicate Filled(now: Bytes, before: Bytes, got: Bytes) { |got| <= |before| && now == got + before[|got|..] }

  lemma FilledNone(before: Bytes, flat: Bytes, offset: nat)
    ensures Filled(before, before, Clip(flat, offset, 0)) && Clip(flat, offset, 0) == []
  {}

  lemma FilledMore(was: Bytes, before: Bytes, got: Bytes, chunk: Bytes)
    requires Filled(was, before, got) && |got| + |chunk| <= |before|
    ensures Filled(was[..|got|] + chunk + was[|got| + |chunk|..], before, got + chunk)
  {}

  /** Bytes handed to gRPC; shared tells whether they are still in the message. */
  datatype Slice = Slice(bytes: Bytes, shared: bool)

  /** A message that has been received. */
  class HomaIncoming {
    /** The memory shared with Homa, and the size of its pages. */
    const region: array<Byte>
    const pageSize: nat

    /** Where in the region the pages of the message begin. */
    var bpageOffsets: seq<nat>
    var length: nat

    /** References to the message: the handle that owns it and the slices that point into it. */
    var sliceRefs: nat

    ghost predicate Valid()
      reads this`bpageOffsets, this`length
    {
      Placed(bpageOffsets, pageSize, length, region.Length)
    }

    ghost function Flat(): (r: Bytes)
      requires Valid()
      reads this`bpageOffsets, this`length, region
      ensures |r| == length
    {
      FlatOf(region[..], bpageOffsets, pageSize, length)
    }

    constructor (region: array<Byte>, pageSize: nat, bpageOffsets: seq<nat>, length: nat)
      requires Placed(bpageOffsets, pageSize, length, region.Length)
      ensures Valid() && this.region == region && this.pageSize == pageSize && this.bpageOffsets == bpageOffsets
      ensures this.length == length && sliceRefs == 1
    {
      this.region, this.pageSize, this.bpageOffsets, this.length := region, pageSize, bpageOffsets, length;
      sliceRefs := 1;
    }

    /** The number of bytes that follow an offset in the same page, or 0 beyond the message. */
    function Contiguous(offset: nat): (n: nat)
      requires Valid()
      reads this`bpageOffsets, this`length
      ensures n == 0 <==> offset >= length
      ensures n > 0 ==> offset + n <= length && offset % pageSize + n <= pageSize
      ensures 0 < n < length - offset ==> (offset + n) % pageSize == 0
    {
      if offset >= length then 0
      else
        PageOf(offset, length, pageSize);
        if offset / pageSize == |bpageOffsets| - 1 then length - offset
        else
          DivModNext(offset, pageSize);
          pageSize - offset % pageSize
    }

    /** The range that Contiguous promises lies in the region without gaps. */
    lemma ContiguousRange(offset: nat, n: nat)
      requires Valid() && 0 < n <= Contiguous(offset)
      ensures offset / pageSize < |bpageOffsets|
      ensures var a := Address(bpageOffsets, pageSize, offset);
              a + n <= region.Length && region[a..a + n] == Flat()[offset..offset + n]
    {
      PageOf(offset, length, pageSize);
      Range(region[..], bpageOffsets, pageSize, length, offset, n);
    }

    /** Where a byte of the message lies in the region; None beyond the message. */
    method Locate(offset: nat) returns (p: Option<nat>)
      requires Valid()
      ensures p.None? <==> offset >= length
      ensures p.Some? ==> offset / pageSize < |bpageOffsets| && p.value == Address(bpageOffsets, pageSize, offset)
    {
      if offset + 1 > length {
        return None;
      }
      PageOf(offset, length, pageSize);
      return Some(bpageOffsets[offset / pageSize] + offset % pageSize);
    }

    /** memcpy from the region. */
    method CopyIn(dst: array<Byte>, at: nat, from: nat, n: nat)
      requires dst != region && at + n <= dst.Length && from + n <= region.Length
      modifies dst
      ensures dst[..] == old(dst[..at]) + region[from..from + n] + old(dst[at + n..])
    {
      forall k | 0 <= k < n {
        dst[at + k] := region[from + k];
      }
    }

    /** Copies what a range of the message has in one page; nothing is copied beyond the message. */
    method CopyChunk(dst: array<Byte>, at: nat, offset: nat, left: nat) returns (chunkLength: nat)
      requires Valid() && dst != region && at + left <= dst.Length && left > 0
      modifies dst
      ensures Valid() && Flat() == old(Flat()) && chunkLength <= left
      ensures chunkLength == 0 <==> offset >= length
      ensures chunkLength > 0 ==>
                offset + chunkLength <= length &&
                dst[..] == old(dst[..at]) + Flat()[offset..offset + chunkLength] + old(dst[at + chunkLength..])
      ensures offset >= length ==> dst[..] == old(dst[..])
    {
      hide FlatOf, Placed;
      chunkLength := Contiguous(offset);
      if chunkLength == 0 {
        return;
      }
      if chunkLength > left {
        chunkLength := left;
      }
      var p := Locate(offset);
      ContiguousRange(offset, chunkLength);
      CopyIn(dst, at, p.value, chunkLength);
    }

    /** Copies a range of the message; bytes beyond its end are not copied. */
    method CopyOut(dst: array<Byte>, offset0: nat, length0: nat)
      requires Valid() && dst != region && length0 <= dst.Length
      modifies dst
      ensures Valid() && Flat() == old(Flat())
      ensures Filled(dst[..], old(dst[..]), Clip(Flat(), offset0, length0))
    {
      hide FlatOf, Placed, Clip, Filled;
      ghost var flat, before := Flat(), dst[..];
      FilledNone(before, flat, offset0);
      var offset: nat, at: nat, left: nat := offset0, 0, length0;
      while left > 0
        invariant at + left == length0 && offset == offset0 + at
        invariant Valid() && Flat() == flat && |Clip(flat, offset0, at)| == at
        invariant Filled(dst[..], before, Clip(flat, offset0, at))
        decreases left
      {
        ghost var was := dst[..];
        var chunkLength := CopyChunk(dst, at, offset, left);
        if chunkLength == 0 {
          ClipEnds(flat, offset0, at, length0);
          break;
        }
        ClipMore(flat, offset0, at, chunkLength);
        FilledMore(was, before, Clip(flat, offset0, at), flat[offset..offset + chunkLength]);
        offset, at, left := offset + chunkLength, at + chunkLength, left - chunkLength;
      }
    }

    /** An object in the message, made contiguous in aux if pages split it. None exactly when the object
        goes beyond the message, or is split and there is no room to join its pieces. */
    method Get(offset: nat, size: nat, aux: array?<Byte>) returns (r: Option<Bytes>)
      requires Valid() && size > 0 && aux != region && (aux != null ==> aux.Length >= size)
      modifies aux
      ensures Valid() && Flat() == old(Flat())
      ensures r.None? <==> offset + size > length || (aux == null && Contiguous(offset) < size)
      ensures r.Some? ==> r.value == Flat()[offset..offset + size]
    {
      hide FlatOf, Placed;
      if offset + size > length {
        return None;
      }
      var start := Locate(offset);
      var cbytes := Contiguous(offset);
      ContiguousRange(offset, if cbytes < size then cbytes else size);
      if cbytes >= size {
        return Some(region[start.value..start.value + size]);
      }
      if aux == null {
        return None;
      }
      CopyIn(aux, 0, start.value, cbytes);
      CopyPages(aux, offset, size, cbytes);
      return Some(aux[..size]);
    }

    /** Copies the pieces of an object that lie in the pages after its first one. */
    method CopyPages(aux: array<Byte>, offset: nat, size: nat, cbytes0: nat)
      requires Valid() && aux != region && aux.Length >= size && offset + size <= length
      requires 0 < cbytes0 == Contiguous(offset) < size && aux[..cbytes0] == Flat()[offset..offset + cbytes0]
      modifies aux
      ensures Valid() && Flat() == old(Flat()) && aux[..size] == Flat()[offset..offset + size]
    {
      assert pageSize > 0;
      hide FlatOf, Placed;
      ghost var flat := Flat();
      var offsetInObj: nat, bufIndex: nat := cbytes0, offset / pageSize;
      NextPage(offset, cbytes0);
      while offsetInObj < size
        invariant cbytes0 <= offsetInObj <= size && Valid() && Flat() == flat
        invariant offsetInObj < size ==> AtPage(offset + offsetInObj, bufIndex + 1)
        invariant aux[..offsetInObj] == flat[offset..offset + offsetInObj]
      {
        bufIndex := bufIndex + 1;
        var cbytes := if size - offsetInObj > pageSize then pageSize else size - offsetInObj;
        CopyPage(aux, offset, offsetInObj, bufIndex, cbytes);
        offsetInObj := offsetInObj + cbytes;
      }
    }

    /** Copies the piece of an object that begins with a page. */
    method CopyPage(aux: array<Byte>, ghost offset: nat, n: nat, bufIndex: nat, cbytes: nat)
      requires Valid() && aux != region && n + cbytes <= aux.Length && offset + n + cbytes <= length
      requires 0 < cbytes <= pageSize && AtPage(offset + n, bufIndex) && aux[..n] == Flat()[offset..offset + n]
      modifies aux
      ensures Valid() && Flat() == old(Flat()) && aux[..n + cbytes] == Flat()[offset..offset + (n + cbytes)]
      ensures cbytes == pageSize && offset + n + cbytes < length ==> AtPage(offset + n + cbytes, bufIndex + 1)
    {
      hide FlatOf, Placed;
      PageRange(offset + n, bufIndex, cbytes);
      CopyIn(aux, n, bpageOffsets[bufIndex], cbytes);
      JoinedRange(aux[..], Flat(), offset, n, cbytes);
    }

    /** The offset is at the beginning of a page. */
    ghost predicate AtPage(offset: nat, index: nat)
      reads this
    {
      pageSize > 0 && offset % pageSize == 0 && offset / pageSize == index
    }

    lemma NextPage(offset: nat, n: nat)
      requires Valid() && 0 < n == Contiguous(offset) && offset + n < length
      ensures AtPage(offset + n, offset / pageSize + 1)
    {
      PageOf(offset, length, pageSize);
      DivModNext(offset, pageSize);
    }

    /** From the beginning of a page, the message goes on up to the end of the page or its own. */
    lemma PageRange(offset: nat, index: nat, n: nat)
      requires Valid() && AtPage(offset, index) && 0 < n <= pageSize && offset + n <= length
      ensures index < |bpageOffsets| && bpageOffsets[index] + n <= region.Length
      ensures region[bpageOffsets[index]..bpageOffsets[index] + n] == Flat()[offset..offset + n]
      ensures n == pageSize && offset + n < length ==> AtPage(offset + n, index + 1)
    {
      PageOf(offset, length, pageSize);
      DivModNext(offset, pageSize);
      Range(region[..], bpageOffsets, pageSize, length, offset, n);
    }

    /** A slice of the message: it points into the message if it can, which keeps the message alive. */
    method GetSlice(offset: nat, sliceLength: nat) returns (slice: Slice)
      requires Valid() && offset + sliceLength <= length
      modifies this`sliceRefs
      ensures Valid() && Flat() == old(Flat()) && slice.bytes == Flat()[offset..offset + sliceLength]
      ensures slice.shared <==> Contiguous(offset) >= sliceLength
      ensures sliceRefs == old(sliceRefs) + if slice.shared then 1 else 0
    {
      hide FlatOf, Placed;
      if Contiguous(offset) >= sliceLength {
        sliceRefs := sliceRefs + 1;
        if sliceLength == 0 {
          return Slice([], true);
        }
        var p := Locate(offset);
        ContiguousRange(offset, sliceLength);
        return Slice(region[p.value..p.value + sliceLength], true);
      }
      var copy := new Byte[sliceLength];
      CopyOut(copy, offset, sliceLength);
      ClipInside(Flat(), offset, sliceLength);
      return Slice(copy[..], false);
    }

    /** Hands a message body to gRPC: one slice for each page it touches, none of them copied. */
    method SliceBody(offset: nat, bodyLength: nat, body0: seq<Bytes>) returns (body: seq<Bytes>)
      requires Valid() && offset + bodyLength <= length
      modifies this`sliceRefs
      ensures Valid() && Flat() == old(Flat())
      ensures Concat(body) == Concat(body0) + Flat()[offset..offset + bodyLength]
      ensures sliceRefs - old(sliceRefs) == |body| - |body0|
    {
      hide FlatOf, Placed, Concat;
      ghost var flat := Flat();
      var msgOffset, bytesLeft := offset, bodyLength;
      body := body0;
      while bytesLeft > 0
        invariant msgOffset + bytesLeft == offset + bodyLength && offset <= msgOffset
        invariant Valid() && Flat() == flat && Concat(body) == Concat(body0) + flat[offset..msgOffset]
        invariant sliceRefs - old(sliceRefs) == |body| - |body0|
        decreases bytesLeft
      {
        var sliceLength := Contiguous(msgOffset);
        if sliceLength > bytesLeft {
          sliceLength := bytesLeft;
        }
        var slice := GetSlice(msgOffset, sliceLength);
        SliceAdded(body, body0, flat, offset, msgOffset, msgOffset + sliceLength);
        body := body + [slice.bytes];
        msgOffset, bytesLeft := msgOffset + sliceLength, bytesLeft - sliceLength;
      }
    }

    /** A value that lies in one page stays there, and takes a reference to the message. */
    function ValueShared(offset: nat, valueLength: nat): nat
      requires Valid()
      reads this`bpageOffsets, this`length
    {
      if Contiguous(offset) >= valueLength then 1 else 0
    }

    /** How many values of metadata take a reference, the first item being at an offset. */
    ghost function ValuesShared(offset: nat, items: seq<Pair>): nat
      requires Valid()
      reads this`bpageOffsets, this`length
      decreases |items|
    {
      if items == [] then 0
      else
        var value := offset + MDATA_LENGTH + |items[0].key|;
        ValueShared(value, |items[0].value|) + ValuesShared(value + |items[0].value|, items[1..])
    }

    /** How many bytes items take up. */
    static function SpaceOf(items: seq<Pair>): nat {
      if items == [] then 0 else items[0].Size() + SpaceOf(items[1..])
    }

    lemma {:induction false} OneMoreShared(offset: nat, items: seq<Pair>, p: Pair)
      requires Valid()
      ensures SpaceOf(items + [p]) == SpaceOf(items) + p.Size()
      ensures ValuesShared(offset, items + [p]) ==
              ValuesShared(offset, items) +
              ValueShared(offset + SpaceOf(items) + MDATA_LENGTH + |p.key|, |p.value|)
      decreases |items|
    {
      hide ValueShared;
      if items == [] {
        assert [p][1..] == [];
      } else {
        assert (items + [p])[1..] == items[1..] + [p];
        OneMoreShared(offset + items[0].Size(), items[1..], p);
      }
    }

    /** Reads the lengths that come before a metadata item. */
    method GetMdata(offset: nat) returns (keyLength: nat, valueLength: nat)
      requires Valid() && offset + MDATA_LENGTH <= length
      ensures keyLength == DecodeBe32(Flat()[offset..offset + 4])
      ensures valueLength == DecodeBe32(Flat()[offset + 4..offset + 8])
    {
      hide FlatOf, Placed;
      var buffer := new Byte[MDATA_LENGTH];
      var mdata := Get(offset, MDATA_LENGTH, buffer);
      ghost var flat := Flat();
      assert mdata.value[0..4] == flat[offset..offset + 4] && mdata.value[4..8] == flat[offset + 4..offset + 8];
      keyLength, valueLength := DecodeBe32(mdata.value[0..4]), DecodeBe32(mdata.value[4..8]);
    }

    method GetPair(offset: nat, keyLength: nat, valueLength: nat) returns (p: Pair)
      requires Valid() && offset + keyLength + valueLength <= length
      modifies this`sliceRefs
      ensures Valid() && Flat() == old(Flat())
      ensures p == Pair(Flat()[offset..offset + keyLength],
                        Flat()[offset + keyLength..offset + keyLength + valueLength])
      ensures sliceRefs == old(sliceRefs) + ValueShared(offset + keyLength, valueLength)
    {
      hide FlatOf, Placed;
      var key := new Byte[keyLength];
      CopyOut(key, offset, keyLength);
      ClipInside(Flat(), offset, keyLength);
      var value := GetSlice(offset + keyLength, valueLength);
      return Pair(key[..], value.bytes);
    }

    lemma NothingShared(offset: nat)
      requires Valid()
      ensures SpaceOf([]) == 0 && ValuesShared(offset, []) == 0
    {}

    /** Reads metadata out of the message. None if the lengths of an item overflow 32 bits, so that the test
        of their sum takes the item for one that fits. */
    method DeserializeMetadata(offset0: nat, length0: nat) returns (batch: Option<seq<Pair>>)
      requires Valid() && offset0 + length0 <= length
      modifies this`sliceRefs
      ensures Valid() && Flat() == old(Flat())
      ensures batch == ParseWrapped(Flat()[offset0..offset0 + length0])
      ensures batch.Some? ==> sliceRefs == old(sliceRefs) + ValuesShared(offset0, batch.value)
    {
      hide FlatOf, Placed, ParseWrapped, ValueShared, ValuesShared, SpaceOf;
      ghost var flat, end := Flat(), offset0 + length0;
      ghost var parsed := ParseWrapped(flat[offset0..end]);
      var offset: nat, remaining: nat := offset0, length0;
      var items: seq<Pair> := [];
      PrependNothing(parsed);
      NothingShared(offset0);
      while remaining > MDATA_LENGTH
        invariant offset + remaining == end && Valid() && Flat() == flat
        invariant parsed == Prepend(items, ParseWrapped(flat[offset..end]))
        invariant offset == offset0 + SpaceOf(items) && sliceRefs == old(sliceRefs) + ValuesShared(offset0, items)
        decreases remaining
      {
        var keyLength, valueLength := GetMdata(offset);
        ParseStep(flat, offset, end, keyLength, valueLength);
        hide DecodeBe32;
        remaining, offset := remaining - MDATA_LENGTH, offset + MDATA_LENGTH;
        if (keyLength + valueLength) % TWO_32 > remaining {
          PrependEnds(items);
          return Some(items);
        }
        if keyLength + valueLength > remaining {
          return None;
        }
        var p := GetPair(offset, keyLength, valueLength);
        PrependTwice(items, p, ParseWrapped(flat[offset + keyLength + valueLength..end]));
        OneMoreShared(offset0, items, p);
        items := items + [p];
        remaining, offset := remaining - (keyLength + valueLength), offset + (keyLength + valueLength);
      }
      ParseStops(flat, offset, end);
      PrependEnds(items);
      return Some(items);
    }
  }

  function Prepend(items: seq<Pair>, rest: Option<seq<Pair>>): Option<seq<Pair>> {
    if rest.None? then None else Some(items + rest.value)
  }

  lemma PrependNothing(rest: Option<seq<Pair>>)
    ensures Prepend([], rest) == rest
  {
    if rest.Some? { assert [] + rest.value == rest.value; }
  }

  lemma PrependEnds(items: seq<Pair>)
    ensures Prepend(items, Some([])) == Some(items) && Prepend(items, None) == None
  {
    assert items + [] == items;
  }

  lemma PrependTwice(items: seq<Pair>, p: Pair, rest: Option<seq<Pair>>)
    ensures Prepend(items, Prepend([p], rest)) == Prepend(items + [p], rest)
  {
    if rest.Some? { assert items + ([p] + rest.value) == (items + [p]) + rest.value; }
  }

  // ------------------------------------------------ parsing with 32-bit lengths

  /** The parser with the sum of the two lengths computed in 32 bits. */
  function ParseWrapped(b: Bytes): Option<seq<Pair>>
    decreases |b|
  {
    if |b| <= MDATA_LENGTH then Some([])
    else
      var k, v := DecodeBe32(b[0..4]), DecodeBe32(b[4..8]);
      if (k + v) % TWO_32 > |b| - MDATA_LENGTH then Some([])
      else if k + v > |b| - MDATA_LENGTH then None
      else Prepend(ParsedFirst(b, k, v), ParseWrapped(b[8 + k + v..]))
  }

  /** An item is reached whose lengths do not fit, but seem to once their sum has lost its upper bits. */
  predicate Overflows(b: Bytes)
    decreases |b|
  {
    |b| > MDATA_LENGTH &&
    var k, v := DecodeBe32(b[0..4]), DecodeBe32(b[4..8]);
    if k + v <= |b| - MDATA_LENGTH then Overflows(b[8 + k + v..])
    else k + v >= TWO_32 && k + v - TWO_32 <= |b| - MDATA_LENGTH
  }

  /** 32-bit sums make no difference exactly if no such item is reached; then the parser is the one of the
      wire format. */
  lemma {:induction false} ParseWrappedExactly(b: Bytes)
    requires |b| < TWO_32
    ensures ParseWrapped(b) == if Overflows(b) then None else Some(ParseMetadata(b))
    decreases |b|
  {
    if |b| > MDATA_LENGTH {
      var k, v := DecodeBe32(b[0..4]), DecodeBe32(b[4..8]);
      WrappedSum(k, v);
      hide DecodeBe32;
      if k + v <= |b| - MDATA_LENGTH { ParseWrappedExactly(b[8 + k + v..]); }
    }
  }

  lemma WrappedSum(k: nat, v: nat)
    requires k < TWO_32 && v < TWO_32
    ensures (k + v) % TWO_32 == if k + v < TWO_32 then k + v else k + v - TWO_32
  {
    if k + v < TWO_32 { DivModSmall(k + v, TWO_32); } else { DivModUnique(k + v, TWO_32, 1, k + v - TWO_32); }
  }

  /** Metadata that was serialized never overflows. */
  lemma {:induction false} EncodedNeverOverflows(md: Metadata)
    ensures !Overflows(EncodeMetadata(md))
    decreases |md|
  {
    if md != [] {
      PairLayout(md[0], EncodeMetadata(md[1..]));
      EncodedNeverOverflows(md[1..]);
      hide EncodePair, DecodeBe32;
    }
  }

  /** An input for which the sums matter: one item, said to have a key of 2^32 - 1 bytes and a value of 1. */
  lemma OverflowExists()
    ensures var b := EncodeBe32(TWO_32 - 1) + EncodeBe32(1) + [0];
            |b| == 9 && Overflows(b) && ParseWrapped(b).None? && ParseMetadata(b) == []
  {
    var b := EncodeBe32(TWO_32 - 1) + EncodeBe32(1) + [0];
    assert b[0..4] == EncodeBe32(TWO_32 - 1) && b[4..8] == EncodeBe32(1);
    Be32RoundTrip(TWO_32 - 1);
    Be32RoundTrip(1);
    hide EncodeBe32, DecodeBe32;
    ParseWrappedExactly(b);
  }

  /** What the parser makes of the next item of a range. */
  lemma ParseStep(flat: Bytes, offset: nat, end: nat, k: nat, v: nat)
    requires offset + MDATA_LENGTH < end <= |flat|
    requires k == DecodeBe32(flat[offset..offset + 4]) && v == DecodeBe32(flat[offset + 4..offset + 8])
    ensures var next := offset + MDATA_LENGTH;
            ParseWrapped(flat[offset..end]) ==
              if (k + v) % TWO_32 > end - next then Some([])
              else if k + v > end - next then None
              else Prepend([Pair(flat[next..next + k], flat[next + k..next + k + v])],
                           ParseWrapped(flat[next + k + v..end]))
  {
    hide ParseWrapped, DecodeBe32, Prepend;
    SubRange(flat, offset, end, 0, 4);
    SubRange(flat, offset, end, 4, 8);
    ParseUnfold(flat[offset..end], k, v);
    if k + v <= end - (offset + MDATA_LENGTH) { ItemParts(flat, offset, end, k, v); }
  }

  lemma ItemParts(flat: Bytes, offset: nat, end: nat, k: nat, v: nat)
    requires offset + MDATA_LENGTH + k + v <= end <= |flat|
    ensures var b, next := flat[offset..end], offset + MDATA_LENGTH;
            b[8..8 + k] == flat[next..next + k] && b[8 + k..8 + k + v] == flat[next + k..next + k + v] &&
            b[8 + k + v..] == flat[next + k + v..end]
  {
    SubRange(flat, offset, end, 8, 8 + k);
    SubRange(flat, offset, end, 8 + k, 8 + k + v);
    SubSuffix(flat, offset, end, 8 + k + v);
  }

  lemma SubRange(flat: Bytes, a: nat, e: nat, i: nat, j: nat)
    requires a <= e <= |flat| && i <= j <= e - a
    ensures flat[a..e][i..j] == flat[a + i..a + j]
  {
    assert flat[a..e] == flat[a..][..e - a];
  }

  /** The definition of the parser, with the two lengths named. */
  lemma ParseUnfold(b: Bytes, k: nat, v: nat)
    requires |b| > MDATA_LENGTH && k == DecodeBe32(b[0..4]) && v == DecodeBe32(b[4..8])
    ensures (k + v) % TWO_32 > |b| - MDATA_LENGTH ==> ParseWrapped(b) == Some([])
    ensures (k + v) % TWO_32 <= |b| - MDATA_LENGTH < k + v ==> ParseWrapped(b) == None
    ensures (k + v) % TWO_32 <= |b| - MDATA_LENGTH && k + v <= |b| - MDATA_LENGTH ==>
              ParseWrapped(b) == Prepend(ParsedFirst(b, k, v), ParseWrapped(b[8 + k + v..]))
  {
    hide DecodeBe32, Prepend, ParsedFirst;
  }

  function ParsedFirst(b: Bytes, k: nat, v: nat): seq<Pair>
    requires 8 + k + v <= |b|
  {
    [Pair(b[8..8 + k], b[8 + k..8 + k + v])]
  }

  lemma SubSuffix(flat: Bytes, a: nat, e: nat, i: nat)
    requires a <= e <= |flat| && i <= e - a
    ensures flat[a..e][i..] == flat[a + i..e]
  {}

  lemma ParseStops(flat: Bytes, offset: nat, end: nat)
    requires offset <= end <= |flat| && end - offset <= MDATA_LENGTH
    ensures ParseWrapped(flat[offset..end]) == Some([])
  {}

  lemma ClipInside(flat: Bytes, offset: nat, n: nat)
    requires offset + n <= |flat|
    ensures Clip(flat, offset, n) == flat[offset..offset + n]
  {}

  lemma JoinedRange(dst: Bytes, flat: Bytes, offset: nat, n: nat, more: nat)
    requires n + more <= |dst| && offset + n + more <= |flat|
    requires dst[..n] == flat[offset..offset + n] && dst[n..n + more] == flat[offset + n..offset + n + more]
    ensures dst[..n + more] == flat[offset..offset + (n + more)]
  {
    assert dst[..n + more] == dst[..n] + dst[n..n + more];
  }

  /** One more slice of a body. */
  lemma SliceAdded(body: seq<Bytes>, body0: seq<Bytes>, flat: Bytes, a: nat, b: nat, c: nat)
    requires a <= b <= c <= |flat| && Concat(body) == Concat(body0) + flat[a..b]
    ensures Concat(body + [flat[b..c]]) == Concat(body0) + flat[a..c]
  {
    ConcatOne(body, flat[b..c]);
    JoinRanges(flat, a, b, c);
    hide Concat;
  }

  lemma JoinRanges(flat: Bytes, a: nat, b: nat, c: nat)
    requires a <= b <= c <= |flat|
    ensures flat[a..b] + flat[b..c] == flat[a..c]
  {}

}
