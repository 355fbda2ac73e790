/** The second implementation of the wire format, HomaWire.java, on top of a model of ByteBuffer. Java's
    integers are signed and wrap; reading or writing beyond a buffer throws, which the methods report by
    None or false. */
module JavaWire {
  import opened Basics
  import opened Wire

  const TWO_31: int := 0x8000_0000

  type Int32 = x: int | -TWO_31 <= x < TWO_31

  function Unsigned(x: Int32): (u: nat)
    ensures u < TWO_32
  {
    if x < 0 then x + TWO_32 else x
  }

  function Signed(u: nat): Int32
    requires u < TWO_32
  {
    if u < TWO_31 then u else u - TWO_32
  }

  /** The value of int arithmetic. */
  function Wrap(x: int): Int32 { Signed(x % TWO_32) }

  lemma WrapFits(x: int)
    requires -TWO_31 <= x < TWO_31
    ensures Wrap(x) == x
  {
    if x >= 0 { DivModSmall(x, TWO_32); } else { DivModUnique(x, TWO_32, -1, x + TWO_32); }
  }

  /** A big-endian ByteBuffer. */
  class ByteBuffer {
    const bytes: array<Byte>
    var position: nat

    ghost predicate Valid()
      reads this
    {
      position <= bytes.Length
    }

    /** What has been written or read so far, and what comes after it. */
    ghost function Before(): Bytes
      requires Valid()
      reads this, bytes
    {
      bytes[..position]
    }

    ghost function After(): Bytes
      requires Valid()
      reads this, bytes
    {
      bytes[position..]
    }

    constructor (bytes: array<Byte>)
      ensures Valid() && this.bytes == bytes && position == 0
    {
      this.bytes, position := bytes, 0;
    }

    /** Writes bytes at the position and moves it. */
    method Put(b: Bytes) returns (ok: bool)
      requires Valid()
      modifies this, bytes
      ensures Valid() && (ok <==> |b| <= |old(After())|)
      ensures ok ==> Before() == old(Before()) + b && After() == old(After())[|b|..]
      ensures !ok ==> Before() == old(Before()) && After() == old(After())
    {
      if |b| > bytes.Length - position {
        return false;
      }
      forall i | 0 <= i < |b| {
        bytes[position + i] := b[i];
      }
      position := position + |b|;
      return true;
    }

    method PutInt(v: Int32) returns (ok: bool)
      requires Valid()
      modifies this, bytes
      ensures Valid() && (ok <==> 4 <= |old(After())|)
      ensures ok ==> Before() == old(Before()) + EncodeBe32(Unsigned(v)) && After() == old(After())[4..]
      ensures !ok ==> Before() == old(Before()) && After() == old(After())
    {
      ok := Put(EncodeBe32(Unsigned(v)));
    }

    /** Reads n bytes at the position and moves it. */
    method GetBytes(n: nat) returns (b: Option<Bytes>)
      requires Valid()
      modifies this
      ensures Valid() && (b.Some? <==> n <= |old(After())|)
      ensures b.Some? ==> b.value == old(After())[..n] && After() == old(After())[n..] && position == old(position) + n
      ensures b.None? ==> position == old(position)
    {
      if n > bytes.Length - position {
        return None;
      }
      b := Some(bytes[position..position + n]);
      position := position + n;
    }

    method Get() returns (b: Option<Byte>)
      requires Valid()
      modifies this
      ensures Valid() && (b.Some? <==> old(After()) != [])
      ensures b.Some? ==> b.value == old(After())[0] && After() == old(After())[1..] && position == old(position) + 1
    {
      if position == bytes.Length {
        return None;
      }
      b := Some(bytes[position]);
      position := position + 1;
    }

    method GetInt() returns (v: Option<Int32>)
      requires Valid()
      modifies this
      ensures Valid() && (v.Some? <==> 4 <= |old(After())|)
      ensures v.Some? ==> v.value == Signed(DecodeBe32(old(After())[0..4])) && After() == old(After())[4..]
      ensures v.Some? ==> position == old(position) + 4
      ensures v.None? ==> position == old(position)
    {
      var b := GetBytes(4);
      if b.None? {
        return None;
      }
      return Some(Signed(DecodeBe32(b.value)));
    }
  }

  // ------------------------------------------------ headers

  /** The fields of a header as Java holds them. */
  datatype Fields = Fields(sid: Int32, sequence: Int32, initMdBytes: Int32, trailMdBytes: Int32, messageBytes: Int32,
                           flags: Byte)

  /** The bytes that Java writes. */
  function JavaHeader(f: Fields): (r: Bytes)
    ensures |r| == HEADER_LENGTH
  {
    EncodeBe32(Unsigned(f.sid)) + EncodeBe32(Unsigned(f.sequence)) + EncodeBe32(Unsigned(f.initMdBytes)) +
    EncodeBe32(Unsigned(f.trailMdBytes)) + EncodeBe32(Unsigned(f.messageBytes)) + [f.flags]
  }

  /** The header that the C++ side means by the same fields. */
  function Meaning(f: Fields): (h: Header)
    ensures h.Fits()
  {
    Header(Unsigned(f.sid), Unsigned(f.sequence), Unsigned(f.initMdBytes), Unsigned(f.trailMdBytes),
           Unsigned(f.messageBytes), DecodeFlags(f.flags))
  }

  /** Both sides write the same bytes, as long as the two bits without meaning are not set. */
  lemma SameHeaderBytes(f: Fields)
    ensures JavaHeader(f) == EncodeHeader(Meaning(f)) <==> f.flags < 64
  {
    hide EncodeFlags, DecodeFlags, EncodeBe32, Unsigned;
    FlagBits(f.flags);
    var words := EncodeBe32(Unsigned(f.sid)) + EncodeBe32(Unsigned(f.sequence)) + EncodeBe32(Unsigned(f.initMdBytes)) +
                 EncodeBe32(Unsigned(f.trailMdBytes)) + EncodeBe32(Unsigned(f.messageBytes));
    assert JavaHeader(f) == words + [f.flags];
    assert EncodeHeader(Meaning(f)) == words + [EncodeFlags(DecodeFlags(f.flags))];
    LastByte(words, f.flags, EncodeFlags(DecodeFlags(f.flags)));
    hide JavaHeader, EncodeHeader, Meaning;
  }

  lemma LastByte(words: Bytes, a: Byte, b: Byte)
    ensures words + [a] == words + [b] <==> a == b
  {
    assert (words + [a])[|words|] == a && (words + [b])[|words|] == b;
  }

  lemma FlagBits(b: Byte)
    ensures EncodeFlags(DecodeFlags(b)) == b % 64
  {
    var b1 := b / 2;
    var b2, b3, b4, b5, b6 := b / 4, b / 8, b / 16, b / 32, b / 64;
    assert b2 == b1 / 2 && b3 == b2 / 2 && b4 == b3 / 2 && b5 == b4 / 2 && b6 == b5 / 2;
    BitValue(b, 1);
    BitValue(b1, 2);
    BitValue(b2, 4);
    BitValue(b3, 8);
    BitValue(b4, 16);
    BitValue(b5, 32);
    hide Bit;
  }

  lemma BitValue(n: nat, weight: nat)
    ensures Bit(n % 2 == 1, weight) == weight * (n - 2 * (n / 2))
  {
    if n % 2 == 1 {
      assert n - 2 * (n / 2) == 1;
    } else {
      assert n - 2 * (n / 2) == 0;
    }
  }

  /** A header is read back on the other side, in both directions. */
  lemma JavaHeaderIsRead(f: Fields, rest: Bytes)
    ensures DecodeHeader(JavaHeader(f) + rest) == Meaning(f)
  {
    var b := JavaHeader(f) + rest;
    assert b[0..4] == EncodeBe32(Unsigned(f.sid)) && b[4..8] == EncodeBe32(Unsigned(f.sequence));
    assert b[8..12] == EncodeBe32(Unsigned(f.initMdBytes)) && b[12..16] == EncodeBe32(Unsigned(f.trailMdBytes));
    assert b[16..20] == EncodeBe32(Unsigned(f.messageBytes)) && b[20] == f.flags;
    Be32RoundTrip(Unsigned(f.sid));
    Be32RoundTrip(Unsigned(f.sequence));
    Be32RoundTrip(Unsigned(f.initMdBytes));
    Be32RoundTrip(Unsigned(f.trailMdBytes));
    Be32RoundTrip(Unsigned(f.messageBytes));
    hide EncodeBe32, DecodeBe32, DecodeFlags;
  }

  lemma UnsignedSigned(u: nat)
    requires u < TWO_32
    ensures Unsigned(Signed(u)) == u
  {}

  class JavaHeaderObject {
    var fields: Fields

    constructor (fields: Fields)
      ensures this.fields == fields
    {
      this.fields := fields;
    }

    /** Writes the header at the position of the buffer. */
    method Serialize(buf: ByteBuffer) returns (ok: bool)
      requires buf.Valid()
      modifies buf, buf.bytes
      ensures buf.Valid() && fields == old(fields) && (ok <==> HEADER_LENGTH <= |old(buf.After())|)
      ensures ok ==> buf.Before() == old(buf.Before()) + JavaHeader(fields)
    {
      hide EncodeBe32, Unsigned;
      var f := fields;
      ghost var start, done := buf.Before(), [];
      assert start + done == start;
      ok, done := PutNext(buf, f.sid, start, done);
      if !ok { return; }
      ok, done := PutNext(buf, f.sequence, start, done);
      if !ok { return; }
      ok, done := PutNext(buf, f.initMdBytes, start, done);
      if !ok { return; }
      ok, done := PutNext(buf, f.trailMdBytes, start, done);
      if !ok { return; }
      ok, done := PutNext(buf, f.messageBytes, start, done);
      if !ok { return; }
      ok := buf.Put([f.flags]);
      Associate(start, done, [f.flags]);
    }

    static method PutNext(buf: ByteBuffer, v: Int32, ghost start: Bytes, ghost done: Bytes)
      returns (ok: bool, ghost now: Bytes)
      requires buf.Valid() && buf.Before() == start + done
      modifies buf, buf.bytes
      ensures buf.Valid() && (ok <==> 4 <= |old(buf.After())|)
      ensures ok ==> now == done + EncodeBe32(Unsigned(v)) && buf.Before() == start + now
      ensures ok ==> |buf.After()| == |old(buf.After())| - 4
    {
      hide EncodeBe32;
      ok := buf.PutInt(v);
      now := done + EncodeBe32(Unsigned(v));
      assert start + done + EncodeBe32(Unsigned(v)) == start + now;
    }

    /** Reads the header at the beginning of the buffer. */
    method Deserialize(buf: ByteBuffer) returns (ok: bool)
      requires buf.Valid()
      modifies this, buf
      ensures buf.Valid() && (ok <==> HEADER_LENGTH <= buf.bytes.Length)
      ensures ok ==> Meaning(fields) == DecodeHeader(buf.bytes[..]) && buf.position == HEADER_LENGTH
    {
      buf.position := 0;
      ghost var b := buf.bytes[..];
      hide DecodeBe32, DecodeFlags, Signed, Unsigned;
      var sid := NextInt(buf, b, 0);
      if sid.None? { return false; }
      var sequence := NextInt(buf, b, 4);
      if sequence.None? { return false; }
      var initMdBytes := NextInt(buf, b, 8);
      if initMdBytes.None? { return false; }
      var trailMdBytes := NextInt(buf, b, 12);
      if trailMdBytes.None? { return false; }
      var messageBytes := NextInt(buf, b, 16);
      if messageBytes.None? { return false; }
      var flags := buf.Get();
      if flags.None? { return false; }
      fields := Fields(sid.value, sequence.value, initMdBytes.value, trailMdBytes.value, messageBytes.value,
                       flags.value);
      return true;
    }

    /** The next field of the header. */
    static method NextInt(buf: ByteBuffer, ghost b: Bytes, ghost at: nat) returns (v: Option<Int32>)
      requires buf.Valid() && buf.bytes[..] == b && buf.position == at
      modifies buf
      ensures buf.Valid() && (v.Some? <==> at + 4 <= |b|) && buf.position == if v.Some? then at + 4 else at
      ensures v.Some? ==> Unsigned(v.value) == DecodeBe32(b[at..at + 4])
    {
      hide DecodeBe32;
      assert buf.After() == b[at..];
      v := buf.GetInt();
      if v.Some? {
        assert b[at..][0..4] == b[at..at + 4];
        UnsignedSigned(DecodeBe32(b[at..at + 4]));
      }
    }
  }

  // ------------------------------------------------ metadata

  /** Metadata as Java holds it: keys and values by turns, each an array of bytes. */
  type JavaArray = b: Bytes | |b| < TWO_31
  type JavaMetadata = seq<JavaArray>

  function Pairs(md: JavaMetadata): seq<Pair>
    requires |md| % 2 == 0
  {
    if md == [] then [] else [Pair(md[0], md[1])] + Pairs(md[2..])
  }

  function Flatten(ps: seq<Pair>): seq<Bytes> { if ps == [] then [] else [ps[0].key, ps[0].value] + Flatten(ps[1..]) }

  /** The bytes that Java writes. */
  function JavaEncode(md: JavaMetadata): Bytes
    requires |md| % 2 == 0
  {
    if md == [] then []
    else EncodeBe32(|md[0]|) + EncodeBe32(|md[1]|) + md[0] + md[1] + JavaEncode(md[2..])
  }

  /** Both sides write the same bytes. */
  lemma {:induction false} SameMetadataBytes(md: JavaMetadata, ps: Metadata)
    requires |md| % 2 == 0 && Pairs(md) == ps
    ensures JavaEncode(md) == EncodeMetadata(ps)
    decreases |md|
  {
    if md != [] {
      assert ps[0] == Pair(md[0], md[1]) && ps[1..] == Pairs(md[2..]);
      SameMetadataBytes(md[2..], ps[1..]);
    }
    hide EncodeBe32;
  }

  lemma {:induction false} JavaEncodeAppend(md: JavaMetadata, k: JavaArray, v: JavaArray)
    requires |md| % 2 == 0
    ensures JavaEncode(md + [k, v]) == JavaEncode(md) + (EncodeBe32(|k|) + EncodeBe32(|v|) + k + v)
    decreases |md|
  {
    hide EncodeBe32;
    if md == [] {
      assert md + [k, v] == [k, v] && [k, v][2..] == [];
      assert EncodeBe32(|k|) + EncodeBe32(|v|) + k + v + [] == [] + (EncodeBe32(|k|) + EncodeBe32(|v|) + k + v);
    } else {
      assert (md + [k, v])[2..] == md[2..] + [k, v] && (md + [k, v])[0] == md[0] && (md + [k, v])[1] == md[1];
      JavaEncodeAppend(md[2..], k, v);
      Associate(EncodeBe32(|md[0]|) + EncodeBe32(|md[1]|) + md[0] + md[1], JavaEncode(md[2..]),
                EncodeBe32(|k|) + EncodeBe32(|v|) + k + v);
    }
  }

  lemma Associate<T>(a: seq<T>, b: seq<T>, c: seq<T>)
    ensures a + (b + c) == (a + b) + c
  {}

  method PutMore(buf: ByteBuffer, b: Bytes, ghost start: Bytes, ghost done: Bytes) returns (ok: bool, ghost now: Bytes)
    requires buf.Valid() && buf.Before() == start + done
    modifies buf, buf.bytes
    ensures buf.Valid() && (ok <==> |b| <= |old(buf.After())|)
    ensures ok ==> now == done + b && buf.Before() == start + now && |buf.After()| == |old(buf.After())| - |b|
  {
    ok := buf.Put(b);
    now := done + b;
    assert start + done + b == start + now;
  }

  function ItemBytes(k: JavaArray, v: JavaArray): (r: Bytes)
    ensures |r| == MDATA_LENGTH + |k| + |v|
  {
    EncodeBe32(|k|) + EncodeBe32(|v|) + k + v
  }

  lemma JavaEncodeNext(md: JavaMetadata, i: nat)
    requires i + 2 <= |md| && i % 2 == 0
    ensures JavaEncode(md[..i + 2]) == JavaEncode(md[..i]) + ItemBytes(md[i], md[i + 1])
  {
    hide JavaEncode, EncodeBe32;
    JavaEncodeAppend(md[..i], md[i], md[i + 1]);
    assert md[..i + 2] == md[..i] + [md[i], md[i + 1]];
  }

  /** Writes one item. */
  method PutPair(k: JavaArray, v: JavaArray, buf: ByteBuffer) returns (ok: bool)
    requires buf.Valid()
    modifies buf, buf.bytes
    ensures buf.Valid() && (ok <==> MDATA_LENGTH + |k| + |v| <= |old(buf.After())|)
    ensures ok ==> buf.Before() == old(buf.Before()) + ItemBytes(k, v)
    ensures ok ==> |buf.After()| == |old(buf.After())| - (MDATA_LENGTH + |k| + |v|)
  {
    hide EncodeBe32;
    ghost var start, done := buf.Before(), [];
    assert start + done == start && done + EncodeBe32(|k|) == EncodeBe32(|k|);
    ok, done := JavaHeaderObject.PutNext(buf, |k|, start, done);
    if !ok { return; }
    ok, done := JavaHeaderObject.PutNext(buf, |v|, start, done);
    if !ok { return; }
    ok, done := PutMore(buf, k, start, done);
    if !ok { return; }
    ok, done := PutMore(buf, v, start, done);
  }

  /** The items before an index have been written. */
  predicate Written(md: JavaMetadata, i: int, now: Bytes, start: Bytes, total: int) {
    0 <= i <= |md| && i % 2 == 0 && now == start + JavaEncode(md[..i]) && total == |JavaEncode(md[..i])|
  }

  lemma WrittenNone(md: JavaMetadata, start: Bytes)
    ensures Written(md, 0, start, start, 0)
  {
    assert md[..0] == [] && start + [] == start && JavaEncode([]) == [];
  }

  lemma WrittenAll(md: JavaMetadata, i: int, now: Bytes, start: Bytes, total: int)
    requires |md| % 2 == 0 && Written(md, i, now, start, total) && i >= |md|
    ensures now == start + JavaEncode(md) && total == |JavaEncode(md)|
  {
    assert md[..|md|] == md;
  }

  /** Writes the item at an index, those before it having been written. */
  method PutItem(md: JavaMetadata, i: int, buf: ByteBuffer, ghost start: Bytes, total: int)
    returns (ok: bool, totalBytes: int)
    requires buf.Valid() && |md| % 2 == 0 && i < |md| && Written(md, i, buf.Before(), start, total)
    modifies buf, buf.bytes
    ensures buf.Valid() && totalBytes > total
    ensures ok ==> Written(md, i + 2, buf.Before(), start, totalBytes)
    ensures ok ==> |buf.After()| == |old(buf.After())| - (totalBytes - total)
    ensures !ok ==> total + |old(buf.After())| < |JavaEncode(md)|
  {
    hide JavaEncode, ItemBytes;
    JavaEncodeNext(md, i);
    Associate(start, JavaEncode(md[..i]), ItemBytes(md[i], md[i + 1]));
    JavaEncodeGrows(md, i + 2);
    ok := PutPair(md[i], md[i + 1], buf);
    totalBytes := total + (MDATA_LENGTH + |md[i]| + |md[i + 1]|);
  }

  /** Writes metadata at the position of the buffer and returns the number of bytes. */
  method SerializeMetadata(md: JavaMetadata, buf: ByteBuffer) returns (ok: bool, totalBytes: int)
    requires buf.Valid() && |md| % 2 == 0
    modifies buf, buf.bytes
    ensures buf.Valid() && (ok <==> |JavaEncode(md)| <= |old(buf.After())|)
    ensures ok ==> buf.Before() == old(buf.Before()) + JavaEncode(md) && totalBytes == |JavaEncode(md)|
  {
    hide Written, JavaEncode;
    var i := 0;
    ok, totalBytes := true, 0;
    ghost var start, room := buf.Before(), |buf.After()|;
    WrittenNone(md, start);
    while i < |md|
      invariant buf.Valid() && Written(md, i, buf.Before(), start, totalBytes)
      invariant |buf.After()| == room - totalBytes
    {
      ok, totalBytes := PutItem(md, i, buf, start, totalBytes);
      if !ok {
        return;
      }
      i := i + 2;
    }
    WrittenAll(md, i, buf.Before(), start, totalBytes);
  }

  lemma {:induction false} JavaEncodeGrows(md: JavaMetadata, n: nat)
    requires |md| % 2 == 0 && n % 2 == 0 && n <= |md|
    ensures |JavaEncode(md[..n])| <= |JavaEncode(md)|
    decreases |md|
  {
    hide EncodeBe32;
    if n > 0 {
      assert md[..n][2..] == md[2..][..n - 2];
      JavaEncodeGrows(md[2..], n - 2);
    }
  }

  /** What the next item of metadata leads to: an exception, the end, or a key and a value. */
  datatype JavaStep = Throws | Stops | Item(key: Bytes, value: Bytes, left: Int32)

  function NextItem(b: Bytes, left: Int32): JavaStep {
    if |b| < MDATA_LENGTH then Throws
    else
      var k, v := Signed(DecodeBe32(b[0..4])), Signed(DecodeBe32(b[4..8]));
      if left < Wrap(MDATA_LENGTH + k + v) then Stops
      else if k < 0 || v < 0 || MDATA_LENGTH + k + v > |b| then Throws
      else Item(b[8..8 + k], b[8 + k..8 + k + v], Wrap(left - k - v - MDATA_LENGTH))
  }

  function Behind(b: Bytes, s: JavaStep): (r: Bytes)
    ensures s.Item? && |b| > 0 ==> |r| < |b|
  {
    if s.Item? && MDATA_LENGTH + |s.key| + |s.value| <= |b| then b[MDATA_LENGTH + |s.key| + |s.value|..] else []
  }

  /** What Java makes of the bytes that follow, of which left are metadata; None if it throws. */
  function JavaParse(b: Bytes, left: Int32): Option<seq<Bytes>>
    decreases |b|
  {
    if left <= 0 then Some([])
    else
      match NextItem(b, left)
      case Throws => None
      case Stops => Some([])
      case Item(key, value, next) => Joined([key, value], JavaParse(Behind(b, NextItem(b, left)), next))
  }

  function Joined(done: seq<Bytes>, rest: Option<seq<Bytes>>): Option<seq<Bytes>> {
    if rest.None? then None else Some(done + rest.value)
  }

  lemma JoinedTwice(a: seq<Bytes>, b: seq<Bytes>, rest: Option<seq<Bytes>>)
    ensures Joined(a, Joined(b, rest)) == Joined(a + b, rest)
  {
    if rest.Some? { Associate(a, b, rest.value); }
  }

  /** Reads bytes one at a time. */
  method ReadArray(n: Int32, buf: ByteBuffer) returns (r: Option<Bytes>)
    requires buf.Valid()
    modifies buf
    ensures buf.Valid() && (r.Some? <==> 0 <= n <= |old(buf.After())|)
    ensures r.Some? ==> r.value == old(buf.After())[..n] && buf.After() == old(buf.After())[n..]
  {
    if n < 0 {
      return None;
    }
    var bytes: Bytes := [];
    ghost var all := buf.After();
    for i := 0 to n
      invariant buf.Valid() && i <= |all| && bytes == all[..i] && buf.After() == all[i..]
    {
      var b := buf.Get();
      if b.None? {
        return None;
      }
      bytes := bytes + [b.value];
    }
    return Some(bytes);
  }

  /** Reads the lengths of the next item. */
  method ReadLengths(buf: ByteBuffer) returns (k: Int32, v: Int32, ok: bool)
    requires buf.Valid()
    modifies buf
    ensures buf.Valid() && (ok <==> MDATA_LENGTH <= |old(buf.After())|)
    ensures ok ==> var all := old(buf.After());
                   k == Signed(DecodeBe32(all[0..4])) && v == Signed(DecodeBe32(all[4..8])) && buf.After() == all[8..]
  {
    hide DecodeBe32, Signed;
    k, v, ok := 0, 0, false;
    ghost var all := buf.After();
    var keyLength := buf.GetInt();
    if keyLength.None? {
      return;
    }
    var valueLength := buf.GetInt();
    if valueLength.None? {
      return;
    }
    Dropped(all, 4, 4, 4);
    return keyLength.value, valueLength.value, true;
  }

  /** Reads a key and a value. */
  method ReadKeyValue(buf: ByteBuffer, keyLength: Int32, valueLength: Int32) returns (p: Option<Pair>)
    requires buf.Valid()
    modifies buf
    ensures buf.Valid()
    ensures var all := old(buf.After());
            (p.Some? <==> 0 <= keyLength && 0 <= valueLength && keyLength + valueLength <= |all|) &&
            (p.Some? ==> p.value == Pair(all[..keyLength], all[keyLength..keyLength + valueLength]) &&
                         buf.After() == all[keyLength + valueLength..])
  {
    ghost var all := buf.After();
    var key := ReadArray(keyLength, buf);
    if key.None? {
      return None;
    }
    var value := ReadArray(valueLength, buf);
    if value.None? {
      return None;
    }
    Dropped(all, keyLength, valueLength, valueLength);
    return Some(Pair(key.value, value.value));
  }

  lemma Dropped(b: Bytes, i: nat, n: nat, m: nat)
    requires i + n <= |b| && i + m <= |b|
    ensures b[i..][n..] == b[i + n..] && b[i..][..m] == b[i..i + m]
  {}

  lemma DroppedRange(b: Bytes, i: nat, n: nat, m: nat)
    requires n <= m && i + m <= |b|
    ensures b[i..][n..m] == b[i + n..i + m]
  {}

  /** What the next item leads to, in terms of the bytes behind its lengths. */
  lemma NextItemParts(all: Bytes, left: Int32, k: Int32, v: Int32)
    requires |all| >= MDATA_LENGTH && k == Signed(DecodeBe32(all[0..4])) && v == Signed(DecodeBe32(all[4..8]))
    ensures var s, rest := NextItem(all, left), all[8..];
            if left < Wrap(MDATA_LENGTH + k + v) then s == Stops
            else if k < 0 || v < 0 || k + v > |rest| then s == Throws
            else s == Item(rest[..k], rest[k..k + v], Wrap(left - k - v - MDATA_LENGTH)) &&
                 Behind(all, s) == rest[k + v..]
  {
    hide DecodeBe32, Wrap, Signed;
    if 0 <= k && 0 <= v && k + v <= |all[8..]| {
      Dropped(all, 8, k + v, k);
      DroppedRange(all, 8, k, k + v);
    }
  }

  /** Reads the next item of metadata. */
  method ReadPair(buf: ByteBuffer, left: Int32) returns (s: JavaStep)
    requires buf.Valid()
    modifies buf
    ensures buf.Valid() && s == NextItem(old(buf.After()), left)
    ensures s.Item? ==> buf.After() == Behind(old(buf.After()), s)
  {
    hide DecodeBe32, Wrap, Behind, Signed;
    ghost var all := buf.After();
    var keyLength, valueLength, ok := ReadLengths(buf);
    if !ok {
      return Throws;
    }
    NextItemParts(all, left, keyLength, valueLength);
    hide NextItem;
    if left < Wrap(MDATA_LENGTH + keyLength + valueLength) {
      return Stops;
    }
    var p := ReadKeyValue(buf, keyLength, valueLength);
    if p.None? {
      return Throws;
    }
    return Item(p.value.key, p.value.value, Wrap(left - keyLength - valueLength - MDATA_LENGTH));
  }

  /** Reads metadata at the position of the buffer. */
  method DeserializeMetadata(buf: ByteBuffer, numBytes: Int32) returns (result: Option<seq<Bytes>>)
    requires buf.Valid()
    modifies buf
    ensures buf.Valid() && result == JavaParse(old(buf.After()), numBytes)
  {
    hide NextItem, Behind, Joined;
    var keysAndValues: seq<Bytes>, bytesLeft: Int32 := [], numBytes;
    ghost var all := JavaParse(buf.After(), numBytes);
    JoinedNothing(all);
    while bytesLeft > 0
      invariant buf.Valid() && Joined(keysAndValues, JavaParse(buf.After(), bytesLeft)) == all
      decreases |buf.After()|
    {
      ghost var b := buf.After();
      var s := ReadPair(buf, bytesLeft);
      match s
      case Throws =>
        JoinedEnds(keysAndValues);
        return None;
      case Stops =>
        JoinedEnds(keysAndValues);
        return Some(keysAndValues);
      case Item(key, value, left) =>
        BehindIsShorter(b, bytesLeft);
        JoinedTwice(keysAndValues, [key, value], JavaParse(buf.After(), left));
        keysAndValues, bytesLeft := keysAndValues + [key, value], left;
    }
    JoinedEnds(keysAndValues);
    return Some(keysAndValues);
  }

  lemma JoinedNothing(r: Option<seq<Bytes>>)
    ensures Joined([], r) == r
  {
    if r.Some? { assert [] + r.value == r.value; }
  }

  lemma JoinedEnds(done: seq<Bytes>)
    ensures Joined(done, Some([])) == Some(done) && Joined(done, None) == None
  {
    assert done + [] == done;
  }

  lemma BehindIsShorter(b: Bytes, left: Int32)
    ensures NextItem(b, left).Item? ==> |Behind(b, NextItem(b, left))| < |b|
  {
    hide DecodeBe32, Wrap;
  }

  lemma JavaItemEncoded(b: Bytes, left: Int32)
    requires NextItem(b, left).Item? && |b| < TWO_31
    ensures var s := NextItem(b, left);
            |s.key| < TWO_31 && |s.value| < TWO_31 && 0 <= s.left == left - |ItemBytes(s.key, s.value)| &&
            ItemBytes(s.key, s.value) + Behind(b, s) == b
  {
    var s := NextItem(b, left);
    Be32Bytes(b[0..4]);
    Be32Bytes(b[4..8]);
    WrapFits(MDATA_LENGTH + |s.key| + |s.value|);
    WrapFits(left - |s.key| - |s.value| - MDATA_LENGTH);
    hide DecodeBe32, EncodeBe32, Wrap, Signed;
    assert s.key == b[8..8 + |s.key|] && s.value == b[8 + |s.key|..8 + |s.key| + |s.value|];
  }

  /** How reading ends at some bytes, with so many left to be read as metadata: in the end, with an exception,
      or not at all, as there is another item. */
  predicate JavaEnds(b: Bytes, left: int, ok: bool) {
    if left <= 0 then ok
    else
      if |b| < MDATA_LENGTH then !ok
      else
        var k, v := Signed(DecodeBe32(b[0..4])), Signed(DecodeBe32(b[4..8]));
        if left < Wrap(MDATA_LENGTH + k + v) then ok else !ok && (k < 0 || v < 0 || MDATA_LENGTH + k + v > |b|)
  }

  /** Whatever the bytes are, Java finds the items that are encoded at their beginning; it stops when it has
      read as many bytes as it should or the next item is longer, and throws when that item goes beyond the
      buffer or has a negative length. */
  lemma {:induction false} JavaParseSound(b: Bytes, left: Int32) returns (md: JavaMetadata, rest: Bytes)
    requires |b| < TWO_31
    ensures |md| % 2 == 0 && b == JavaEncode(md) + rest
    ensures var r := JavaParse(b, left);
            (r.Some? ==> r.value == md) && JavaEnds(rest, left - |JavaEncode(md)|, r.Some?)
    decreases |b|
  {
    hide DecodeBe32, Wrap, EncodeBe32;
    var s := NextItem(b, left);
    if left > 0 && s.Item? {
      JavaItemEncoded(b, left);
      var md1, rest1 := JavaParseSound(Behind(b, s), s.left);
      md, rest := [s.key, s.value] + md1, rest1;
      hide NextItem, Behind, JavaEnds;
      ItemBefore(s.key, s.value, md1);
      Associate(ItemBytes(s.key, s.value), JavaEncode(md1), rest);
      hide JavaEncode, ItemBytes;
    } else {
      md, rest := [], b;
      assert [] + b == b;
    }
  }

  lemma ItemBefore(k: JavaArray, v: JavaArray, md: JavaMetadata)
    requires |md| % 2 == 0
    ensures JavaEncode([k, v] + md) == ItemBytes(k, v) + JavaEncode(md)
  {
    var m := [k, v] + md;
    assert m != [] && m[0] == k && m[1] == v && m[2..] == md;
    hide EncodeBe32;
  }

  // ------------------------------------------------ the two codecs together

  lemma ItemOf(p: Mdata, rest: Bytes, left: nat)
    requires p.Size() <= left < TWO_31
    ensures var b := EncodePair(p) + rest;
            NextItem(b, left) == Item(p.key, p.value, left - p.Size()) &&
            Behind(b, NextItem(b, left)) == rest
  {
    PairLayout(p, rest);
    WrapFits(p.Size());
    WrapFits(left - p.Size());
    hide DecodeBe32, Wrap, EncodeBe32;
    assert Signed(|p.key|) == |p.key| && Signed(|p.value|) == |p.value|;
  }

  /** Whatever follows it in the message, metadata comes out of Java's parser complete. */
  lemma {:induction false} JavaRoundTrip(ps: Metadata, rest: Bytes)
    requires |EncodeMetadata(ps)| < TWO_31
    ensures JavaParse(EncodeMetadata(ps) + rest, |EncodeMetadata(ps)|) == Some(Flatten(ps))
    decreases |ps|
  {
    if ps != [] {
      var n := |EncodeMetadata(ps)|;
      var tail := EncodeMetadata(ps[1..]) + rest;
      Associate(EncodePair(ps[0]), EncodeMetadata(ps[1..]), rest);
      assert EncodeMetadata(ps) + rest == EncodePair(ps[0]) + tail;
      ItemOf(ps[0], tail, n);
      JavaRoundTrip(ps[1..], rest);
      hide NextItem, Behind, EncodePair;
    }
  }

  lemma {:induction false} FlattenLength(ps: seq<Pair>)
    ensures |Flatten(ps)| == 2 * |ps|
  {
    if ps != [] { FlattenLength(ps[1..]); }
  }

  /** What C++ has written, Java and C++ read alike exactly if the last item is not empty in both key
      and value: that one is seen by Java only. */
  lemma CodecsAgreeExactly(ps: Metadata, rest: Bytes)
    requires |EncodeMetadata(ps)| < TWO_31
    ensures var b := EncodeMetadata(ps);
            var java, cpp := JavaParse(b + rest, |b|), ParseMetadata(b);
            java == Some(Flatten(cpp)) <==> (ps != [] ==> !ps[|ps| - 1].IsEmpty())
  {
    JavaRoundTrip(ps, rest);
    MetadataRoundTrip(ps);
    FlattenLength(ps);
    FlattenLength(Surviving(ps));
    hide JavaParse, EncodeMetadata, ParseMetadata, Flatten;
  }
}
