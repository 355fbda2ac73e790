/** The wire format of wire.h: message headers and metadata, as bytes in network order. */
module Wire {
  import opened Basics

  const HEADER_LENGTH: int := 21
  const MDATA_LENGTH: int := 8

  /** The flag bits of a header; bits 64 and 128 have no meaning and are ignored. */
  datatype Flags = Flags(
    initMdPresent: bool, messageComplete: bool, trailMdPresent: bool,
    request: bool, emptyResponse: bool, cancelled: bool)

  const NO_FLAGS := Flags(false, false, false, false, false, false)

  datatype Header = Header(
    streamId: nat, sequenceNum: nat, initMdBytes: nat, trailMdBytes: nat, messageBytes: nat, flags: Flags)
  {
    /** Every field can be stored in its 32 bits. */
    predicate Fits() {
      streamId < TWO_32 && sequenceNum < TWO_32 && initMdBytes < TWO_32 && trailMdBytes < TWO_32 &&
      messageBytes < TWO_32
    }

    /** The length the whole message must have. */
    function MessageLength(): nat { HEADER_LENGTH + initMdBytes + trailMdBytes + messageBytes }
  }

  /** The header of a message that has just been started. */
  function NewHeader(streamId: nat, sequence: nat): Header {
    Header(streamId, sequence, 0, 0, 0, NO_FLAGS)
  }

  function EncodeBe32(v: nat): (r: Bytes)
    requires v < TWO_32
    ensures |r| == 4
  {
    [v / 0x100_0000, (v / 0x1_0000) % 256, (v / 256) % 256, v % 256]
  }

  function DecodeBe32(b: Bytes): (v: nat)
    requires |b| == 4
    ensures v < TWO_32
  {
    b[0] as int * 0x100_0000 + b[1] as int * 0x1_0000 + b[2] as int * 256 + b[3]
  }

  lemma Be32RoundTrip(v: nat)
    requires v < TWO_32
    ensures DecodeBe32(EncodeBe32(v)) == v
  {
    assert v / 0x100_0000 * 256 + (v / 0x1_0000) % 256 == v / 0x1_0000;
    assert v / 0x1_0000 * 256 + (v / 256) % 256 == v / 256;
  }

  /** Network order: the bytes of numbers are ordered, the first byte counting most, as the numbers are. */
  lemma NetworkOrder(v: nat, w: nat)
    requires v < w < TWO_32
    ensures var a, b := EncodeBe32(v), EncodeBe32(w);
            exists i :: 0 <= i < 4 && a[..i] == b[..i] && a[i] < b[i]
  {
    Be32RoundTrip(v);
    Be32RoundTrip(w);
    var a, b := EncodeBe32(v), EncodeBe32(w);
    hide EncodeBe32;
    var i := if a[0] != b[0] then 0 else if a[1] != b[1] then 1 else if a[2] != b[2] then 2 else 3;
    assert a[..i] == b[..i] && a[i] < b[i];
  }

  function Bit(b: bool, weight: nat): nat { if b then weight else 0 }

  function EncodeFlags(f: Flags): Byte {
    Bit(f.initMdPresent, 1) + Bit(f.messageComplete, 2) + Bit(f.trailMdPresent, 4) + Bit(f.request, 8) +
    Bit(f.emptyResponse, 16) + Bit(f.cancelled, 32)
  }

  function DecodeFlags(b: Byte): Flags {
    Flags(b % 2 == 1, b / 2 % 2 == 1, b / 4 % 2 == 1, b / 8 % 2 == 1, b / 16 % 2 == 1, b / 32 % 2 == 1)
  }

  lemma FlagsRoundTrip(f: Flags)
    ensures DecodeFlags(EncodeFlags(f)) == f
  {
    hide EncodeFlags;
    LowFlags(f);
    HighFlags(f);
  }

  lemma LowFlags(f: Flags)
    ensures var n := EncodeFlags(f);
            (n % 2 == 1 <==> f.initMdPresent) && (n / 2 % 2 == 1 <==> f.messageComplete) &&
            (n / 4 % 2 == 1 <==> f.trailMdPresent)
  {}

  lemma HighFlags(f: Flags)
    ensures var n := EncodeFlags(f);
            (n / 8 % 2 == 1 <==> f.request) && (n / 16 % 2 == 1 <==> f.emptyResponse) &&
            (n / 32 % 2 == 1 <==> f.cancelled)
  {}

  function EncodeHeader(h: Header): (r: Bytes)
    requires h.Fits()
    ensures |r| == HEADER_LENGTH
  {
    EncodeBe32(h.streamId) + EncodeBe32(h.sequenceNum) + EncodeBe32(h.initMdBytes) +
    EncodeBe32(h.trailMdBytes) + EncodeBe32(h.messageBytes) + [EncodeFlags(h.flags)]
  }

  function DecodeHeader(b: Bytes): (h: Header)
    requires |b| >= HEADER_LENGTH
    ensures h.Fits()
  {
    Header(DecodeBe32(b[0..4]), DecodeBe32(b[4..8]), DecodeBe32(b[8..12]), DecodeBe32(b[12..16]),
           DecodeBe32(b[16..20]), DecodeFlags(b[20]))
  }

  /** Where the fields of a header are. */
  lemma HeaderLayout(h: Header, rest: Bytes)
    requires h.Fits()
    ensures var b := EncodeHeader(h) + rest;
            b[0..4] == EncodeBe32(h.streamId) && b[4..8] == EncodeBe32(h.sequenceNum) &&
            b[8..12] == EncodeBe32(h.initMdBytes) && b[12..16] == EncodeBe32(h.trailMdBytes) &&
            b[16..20] == EncodeBe32(h.messageBytes) && b[20] == EncodeFlags(h.flags)
  {
    hide EncodeBe32, EncodeFlags;
  }

  /** A header survives the wire, whatever follows it. */
  lemma HeaderRoundTrip(h: Header, rest: Bytes)
    requires h.Fits()
    ensures DecodeHeader(EncodeHeader(h) + rest) == h
  {
    hide EncodeHeader, EncodeBe32, DecodeBe32, EncodeFlags, DecodeFlags;
    HeaderLayout(h, rest);
    Be32RoundTrip(h.streamId);
    Be32RoundTrip(h.sequenceNum);
    Be32RoundTrip(h.initMdBytes);
    Be32RoundTrip(h.trailMdBytes);
    Be32RoundTrip(h.messageBytes);
    FlagsRoundTrip(h.flags);
  }

  /** One metadata item. */
  datatype Pair = Pair(key: Bytes, value: Bytes)
  {
    function Size(): nat { MDATA_LENGTH + |key| + |value| }
    predicate IsEmpty() { key == [] && value == [] }
  }

  /** The size of an item is held in 32 bits. */
  type Mdata = p: Pair | p.Size() < TWO_32 witness Pair([], [])
  type Metadata = seq<Mdata>

  function EncodePair(p: Mdata): (r: Bytes)
    ensures |r| == p.Size()
  {
    EncodeBe32(|p.key|) + EncodeBe32(|p.value|) + p.key + p.value
  }

  function EncodeMetadata(md: Metadata): Bytes {
    if md == [] then [] else EncodePair(md[0]) + EncodeMetadata(md[1..])
  }

  /** What HomaIncoming::deserializeMetadata adds to a batch, given the metadata bytes. */
  function ParseMetadata(b: Bytes): seq<Pair>
    decreases |b|
  {
    if |b| <= MDATA_LENGTH then []
    else
      var k, v := DecodeBe32(b[0..4]), DecodeBe32(b[4..8]);
      if k + v > |b| - MDATA_LENGTH then []
      else [Pair(b[8..8 + k], b[8 + k..8 + k + v])] + ParseMetadata(b[8 + k + v..])
  }

  /** The first item of encoded metadata can be read back from its bytes. */
  lemma PairLayout(p: Mdata, rest: Bytes)
    ensures var b := EncodePair(p) + rest;
            DecodeBe32(b[0..4]) == |p.key| && DecodeBe32(b[4..8]) == |p.value| &&
            b[8..8 + |p.key|] == p.key && b[8 + |p.key|..p.Size()] == p.value && b[p.Size()..] == rest
  {
    var b := EncodePair(p) + rest;
    Be32RoundTrip(|p.key|);
    Be32RoundTrip(|p.value|);
    assert b[0..4] == EncodeBe32(|p.key|);
    assert b[4..8] == EncodeBe32(|p.value|);
  }

  /** The parser's loop runs while more than one descriptor is left, so a last item that is empty in
      both key and value is not seen. */
  function Surviving(md: Metadata): Metadata {
    if md != [] && md[|md| - 1].IsEmpty() then md[..|md| - 1] else md
  }

  /** The parser takes the first item off, unless it is the last one and empty. */
  lemma ParseFirst(p: Mdata, rest: Bytes)
    ensures ParseMetadata(EncodePair(p) + rest) ==
            if p.IsEmpty() && rest == [] then [] else [p] + ParseMetadata(rest)
  {
    PairLayout(p, rest);
    hide EncodePair, DecodeBe32;
  }

  lemma SurvivingStep(md: Metadata)
    requires md != []
    ensures Surviving(md) ==
            if md[1..] != [] then [md[0]] + Surviving(md[1..]) else if md[0].IsEmpty() then [] else [md[0]]
  {
    var rest := md[1..];
    if rest != [] {
      assert md[|md| - 1] == rest[|rest| - 1] && md == [md[0]] + rest;
      assert md[..|md| - 1] == [md[0]] + rest[..|rest| - 1];
    } else {
      assert md == [md[0]];
    }
  }

  /** Exactly what a batch becomes on the other side. */
  lemma {:induction false} MetadataRoundTrip(md: Metadata)
    ensures ParseMetadata(EncodeMetadata(md)) == Surviving(md)
  {
    hide ParseMetadata, EncodePair;
    if md == [] {
      NothingParsed();
    } else {
      var p, rest := md[0], md[1..];
      ParseFirst(p, EncodeMetadata(rest));
      MetadataRoundTrip(rest);
      SurvivingStep(md);
      hide Surviving;
      if rest == [] {
        NothingParsed();
        assert [p] + ParseMetadata([]) == [p];
      } else {
        EncodedSize(rest);
      }
    }
  }

  lemma NothingParsed()
    ensures ParseMetadata([]) == []
  {}

  lemma EncodedSize(md: Metadata)
    requires md != []
    ensures |EncodeMetadata(md)| >= MDATA_LENGTH
  {}

  /** Metadata arrives unchanged if and only if its last item is not empty in both key and value. */
  lemma MetadataPreservedExactly(md: Metadata)
    ensures ParseMetadata(EncodeMetadata(md)) == md <==> (md != [] ==> !md[|md| - 1].IsEmpty())
  {
    MetadataRoundTrip(md);
  }

  lemma {:induction false} EncodeMetadataAppend(md: Metadata, p: Mdata)
    ensures EncodeMetadata(md + [p]) == EncodeMetadata(md) + EncodePair(p)
  {
    if md == [] {
      assert [p][1..] == [];
    } else {
      assert (md + [p])[1..] == md[1..] + [p];
      EncodeMetadataAppend(md[1..], p);
    }
  }

  /** Four bytes are the encoding of the number that they are read as. */
  lemma Be32Bytes(b: Bytes)
    requires |b| == 4
    ensures EncodeBe32(DecodeBe32(b)) == b
  {
    var v := DecodeBe32(b);
    DivModUnique(v, 256, b[0] as int * 0x1_0000 + b[1] as int * 256 + b[2], b[3]);
    DivModUnique(v, 0x1_0000, b[0] as int * 256 + b[1], b[2] as int * 256 + b[3]);
    DivModUnique(v, 0x100_0000, b[0], b[1] as int * 0x1_0000 + b[2] as int * 256 + b[3]);
    DivModUnique(b[0] as int * 0x1_0000 + b[1] as int * 256 + b[2], 256, b[0] as int * 256 + b[1], b[2]);
    DivModUnique(b[0] as int * 256 + b[1], 256, b[0], b[1]);
  }

  /** There is no item here: too few bytes for one with a key or a value, or fewer than its lengths say. */
  predicate NoItem(b: Bytes) {
    |b| <= MDATA_LENGTH || DecodeBe32(b[0..4]) + DecodeBe32(b[4..8]) > |b| - MDATA_LENGTH
  }

  lemma ItemEncoded(b: Bytes)
    requires |b| < TWO_32 && !NoItem(b)
    ensures var k, v := DecodeBe32(b[0..4]), DecodeBe32(b[4..8]);
            EncodePair(Pair(b[8..8 + k], b[8 + k..8 + k + v])) + b[8 + k + v..] == b
  {
    Be32Bytes(b[0..4]);
    Be32Bytes(b[4..8]);
    hide DecodeBe32, EncodeBe32;
  }

  /** Whatever the bytes are, the parser finds the items that are encoded at their beginning, and stops where
      there is none. */
  lemma {:induction false} ParseSound(b: Bytes) returns (md: Metadata, rest: Bytes)
    requires |b| < TWO_32
    ensures ParseMetadata(b) == md && b == EncodeMetadata(md) + rest && NoItem(rest)
    decreases |b|
  {
    if NoItem(b) {
      md, rest := [], b;
      assert [] + b == b;
    } else {
      var k, v := DecodeBe32(b[0..4]), DecodeBe32(b[4..8]);
      ItemEncoded(b);
      hide DecodeBe32, EncodePair;
      var p: Mdata := Pair(b[8..8 + k], b[8 + k..8 + k + v]);
      var md1, rest1 := ParseSound(b[8 + k + v..]);
      md, rest := [p] + md1, rest1;
      assert md[1..] == md1;
      assert EncodePair(p) + (EncodeMetadata(md1) + rest) == EncodePair(p) + EncodeMetadata(md1) + rest;
    }
  }
}
