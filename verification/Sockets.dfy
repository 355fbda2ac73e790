/** Receive buffers: the pages that Homa fills with messages, that the socket keeps when they are no
    longer needed, and that go back to Homa with a later recvmsg call. The functions here say what each
    step does to the pages; HomaSocket.dfy has the code that takes the steps. */
module Sockets {
  import opened Basics
  import opened Wire
  import opened StreamModel
  import opened Pages

  // ------------------------------------------------ counting pages

  function Times(s: seq<nat>, p: nat): nat {
    if s == [] then 0 else Times(s[..|s| - 1], p) + if s[|s| - 1] == p then 1 else 0
  }

  lemma NoTimes(p: nat)
    ensures Times([], p) == 0
  {}

  lemma {:induction false} TimesAppend(a: seq<nat>, b: seq<nat>, p: nat)
    ensures Times(a + b, p) == Times(a, p) + Times(b, p)
    decreases |b|
  {
    if b == [] {
      assert a + b == a;
    } else {
      assert (a + b)[..|a + b| - 1] == a + b[..|b| - 1];
      TimesAppend(a, b[..|b| - 1], p);
    }
  }

  lemma {:induction false} TimesIn(s: seq<nat>, p: nat)
    ensures p in s <==> Times(s, p) > 0
    decreases |s|
  {
    if s != [] {
      TimesIn(s[..|s| - 1], p);
      assert s == s[..|s| - 1] + [s[|s| - 1]];
    }
  }

  function RemoveOne(s: seq<nat>, p: nat): seq<nat> {
    if s == [] then []
    else if s[|s| - 1] == p then s[..|s| - 1]
    else RemoveOne(s[..|s| - 1], p) + [s[|s| - 1]]
  }

  lemma {:induction false} RemoveOneTimes(s: seq<nat>, p: nat, q: nat)
    requires Times(s, p) > 0
    ensures Times(RemoveOne(s, p), q) + (if p == q then 1 else 0) == Times(s, q)
    decreases |s|
  {
    var last := s[|s| - 1];
    if last != p {
      RemoveOneTimes(s[..|s| - 1], p, q);
      TimesAppend(RemoveOne(s[..|s| - 1], p), [last], q);
      assert [last][..0] == [];
    }
  }

  function RemoveAll(pool: seq<nat>, pages: seq<nat>): seq<nat>
    decreases |pages|
  {
    if pages == [] then pool else RemoveOne(RemoveAll(pool, pages[..|pages| - 1]), pages[|pages| - 1])
  }

  predicate Has(pool: seq<nat>, pages: seq<nat>) { forall p :: p in pages ==> Times(pages, p) <= Times(pool, p) }

  lemma {:induction false} RemoveAllTimes(pool: seq<nat>, pages: seq<nat>, q: nat)
    requires Has(pool, pages)
    ensures Times(RemoveAll(pool, pages), q) + Times(pages, q) == Times(pool, q)
    decreases |pages|
  {
    if pages != [] {
      var rest, last := pages[..|pages| - 1], pages[|pages| - 1];
      assert forall p :: p in rest ==> p in pages;
      RemoveAllTimes(pool, rest, q);
      RemoveAllTimes(pool, rest, last);
      assert last in pages;
      RemoveOneTimes(RemoveAll(pool, rest), last, q);
    }
  }

  // ------------------------------------------------ the kernel

  datatype Errno = Again | Other(code: nat)

  /** What one recvmsg call will meet: an error, or a message that Homa puts into pages of its choice. */
  datatype Delivery =
    | Failure(errno: Errno, homaId: nat, cookie: nat)
    | Arrival(homaId: nat, bytes: Bytes, pages: seq<nat>)

  /** Homa's pages, the memory shared with it, and what the calls to come will meet. */
  datatype Kernel = Kernel(pool: seq<nat>, region: seq<Byte>, pageSize: nat, script: seq<Delivery>)

  const NOTHING_NOW := Failure(Again, 0, 0)

  /** Memory after the first n bytes of a message have been put into its pages. */
  function Written(region: seq<Byte>, pages: seq<nat>, size: nat, bytes: Bytes, n: nat): (r: seq<Byte>)
    requires Placed(pages, size, |bytes|, |region|) && n <= |bytes|
    ensures |r| == |region|
  {
    if n == 0 then region
    else
      PlacedAddress(pages, size, |bytes|, |region|, n - 1);
      Written(region, pages, size, bytes, n - 1)[Address(pages, size, n - 1) := bytes[n - 1]]
  }

  /** Can Homa deliver the message, with the pages it has? */
  predicate Deliverable(k: Kernel, d: Delivery, maxPages: nat) {
    d.Arrival? && |d.pages| <= maxPages && Placed(d.pages, k.pageSize, |d.bytes|, |k.region|) && Has(k.pool, d.pages)
  }

  /** What the next recvmsg call meets. When Homa has nothing to deliver, or too few pages, it has
      nothing now. */
  function Meets(k: Kernel, maxPages: nat): Delivery {
    if k.script != [] && (k.script[0].Failure? || Deliverable(k, k.script[0], maxPages)) then k.script[0]
    else NOTHING_NOW
  }

  function PagesOf(d: Delivery): seq<nat> { if d.Arrival? then d.pages else [] }

  /** A recvmsg call: Homa takes back the pages that come with it, and may deliver a message. */
  function RecvMsg(k0: Kernel, given: seq<nat>, maxPages: nat): Kernel {
    var k := k0.(pool := k0.pool + given);
    var d := Meets(k, maxPages);
    k.(pool := RemoveAll(k.pool, PagesOf(d)),
       region := if Deliverable(k, d, maxPages)
                 then Written(k.region, d.pages, k.pageSize, d.bytes, |d.bytes|) else k.region,
       script := if k.script == [] then [] else k.script[1..])
  }

  function Met(k: Kernel, given: seq<nat>, maxPages: nat): Delivery { Meets(k.(pool := k.pool + given), maxPages) }

  lemma RecvKeepsPages(k: Kernel, given: seq<nat>, maxPages: nat, p: nat)
    ensures Times(RecvMsg(k, given, maxPages).pool, p) + Times(PagesOf(Met(k, given, maxPages)), p) ==
            Times(k.pool, p) + Times(given, p)
  {
    TimesAppend(k.pool, given, p);
    RemoveAllTimes(k.pool + given, PagesOf(Met(k, given, maxPages)), p);
    hide RemoveAll, Times;
  }

  // ------------------------------------------------ reading a message

  /** How many saved buffers fit beside those that are in the arguments already. */
  function Filling(saved: seq<nat>, args: seq<nat>, maxPages: nat): (n: nat)
    ensures n <= |saved| && (n == |saved| || |args| + n >= maxPages) && (n > 0 ==> |args| + n <= maxPages)
  {
    if |args| >= maxPages then 0 else Min(maxPages - |args|, |saved|)
  }

  datatype ReadResult =
    | NothingRead(homaId: nat, cookie: nat)
    | RecvFailed(code: nat, homaId: nat, cookie: nat)
    | TooShort(homaId: nat)
    | BadLength(homaId: nat, streamId: nat)
    | Got(homaId: nat, streamId: nat, bytes: Bytes, pages: seq<nat>)

  /** The length that a header announces is computed in 32 bits. */
  function Expected(h: Header): nat { h.MessageLength() % TWO_32 }

  /** What becomes of a message that has been received. */
  datatype Verdict = Accept | Discard | Reject(result: ReadResult)

  function Examine(homaId: nat, flat: Bytes): Verdict {
    if |flat| < HEADER_LENGTH then Reject(TooShort(homaId))
    else
      var h := DecodeHeader(flat);
      if h.flags.emptyResponse then Discard
      else if |flat| != Expected(h) then Reject(BadLength(homaId, h.streamId))
      else Accept
  }

  /** Where read ends: Homa, the saved buffers, what the caller is told. */
  datatype Reading = Reading(k: Kernel, saved: seq<nat>, result: ReadResult)

  /** One recvmsg call of read ends it, or leaves the buffers of a dummy response in the arguments. */
  datatype Round = Over(end: Reading) | Another(k: Kernel, saved: seq<nat>, args: seq<nat>)

  /** A message that is not returned is destroyed: its buffers are saved. */
  function GiveUp(k: Kernel, saved: seq<nat>, args: seq<nat>, result: ReadResult): Round {
    Over(Reading(k, saved + args, result))
  }

  /** What read does about what it has met. */
  function React(k: Kernel, saved: seq<nat>, d: Delivery): Round {
    match d
    case Failure(Again, homaId, cookie) => GiveUp(k, saved, [], NothingRead(homaId, cookie))
    case Failure(Other(code), homaId, cookie) => GiveUp(k, saved, [], RecvFailed(code, homaId, cookie))
    case Arrival(homaId, bytes, pages) =>
      match Examine(homaId, bytes)
      case Reject(result) => GiveUp(k, saved, pages, result)
      case Discard => Another(k, saved, pages)
      case Accept => Over(Reading(k, saved, Got(homaId, DecodeHeader(bytes).streamId, bytes, pages)))
  }

  /** One iteration of the loop of read: saved buffers go to Homa, and a message is received. */
  function ReadOnce(k: Kernel, saved: seq<nat>, args: seq<nat>, maxPages: nat): Round {
    var n := Filling(saved, args, maxPages);
    var given := args + saved[..n];
    React(RecvMsg(k, given, maxPages), saved[n..], Met(k, given, maxPages))
  }

  lemma RoundsEnd(k: Kernel, saved: seq<nat>, args: seq<nat>, maxPages: nat)
    ensures var r := ReadOnce(k, saved, args, maxPages); r.Another? ==> |r.k.script| < |k.script|
  {}

  /** HomaIncoming::read: dummy responses are discarded until something else is met. */
  function Read(k: Kernel, saved: seq<nat>, args: seq<nat>, maxPages: nat): Reading
    decreases |k.script|
  {
    RoundsEnd(k, saved, args, maxPages);
    match ReadOnce(k, saved, args, maxPages)
    case Over(end) => end
    case Another(k1, saved1, args1) => Read(k1, saved1, args1, maxPages)
  }

  function GotPages(r: ReadResult): seq<nat> { if r.Got? then r.pages else [] }

  function RoundPages(r: Round, p: nat): nat {
    match r
    case Over(end) => Times(end.k.pool, p) + Times(end.saved, p) + Times(GotPages(end.result), p)
    case Another(k, saved, args) => Times(k.pool, p) + Times(saved, p) + Times(args, p)
  }

  lemma ReactKeepsPages(k: Kernel, saved: seq<nat>, d: Delivery, p: nat)
    ensures RoundPages(React(k, saved, d), p) == Times(k.pool, p) + Times(saved, p) + Times(PagesOf(d), p)
  {
    hide Times, DecodeHeader;
    NoTimes(p);
    assert saved + [] == saved;
    TimesAppend(saved, PagesOf(d), p);
  }

  lemma RoundKeepsPages(k: Kernel, saved: seq<nat>, args: seq<nat>, maxPages: nat, p: nat)
    ensures RoundPages(ReadOnce(k, saved, args, maxPages), p) == Times(k.pool, p) + Times(saved, p) + Times(args, p)
  {
    hide Times, RecvMsg, Met, Filling, React, RoundPages;
    var n := Filling(saved, args, maxPages);
    var given := args + saved[..n];
    assert saved[..n] + saved[n..] == saved;
    RecvKeepsPages(k, given, maxPages, p);
    TimesAppend(args, saved[..n], p);
    TimesAppend(saved[..n], saved[n..], p);
    ReactKeepsPages(RecvMsg(k, given, maxPages), saved[n..], Met(k, given, maxPages), p);
  }

  /** Wherever read ends, each page is in one place: with Homa, saved, or in the message returned. */
  lemma {:induction false} ReadKeepsPages(k: Kernel, saved: seq<nat>, args: seq<nat>, maxPages: nat, p: nat)
    ensures RoundPages(Over(Read(k, saved, args, maxPages)), p) == Times(k.pool, p) + Times(saved, p) + Times(args, p)
    decreases |k.script|
  {
    hide Times, ReadOnce;
    RoundsEnd(k, saved, args, maxPages);
    RoundKeepsPages(k, saved, args, maxPages, p);
    var r := ReadOnce(k, saved, args, maxPages);
    if r.Another? { ReadKeepsPages(r.k, r.saved, r.args, maxPages, p); }
  }

  // ------------------------------------------------ memory

  /** Two pages that begin at different multiples of the page size have no byte in common. */
  lemma PagesApart(p: nat, q: nat, size: nat)
    requires size > 0 && p % size == 0 && q % size == 0 && p != q
    ensures p + size <= q || q + size <= p
  {
    assert p == (p / size) * size && q == (q / size) * size;
    var d := p / size - q / size;
    assert d * size == p - q;
    if d > 0 { MulAtLeast(d, size); }
    if d < 0 { MulAtLeast(-d, size); }
  }

  predicate Aligned(pages: seq<nat>, size: nat) { size > 0 && forall i :: 0 <= i < |pages| ==> pages[i] % size == 0 }

  predicate Distinct(pages: seq<nat>) { forall i, j :: 0 <= i < j < |pages| ==> pages[i] != pages[j] }

  /** Different bytes of a message are at different addresses. */
  lemma AddressInjective(pages: seq<nat>, size: nat, i: nat, j: nat)
    requires Aligned(pages, size) && Distinct(pages) && i / size < |pages| && j / size < |pages| && i != j
    ensures Address(pages, size, i) != Address(pages, size, j)
  {
    var qi, qj := i / size, j / size;
    assert i == qi * size + i % size && j == qj * size + j % size;
    if qi != qj { PagesApart(pages[qi], pages[qj], size); }
  }

  /** A byte that is in none of the pages. */
  predicate Outside(a: nat, pages: seq<nat>, size: nat) {
    forall i :: 0 <= i < |pages| ==> a < pages[i] || pages[i] + size <= a
  }

  lemma {:induction false} WrittenOutside(region: seq<Byte>, pages: seq<nat>, size: nat, bytes: Bytes, n: nat, a: nat)
    requires Placed(pages, size, |bytes|, |region|) && n <= |bytes| && a < |region| && Outside(a, pages, size)
    ensures Written(region, pages, size, bytes, n)[a] == region[a]
    decreases n
  {
    if n > 0 {
      PlacedAddress(pages, size, |bytes|, |region|, n - 1);
      assert a != Address(pages, size, n - 1);
      hide Placed, Address, Outside;
      WrittenOutside(region, pages, size, bytes, n - 1, a);
    }
  }

  lemma {:induction false} WrittenInside(region: seq<Byte>, pages: seq<nat>, size: nat, bytes: Bytes, n: nat, i: nat)
    requires Placed(pages, size, |bytes|, |region|) && Aligned(pages, size) && Distinct(pages) && i < n <= |bytes|
    ensures ByteAt(Written(region, pages, size, bytes, n), pages, size, i) == bytes[i]
    decreases n
  {
    PlacedAddress(pages, size, |bytes|, |region|, n - 1);
    PlacedAddress(pages, size, |bytes|, |region|, i);
    hide Placed, Aligned, Distinct, Address;
    if i < n - 1 {
      WrittenInside(region, pages, size, bytes, n - 1, i);
      AddressInjective(pages, size, i, n - 1);
    }
  }

  /** A message is read back from the pages it has been put into. */
  lemma WrittenFlat(region: seq<Byte>, pages: seq<nat>, size: nat, bytes: Bytes)
    requires Placed(pages, size, |bytes|, |region|) && Aligned(pages, size) && Distinct(pages)
    ensures FlatOf(Written(region, pages, size, bytes, |bytes|), pages, size, |bytes|) == bytes
  {
    assert size > 0;
    hide Placed, Aligned, Distinct, ByteAt;
    var flat := FlatOf(Written(region, pages, size, bytes, |bytes|), pages, size, |bytes|);
    forall i | 0 <= i < |bytes| ensures flat[i] == bytes[i] {
      WrittenInside(region, pages, size, bytes, |bytes|, i);
    }
  }

  predicate Disjoint(a: seq<nat>, b: seq<nat>) { forall i, j :: 0 <= i < |a| && 0 <= j < |b| ==> a[i] != b[j] }

  /** A change of memory outside a message leaves the message as it is. */
  lemma FlatFrame(before: seq<Byte>, after: seq<Byte>, mine: seq<nat>, theirs: seq<nat>, size: nat, length: nat)
    requires |before| == |after| && Placed(mine, size, length, |before|)
    requires Aligned(mine, size) && Aligned(theirs, size) && Disjoint(mine, theirs)
    requires forall a :: 0 <= a < |before| && Outside(a, theirs, size) ==> after[a] == before[a]
    ensures FlatOf(after, mine, size, length) == FlatOf(before, mine, size, length)
  {
    hide Outside;
    var x, y := FlatOf(after, mine, size, length), FlatOf(before, mine, size, length);
    forall i | 0 <= i < length ensures x[i] == y[i] {
      PageOf(i, length, size);
      OutsideOther(mine, theirs, size, i);
    }
  }

  lemma OutsideOther(mine: seq<nat>, theirs: seq<nat>, size: nat, i: nat)
    requires Aligned(mine, size) && Aligned(theirs, size) && Disjoint(mine, theirs) && i / size < |mine|
    ensures Outside(Address(mine, size, i), theirs, size)
  {
    var q := i / size;
    forall j | 0 <= j < |theirs| ensures var a := Address(mine, size, i); a < theirs[j] || theirs[j] + size <= a {
      assert mine[q] != theirs[j];
      PagesApart(mine[q], theirs[j], size);
    }
  }

  // ------------------------------------------------ memory, through a call of read

  function Cap(p: nat, size: nat): nat
    requires size > 0
  {
    if p % size == 0 then 1 else 0
  }

  /** Nothing but page boundaries, and none of them twice, in all three lists together. */
  ghost predicate Once(a: seq<nat>, b: seq<nat>, c: seq<nat>, size: nat) {
    size > 0 && forall p: nat :: Times(a, p) + Times(b, p) + Times(c, p) <= Cap(p, size)
  }

  lemma OnceIn(a: seq<nat>, b: seq<nat>, c: seq<nat>, size: nat, p: nat)
    requires Once(a, b, c, size) && p in a
    ensures p % size == 0 && p !in b && p !in c
  {
    TimesIn(a, p);
    TimesIn(b, p);
    TimesIn(c, p);
  }

  lemma OnceApart(a: seq<nat>, b: seq<nat>, c: seq<nat>, size: nat)
    requires Once(a, b, c, size)
    ensures Aligned(a, size) && Disjoint(a, b) && Disjoint(a, c)
  {
    hide Once;
    assert size > 0 by { OnceSize(a, b, c, size); }
    forall i | 0 <= i < |a| ensures a[i] % size == 0 && a[i] !in b && a[i] !in c { OnceIn(a, b, c, size, a[i]); }
  }

  lemma OnceSize(a: seq<nat>, b: seq<nat>, c: seq<nat>, size: nat)
    requires Once(a, b, c, size)
    ensures size > 0
  {}

  lemma {:induction false} OnceDistinct(s: seq<nat>, i: nat, j: nat)
    requires i < j < |s| && Times(s, s[j]) <= 1
    ensures s[i] != s[j]
    decreases |s|
  {
    var last := s[|s| - 1];
    if j == |s| - 1 {
      TimesIn(s[..|s| - 1], last);
      assert s[..|s| - 1][i] == s[i];
    } else {
      OnceDistinct(s[..|s| - 1], i, j);
    }
  }

  /** Pages that Homa takes out of its own are as good as those. */
  lemma TakenOnce(mine: seq<nat>, pool: seq<nat>, given: seq<nat>, taken: seq<nat>, size: nat)
    requires Once(mine, pool, given, size) && Has(pool + given, taken)
    ensures Once(mine, taken, [], size)
  {
    forall p: nat ensures Times(mine, p) + Times(taken, p) + Times([], p) <= Cap(p, size) {
      TimesAppend(pool, given, p);
      TimesIn(taken, p);
      hide Times;
    }
  }

  lemma TakenApart(mine: seq<nat>, pool: seq<nat>, given: seq<nat>, taken: seq<nat>, size: nat)
    requires Once(mine, pool, given, size) && Has(pool + given, taken)
    ensures Aligned(mine, size) && Aligned(taken, size) && Disjoint(mine, taken) && Distinct(taken)
  {
    TakenOnce(mine, pool, given, taken, size);
    OnceApart(mine, taken, [], size);
    OnceApart(taken, mine, [], size);
    forall i, j | 0 <= i < j < |taken| ensures taken[i] != taken[j] { OnceDistinct(taken, i, j); }
    hide Has, Times;
  }

  /** A recvmsg call leaves the messages that exist alone. */
  lemma RecvElsewhere(k: Kernel, given: seq<nat>, maxPages: nat, mine: seq<nat>, length: nat)
    requires Once(mine, k.pool, given, k.pageSize) && Placed(mine, k.pageSize, length, |k.region|)
    ensures var r := RecvMsg(k, given, maxPages);
            |r.region| == |k.region| && r.pageSize == k.pageSize &&
            FlatOf(r.region, mine, k.pageSize, length) == FlatOf(k.region, mine, k.pageSize, length)
  {
    hide Once, Has, FlatOf, Outside;
    var d, r := Met(k, given, maxPages), RecvMsg(k, given, maxPages);
    if d.Arrival? {
      TakenApart(mine, k.pool, given, d.pages, k.pageSize);
      forall a | 0 <= a < |k.region| && Outside(a, d.pages, k.pageSize) ensures r.region[a] == k.region[a] {
        WrittenOutside(k.region, d.pages, k.pageSize, d.bytes, |d.bytes|, a);
      }
      FlatFrame(k.region, r.region, mine, d.pages, k.pageSize, length);
    }
  }

  /** The message that recvmsg delivers is in its pages. */
  lemma RecvDelivers(k: Kernel, given: seq<nat>, maxPages: nat)
    requires Once([], k.pool, given, k.pageSize) && Met(k, given, maxPages).Arrival?
    ensures var r, d := RecvMsg(k, given, maxPages), Met(k, given, maxPages);
            Placed(d.pages, k.pageSize, |d.bytes|, |r.region|) && r.pageSize == k.pageSize &&
            FlatOf(r.region, d.pages, k.pageSize, |d.bytes|) == d.bytes
  {
    hide Once, Has, FlatOf;
    var d := Met(k, given, maxPages);
    TakenApart([], k.pool, given, d.pages, k.pageSize);
    WrittenFlat(k.region, d.pages, k.pageSize, d.bytes);
  }

  lemma GivenOnce(mine: seq<nat>, pool: seq<nat>, saved: seq<nat>, args: seq<nat>, n: nat, size: nat)
    requires Once(mine, pool, saved + args, size) && n <= |saved|
    ensures Once(mine, pool, args + saved[..n], size)
  {
    forall p: nat ensures Times(mine, p) + Times(pool, p) + Times(args + saved[..n], p) <= Cap(p, size) {
      assert saved[..n] + saved[n..] == saved;
      TimesAppend(saved, args, p);
      TimesAppend(args, saved[..n], p);
      TimesAppend(saved[..n], saved[n..], p);
      hide Times;
    }
  }

  lemma RoundOnce(k: Kernel, saved: seq<nat>, args: seq<nat>, maxPages: nat, mine: seq<nat>, size: nat)
    requires Once(mine, k.pool, saved + args, size) && ReadOnce(k, saved, args, maxPages).Another?
    ensures var r := ReadOnce(k, saved, args, maxPages); Once(mine, r.k.pool, r.saved + r.args, size)
  {
    var r := ReadOnce(k, saved, args, maxPages);
    forall p: nat ensures Times(mine, p) + Times(r.k.pool, p) + Times(r.saved + r.args, p) <= Cap(p, size) {
      TimesAppend(saved, args, p);
      TimesAppend(r.saved, r.args, p);
      RoundKeepsPages(k, saved, args, maxPages, p);
      hide Times, ReadOnce;
    }
  }

  /** One iteration of read leaves the messages that exist alone. */
  lemma RoundElsewhere(k: Kernel, saved: seq<nat>, args: seq<nat>, maxPages: nat, mine: seq<nat>, length: nat)
    requires Once(mine, k.pool, saved + args, k.pageSize) && Placed(mine, k.pageSize, length, |k.region|)
    ensures var r := ReadOnce(k, saved, args, maxPages);
            var k1 := if r.Over? then r.end.k else r.k;
            |k1.region| == |k.region| && k1.pageSize == k.pageSize &&
            FlatOf(k1.region, mine, k.pageSize, length) == FlatOf(k.region, mine, k.pageSize, length)
  {
    hide Once, Placed, FlatOf, RecvMsg, Met, Filling, Examine;
    var n := Filling(saved, args, maxPages);
    GivenOnce(mine, k.pool, saved, args, n, k.pageSize);
    RecvElsewhere(k, args + saved[..n], maxPages, mine, length);
  }

  lemma RoundDelivers(k: Kernel, saved: seq<nat>, args: seq<nat>, maxPages: nat)
    requires Once([], k.pool, saved + args, k.pageSize)
    requires var r := ReadOnce(k, saved, args, maxPages); r.Over? && r.end.result.Got?
    ensures var end := ReadOnce(k, saved, args, maxPages).end;
            var g := end.result;
            Placed(g.pages, k.pageSize, |g.bytes|, |end.k.region|) && end.k.pageSize == k.pageSize &&
            FlatOf(end.k.region, g.pages, k.pageSize, |g.bytes|) == g.bytes
  {
    hide Once, Placed, FlatOf, RecvMsg, Met, Filling;
    var n := Filling(saved, args, maxPages);
    GivenOnce([], k.pool, saved, args, n, k.pageSize);
    RecvDelivers(k, args + saved[..n], maxPages);
  }

  /** A call of read, whatever it meets, leaves the bytes of the messages that exist alone. */
  lemma {:induction false} ReadElsewhere(k: Kernel, saved: seq<nat>, args: seq<nat>, maxPages: nat, mine: seq<nat>,
                                         length: nat)
    requires Once(mine, k.pool, saved + args, k.pageSize) && Placed(mine, k.pageSize, length, |k.region|)
    ensures var r := Read(k, saved, args, maxPages);
            |r.k.region| == |k.region| && r.k.pageSize == k.pageSize &&
            FlatOf(r.k.region, mine, k.pageSize, length) == FlatOf(k.region, mine, k.pageSize, length)
    decreases |k.script|
  {
    hide Once, Placed, FlatOf, ReadOnce;
    RoundsEnd(k, saved, args, maxPages);
    RoundElsewhere(k, saved, args, maxPages, mine, length);
    var r := ReadOnce(k, saved, args, maxPages);
    if r.Another? {
      RoundOnce(k, saved, args, maxPages, mine, k.pageSize);
      ReadElsewhere(r.k, r.saved, r.args, maxPages, mine, length);
    }
  }

  // ------------------------------------------------ what a call of read has met

  /** A message that read throws away to receive another one. */
  predicate Discarded(d: Delivery) {
    d.Arrival? && |d.bytes| >= HEADER_LENGTH && DecodeHeader(d.bytes).flags.emptyResponse
  }

  /** What the recvmsg calls of read meet: dummy responses and then something else. Each call brings
      back to Homa the pages of the one before it, and saved pages as far as there is room. */
  function Deliveries(k: Kernel, saved: seq<nat>, args: seq<nat>, maxPages: nat): (ds: seq<Delivery>)
    ensures ds != []
    decreases |k.script|
  {
    var n := Filling(saved, args, maxPages);
    var given := args + saved[..n];
    var d := Met(k, given, maxPages);
    if Discarded(d) then [d] + Deliveries(RecvMsg(k, given, maxPages), saved[n..], d.pages, maxPages) else [d]
  }

  function LastOf(ds: seq<Delivery>): Delivery
    requires ds != []
  {
    ds[|ds| - 1]
  }

  /** What read tells its caller about what it has met last. */
  predicate Answers(d: Delivery, result: ReadResult) {
    match d
    case Failure(errno, homaId, cookie) =>
      (errno.Again? ==> result == NothingRead(homaId, cookie)) &&
      (errno.Other? ==> result == RecvFailed(errno.code, homaId, cookie))
    case Arrival(homaId, bytes, pages) =>
      (|bytes| < HEADER_LENGTH <==> result == TooShort(homaId)) &&
      (|bytes| >= HEADER_LENGTH ==>
         var h := DecodeHeader(bytes);
         result == if |bytes| == Expected(h) then Got(homaId, h.streamId, bytes, pages)
                   else BadLength(homaId, h.streamId))
  }

  lemma RoundAnswers(k: Kernel, saved: seq<nat>, args: seq<nat>, maxPages: nat)
    ensures var n := Filling(saved, args, maxPages);
            var given := args + saved[..n];
            var d, r := Met(k, given, maxPages), ReadOnce(k, saved, args, maxPages);
            if Discarded(d) then r == Another(RecvMsg(k, given, maxPages), saved[n..], d.pages)
            else r.Over? && Answers(d, r.end.result) && r.end.k == RecvMsg(k, given, maxPages) &&
                 r.end.saved == saved[n..] + if r.end.result.Got? then [] else PagesOf(d)
  {
    hide RecvMsg, Met, Filling, DecodeHeader;
  }

  /** The recvmsg call of one iteration of read. */
  function FirstMet(k: Kernel, saved: seq<nat>, args: seq<nat>, maxPages: nat): Delivery {
    Met(k, args + saved[..Filling(saved, args, maxPages)], maxPages)
  }

  /** The first iteration of read and those that follow. */
  lemma ReadUnfolds(k: Kernel, saved: seq<nat>, args: seq<nat>, maxPages: nat)
    ensures var d, r := FirstMet(k, saved, args, maxPages), ReadOnce(k, saved, args, maxPages);
            var ds, end := Deliveries(k, saved, args, maxPages), Read(k, saved, args, maxPages);
            if r.Over? then !Discarded(d) && ds == [d] && end == r.end && Answers(d, end.result)
            else Discarded(d) && |r.k.script| < |k.script| &&
                 ds == [d] + Deliveries(r.k, r.saved, r.args, maxPages) && end == Read(r.k, r.saved, r.args, maxPages)
  {
    RoundsEnd(k, saved, args, maxPages);
    RoundAnswers(k, saved, args, maxPages);
    hide ReadOnce, Discarded, Answers, Filling, Met, RecvMsg;
  }

  /** All that a call of read meets before the last is thrown away, and the last is what the caller is
      told about: a message that is returned goes to the stream that its header names. */
  lemma {:induction false} ReadAnswers(k: Kernel, saved: seq<nat>, args: seq<nat>, maxPages: nat)
    ensures var ds := Deliveries(k, saved, args, maxPages);
            (forall i :: 0 <= i < |ds| - 1 ==> Discarded(ds[i])) && !Discarded(LastOf(ds)) &&
            Answers(LastOf(ds), Read(k, saved, args, maxPages).result)
    decreases |k.script|
  {
    hide Read, Deliveries, FirstMet, ReadOnce, Discarded, Answers;
    ReadUnfolds(k, saved, args, maxPages);
    var r := ReadOnce(k, saved, args, maxPages);
    if r.Another? { ReadAnswers(r.k, r.saved, r.args, maxPages); }
  }

  /** What is met is what the network brings, in its order, or nothing. */
  lemma {:induction false} DeliveriesInOrder(k: Kernel, saved: seq<nat>, args: seq<nat>, maxPages: nat)
    ensures var ds := Deliveries(k, saved, args, maxPages);
            (forall i :: 0 <= i < |ds| ==> ds[i] == NOTHING_NOW || (i < |k.script| && ds[i] == k.script[i])) &&
            Read(k, saved, args, maxPages).k.script == if |ds| <= |k.script| then k.script[|ds|..] else []
    decreases |k.script|
  {
    hide Read, Deliveries, FirstMet, ReadOnce, Discarded, Answers;
    ReadUnfolds(k, saved, args, maxPages);
    RoundScript(k, saved, args, maxPages);
    var r := ReadOnce(k, saved, args, maxPages);
    if r.Another? { DeliveriesInOrder(r.k, r.saved, r.args, maxPages); }
  }

  lemma RoundScript(k: Kernel, saved: seq<nat>, args: seq<nat>, maxPages: nat)
    ensures var d, r := FirstMet(k, saved, args, maxPages), ReadOnce(k, saved, args, maxPages);
            (d == NOTHING_NOW || (k.script != [] && d == k.script[0])) &&
            (Discarded(d) ==> k.script != []) &&
            (if r.Over? then r.end.k else r.k).script == if k.script == [] then [] else k.script[1..]
  {
    hide Discarded, Answers, Filling, DecodeHeader, ReadOnce;
    RoundAnswers(k, saved, args, maxPages);
    assert !Discarded(NOTHING_NOW) by { NothingIsKept(); }
  }

  lemma NothingIsKept()
    ensures !Discarded(NOTHING_NOW)
  {}

  /** Saved buffers go back to Homa, the oldest first and as many as the first call has room for, or more
      in later calls. Only a message that is not returned adds to those that are left. */
  lemma {:induction false} SavedGoBack(k: Kernel, saved: seq<nat>, args: seq<nat>, maxPages: nat) returns (m: nat)
    ensures |saved| >= m >= Min(if |args| < maxPages then maxPages - |args| else 0, |saved|)
    ensures var r := Read(k, saved, args, maxPages);
            r.saved == saved[m..] + if r.result.Got? then [] else PagesOf(LastOf(Deliveries(k, saved, args, maxPages)))
    decreases |k.script|
  {
    ReadUnfolds(k, saved, args, maxPages);
    RoundAnswers(k, saved, args, maxPages);
    var n := Filling(saved, args, maxPages);
    m := n;
    var r := ReadOnce(k, saved, args, maxPages);
    hide Read, Deliveries, ReadOnce, Discarded, Answers, Met, RecvMsg;
    if r.Another? {
      var m1 := SavedGoBack(r.k, r.saved, r.args, maxPages);
      assert saved[n..][m1..] == saved[n + m1..];
      m := n + m1;
    }
  }

  /** The message that read returns is the one in its pages. */
  lemma {:induction false} ReadDelivers(k: Kernel, saved: seq<nat>, args: seq<nat>, maxPages: nat)
    requires Once([], k.pool, saved + args, k.pageSize) && Read(k, saved, args, maxPages).result.Got?
    ensures var r := Read(k, saved, args, maxPages);
            var g := r.result;
            Placed(g.pages, k.pageSize, |g.bytes|, |r.k.region|) && r.k.pageSize == k.pageSize &&
            FlatOf(r.k.region, g.pages, k.pageSize, |g.bytes|) == g.bytes
    decreases |k.script|
  {
    hide Once, Placed, FlatOf, ReadOnce;
    RoundsEnd(k, saved, args, maxPages);
    var r := ReadOnce(k, saved, args, maxPages);
    match r
    case Over(end) => RoundDelivers(k, saved, args, maxPages);
    case Another(k1, saved1, args1) =>
      OnceSize([], k.pool, saved + args, k.pageSize);
      EmptyPlaced(k);
      RoundElsewhere(k, saved, args, maxPages, [], 0);
      RoundOnce(k, saved, args, maxPages, [], k.pageSize);
      ReadDelivers(k1, saved1, args1, maxPages);
  }

  lemma EmptyPlaced(k: Kernel)
    ensures k.pageSize > 0 ==> Placed([], k.pageSize, 0, |k.region|)
  {}

  // ------------------------------------------------ whole runs

  /** A message that exists: its pages, its bytes, and the number of references to it, by its owner and
      by slices that point into it. Messages are numbered in the order in which they are read. */
  datatype Live = Live(id: nat, pages: seq<nat>, bytes: Bytes, refs: nat)

  datatype State = State(k: Kernel, saved: seq<nat>, live: seq<Live>, nextId: nat)

  function NewState(k: Kernel): State { State(k, [], [], 0) }

  /** ReadMessage is a call of read; TakeRef and DropRef create and release a reference to a message;
      MarkFlags overwrites the flags in its header, as the stream does when it has used its parts. */
  datatype Event = ReadMessage(maxPages: nat) | TakeRef(i: nat) | DropRef(i: nat) | MarkFlags(i: nat, flags: Byte)

  const FLAGS_OFFSET: int := 20

  predicate Possible(s: State, e: Event) {
    match e
    case ReadMessage(_) => true
    case TakeRef(i) => i < |s.live|
    case DropRef(i) => i < |s.live|
    case MarkFlags(i, _) => i < |s.live| && |s.live[i].bytes| > FLAGS_OFFSET && s.k.pageSize > FLAGS_OFFSET
  }

  /** The message without its last reference is destroyed, and its buffers are saved. */
  function Apply(s: State, e: Event): State
    requires Possible(s, e)
  {
    match e
    case ReadMessage(maxPages) =>
      var r := Read(s.k, s.saved, [], maxPages);
      if r.result.Got?
      then State(r.k, r.saved, s.live + [Live(s.nextId, r.result.pages, r.result.bytes, 1)], s.nextId + 1)
      else State(r.k, r.saved, s.live, s.nextId)
    case TakeRef(i) => s.(live := s.live[i := s.live[i].(refs := s.live[i].refs + 1)])
    case DropRef(i) =>
      if s.live[i].refs > 1 then s.(live := s.live[i := s.live[i].(refs := s.live[i].refs - 1)])
      else s.(saved := s.saved + s.live[i].pages, live := s.live[..i] + s.live[i + 1..])
    case MarkFlags(i, flags) =>
      var m := s.live[i];
      s.(k := s.k.(region := SetByte(s.k.region, m.pages, s.k.pageSize, flags)),
         live := s.live[i := m.(bytes := m.bytes[FLAGS_OFFSET := flags])])
  }

  /** The flags are in the first page of a message. */
  function SetByte(region: seq<Byte>, pages: seq<nat>, size: nat, flags: Byte): (r: seq<Byte>)
    ensures |r| == |region|
  {
    if |pages| > 0 && pages[0] + FLAGS_OFFSET < |region| then region[pages[0] + FLAGS_OFFSET := flags] else region
  }

  function Held(live: seq<Live>, p: nat): nat {
    if live == [] then 0 else Held(live[..|live| - 1], p) + Times(live[|live| - 1].pages, p)
  }

  /** How often a page is somewhere. */
  function Total(s: State, p: nat): nat { Times(s.k.pool, p) + Times(s.saved, p) + Held(s.live, p) }

  /** Taking one element out and taking the last one off can be done in either order. */
  lemma WithoutOne<T>(s: seq<T>, i: nat)
    requires i < |s| - 1
    ensures var r, shorter := s[..i] + s[i + 1..], s[..|s| - 1];
            |r| > 0 && r[|r| - 1] == s[|s| - 1] && r[..|r| - 1] == shorter[..i] + shorter[i + 1..]
  {}

  lemma {:induction false} HeldSplit(live: seq<Live>, i: nat, p: nat)
    requires i < |live|
    ensures Held(live, p) == Held(live[..i] + live[i + 1..], p) + Times(live[i].pages, p)
    decreases |live|
  {
    var last := live[|live| - 1];
    if i == |live| - 1 {
      assert live[..i] + live[i + 1..] == live[..i];
    } else {
      var shorter := live[..|live| - 1];
      HeldSplit(shorter, i, p);
      WithoutOne(live, i);
    }
  }

  lemma HeldSame(live: seq<Live>, i: nat, m: Live, p: nat)
    requires i < |live| && m.pages == live[i].pages
    ensures Held(live[i := m], p) == Held(live, p)
  {
    HeldSplit(live, i, p);
    HeldSplit(live[i := m], i, p);
    assert live[i := m][..i] + live[i := m][i + 1..] == live[..i] + live[i + 1..];
    hide Held, Times;
  }

  /** No event creates, loses or duplicates a page. */
  lemma EventKeepsPages(s: State, e: Event, p: nat)
    requires Possible(s, e)
    ensures Total(Apply(s, e), p) == Total(s, p)
  {
    hide Times, Read, SetByte;
    match e
    case ReadMessage(maxPages) =>
      ReadKeepsPages(s.k, s.saved, [], maxPages, p);
      assert Times([], p) == 0 by { NoTimes(p); }
      var r := Apply(s, e);
      if |r.live| > |s.live| { assert r.live[..|s.live|] == s.live; }
    case TakeRef(i) => HeldSame(s.live, i, Apply(s, e).live[i], p);
    case DropRef(i) =>
      if s.live[i].refs > 1 {
        HeldSame(s.live, i, Apply(s, e).live[i], p);
      } else {
        HeldSplit(s.live, i, p);
        TimesAppend(s.saved, s.live[i].pages, p);
      }
    case MarkFlags(i, flags) => HeldSame(s.live, i, Apply(s, e).live[i], p);
  }

  /** The pages of a message hold its bytes. */
  predicate Kept(k: Kernel, m: Live) {
    m.refs > 0 && Placed(m.pages, k.pageSize, |m.bytes|, |k.region|) &&
    FlatOf(k.region, m.pages, k.pageSize, |m.bytes|) == m.bytes
  }

  /** Every page is in one place, and every message that exists is as it was received. */
  ghost predicate Intact(s: State) {
    s.k.pageSize > 0 && (forall p: nat :: Total(s, p) <= Cap(p, s.k.pageSize)) &&
    forall i :: 0 <= i < |s.live| ==> Kept(s.k, s.live[i])
  }

  lemma {:induction false} DistinctTimes(s: seq<nat>, p: nat)
    requires Distinct(s)
    ensures Times(s, p) <= 1
    decreases |s|
  {
    if s != [] {
      var rest := s[..|s| - 1];
      DistinctTimes(rest, p);
      TimesIn(rest, p);
    }
  }

  /** At the start, when Homa has all pages, each of them once, everything is intact. */
  lemma NewStateIntact(k: Kernel)
    requires Aligned(k.pool, k.pageSize) && Distinct(k.pool)
    ensures Intact(NewState(k)) && IdsOk(NewState(k)) && Once([], k.pool, [] + [], k.pageSize)
  {
    var s := NewState(k);
    forall p: nat ensures Total(s, p) <= Cap(p, k.pageSize) {
      DistinctTimes(k.pool, p);
      TimesIn(k.pool, p);
    }
    hide Total, Cap, Distinct, Aligned;
    SavedOnce(s);
  }

  lemma LiveOnce(s: State, i: nat)
    requires Intact(s) && i < |s.live|
    ensures Once(s.live[i].pages, s.k.pool, s.saved + [], s.k.pageSize)
  {
    assert s.saved + [] == s.saved;
    var mine := s.live[i].pages;
    forall p: nat ensures Times(mine, p) + Times(s.k.pool, p) + Times(s.saved, p) <= Cap(p, s.k.pageSize) {
      HeldSplit(s.live, i, p);
      assert Total(s, p) <= Cap(p, s.k.pageSize);
      hide Held, Times;
    }
  }

  lemma PairOnce(s: State, i: nat, j: nat)
    requires Intact(s) && i < |s.live| && j < |s.live| && i != j
    ensures Once(s.live[i].pages, s.live[j].pages, [], s.k.pageSize)
  {
    var rest := s.live[..i] + s.live[i + 1..];
    var at := if j < i then j else j - 1;
    assert rest[at] == s.live[j];
    forall p: nat
      ensures Times(s.live[i].pages, p) + Times(s.live[j].pages, p) + Times([], p) <= Cap(p, s.k.pageSize)
    {
      HeldSplit(s.live, i, p);
      HeldSplit(rest, at, p);
      NoTimes(p);
      assert Total(s, p) <= Cap(p, s.k.pageSize);
      hide Held, Times;
    }
  }

  /** While a message exists, none of its pages is with Homa or waits to go back. */
  lemma LivePagesAreNotReturned(s: State, i: nat, p: nat)
    requires Intact(s) && i < |s.live| && p in s.live[i].pages
    ensures p !in s.k.pool && p !in s.saved
  {
    LiveOnce(s, i);
    assert s.saved + [] == s.saved;
    hide Intact;
    OnceIn(s.live[i].pages, s.k.pool, s.saved + [], s.k.pageSize, p);
  }

  lemma SavedOnce(s: State)
    requires Intact(s)
    ensures Once([], s.k.pool, s.saved + [], s.k.pageSize)
  {
    assert s.saved + [] == s.saved;
    forall p: nat ensures Times([], p) + Times(s.k.pool, p) + Times(s.saved, p) <= Cap(p, s.k.pageSize) {
      NoTimes(p);
      assert Total(s, p) <= Cap(p, s.k.pageSize);
      hide Held, Times;
    }
  }

  lemma ReadIntact(s: State, maxPages: nat)
    requires Intact(s)
    ensures var r := Apply(s, ReadMessage(maxPages));
            r.k.pageSize == s.k.pageSize && forall i :: 0 <= i < |r.live| ==> Kept(r.k, r.live[i])
  {
    var r := Apply(s, ReadMessage(maxPages));
    SavedOnce(s);
    OnceSize([], s.k.pool, s.saved + [], s.k.pageSize);
    EmptyPlaced(s.k);
    hide Once, Placed, FlatOf, Read, Total, Cap;
    ReadElsewhere(s.k, s.saved, [], maxPages, [], 0);
    if Read(s.k, s.saved, [], maxPages).result.Got? { ReadDelivers(s.k, s.saved, [], maxPages); }
    forall i | 0 <= i < |s.live| ensures Kept(r.k, r.live[i]) {
      assert Kept(s.k, s.live[i]);
      LiveOnce(s, i);
      ReadElsewhere(s.k, s.saved, [], maxPages, s.live[i].pages, |s.live[i].bytes|);
      ReadPlaced(s.k, r.k, s.live[i].pages, |s.live[i].bytes|);
    }
  }

  lemma ReadPlaced(a: Kernel, b: Kernel, pages: seq<nat>, length: nat)
    requires Placed(pages, a.pageSize, length, |a.region|) && b.pageSize == a.pageSize && |b.region| == |a.region|
    ensures Placed(pages, b.pageSize, length, |b.region|)
  {}

  lemma MarkMine(s: State, i: nat, flags: Byte)
    requires Intact(s) && Possible(s, MarkFlags(i, flags))
    ensures var r := Apply(s, MarkFlags(i, flags)); Kept(r.k, r.live[i])
  {
    LiveOnce(s, i);
    var m, size, r := s.live[i], s.k.pageSize, Apply(s, MarkFlags(i, flags));
    OnceApart(m.pages, s.k.pool, s.saved + [], size);
    assert Kept(s.k, m);
    PlacedAddress(m.pages, size, |m.bytes|, |s.k.region|, FLAGS_OFFSET);
    DivModSmall(FLAGS_OFFSET, size);
    LiveDistinct(s, i);
    hide Intact, Once;
    var x, y := FlatOf(r.k.region, m.pages, size, |m.bytes|), FlatOf(s.k.region, m.pages, size, |m.bytes|);
    forall j | 0 <= j < |m.bytes| ensures x[j] == m.bytes[FLAGS_OFFSET := flags][j] {
      PlacedAddress(m.pages, size, |m.bytes|, |s.k.region|, j);
      if j != FLAGS_OFFSET { AddressInjective(m.pages, size, j, FLAGS_OFFSET); }
      assert y[j] == m.bytes[j];
      hide Placed, Aligned, Distinct;
    }
  }

  lemma LiveDistinct(s: State, i: nat)
    requires Intact(s) && i < |s.live|
    ensures Distinct(s.live[i].pages)
  {
    var mine := s.live[i].pages;
    LiveOnce(s, i);
    forall a, b | 0 <= a < b < |mine| ensures mine[a] != mine[b] { OnceDistinct(mine, a, b); }
  }

  lemma MarkOther(s: State, i: nat, flags: Byte, j: nat)
    requires Intact(s) && Possible(s, MarkFlags(i, flags)) && j < |s.live| && j != i
    ensures Kept(Apply(s, MarkFlags(i, flags)).k, s.live[j])
  {
    PairOnce(s, j, i);
    PairOnce(s, i, j);
    var m, other, size, r := s.live[i], s.live[j], s.k.pageSize, Apply(s, MarkFlags(i, flags));
    assert Kept(s.k, other) && Kept(s.k, m);
    OnceApart(other.pages, m.pages, [], size);
    OnceApart(m.pages, other.pages, [], size);
    assert |m.pages| > 0;
    hide Intact, Once, FlatOf;
    forall a | 0 <= a < |s.k.region| && Outside(a, m.pages, size) ensures r.k.region[a] == s.k.region[a] {
      assert a < m.pages[0] || m.pages[0] + size <= a;
    }
    FlatFrame(s.k.region, r.k.region, other.pages, m.pages, size, |other.bytes|);
  }

  lemma EventIntact(s: State, e: Event)
    requires Intact(s) && Possible(s, e)
    ensures Intact(Apply(s, e))
  {
    var r := Apply(s, e);
    forall p: nat ensures Total(r, p) <= Cap(p, s.k.pageSize) {
      EventKeepsPages(s, e, p);
      assert Total(s, p) <= Cap(p, s.k.pageSize);
      hide Apply, Total, Cap;
    }
    EventKept(s, e);
    hide Apply, Total, Cap, Kept;
  }

  lemma EventKept(s: State, e: Event)
    requires Intact(s) && Possible(s, e)
    ensures var r := Apply(s, e);
            r.k.pageSize == s.k.pageSize && forall i :: 0 <= i < |r.live| ==> Kept(r.k, r.live[i])
  {
    hide Total, Cap, Placed, FlatOf;
    match e
    case ReadMessage(maxPages) => ReadIntact(s, maxPages);
    case TakeRef(i) =>
    case DropRef(i) =>
    case MarkFlags(i, flags) =>
      MarkMine(s, i, flags);
      forall j | 0 <= j < |s.live| && j != i ensures Kept(Apply(s, e).k, s.live[j]) { MarkOther(s, i, flags, j); }
      hide Kept, Intact;
  }

  predicate PossibleRun(s: State, es: seq<Event>)
    decreases |es|
  {
    es == [] || (Possible(s, es[0]) && PossibleRun(Apply(s, es[0]), es[1..]))
  }

  function Run(s: State, es: seq<Event>): State
    requires PossibleRun(s, es)
    decreases |es|
  {
    if es == [] then s else Run(Apply(s, es[0]), es[1..])
  }

  /** Over every run, each page is in as many places as before: with Homa, saved, or in one message. */
  lemma {:induction false} PagesAreConserved(s: State, es: seq<Event>, p: nat)
    requires PossibleRun(s, es)
    ensures Total(Run(s, es), p) == Total(s, p)
    decreases |es|
  {
    hide Apply, Total, Possible;
    if es != [] {
      EventKeepsPages(s, es[0], p);
      PagesAreConserved(Apply(s, es[0]), es[1..], p);
    }
  }

  /** In every run, messages keep their bytes for as long as anything refers to them, whatever arrives
      in the meantime. */
  lemma {:induction false} MessagesKeepTheirBytes(s: State, es: seq<Event>)
    requires Intact(s) && PossibleRun(s, es)
    ensures Intact(Run(s, es))
    decreases |es|
  {
    hide Apply, Intact, Possible;
    if es != [] {
      EventIntact(s, es[0]);
      MessagesKeepTheirBytes(Apply(s, es[0]), es[1..]);
    }
  }

  // ------------------------------------------------ references

  /** Messages in the order in which they were read, each with its own number. */
  predicate IdsOk(s: State) {
    (forall i :: 0 <= i < |s.live| ==> s.live[i].id < s.nextId) &&
    forall i, j :: 0 <= i < j < |s.live| ==> s.live[i].id < s.live[j].id
  }

  predicate Exists(live: seq<Live>, id: nat) { exists i :: 0 <= i < |live| && live[i].id == id }

  /** How many references there are to a message. */
  function RefsOf(live: seq<Live>, id: nat): nat {
    if live == [] then 0
    else RefsOf(live[..|live| - 1], id) + if live[|live| - 1].id == id then live[|live| - 1].refs else 0
  }

  /** What an event means for the references to a message: the call of read that returns it makes the
      first, others are taken and dropped. */
  function Change(s: State, e: Event, id: nat): int
    requires Possible(s, e)
  {
    match e
    case ReadMessage(maxPages) => if Read(s.k, s.saved, [], maxPages).result.Got? && s.nextId == id then 1 else 0
    case TakeRef(i) => if s.live[i].id == id then 1 else 0
    case DropRef(i) => if s.live[i].id == id then -1 else 0
    case MarkFlags(_, _) => 0
  }

  /** References made less references dropped, in a run. */
  function Balance(s: State, es: seq<Event>, id: nat): int
    requires PossibleRun(s, es)
    decreases |es|
  {
    if es == [] then 0 else Change(s, es[0], id) + Balance(Apply(s, es[0]), es[1..], id)
  }

  lemma {:induction false} RefsSplit(live: seq<Live>, i: nat, id: nat)
    requires i < |live|
    ensures RefsOf(live, id) == RefsOf(live[..i] + live[i + 1..], id) + if live[i].id == id then live[i].refs else 0
    decreases |live|
  {
    if i == |live| - 1 {
      assert live[..i] + live[i + 1..] == live[..i];
    } else {
      RefsSplit(live[..|live| - 1], i, id);
      WithoutOne(live, i);
    }
  }

  lemma RefsChanged(live: seq<Live>, i: nat, m: Live, id: nat)
    requires i < |live| && m.id == live[i].id
    ensures RefsOf(live[i := m], id) == RefsOf(live, id) + if m.id == id then m.refs - live[i].refs else 0
  {
    RefsSplit(live, i, id);
    RefsSplit(live[i := m], i, id);
    assert live[i := m][..i] + live[i := m][i + 1..] == live[..i] + live[i + 1..];
    hide RefsOf;
  }

  lemma {:induction false} NoRefs(live: seq<Live>, id: nat)
    requires !Exists(live, id)
    ensures RefsOf(live, id) == 0
    decreases |live|
  {
    if live != [] {
      var n := |live| - 1;
      assert live[n].id != id;
      assert forall i :: 0 <= i < n ==> live[..n][i] == live[i];
      NoRefs(live[..n], id);
    }
  }

  lemma RefsOneMore(live: seq<Live>, m: Live, id: nat)
    ensures RefsOf(live + [m], id) == RefsOf(live, id) + if m.id == id then m.refs else 0
  {
    assert (live + [m])[..|live|] == live;
  }

  lemma ReadRefs(s: State, maxPages: nat, id: nat)
    ensures var e := ReadMessage(maxPages); RefsOf(Apply(s, e).live, id) == RefsOf(s.live, id) + Change(s, e, id)
  {
    hide Read, RefsOf;
    var r := Read(s.k, s.saved, [], maxPages).result;
    if r.Got? { RefsOneMore(s.live, Live(s.nextId, r.pages, r.bytes, 1), id); }
  }

  /** An event changes the references to a message by what it means for them. */
  lemma EventRefs(s: State, e: Event, id: nat)
    requires Intact(s) && Possible(s, e)
    ensures RefsOf(Apply(s, e).live, id) == RefsOf(s.live, id) + Change(s, e, id)
  {
    hide Read, Total, Cap, Placed, FlatOf, RefsOf;
    match e
    case ReadMessage(maxPages) => ReadRefs(s, maxPages, id);
    case TakeRef(i) => RefsChanged(s.live, i, Apply(s, e).live[i], id);
    case DropRef(i) =>
      assert Kept(s.k, s.live[i]);
      if s.live[i].refs > 1 { RefsChanged(s.live, i, Apply(s, e).live[i], id); } else { RefsSplit(s.live, i, id); }
    case MarkFlags(i, flags) => RefsChanged(s.live, i, Apply(s, e).live[i], id);
  }

  lemma EventIds(s: State, e: Event)
    requires IdsOk(s) && Possible(s, e)
    ensures IdsOk(Apply(s, e)) && Apply(s, e).nextId >= s.nextId
  {
    hide Read;
  }

  lemma RefsExact(s: State, i: nat)
    requires IdsOk(s) && i < |s.live|
    ensures RefsOf(s.live, s.live[i].id) == s.live[i].refs
  {
    var rest, id := s.live[..i] + s.live[i + 1..], s.live[i].id;
    RefsSplit(s.live, i, id);
    forall j | 0 <= j < |rest| ensures rest[j].id != id { assert rest[j] == s.live[if j < i then j else j + 1]; }
    NoRefs(rest, id);
  }

  /** Over every run, the references to a message are those made less those dropped. */
  lemma {:induction false} ReferencesBalance(s: State, es: seq<Event>, id: nat)
    requires Intact(s) && IdsOk(s) && PossibleRun(s, es)
    ensures RefsOf(Run(s, es).live, id) == RefsOf(s.live, id) + Balance(s, es, id) && IdsOk(Run(s, es))
    decreases |es|
  {
    hide Apply, Intact, Possible, RefsOf, IdsOk, Change;
    if es != [] {
      EventRefs(s, es[0], id);
      EventIntact(s, es[0]);
      EventIds(s, es[0]);
      ReferencesBalance(Apply(s, es[0]), es[1..], id);
    }
  }

  /** At every point of every run, a message exists exactly if more references to it have been made than
      dropped. While it does, its pages hold its bytes, and none of them is saved or with Homa. */
  lemma ExistsWhileReferenced(s: State, es: seq<Event>, id: nat)
    requires Intact(s) && IdsOk(s) && PossibleRun(s, es)
    ensures var r, refs := Run(s, es), RefsOf(s.live, id) + Balance(s, es, id);
            (Exists(r.live, id) <==> refs > 0) &&
            forall i :: 0 <= i < |r.live| && r.live[i].id == id ==>
              r.live[i].refs == refs && Kept(r.k, r.live[i]) &&
              forall p :: p in r.live[i].pages ==> p !in r.k.pool && p !in r.saved
  {
    hide RefsOf, Run, Balance, IdsOk, Kept, Total, Cap;
    var r := Run(s, es);
    ReferencesBalance(s, es, id);
    MessagesKeepTheirBytes(s, es);
    if !Exists(r.live, id) { NoRefs(r.live, id); }
    forall i | 0 <= i < |r.live| && r.live[i].id == id
      ensures r.live[i].refs == RefsOf(r.live, id) > 0 && Kept(r.k, r.live[i])
      ensures forall p :: p in r.live[i].pages ==> p !in r.k.pool && p !in r.saved
    {
      RefsExact(r, i);
      assert Kept(r.k, r.live[i]) && r.live[i].refs > 0 by { KeptRefs(r, i); }
      forall p | p in r.live[i].pages ensures p !in r.k.pool && p !in r.saved { LivePagesAreNotReturned(r, i, p); }
    }
  }

  lemma KeptRefs(s: State, i: nat)
    requires Intact(s) && i < |s.live|
    ensures Kept(s.k, s.live[i]) && s.live[i].refs > 0
  {}

  /** Dropping a reference destroys the message exactly if it was the last; its pages are saved then, and
      nothing is saved otherwise. */
  lemma LastReference(s: State, i: nat)
    requires Intact(s) && IdsOk(s) && i < |s.live|
    ensures var r, m := Apply(s, DropRef(i)), s.live[i];
            (Exists(r.live, m.id) <==> RefsOf(s.live, m.id) > 1) &&
            r.saved == s.saved + if Exists(r.live, m.id) then [] else m.pages
  {
    hide Total, Cap, Placed, FlatOf;
    RefsExact(s, i);
    KeptRefs(s, i);
    var r := Apply(s, DropRef(i));
    if s.live[i].refs > 1 {
      assert r.live[i].id == s.live[i].id && s.saved + [] == s.saved;
    } else {
      forall j | 0 <= j < |r.live| ensures r.live[j].id != s.live[i].id {
        assert r.live[j] == s.live[if j < i then j else j + 1];
      }
    }
  }

  /** The same message at two points of a run: only the flags in its header may differ. */
  predicate SameMessage(a: Live, b: Live) {
    a.id == b.id && a.pages == b.pages && |a.bytes| == |b.bytes| &&
    forall i :: 0 <= i < |a.bytes| && i != FLAGS_OFFSET ==> a.bytes[i] == b.bytes[i]
  }

  lemma EventSame(s: State, e: Event, i: nat)
    requires Possible(s, e) && i < |s.live|
    ensures var r := Apply(s, e);
            (e == DropRef(i) && s.live[i].refs <= 1) ||
            exists j: nat :: j < |r.live| && SameMessage(s.live[i], r.live[j])
  {
    hide Read;
    var r := Apply(s, e);
    if e.DropRef? && s.live[e.i].refs <= 1 {
      if i != e.i { assert SameMessage(s.live[i], r.live[if i < e.i then i else i - 1]); }
    } else {
      assert SameMessage(s.live[i], r.live[i]);
    }
  }

  lemma EventGone(s: State, e: Event, id: nat)
    requires Possible(s, e) && id < s.nextId && !Exists(s.live, id)
    ensures !Exists(Apply(s, e).live, id) && id < Apply(s, e).nextId
  {
    hide Read;
    var r := Apply(s, e);
    forall j | 0 <= j < |r.live| ensures r.live[j].id != id {
      if e.DropRef? && s.live[e.i].refs <= 1 {
        assert r.live[j] == s.live[if j < e.i then j else j + 1];
      } else if j < |s.live| {
        assert r.live[j].id == s.live[j].id;
      }
    }
  }

  lemma {:induction false} GoneForGood(s: State, es: seq<Event>, id: nat)
    requires PossibleRun(s, es) && id < s.nextId && !Exists(s.live, id)
    ensures !Exists(Run(s, es).live, id)
    decreases |es|
  {
    hide Apply, Possible, Exists;
    if es != [] {
      EventGone(s, es[0], id);
      GoneForGood(Apply(s, es[0]), es[1..], id);
    }
  }

  /** A message that exists at two points of a run is the same at both, in its place and but for its flags
      in its bytes. */
  lemma {:induction false} MessagesStayTheSame(s: State, es: seq<Event>, i: nat, j: nat)
    requires IdsOk(s) && PossibleRun(s, es) && i < |s.live| && j < |Run(s, es).live|
    requires s.live[i].id == Run(s, es).live[j].id
    ensures SameMessage(s.live[i], Run(s, es).live[j])
    decreases |es|
  {
    if es != [] {
      var n := Apply(s, es[0]);
      EventSame(s, es[0], i);
      EventIds(s, es[0]);
      hide Apply, Possible, IdsOk;
      if h: nat :| h < |n.live| && SameMessage(s.live[i], n.live[h]) {
        MessagesStayTheSame(n, es[1..], h, j);
      } else {
        DroppedIsGone(s, i);
        GoneForGood(n, es[1..], s.live[i].id);
        assert false;
      }
    } else {
      assert i == j;
    }
  }

  lemma DroppedIsGone(s: State, i: nat)
    requires IdsOk(s) && i < |s.live| && s.live[i].refs <= 1
    ensures !Exists(Apply(s, DropRef(i)).live, s.live[i].id) && s.live[i].id < Apply(s, DropRef(i)).nextId
  {
    var r := Apply(s, DropRef(i));
    forall j | 0 <= j < |r.live| ensures r.live[j].id != s.live[i].id {
      assert r.live[j] == s.live[if j < i then j else j + 1];
    }
  }
}
