/** Small definitions shared by the whole model: options, bytes, concatenation of pieces, and
    division by a symbolic page or message size. */
module Basics {

  datatype Option<+T> = None | Some(value: T)

  type Byte = b: int | 0 <= b < 256
  type Bytes = seq<Byte>

  const TWO_32: int := 0x1_0000_0000

  function Min(a: int, b: int): int { if a < b then a else b }

  /** The pieces of a message (iovecs, slices, chunks) laid end to end. */
  function Concat<T>(parts: seq<seq<T>>): seq<T> {
    if parts == [] then [] else parts[0] + Concat(parts[1..])
  }

  lemma {:induction false} ConcatAppend<T>(parts: seq<seq<T>>, more: seq<seq<T>>)
    ensures Concat(parts + more) == Concat(parts) + Concat(more)
  {
    if parts == [] {
      assert parts + more == more;
    } else {
      assert (parts + more)[1..] == parts[1..] + more;
      ConcatAppend(parts[1..], more);
    }
  }

  lemma ConcatOne<T>(parts: seq<seq<T>>, last: seq<T>)
    ensures Concat(parts + [last]) == Concat(parts) + last
  {
    ConcatAppend(parts, [last]);
    assert [last][1..] == [];
  }

  lemma MulAtLeast(k: int, p: int)
    requires k >= 1 && p > 0
    ensures k * p >= p
  {}

  /** Quotient and remainder are the only pair that fits. */
  lemma DivModUnique(n: int, p: int, q: int, r: int)
    requires p > 0 && n == q * p + r && 0 <= r < p
    ensures n / p == q && n % p == r
  {
    var d := n / p - q;
    assert n == (n / p) * p + n % p;
    assert d * p == r - n % p;
    if d >= 1 {
      MulAtLeast(d, p);
    } else if d <= -1 {
      MulAtLeast(-d, p);
    }
  }

  /** Taking one divisor away lowers the quotient by one and keeps the remainder. */
  lemma DivModStep(n: int, p: int)
    requires p > 0 && n >= p
    ensures n / p == (n - p) / p + 1 && n % p == (n - p) % p
  {
    var q, r := (n - p) / p, (n - p) % p;
    assert n - p == q * p + r;
    assert (q + 1) * p == q * p + p;
    DivModUnique(n, p, q + 1, r);
  }

  lemma DivModSmall(n: int, p: int)
    requires 0 <= n < p
    ensures n / p == 0 && n % p == n
  {
    DivModUnique(n, p, 0, n);
  }

  /** Moving forward inside one block keeps the quotient and moves the remainder. */
  lemma DivModWithin(n: int, p: int, k: int)
    requires p > 0 && n >= 0 && k >= 0 && n % p + k < p
    ensures (n + k) / p == n / p && (n + k) % p == n % p + k
  {
    assert n == (n / p) * p + n % p;
    DivModUnique(n + k, p, n / p, n % p + k);
  }

  /** Moving to the end of a block reaches offset zero of the next one. */
  lemma DivModNext(n: int, p: int)
    requires p > 0 && n >= 0
    ensures (n + (p - n % p)) / p == n / p + 1 && (n + (p - n % p)) % p == 0
  {
    assert n == (n / p) * p + n % p;
    assert (n / p + 1) * p == (n / p) * p + p;
    DivModUnique(n + (p - n % p), p, n / p + 1, 0);
  }
}
