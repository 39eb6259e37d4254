// Bytes, 32-bit words and small containers shared by every module.
module Bytes {
  type byte = b: int | 0 <= b < 0x100
  type u32 = w: int | 0 <= w < 0x1_0000_0000

  datatype Option<+T> = None | Some(value: T)

  function Min(a: int, b: int): int {
    if a < b then a else b
  }

  lemma MultiplesDiffer(d: nat, q: nat, p: nat)
    requires d < q
    ensures q * p >= d * p + p
    decreases q - d
  {
    assert q * p == (q - 1) * p + p;
    if d < q - 1 {
      MultiplesDiffer(d, q - 1, p);
    }
  }

  /** Quotient and remainder are determined. */
  lemma DivUnique(n: nat, p: nat, q: nat, r: nat)
    requires n == q * p + r && r < p
    ensures n / p == q && n % p == r
  {
    var d, e := n / p, n % p;
    assert n == d * p + e && e < p;
    if d < q {
      MultiplesDiffer(d, q, p);
    } else if d > q {
      MultiplesDiffer(q, d, p);
    }
  }

  /** Bitwise AND. */
  function And(x: nat, y: nat): (r: nat)
    ensures r <= x
    decreases x
  {
    if x == 0 then 0 else 2 * And(x / 2, y / 2) + (if x % 2 == 1 && y % 2 == 1 then 1 else 0)
  }

  /** Bit k, counted from the lowest. */
  predicate BitAt(x: nat, k: nat)
    decreases k
  {
    if k == 0 then x % 2 == 1 else BitAt(x / 2, k - 1)
  }

  lemma {:induction false} NoBits(k: nat)
    ensures !BitAt(0, k)
    decreases k
  {
    if k > 0 {
      NoBits(k - 1);
    }
  }

  /** It is that, bit by bit. */
  lemma {:induction false} AndBits(x: nat, y: nat, k: nat)
    ensures BitAt(And(x, y), k) <==> BitAt(x, k) && BitAt(y, k)
    decreases k
  {
    if x == 0 {
      NoBits(k);
    } else if k > 0 {
      AndBits(x / 2, y / 2, k - 1);
    }
  }

  lemma {:induction false} AndIdempotent(x: nat)
    ensures And(x, x) == x
  {
    if x > 0 {
      AndIdempotent(x / 2);
    }
  }

  lemma {:induction false} AndOnes(x: nat, n: nat)
    requires PowerOfTwo(n) && x < n
    ensures And(n - 1, x) == x
    decreases n
  {
    if n > 1 {
      AndOnes(x / 2, n / 2);
      assert (n - 1) / 2 == n / 2 - 1;
    }
  }

  predicate PowerOfTwo(n: nat)
    decreases n
  {
    n == 1 || (n > 1 && n % 2 == 0 && PowerOfTwo(n / 2))
  }

  lemma AndBlank(blank: byte, x: byte)
    requires blank == 0xff
    ensures And(blank, x) == x
  {
    assert PowerOfTwo(0x100);
    AndOnes(x, blank + 1);
  }

  /** The four bytes of a 32-bit word in memory order on this little-endian core. */
  function WordBytes(w: u32): (r: seq<byte>)
    ensures |r| == 4
  {
    var w1 := w / 0x100;
    var w2 := w1 / 0x100;
    [w % 0x100, w1 % 0x100, w2 % 0x100, w2 / 0x100]
  }

  function WordOf(b: seq<byte>): u32
    requires |b| == 4
  {
    var b0: int, b1: int, b2: int, b3: int := b[0], b[1], b[2], b[3];
    b0 + 0x100 * (b1 + 0x100 * (b2 + 0x100 * b3))
  }

  lemma WordRoundTrip(w: u32)
    ensures WordOf(WordBytes(w)) == w
  {
  }

  lemma BytesRoundTrip(b: seq<byte>)
    requires |b| == 4
    ensures WordBytes(WordOf(b)) == b
  {
    var w: int, b1: int, b2: int, b3: int := WordOf(b), b[1], b[2], b[3];
    assert w / 0x100 == b1 + 0x100 * (b2 + 0x100 * b3);
    assert w / 0x100 / 0x100 == b2 + 0x100 * b3;
  }
}
