// aes_unwrap: the unwrap of the AES key wrap algorithm of RFC 3394, with AES itself an
// abstract permutation of 16-byte blocks and its inverse.
module AesUnwrap {
  type Half = h: seq<bv8> | |h| == 8 witness [0, 0, 0, 0, 0, 0, 0, 0]
  type Block = b: seq<bv8> | |b| == 16 witness seq(16, _ => 0)

  /** The register A and the n 8-byte blocks R[1] to R[n], one after the other. */
  datatype State = State(a: Half, r: seq<bv8>)

  /** The initial value of section 2.2.3.1 of RFC 3394. */
  function InitialValue(): Half {
    [0xa6, 0xa6, 0xa6, 0xa6, 0xa6, 0xa6, 0xa6, 0xa6]
  }

  function Xor(x: Half, y: Half): Half {
    seq(8, i requires 0 <= i < 8 => x[i] ^ y[i])
  }

  /** Byte k of an integer, counted from the lowest. */
  function ByteOf(t: nat, k: nat): nat
    decreases k
  {
    if k == 0 then t % 0x100 else ByteOf(t / 0x100, k - 1)
  }

  lemma {:induction false} ByteIsSmall(t: nat, k: nat)
    ensures ByteOf(t, k) < 0x100
    decreases k
  {
    if k > 0 {
      ByteIsSmall(t / 0x100, k - 1);
    }
  }

  function ToBits(b: nat): bv8
    requires b < 0x100
  {
    b as bv8
  }

  function BitsOf(t: nat, k: nat): bv8 {
    ByteIsSmall(t, k);
    ToBits(ByteOf(t, k))
  }

  /** The step number as the standard combines it with A: all 64 bits, highest byte first. */
  function Counter(t: nat): Half {
    seq(8, i requires 0 <= i < 8 => BitsOf(t, 7 - i))
  }

  /** The step number as the code combines it: its lowest byte only. */
  function LowCounter(t: nat): Half {
    seq(8, i requires 0 <= i < 8 => if i < 7 then 0 else BitsOf(t, 0))
  }

  // ----- wrapping, section 2.2.1, and unwrapping, section 2.2.2 -----

  function WrapStep(enc: Block -> Block, t: Half, s: State, i: nat): (r: State)
    requires 1 <= i && 8 * i <= |s.r|
    ensures |r.r| == |s.r|
  {
    var b := enc(s.a + s.r[8 * i - 8..8 * i]);
    State(Xor(b[..8], t), s.r[..8 * i - 8] + b[8..] + s.r[8 * i..])
  }

  function UnwrapStep(dec: Block -> Block, t: Half, s: State, i: nat): (r: State)
    requires 1 <= i && 8 * i <= |s.r|
    ensures |r.r| == |s.r|
  {
    var b := dec(Xor(s.a, t) + s.r[8 * i - 8..8 * i]);
    State(b[..8], s.r[..8 * i - 8] + b[8..] + s.r[8 * i..])
  }

  /** t = n * j + i. */
  function StepNumber(n: nat, j: nat, i: nat): nat {
    n * j + i
  }

  lemma NextStep(n: nat, j: nat, i: nat)
    ensures StepNumber(n, j, 0) == n * j && StepNumber(n, j, i + 1) == StepNumber(n, j, i) + 1
    ensures StepNumber(n, j, n) == StepNumber(n, j + 1, 0) && StepNumber(n, 0, 0) == 0
  {
    assert n * (j + 1) == n * j + n;
  }

  /** Steps 1 to i of round j. */
  function WrapRound(enc: Block -> Block, count: nat -> Half, n: nat, s: State, j: nat, i: nat): (r: State)
    requires i <= n && |s.r| == 8 * n
    ensures |r.r| == 8 * n
    decreases i
  {
    if i == 0 then s else WrapStep(enc, count(StepNumber(n, j, i)), WrapRound(enc, count, n, s, j, i - 1), i)
  }

  function WrapRounds(enc: Block -> Block, count: nat -> Half, n: nat, s: State, j: nat): (r: State)
    requires |s.r| == 8 * n
    ensures |r.r| == 8 * n
    decreases j
  {
    if j == 0 then s else WrapRound(enc, count, n, WrapRounds(enc, count, n, s, j - 1), j - 1, n)
  }

  /** Steps i down to 1 of round j. */
  function UnwrapRound(dec: Block -> Block, count: nat -> Half, n: nat, s: State, j: nat, i: nat): (r: State)
    requires i <= n && |s.r| == 8 * n
    ensures |r.r| == 8 * n
    decreases i
  {
    if i == 0 then s else UnwrapRound(dec, count, n, UnwrapStep(dec, count(StepNumber(n, j, i)), s, i), j, i - 1)
  }

  function UnwrapRounds(dec: Block -> Block, count: nat -> Half, n: nat, s: State, j: nat): (r: State)
    requires |s.r| == 8 * n
    ensures |r.r| == 8 * n
    decreases j
  {
    if j == 0 then s else UnwrapRounds(dec, count, n, UnwrapRound(dec, count, n, s, j - 1, n), j - 1)
  }

  /** The cipher text: A and the blocks after six rounds. */
  function Wrap(enc: Block -> Block, count: nat -> Half, n: nat, key: seq<bv8>): (cipher: seq<bv8>)
    requires |key| == 8 * n
    ensures |cipher| == 8 * n + 8
  {
    var s := WrapRounds(enc, count, n, State(InitialValue(), key), 6);
    s.a + s.r
  }

  function Split(cipher: seq<bv8>): State
    requires |cipher| >= 8
  {
    State(cipher[..8], cipher[8..])
  }

  /** What aes_unwrap leaves behind: A, which it checks, and the plain text. */
  function Unwrapped(dec: Block -> Block, count: nat -> Half, n: nat, cipher: seq<bv8>): (s: State)
    requires |cipher| == 8 * n + 8
    ensures |s.r| == 8 * n
  {
    UnwrapRounds(dec, count, n, Split(cipher), 6)
  }

  ghost predicate Inverse(enc: Block -> Block, dec: Block -> Block) {
    forall b :: dec(enc(b)) == b && enc(dec(b)) == b
  }

  // ----- the shift registers of the standard -----

  /** Section 2.2.2 in its other form, steps t down to 1: the block at the end of the register is
      decrypted together with A; the front half of the result is the new A, the back half comes
      in at the front of the register, and the other blocks move up. */
  function Shifted(dec: Block -> Block, count: nat -> Half, a: Half, reg: seq<bv8>, t: nat): (s: State)
    requires t > 0 ==> |reg| >= 8
    ensures |s.r| == |reg|
    decreases t
  {
    if t == 0 then State(a, reg)
    else
      var b := dec(Xor(a, count(t)) + reg[|reg| - 8..]);
      Shifted(dec, count, b[..8], b[8..] + reg[..|reg| - 8], t - 1)
  }

  /** With the blocks in place, the one that is next is at the end of the register. */
  function Turned(r: seq<bv8>, i: nat): seq<bv8>
    requires 8 * i <= |r|
  {
    r[8 * i..] + r[..8 * i]
  }

  lemma TurnedStep(dec: Block -> Block, t: Half, s: State, i: nat)
    requires 1 <= i && 8 * i <= |s.r|
    ensures |Turned(s.r, i)| == |s.r|
    ensures var reg := Turned(s.r, i);
      var b, u := dec(Xor(s.a, t) + reg[|reg| - 8..]), UnwrapStep(dec, t, s, i);
      u.a == b[..8] && Turned(u.r, i - 1) == b[8..] + reg[..|reg| - 8]
  {
    var reg := Turned(s.r, i);
    assert reg[|reg| - 8..] == s.r[8 * i - 8..8 * i];
    assert reg[..|reg| - 8] == s.r[8 * i..] + s.r[..8 * i - 8];
    var b, u := dec(Xor(s.a, t) + reg[|reg| - 8..]), UnwrapStep(dec, t, s, i);
    assert u.r[8 * i - 8..] == b[8..] + s.r[8 * i..] && u.r[..8 * i - 8] == s.r[..8 * i - 8];
  }

  lemma NoTurn(r: seq<bv8>)
    ensures Turned(r, 0) == r
  {
  }

  lemma {:induction false} TurnedRound(dec: Block -> Block, count: nat -> Half, n: nat, s: State, j: nat, i: nat)
    requires i <= n && |s.r| == 8 * n
    ensures var u := UnwrapRound(dec, count, n, s, j, i);
      Shifted(dec, count, s.a, Turned(s.r, i), StepNumber(n, j, i)) == Shifted(dec, count, u.a, u.r, StepNumber(n, j, 0))
    decreases i
  {
    hide UnwrapStep, StepNumber, Xor, Turned;
    if i == 0 {
      NoTurn(s.r);
    } else {
      NextStep(n, j, i - 1);
      var t := count(StepNumber(n, j, i));
      TurnedStep(dec, t, s, i);
      TurnedRound(dec, count, n, UnwrapStep(dec, t, s, i), j, i - 1);
    }
  }

  lemma {:induction false} TurnedRounds(dec: Block -> Block, count: nat -> Half, n: nat, s: State, j: nat)
    requires n > 0 && |s.r| == 8 * n
    ensures Shifted(dec, count, s.a, s.r, StepNumber(n, j, 0)) == UnwrapRounds(dec, count, n, s, j)
    decreases j
  {
    hide UnwrapRound, StepNumber, Turned;
    NextStep(n, 0, 0);
    if j > 0 {
      NextStep(n, j - 1, 0);
      FullTurn(s.r, n);
      TurnedRound(dec, count, n, s, j - 1, n);
      TurnedRounds(dec, count, n, UnwrapRound(dec, count, n, s, j - 1, n), j - 1);
    }
  }

  lemma FullTurn(r: seq<bv8>, n: nat)
    requires |r| == 8 * n
    ensures Turned(r, n) == r
  {
  }

  /** The two forms are the same for every number of blocks, every block function and every way to
      count the steps. */
  lemma UnwrapShifts(dec: Block -> Block, count: nat -> Half, n: nat, cipher: seq<bv8>)
    requires n > 0 && |cipher| == 8 * n + 8
    ensures Unwrapped(dec, count, n, cipher) == Shifted(dec, count, cipher[..8], cipher[8..], 6 * n)
  {
    hide UnwrapRounds, Shifted;
    TurnedRounds(dec, count, n, Split(cipher), 6);
    assert StepNumber(n, 6, 0) == 6 * n;
  }

  // ----- unwrapping inverts wrapping -----

  lemma XorBits(x: bv8, y: bv8)
    ensures (x ^ y) ^ y == x
  {
  }

  lemma XorTwice(x: Half, y: Half)
    ensures Xor(Xor(x, y), y) == x
  {
    forall i | 0 <= i < 8 ensures (x[i] ^ y[i]) ^ y[i] == x[i] {
      XorBits(x[i], y[i]);
    }
  }

  /** A step's slices put together again. */
  lemma Patched(r: seq<bv8>, i: nat, piece: seq<bv8>)
    requires 1 <= i && 8 * i <= |r| && |piece| == 8
    ensures var p := r[..8 * i - 8] + piece + r[8 * i..];
      && p[8 * i - 8..8 * i] == piece
      && p[..8 * i - 8] + r[8 * i - 8..8 * i] + p[8 * i..] == r
  {
  }

  lemma StepInverts(enc: Block -> Block, dec: Block -> Block, t: Half, s: State, i: nat)
    requires Inverse(enc, dec) && 1 <= i && 8 * i <= |s.r|
    ensures UnwrapStep(dec, t, WrapStep(enc, t, s, i), i) == s
  {
    var x := s.a + s.r[8 * i - 8..8 * i];
    var b := enc(x);
    XorTwice(b[..8], t);
    Patched(s.r, i, b[8..]);
    assert b == b[..8] + b[8..];
    assert x[..8] == s.a && x[8..] == s.r[8 * i - 8..8 * i];
  }

  lemma StepInverted(enc: Block -> Block, dec: Block -> Block, t: Half, s: State, i: nat)
    requires Inverse(enc, dec) && 1 <= i && 8 * i <= |s.r|
    ensures WrapStep(enc, t, UnwrapStep(dec, t, s, i), i) == s
  {
    var x := Xor(s.a, t) + s.r[8 * i - 8..8 * i];
    var b := dec(x);
    XorTwice(s.a, t);
    Patched(s.r, i, b[8..]);
    assert b == b[..8] + b[8..];
    assert x[..8] == Xor(s.a, t) && x[8..] == s.r[8 * i - 8..8 * i];
  }

  lemma {:induction false} RoundInverts(enc: Block -> Block, dec: Block -> Block, count: nat -> Half, n: nat, s: State,
                                        j: nat, i: nat)
    requires Inverse(enc, dec) && i <= n && |s.r| == 8 * n
    ensures UnwrapRound(dec, count, n, WrapRound(enc, count, n, s, j, i), j, i) == s
    ensures WrapRound(enc, count, n, UnwrapRound(dec, count, n, s, j, i), j, i) == s
    decreases i
  {
    hide WrapStep, UnwrapStep;
    if i > 0 {
      var t := count(StepNumber(n, j, i));
      StepInverts(enc, dec, t, WrapRound(enc, count, n, s, j, i - 1), i);
      RoundInverts(enc, dec, count, n, s, j, i - 1);
      StepInverted(enc, dec, t, s, i);
      RoundInverts(enc, dec, count, n, UnwrapStep(dec, t, s, i), j, i - 1);
    }
  }

  lemma {:induction false} RoundsInvert(enc: Block -> Block, dec: Block -> Block, count: nat -> Half, n: nat, s: State,
                                        j: nat)
    requires Inverse(enc, dec) && |s.r| == 8 * n
    ensures UnwrapRounds(dec, count, n, WrapRounds(enc, count, n, s, j), j) == s
    ensures WrapRounds(enc, count, n, UnwrapRounds(dec, count, n, s, j), j) == s
    decreases j
  {
    hide WrapRound, UnwrapRound;
    if j > 0 {
      RoundInverts(enc, dec, count, n, WrapRounds(enc, count, n, s, j - 1), j - 1, n);
      RoundsInvert(enc, dec, count, n, s, j - 1);
      RoundInverts(enc, dec, count, n, s, j - 1, n);
      RoundsInvert(enc, dec, count, n, UnwrapRound(dec, count, n, s, j - 1, n), j - 1);
    }
  }

  /** With the same step numbers, unwrapping ends with the initial value exactly for the cipher
      texts that wrapping produces, and then yields the wrapped key. */
  lemma UnwrapInverts(enc: Block -> Block, dec: Block -> Block, count: nat -> Half, n: nat, cipher: seq<bv8>, key: seq<bv8>)
    requires Inverse(enc, dec) && |cipher| == 8 * n + 8 && |key| == 8 * n
    ensures Unwrapped(dec, count, n, cipher) == State(InitialValue(), key) <==> cipher == Wrap(enc, count, n, key)
  {
    hide WrapRounds, UnwrapRounds;
    var s := State(InitialValue(), key);
    RoundsInvert(enc, dec, count, n, s, 6);
    RoundsInvert(enc, dec, count, n, Split(cipher), 6);
    var w := WrapRounds(enc, count, n, s, 6);
    assert (w.a + w.r)[..8] == w.a && (w.a + w.r)[8..] == w.r;
    assert cipher == cipher[..8] + cipher[8..];
  }

  // ----- which keys the code unwraps -----

  lemma {:induction false} HighByteIsZero(t: nat, k: nat)
    requires t < 0x100 && k > 0
    ensures ByteOf(t, k) == 0
    decreases k
  {
    assert t / 0x100 == 0;
    if k > 1 {
      HighByteIsZero(0, k - 1);
    }
  }

  lemma SmallCounters(t: nat)
    requires t < 0x100
    ensures Counter(t) == LowCounter(t)
  {
    forall i | 0 <= i < 7 ensures Counter(t)[i] == 0 {
      HighByteIsZero(t, 7 - i);
      ZeroBits(t, 7 - i);
    }
  }

  lemma ZeroBits(t: nat, k: nat)
    requires ByteOf(t, k) == 0
    ensures BitsOf(t, k) == 0
  {
  }

  lemma SmallNumbers(n: nat, j: nat, i: nat)
    requires i <= n <= 42 && j < 6
    ensures StepNumber(n, j, i) < 0x100
  {
    assert n * j <= 42 * 5;
  }

  lemma {:induction false} RoundsAgree(dec: Block -> Block, n: nat, s: State, j: nat, i: nat)
    requires n <= 42 && j < 6 && i <= n && |s.r| == 8 * n
    ensures UnwrapRound(dec, Counter, n, s, j, i) == UnwrapRound(dec, LowCounter, n, s, j, i)
    decreases i
  {
    hide UnwrapStep, Counter, LowCounter, StepNumber;
    if i > 0 {
      SmallNumbers(n, j, i);
      SmallCounters(StepNumber(n, j, i));
      RoundsAgree(dec, n, UnwrapStep(dec, Counter(StepNumber(n, j, i)), s, i), j, i - 1);
    }
  }

  lemma {:induction false} CountersAgree(dec: Block -> Block, n: nat, s: State, j: nat)
    requires n <= 42 && j <= 6 && |s.r| == 8 * n
    ensures UnwrapRounds(dec, Counter, n, s, j) == UnwrapRounds(dec, LowCounter, n, s, j)
    decreases j
  {
    if j > 0 {
      RoundsAgree(dec, n, s, j - 1, n);
      CountersAgree(dec, n, UnwrapRound(dec, Counter, n, s, j - 1, n), j - 1);
    }
  }

  /** What the code returns on a cipher text: 0 and the plain text, or -1. */
  predicate Succeeds(dec: Block -> Block, n: nat, cipher: seq<bv8>)
    requires |cipher| == 8 * n + 8
  {
    Unwrapped(dec, LowCounter, n, cipher).a == InitialValue()
  }

  /** For keys of up to 42 blocks the code succeeds exactly on the wraps that the standard
      defines, and returns the wrapped key. */
  lemma UnwrapsStandard(enc: Block -> Block, dec: Block -> Block, n: nat, cipher: seq<bv8>)
    requires Inverse(enc, dec) && n <= 42 && |cipher| == 8 * n + 8
    ensures var out := Unwrapped(dec, LowCounter, n, cipher);
      && (Succeeds(dec, n, cipher) ==> cipher == Wrap(enc, Counter, n, out.r))
      && forall key :: |key| == 8 * n && cipher == Wrap(enc, Counter, n, key) ==> Succeeds(dec, n, cipher) && out.r == key
  {
    var out := Unwrapped(dec, LowCounter, n, cipher);
    hide UnwrapRounds, WrapRounds, Counter, LowCounter;
    CountersAgree(dec, n, Split(cipher), 6);
    if out.a == InitialValue() {
      assert out == State(InitialValue(), out.r);
      UnwrapInverts(enc, dec, Counter, n, cipher, out.r);
    }
    forall key | |key| == 8 * n && cipher == Wrap(enc, Counter, n, key) ensures out == State(InitialValue(), key) {
      UnwrapInverts(enc, dec, Counter, n, cipher, key);
    }
  }

  // ----- longer keys -----

  /** The XOR of byte k of the numbers 1 to m. */
  function Folded(m: nat, k: nat): bv8
    decreases m
  {
    if m == 0 then 0 else Folded(m - 1, k) ^ BitsOf(m, k)
  }

  lemma XorZero(x: bv8, y: bv8)
    ensures x ^ 0 == x && 0 ^ x == x && x ^ x == 0
    ensures (x ^ y) ^ y == x
  {
  }

  lemma PairSameHigh(m: nat, k: nat)
    requires k > 0
    ensures ByteOf(2 * m, k) == ByteOf(2 * m + 1, k)
  {
    assert 2 * m / 0x100 == (2 * m + 1) / 0x100;
  }

  /** Above the lowest byte, numbers cancel in pairs: up to an even m only m is left. */
  lemma {:induction false} FoldedPairs(m: nat, k: nat)
    requires k > 0
    ensures Folded(2 * m, k) == BitsOf(2 * m, k)
    ensures Folded(2 * m + 1, k) == 0
    decreases m
  {
    if m == 0 {
      HighByteIsZero(0, k);
      ZeroBits(0, k);
    } else {
      FoldedPairs(m - 1, k);
      XorZero(BitsOf(2 * m, k), 0);
    }
    PairSameHigh(m, k);
    assert BitsOf(2 * m + 1, k) == BitsOf(2 * m, k);
    XorZero(BitsOf(2 * m, k), 0);
  }

  lemma XorAssociates(x: bv8, y: bv8, z: bv8)
    ensures (x ^ y) ^ z == x ^ (y ^ z)
  {
  }

  function Same(): Block -> Block {
    b => b
  }

  /** A after steps up to t, when the permutation is the identity. */
  predicate Folds(base: Half, a: Half, t: nat) {
    forall i :: 0 <= i < 8 ==> a[i] == base[i] ^ Folded(t, 7 - i)
  }

  lemma FoldMore(base: Half, a: Half, t: nat)
    requires Folds(base, a, t)
    ensures Folds(base, Xor(a, Counter(t + 1)), t + 1)
  {
    hide BitsOf;
    forall m | 0 <= m < 8 ensures Xor(a, Counter(t + 1))[m] == base[m] ^ Folded(t + 1, 7 - m) {
      assert a[m] == base[m] ^ Folded(t, 7 - m);
      XorAssociates(base[m], Folded(t, 7 - m), BitsOf(t + 1, 7 - m));
    }
  }

  lemma SameStep(t: Half, s: State, i: nat)
    requires 1 <= i && 8 * i <= |s.r|
    ensures WrapStep(Same(), t, s, i) == State(Xor(s.a, t), s.r)
    ensures UnwrapStep(Same(), t, s, i) == State(Xor(s.a, t), s.r)
  {
    var b, c := s.a + s.r[8 * i - 8..8 * i], Xor(s.a, t) + s.r[8 * i - 8..8 * i];
    assert b[..8] == s.a && b[8..] == s.r[8 * i - 8..8 * i];
    assert c[..8] == Xor(s.a, t) && c[8..] == b[8..];
    assert s.r == s.r[..8 * i - 8] + s.r[8 * i - 8..8 * i] + s.r[8 * i..];
  }

  lemma {:induction false} SameRound(n: nat, base: Half, s: State, j: nat, i: nat)
    requires i <= n && |s.r| == 8 * n && Folds(base, s.a, StepNumber(n, j, 0))
    ensures var w := WrapRound(Same(), Counter, n, s, j, i); w.r == s.r && Folds(base, w.a, StepNumber(n, j, i))
    decreases i
  {
    hide WrapStep, StepNumber, Folds, Counter, Xor;
    if i > 0 {
      SameRound(n, base, s, j, i - 1);
      var w := WrapRound(Same(), Counter, n, s, j, i - 1);
      SameStep(Counter(StepNumber(n, j, i)), w, i);
      NextStep(n, j, i - 1);
      FoldMore(base, w.a, StepNumber(n, j, i - 1));
    }
  }

  function SameWrap(n: nat, key: seq<bv8>, j: nat): State
    requires |key| == 8 * n
  {
    WrapRounds(Same(), Counter, n, State(InitialValue(), key), j)
  }

  lemma {:induction false} SameRounds(n: nat, key: seq<bv8>, j: nat)
    requires |key| == 8 * n
    ensures SameWrap(n, key, j).r == key && Folds(InitialValue(), SameWrap(n, key, j).a, StepNumber(n, j, 0))
    decreases j
  {
    hide WrapRound, StepNumber, Counter;
    if j == 0 {
      NextStep(n, 0, 0);
      forall i | 0 <= i < 8 ensures InitialValue()[i] == InitialValue()[i] ^ Folded(0, 7 - i) {
        XorZero(InitialValue()[i], 0);
      }
    } else {
      hide Folds;
      SameRounds(n, key, j - 1);
      SameRound(n, InitialValue(), SameWrap(n, key, j - 1), j - 1, n);
      NextStep(n, j - 1, 0);
    }
  }

  /** Unwrapping as the code does it never changes the first seven bytes of A then. */
  lemma {:induction false} SameUnwrapRound(n: nat, s: State, j: nat, i: nat)
    requires i <= n && |s.r| == 8 * n
    ensures UnwrapRound(Same(), LowCounter, n, s, j, i).a[..7] == s.a[..7]
    decreases i
  {
    hide StepNumber, BitsOf;
    if i > 0 {
      var t := LowCounter(StepNumber(n, j, i));
      var u := UnwrapStep(Same(), t, s, i);
      SameStep(t, s, i);
      hide UnwrapStep;
      forall m | 0 <= m < 7 ensures u.a[m] == s.a[m] {
        XorZero(s.a[m], 0);
      }
      SameUnwrapRound(n, u, j, i - 1);
    }
  }

  lemma {:induction false} SameUnwrapRounds(n: nat, s: State, j: nat)
    requires |s.r| == 8 * n
    ensures UnwrapRounds(Same(), LowCounter, n, s, j).a[..7] == s.a[..7]
    decreases j
  {
    hide UnwrapRound, LowCounter, Same;
    if j > 0 {
      SameUnwrapRound(n, s, j - 1, n);
      SameUnwrapRounds(n, UnwrapRound(Same(), LowCounter, n, s, j - 1, n), j - 1);
    }
  }

  lemma NonzeroBits(b: nat)
    requires 0 < b < 0x100
    ensures ToBits(b) != 0
  {
  }

  lemma XorTells(x: bv8, y: bv8)
    requires y != 0
    ensures x ^ y != x
  {
  }

  /** A number of more than one byte has a nonzero byte above the lowest. */
  lemma HighByte(t: nat) returns (k: nat)
    requires 0x100 <= t < 0x1_0000_0000
    ensures 0 < k < 4 && ByteOf(t, k) != 0
  {
    var t1 := t / 0x100;
    var t2 := t1 / 0x100;
    var t3 := t2 / 0x100;
    assert ByteOf(t, 1) == ByteOf(t1, 0) && ByteOf(t, 2) == ByteOf(t1, 1) == ByteOf(t2, 0);
    assert ByteOf(t, 3) == ByteOf(t1, 2) == ByteOf(t2, 1) == ByteOf(t3, 0);
    k := if t1 % 0x100 != 0 then 1 else if t2 % 0x100 != 0 then 2 else 3;
  }

  /** With the identity for AES, the code fails on the wrap of every longer key. */
  lemma LongKeyFails(n: nat, key: seq<bv8>)
    requires 43 <= n && 6 * n < 0x8000_0000 && |key| == 8 * n
    ensures !Succeeds(Same(), n, Wrap(Same(), Counter, n, key))
  {
    hide WrapRounds, UnwrapRounds, Counter, LowCounter;
    SameRounds(n, key, 6);
    var w := SameWrap(n, key, 6);
    var cipher := Wrap(Same(), Counter, n, key);
    assert cipher[..8] == w.a && cipher[8..] == w.r;
    SameUnwrapRounds(n, Split(cipher), 6);
    var k := HighByte(6 * n);
    HighByteRemains(n, k);
    var out := Unwrapped(Same(), LowCounter, n, cipher);
    assert out.a[..7][7 - k] == w.a[..7][7 - k];
    XorTells(InitialValue()[7 - k], Folded(StepNumber(n, 6, 0), 7 - (7 - k)));
  }

  lemma HighByteRemains(n: nat, k: nat)
    requires k > 0 && ByteOf(6 * n, k) != 0
    ensures Folded(StepNumber(n, 6, 0), k) != 0
  {
    FoldedPairs(3 * n, k);
    assert 2 * (3 * n) == 6 * n == StepNumber(n, 6, 0);
    ByteIsSmall(6 * n, k);
    NonzeroBits(ByteOf(6 * n, k));
  }

  /** The code unwraps every wrap of every n-block key under every key-encryption key. */
  ghost predicate UnwrapsAll(n: nat) {
    forall enc: Block -> Block, dec: Block -> Block, key: seq<bv8> :: Inverse(enc, dec) && |key| == 8 * n ==>
      var cipher := Wrap(enc, Counter, n, key);
      Succeeds(dec, n, cipher) && Unwrapped(dec, LowCounter, n, cipher).r == key
  }

  /** It does exactly for keys of up to 42 blocks; the bound on n is the range of C's int. */
  lemma UnwrapsExact(n: nat)
    requires 6 * n < 0x8000_0000
    ensures UnwrapsAll(n) <==> n <= 42
  {
    hide Succeeds, Unwrapped, Wrap;
    if n <= 42 {
      forall enc: Block -> Block, dec: Block -> Block, key: seq<bv8> | Inverse(enc, dec) && |key| == 8 * n
        ensures Succeeds(dec, n, Wrap(enc, Counter, n, key))
        ensures Unwrapped(dec, LowCounter, n, Wrap(enc, Counter, n, key)).r == key
      {
        UnwrapsStandard(enc, dec, n, Wrap(enc, Counter, n, key));
      }
    } else {
      var key: seq<bv8> := seq(8 * n, _ => 0);
      LongKeyFails(n, key);
      assert Inverse(Same(), Same());
    }
  }

  // ----- the code -----

  /** aes_unwrap. The cipher for the key-encryption key, and whether its context could be
      allocated, are given. */
  method AesUnwrap(dec: Block -> Block, n: nat, cipher: seq<bv8>, plain: array<bv8>, outOfMemory: bool) returns (res: int)
    requires |cipher| == 8 * n + 8 && 8 * n <= plain.Length
    modifies plain
    ensures plain[8 * n..] == old(plain[8 * n..])
    ensures outOfMemory ==> res == -1 && plain[..8 * n] == cipher[8..]
    ensures !outOfMemory ==>
      && plain[..8 * n] == Unwrapped(dec, LowCounter, n, cipher).r
      && (res == if Succeeds(dec, n, cipher) then 0 else -1)
      && (n > 0 ==>
            var s := Shifted(dec, LowCounter, cipher[..8], cipher[8..], 6 * n);
            plain[..8 * n] == s.r && (res == 0 <==> s.a == InitialValue()))
  {
    hide UnwrapRound, LowCounter, Shifted;
    if n > 0 {
      UnwrapShifts(dec, LowCounter, n, cipher);
    }
    var a: Half := cipher[..8];
    forall k | 0 <= k < 8 * n {
      plain[k] := cipher[8 + k];
    }
    assert plain[..8 * n] == cipher[8..];
    if outOfMemory {
      return -1;
    }
    ghost var rest := plain[8 * n..];
    var j := 5;
    while j >= 0
      invariant -1 <= j <= 5 && plain[8 * n..] == rest
      invariant UnwrapRounds(dec, LowCounter, n, State(a, plain[..8 * n]), j + 1) == Unwrapped(dec, LowCounter, n, cipher)
    {
      a := UnwrapOnce(dec, n, j, plain, a);
      j := j - 1;
    }
    var i := 0;
    while i < 8
      invariant 0 <= i <= 8 && forall k :: 0 <= k < i ==> a[k] == 0xa6
    {
      if a[i] != 0xa6 {
        return -1;
      }
      i := i + 1;
    }
    assert a == InitialValue();
    return 0;
  }

  /** One round of the outer loop. */
  method UnwrapOnce(dec: Block -> Block, n: nat, j: nat, plain: array<bv8>, start: Half) returns (a: Half)
    requires 8 * n <= plain.Length
    modifies plain
    ensures plain[8 * n..] == old(plain[8 * n..])
    ensures State(a, plain[..8 * n]) == UnwrapRound(dec, LowCounter, n, State(start, old(plain[..8 * n])), j, n)
  {
    hide UnwrapStep, LowCounter;
    a := start;
    var r := (n - 1) * 8;
    ghost var rest, was := plain[8 * n..], plain[..8 * n];
    var i := n;
    while i >= 1
      invariant 0 <= i <= n && r == (i - 1) * 8 && plain[8 * n..] == rest
      invariant UnwrapRound(dec, LowCounter, n, State(a, plain[..8 * n]), j, i)
                == UnwrapRound(dec, LowCounter, n, State(start, was), j, n)
    {
      assert StepNumber(n, j, i) == n * j + i;
      a := UnwrapBlock(dec, n, n * j + i, i, plain, r, a);
      r := r - 8;
      i := i - 1;
    }
  }

  /** The body of the inner loop. */
  method UnwrapBlock(dec: Block -> Block, ghost n: nat, t: nat, ghost i: nat, plain: array<bv8>, r: nat, start: Half)
    returns (a: Half)
    requires 1 <= i <= n && r == (i - 1) * 8 && 8 * n <= plain.Length
    modifies plain
    ensures plain[8 * n..] == old(plain[8 * n..])
    ensures State(a, plain[..8 * n]) == UnwrapStep(dec, LowCounter(t), State(start, old(plain[..8 * n])), i)
  {
    hide BitsOf, Xor, LowCounter, UnwrapStep;
    ghost var s := State(start, plain[..8 * n]);
    PrefixSlice(plain[..], 8 * n, r, r + 8);
    var b := DecryptBlock(dec, t, plain, r, start);
    a := b[..8];
    StoreHalf(plain, r, b[8..], 8 * n);
    StepIs(dec, LowCounter(t), s, i, b);
  }

  /** A with the low byte of the step number, and the block at r, decrypted. */
  method DecryptBlock(dec: Block -> Block, t: nat, plain: array<bv8>, r: nat, start: Half) returns (b: Block)
    requires r + 8 <= plain.Length
    ensures b == dec(Xor(start, LowCounter(t)) + plain[r..r + 8])
  {
    hide BitsOf, Xor, LowCounter;
    LowXor(start, t);
    LowByte(t);
    b := start[7 := start[7] ^ (t % 0x100) as bv8] + plain[r..r + 8];
    b := dec(b);
  }

  method StoreHalf(plain: array<bv8>, r: nat, piece: Half, ghost m: nat)
    requires r + 8 <= m <= plain.Length
    modifies plain
    ensures plain[m..] == old(plain[m..])
    ensures plain[..m] == old(plain[..m])[..r] + piece + old(plain[..m])[r + 8..]
  {
    ghost var before := plain[..m];
    forall k | 0 <= k < 8 {
      plain[r + k] := piece[k];
    }
    assert forall k :: 0 <= k < m ==> plain[k] == if r <= k < r + 8 then piece[k - r] else before[k];
  }

  lemma StepIs(dec: Block -> Block, t: Half, s: State, i: nat, b: Block)
    requires 1 <= i && 8 * i <= |s.r| && b == dec(Xor(s.a, t) + s.r[8 * i - 8..8 * i])
    ensures UnwrapStep(dec, t, s, i) == State(b[..8], s.r[..8 * i - 8] + b[8..] + s.r[8 * i..])
  {
  }

  lemma LowByte(t: nat)
    ensures BitsOf(t, 0) == (t % 0x100) as bv8
  {
  }

  lemma PrefixSlice(s: seq<bv8>, m: nat, lo: nat, hi: nat)
    requires lo <= hi <= m <= |s|
    ensures s[..m][lo..hi] == s[lo..hi]
  {
  }

  /** Only the last byte of A is combined with the step number. */
  lemma LowXor(a: Half, t: nat)
    ensures a[7 := a[7] ^ BitsOf(t, 0)] == Xor(a, LowCounter(t))
  {
    hide BitsOf;
    var x, y := a[7 := a[7] ^ BitsOf(t, 0)], Xor(a, LowCounter(t));
    forall i | 0 <= i < 8 ensures x[i] == y[i] {
      XorZero(a[i], 0);
    }
  }
}
