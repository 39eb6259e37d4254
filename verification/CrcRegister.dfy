// A CRC register read as 32 bits, top bit first, for any generator polynomial with a
// constant term (its low bit set): the algebra behind burst detection.
module CrcRegister {
  import opened Bytes

  type Register = r: seq<bool> | |r| == 32 witness seq(32, _ => false)
  type Generator = g: seq<bool> | |g| == 32 && g[31] witness seq(32, _ => true)

  /** One message bit: shift left, and add the generator when the lost bit differs. */
  function Shifted(g: Generator, r: Register, bit: bool): Register {
    seq(32, i requires 0 <= i < 32 => (i < 31 && r[i + 1]) != (r[0] != bit && g[i]))
  }

  function Run(g: Generator, r: Register, bits: seq<bool>): Register
    decreases |bits|
  {
    if bits == [] then r else Shifted(g, Run(g, r, bits[..|bits| - 1]), bits[|bits| - 1])
  }

  /** The two registers agree on their n low bits. */
  predicate Agree(x: Register, y: Register, n: nat)
    requires n <= 32
  {
    forall i :: 32 - n <= i < 32 ==> x[i] == y[i]
  }

  /** Read backwards: registers that agree on n > 0 low bits after a step added the
      polynomial alike, and agreed on n - 1 low bits before it. */
  lemma StepBack(g: Generator, x: Register, y: Register, p: bool, q: bool, n: nat)
    requires 0 < n <= 32 && Agree(Shifted(g, x, p), Shifted(g, y, q), n)
    ensures (x[0] != p) == (y[0] != q)
    ensures Agree(x, y, n - 1)
  {
    assert Shifted(g, x, p)[31] == Shifted(g, y, q)[31];
    forall i | 33 - n <= i < 32 ensures x[i] == y[i] {
      assert Shifted(g, x, p)[i - 1] == Shifted(g, y, q)[i - 1];
    }
  }

  /** Each message bit permutes the registers. */
  lemma {:induction false} RunInjective(g: Generator, x: Register, y: Register, bits: seq<bool>)
    requires Run(g, x, bits) == Run(g, y, bits)
    ensures x == y
    decreases |bits|
  {
    if bits != [] {
      var n := |bits| - 1;
      var x', y' := Run(g, x, bits[..n]), Run(g, y, bits[..n]);
      StepBack(g, x', y', bits[n], bits[n], 32);
      assert x' == y';
      RunInjective(g, x, y, bits[..n]);
    }
  }

  /** Messages of n <= 32 bits that lead from one register to registers agreeing on their
      n low bits are equal. */
  lemma {:induction false} WindowTold(g: Generator, r: Register, a: seq<bool>, b: seq<bool>)
    requires |a| == |b| <= 32
    requires Agree(Run(g, r, a), Run(g, r, b), |a|)
    ensures a == b
    decreases |a|
  {
    if a != [] {
      var n := |a| - 1;
      StepBack(g, Run(g, r, a[..n]), Run(g, r, b[..n]), a[n], b[n], |a|);
      WindowTold(g, r, a[..n], b[..n]);
      assert a == a[..n] + [a[n]] && b == b[..n] + [b[n]];
    }
  }

  lemma {:induction false} RunConcat(g: Generator, r: Register, a: seq<bool>, b: seq<bool>)
    ensures Run(g, r, a + b) == Run(g, Run(g, r, a), b)
    decreases |b|
  {
    if b == [] {
      assert a + b == a;
    } else {
      RunConcat(g, r, a, b[..|b| - 1]);
      assert (a + b)[..|a + b| - 1] == a + b[..|b| - 1];
    }
  }

  lemma RunInThree(g: Generator, r: Register, a: seq<bool>, i: nat, j: nat)
    requires i <= j <= |a|
    ensures Run(g, r, a) == Run(g, Run(g, Run(g, r, a[..i]), a[i..j]), a[j..])
  {
    assert a == a[..j] + a[j..];
    assert a[..j] == a[..i] + a[i..j];
    RunConcat(g, r, a[..j], a[j..]);
    RunConcat(g, r, a[..i], a[i..j]);
  }

  lemma SameTail(a: seq<bool>, b: seq<bool>, z: nat)
    requires |a| == |b| && z <= |a| && forall i :: z <= i < |a| ==> a[i] == b[i]
    ensures a[z..] == b[z..]
  {
  }

  /** Messages that differ only inside one window of 32 consecutive bits leave different
      registers. */
  lemma BurstChangesRegister(g: Generator, r: Register, a: seq<bool>, b: seq<bool>, w: nat)
    requires |a| == |b| && a != b
    requires forall i :: 0 <= i < |a| && a[i] != b[i] ==> w <= i < w + 32
    ensures Run(g, r, a) != Run(g, r, b)
  {
    var k :| 0 <= k < |a| && a[k] != b[k];
    var z := Min(w + 32, |a|);
    assert a[w..z][k - w] != b[w..z][k - w];
    assert a[..w] == b[..w];
    SameTail(a, b, z);
    RunInThree(g, r, a, w, z);
    RunInThree(g, r, b, w, z);
    if Run(g, r, a) == Run(g, r, b) {
      var start := Run(g, r, a[..w]);
      RunInjective(g, Run(g, start, a[w..z]), Run(g, start, b[w..z]), a[z..]);
      WindowTold(g, start, a[w..z], b[w..z]);
    }
  }
}
