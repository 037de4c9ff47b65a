/** Little-endian fields in byte buffers. */
module Bytes {
  import opened Arithmetic

  type Byte = n: nat | n < 256

  function Pow256(k: nat): (p: nat)
    ensures p > 0
  {
    if k == 0 then 1 else 256 * Pow256(k - 1)
  }

  /** The low k bytes of n, lowest first. */
  function LE(n: nat, k: nat): (b: seq<Byte>)
    ensures |b| == k
  {
    if k == 0 then [] else [n % 256] + LE(n / 256, k - 1)
  }

  function FromLE(b: seq<Byte>): nat {
    if b == [] then 0 else b[0] + 256 * FromLE(b[1..])
  }

  lemma {:induction false} FromLEofLE(n: nat, k: nat)
    requires n < Pow256(k)
    ensures FromLE(LE(n, k)) == n
    decreases k
  {
    if k > 0 {
      assert n / 256 < Pow256(k - 1);
      FromLEofLE(n / 256, k - 1);
      assert LE(n, k)[1..] == LE(n / 256, k - 1);
    }
  }

  /** Byte i is the one of weight 256^i: the lowest comes first. */
  lemma {:induction false} LowestFirst(n: nat, k: nat, i: nat)
    requires i < k
    ensures LE(n, k)[i] == n / Pow256(i) % 256
    decreases k
  {
    if i > 0 {
      LowestFirst(n / 256, k - 1, i - 1);
      DivDiv(n, 256, Pow256(i - 1));
    }
  }

  lemma DivDiv(n: nat, a: nat, b: nat)
    requires a > 0 && b > 0
    ensures a * b > 0 && n / a / b == n / (a * b)
  {
    var q, u, t := n / a / b, n / a % b, n % a;
    Scale(0, u, a);
    Scale(u, b - 1, a);
    Positive(a, b);
    Nested(q, b, u, a);
    DivModUnique(n, q, u * a + t, a * b);
  }

  lemma Positive(a: nat, b: nat)
    requires a > 0 && b > 0
    ensures a * b > 0
  {
  }

  lemma Nested(q: nat, b: nat, u: nat, a: nat)
    ensures (q * b + u) * a == q * (a * b) + u * a
    ensures (b - 1) * a == a * b - a
  {
  }

  lemma Pow256Values()
    ensures Pow256(1) == 0x100 && Pow256(2) == 0x1_0000 && Pow256(4) == 0x1_0000_0000
    ensures Pow256(8) == 0x1_0000_0000_0000_0000
  {
    assert Pow256(3) == 0x100_0000;
    assert Pow256(5) == 0x100_0000_0000 && Pow256(6) == 0x1_0000_0000_0000 && Pow256(7) == 0x100_0000_0000_0000;
  }

  function Zeros(k: nat): (b: seq<Byte>)
    ensures |b| == k
  {
    seq(k, _ => 0)
  }

  /** The bytes b lie in the buffer at offset at. */
  ghost predicate Lies(mem: seq<Byte>, at: nat, b: seq<Byte>) {
    at + |b| <= |mem| && mem[at..at + |b|] == b
  }

  lemma LiesConcat(mem: seq<Byte>, at: nat, a: seq<Byte>, b: seq<Byte>)
    ensures Lies(mem, at, a + b) <==> Lies(mem, at, a) && Lies(mem, at + |a|, b)
  {
    if at + |a| + |b| <= |mem| {
      assert mem[at..at + |a + b|] == mem[at..at + |a|] + mem[at + |a|..at + |a| + |b|];
      if mem[at..at + |a + b|] == a + b {
        assert mem[at..at + |a|] == mem[at..at + |a + b|][..|a|];
        assert mem[at + |a|..at + |a| + |b|] == mem[at..at + |a + b|][|a|..];
      }
    }
  }

  /** A field of k bytes at offset at. */
  function Read(mem: seq<Byte>, at: nat, k: nat): nat
    requires at + k <= |mem|
  {
    FromLE(mem[at..at + k])
  }

  lemma ReadField(mem: seq<Byte>, at: nat, n: nat, k: nat)
    requires Lies(mem, at, LE(n, k)) && n < Pow256(k)
    ensures Read(mem, at, k) == n
  {
    FromLEofLE(n, k);
  }

  /** What k bytes can say. */
  lemma {:induction false} ReadBound(b: seq<Byte>)
    ensures FromLE(b) < Pow256(|b|)
  {
    if b != [] { ReadBound(b[1..]); }
  }

  /** Copies b into the buffer right after what was written already. */
  method Put(a: array<Byte>, at: nat, b: seq<Byte>) returns (next: nat)
    requires at + |b| <= a.Length
    modifies a
    ensures next == at + |b| && a[..next] == old(a[..at]) + b
    ensures forall k | next <= k < a.Length :: a[k] == old(a[k])
  {
    for i := 0 to |b|
      invariant a[..at + i] == old(a[..at]) + b[..i]
      invariant forall k | at + i <= k < a.Length :: a[k] == old(a[k])
    {
      a[at + i] := b[i];
      assert b[..i + 1] == b[..i] + [b[i]];
    }
    assert b[..|b|] == b;
    next := at + |b|;
  }
}
