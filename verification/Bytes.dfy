/** Bytes, little-endian fields and in-place patches of byte sequences. */
module Bytes {
  import opened Bits

  type byte = x: int | 0 <= x < 256

  /** 256 to the power n: the number of values an n-byte field can hold. */
  function Pow256(n: nat): (p: nat)
    ensures p > 0
  {
    if n == 0 then 1 else 256 * Pow256(n - 1)
  }

  /** The n-byte little-endian field holding x; higher bytes of x are cut off, as a C assignment does. */
  function LE(n: nat, x: nat): (s: seq<byte>)
    ensures |s| == n
  {
    if n == 0 then [] else [x % 256] + LE(n - 1, x / 256)
  }

  function FromLE(s: seq<byte>): nat {
    if s == [] then 0 else s[0] + 256 * FromLE(s[1..])
  }

  /** A field reads back as the value stored in it, cut to the width of the field. */
  lemma {:induction false} LERoundTrip(n: nat, x: nat)
    ensures FromLE(LE(n, x)) == x % Pow256(n)
    ensures x < Pow256(n) ==> FromLE(LE(n, x)) == x
  {
    if n == 0 {
    } else {
      var p := Pow256(n - 1);
      LERoundTrip(n - 1, x / 256);
      assert LE(n, x)[1..] == LE(n - 1, x / 256);
      assert FromLE(LE(n, x)) == x % 256 + 256 * ((x / 256) % p);
      ModSplit(x, p);
      if x < 256 * p {
        assert x / 256 < p;
      }
    }
  }

  /** The bytes of a field: the lowest comes first. */
  lemma {:induction false} LEByte(n: nat, x: nat, i: nat)
    requires i < n
    ensures LE(n, x)[i] == (x / Pow256(i)) % 256
  {
    if i > 0 {
      LEByte(n - 1, x / 256, i - 1);
      DivideTwice(x, 256, Pow256(i - 1));
    }
  }

  lemma DivideTwice(x: nat, a: nat, b: nat)
    requires a > 0 && b > 0
    ensures x / a / b == x / (a * b)
  {
    var q, r, s := x / a / b, x / a % b, x % a;
    assert x == a * (x / a) + s;
    assert x / a == b * q + r;
    Regroup(a, b, q, r);
    MulMonotone(a, r + 1, b);
    ProductStep(a, r);
    MulMonotone(a, 0, r);
    DivModUnique(x, a * b, q, a * r + s);
  }

  lemma Regroup(a: int, b: int, q: int, r: int)
    ensures a * (b * q + r) == (a * b) * q + a * r
  {
  }

  lemma LowAndRest(d: byte, x: nat)
    ensures (d + 256 * x) % 256 == d && (d + 256 * x) / 256 == x
  {
  }

  /** And so they are read. */
  lemma {:induction false} FromLEByte(s: seq<byte>, i: nat)
    requires i < |s|
    ensures (FromLE(s) / Pow256(i)) % 256 == s[i]
  {
    var rest := FromLE(s[1..]);
    LowAndRest(s[0], rest);
    if i > 0 {
      FromLEByte(s[1..], i - 1);
      DivideTwice(FromLE(s), 256, Pow256(i - 1));
    }
  }

  lemma FromLECons(d: byte, s: seq<byte>)
    ensures FromLE([d] + s) == d + 256 * FromLE(s)
  {
    assert ([d] + s)[1..] == s;
  }

  /** The values the bytes of a field stand for. */
  lemma FieldValues(a: byte, b: byte, c: byte, d: byte)
    ensures FromLE([a, b]) == a + 256 * b
    ensures FromLE([a, b, c, d]) == a + 0x100 * b + 0x1_0000 * c + 0x100_0000 * d
  {
    FromLECons(a, [b]);
    FromLECons(b, []);
    FromLECons(a, [b, c, d]);
    FromLECons(b, [c, d]);
    FromLECons(c, [d]);
    FromLECons(d, []);
    assert [a] + [b] == [a, b] && [a] + [b, c, d] == [a, b, c, d] && [b] + [c, d] == [b, c, d] && [c] + [d] == [c, d];
    assert [b] + [] == [b] && [d] + [] == [d];
  }

  lemma ModSplit(x: nat, p: nat)
    requires p > 0
    ensures x % (256 * p) == x % 256 + 256 * ((x / 256) % p)
  {
    var q := x / 256;
    var r := x % 256 + 256 * (q % p);
    assert q == p * (q / p) + q % p;
    assert x == 256 * q + x % 256;
    assert 256 * (p * (q / p)) == (256 * p) * (q / p);
    assert x == (256 * p) * (q / p) + r;
    assert 0 <= r < 256 * p;
    DivModUnique(x, 256 * p, q / p, r);
  }

  function Zeros(n: nat): (s: seq<byte>)
    ensures |s| == n
  {
    seq(n, _ => 0)
  }

  /** s with the bytes from position off on replaced by d. */
  function Patch(s: seq<byte>, off: nat, d: seq<byte>): (r: seq<byte>)
    requires off + |d| <= |s|
    ensures |r| == |s|
  {
    s[..off] + d + s[off + |d|..]
  }

  /** d goes into the buffer at position at. */
  method StoreBytes(work: array<byte>, at: nat, d: seq<byte>)
    requires at + |d| <= work.Length
    modifies work
    ensures work[..] == Patch(old(work[..]), at, d)
  {
    forall i | 0 <= i < |d| {
      work[at + i] := d[i];
    }
    assert work[..] == Patch(old(work[..]), at, d);
  }
}
