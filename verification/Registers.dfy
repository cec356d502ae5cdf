/** Facts about iterating and folding that hold for any type: the algebra behind a shift-register checksum. */
module Registers {
  import opened Bytes

  function Iterate<T>(f: T -> T, x: T, n: nat): T
    decreases n
  {
    if n == 0 then x else Iterate(f, f(x), n - 1)
  }

  function Fold<T>(g: (T, byte) -> T, x: T, s: seq<byte>): T
    decreases |s|
  {
    if s == [] then x else Fold(g, g(x, s[0]), s[1..])
  }

  lemma {:induction false} FoldAppend<T>(g: (T, byte) -> T, x: T, s: seq<byte>, t: seq<byte>)
    ensures Fold(g, x, s + t) == Fold(g, Fold(g, x, s), t)
    decreases |s|
  {
    if s == [] {
      assert s + t == t;
    } else {
      assert (s + t)[1..] == s[1..] + t;
      FoldAppend(g, g(x, s[0]), s[1..], t);
    }
  }

  lemma {:induction false} IterateLast<T>(f: T -> T, x: T, n: nat)
    requires n > 0
    ensures Iterate(f, x, n) == f(Iterate(f, x, n - 1))
    decreases n
  {
    if n == 1 {
    } else {
      IterateLast(f, f(x), n - 1);
    }
  }

  ghost predicate Alike<T(!new)>(f: T -> T, g: T -> T) {
    forall a :: f(a) == g(a)
  }

  lemma {:induction false} IterateSame<T(!new)>(f: T -> T, g: T -> T, x: T, n: nat)
    requires Alike(f, g)
    ensures Iterate(f, x, n) == Iterate(g, x, n)
    decreases n
  {
    if n == 0 {
    } else {
      IterateSame(f, g, f(x), n - 1);
    }
  }

  lemma IterateEight<T>(f: T -> T, x: T)
    ensures Iterate(f, x, 8) == f(f(f(f(f(f(f(f(x))))))))
  {
    assert Iterate(f, f(f(f(f(x)))), 4) == f(f(f(f(f(f(f(f(x))))))));
  }

  /** Moves that are undone one by one, as long as there is room for them, are undone together. */
  lemma {:induction false} IterateUndo<T(!new)>(f: T -> T, g: T -> T, room: (T, nat) -> bool, x: T, n: nat)
    requires forall z, k: nat | k > 0 && room(z, k) :: f(g(z)) == z && room(g(z), k - 1)
    requires room(x, n)
    ensures Iterate(f, Iterate(g, x, n), n) == x
    decreases n
  {
    if n == 0 {
    } else {
      IterateUndo(f, g, room, g(x), n - 1);
      IterateLast(f, Iterate(g, x, n), n);
    }
  }

  ghost predicate Injective<T(!new)>(f: T -> T) {
    forall a, b :: f(a) == f(b) ==> a == b
  }

  lemma {:induction false} IterateInjective<T(!new)>(f: T -> T, a: T, b: T, n: nat)
    requires Injective(f) && Iterate(f, a, n) == Iterate(f, b, n)
    ensures a == b
    decreases n
  {
    if n == 0 {
    } else {
      IterateInjective(f, f(a), f(b), n - 1);
    }
  }

  lemma {:induction false} FoldInjective<T(!new)>(g: (T, byte) -> T, a: T, b: T, s: seq<byte>)
    requires forall d: byte, x, y :: g(x, d) == g(y, d) ==> x == y
    requires Fold(g, a, s) == Fold(g, b, s)
    ensures a == b
    decreases |s|
  {
    if s == [] {
    } else {
      FoldInjective(g, g(a, s[0]), g(b, s[0]), s[1..]);
    }
  }

  /** A map that respects an operation goes on respecting it when iterated. */
  lemma {:induction false} IterateRespects<T(!new)>(f: T -> T, op: (T, T) -> T, a: T, b: T, n: nat)
    requires forall x, y :: f(op(x, y)) == op(f(x), f(y))
    ensures Iterate(f, op(a, b), n) == op(Iterate(f, a, n), Iterate(f, b, n))
    decreases n
  {
    if n == 0 {
    } else {
      IterateRespects(f, op, f(a), f(b), n - 1);
    }
  }

  /** A register: how a byte is widened, added in, moved up by a byte and shifted through, and how the register is
      complemented before and after a message. */
  datatype Register<!T> = Register(xor: (T, T) -> T, zero: T, word: byte -> T, up: T -> T, octet: T -> T,
      flip: T -> T) {

    function Feed(x: T, d: byte): T {
      octet(xor(x, word(d)))
    }

    /** The bytes of m as one word, the first lowest. */
    function Pack(m: seq<byte>): T
      decreases |m|
    {
      if m == [] then zero else xor(word(m[0]), up(Pack(m[1..])))
    }

    function Checksum(x: T, s: seq<byte>): T {
      flip(Fold(Feed, flip(x), s))
    }
  }

  ghost predicate Linear<T(!new)>(r: Register<T>) {
    forall a, b, c :: r.octet(r.xor(a, r.xor(b, c))) == r.xor(r.octet(r.xor(a, b)), r.octet(c))
  }

  ghost predicate ZeroNeutral<T(!new)>(r: Register<T>) {
    forall a :: r.xor(a, r.zero) == a
  }

  ghost predicate Cancels<T(!new)>(r: Register<T>) {
    forall a, b, c :: (r.xor(c, a) == r.xor(c, b) ==> a == b) && (r.xor(a, c) == r.xor(b, c) ==> a == b)
  }

  /** Up to three packed bytes moved up come down again unchanged. */
  ghost predicate Slides<T>(r: Register<T>) {
    forall m: seq<byte> | |m| <= 3 :: r.octet(r.up(r.Pack(m))) == r.Pack(m)
  }

  /** A packed word of up to four bytes gives back the lowest one and the rest. */
  ghost predicate Unpacks<T>(r: Register<T>) {
    forall m: seq<byte>, m': seq<byte> | 1 <= |m| == |m'| <= 4 && r.Pack(m) == r.Pack(m') ::
      m[0] == m'[0] && r.Pack(m[1..]) == r.Pack(m'[1..])
  }

  ghost predicate SelfInverse<T(!new)>(f: T -> T) {
    forall a :: f(f(a)) == a
  }

  ghost predicate Lawful<T(!new)>(r: Register<T>) {
    && Linear(r) && Injective(r.octet) && ZeroNeutral(r) && Cancels(r)
    && Slides(r) && Unpacks(r) && SelfInverse(r.flip)
  }

  lemma PackedInstances<T(!new)>(r: Register<T>, x: T, w: T, m: seq<byte>)
    requires Linear(r) && Slides(r) && |m| <= 3
    ensures r.octet(r.xor(x, r.xor(w, r.up(r.Pack(m))))) == r.xor(r.octet(r.xor(x, w)), r.Pack(m))
  {
    assert r.octet(r.up(r.Pack(m))) == r.Pack(m);
  }

  /** Up to four bytes go through the register as if they had been put in at once. */
  lemma {:induction false} FeedPacked<T(!new)>(r: Register<T>, x: T, m: seq<byte>)
    requires Linear(r) && Slides(r) && ZeroNeutral(r) && |m| <= 4
    ensures Fold(r.Feed, x, m) == Iterate(r.octet, r.xor(x, r.Pack(m)), |m|)
    decreases |m|
  {
    if m == [] {
      assert r.xor(x, r.zero) == x;
    } else {
      PackedInstances(r, x, r.word(m[0]), m[1..]);
      FeedPacked(r, r.Feed(x, m[0]), m[1..]);
      OneMore(r, x, m);
    }
  }

  lemma OneMore<T>(r: Register<T>, x: T, m: seq<byte>)
    requires m != []
    requires r.octet(r.xor(x, r.Pack(m))) == r.xor(r.Feed(x, m[0]), r.Pack(m[1..]))
    requires Fold(r.Feed, r.Feed(x, m[0]), m[1..]) ==
             Iterate(r.octet, r.xor(r.Feed(x, m[0]), r.Pack(m[1..])), |m| - 1)
    ensures Fold(r.Feed, x, m) == Iterate(r.octet, r.xor(x, r.Pack(m)), |m|)
  {
  }

  lemma {:induction false} PackInjective<T(!new)>(r: Register<T>, m: seq<byte>, m': seq<byte>)
    requires Unpacks(r) && |m| == |m'| <= 4 && r.Pack(m) == r.Pack(m')
    ensures m == m'
    decreases |m|
  {
    if m == [] {
    } else {
      PackInjective(r, m[1..], m'[1..]);
      assert m == [m[0]] + m[1..] && m' == [m'[0]] + m'[1..];
    }
  }

  lemma FeedInjective<T(!new)>(r: Register<T>, a: T, b: T, s: seq<byte>)
    requires Injective(r.octet) && Cancels(r) && Fold(r.Feed, a, s) == Fold(r.Feed, b, s)
    ensures a == b
  {
    forall d: byte, x, y | r.Feed(x, d) == r.Feed(y, d) ensures x == y {
      assert r.xor(x, r.word(d)) == r.xor(y, r.word(d));
    }
    FoldInjective(r.Feed, a, b, s);
  }

  lemma SameBlock<T(!new)>(r: Register<T>, c: T, m: seq<byte>, m': seq<byte>)
    requires Linear(r) && Slides(r) && ZeroNeutral(r) && Injective(r.octet)
    requires |m| == |m'| <= 4 && Fold(r.Feed, c, m) == Fold(r.Feed, c, m')
    ensures r.xor(c, r.Pack(m)) == r.xor(c, r.Pack(m'))
  {
    var n := |m|;
    FeedPacked(r, c, m);
    FeedPacked(r, c, m');
    SameIterates(r.octet, r.xor(c, r.Pack(m)), r.xor(c, r.Pack(m')), n, Fold(r.Feed, c, m));
  }

  lemma SameIterates<T(!new)>(f: T -> T, a: T, b: T, n: nat, x: T)
    requires Injective(f) && x == Iterate(f, a, n) && x == Iterate(f, b, n)
    ensures a == b
  {
    IterateInjective(f, a, b, n);
  }

  lemma BlockInjective<T(!new)>(r: Register<T>, c: T, m: seq<byte>, m': seq<byte>)
    requires Cancels(r) && Unpacks(r)
    requires |m| == |m'| <= 4 && r.xor(c, r.Pack(m)) == r.xor(c, r.Pack(m'))
    ensures m == m'
  {
    PackInjective(r, m, m');
  }

  /** Messages that differ only within four consecutive bytes leave the register in different states. */
  lemma BurstSeparates<T(!new)>(r: Register<T>, x: T, s: seq<byte>, m: seq<byte>, m': seq<byte>, t: seq<byte>)
    requires Lawful(r) && |m| == |m'| <= 4 && Fold(r.Feed, x, s + m + t) == Fold(r.Feed, x, s + m' + t)
    ensures m == m'
  {
    FoldThrough(r, x, s, m, t);
    FoldThrough(r, x, s, m', t);
    var c := Fold(r.Feed, x, s);
    FeedInjective(r, Fold(r.Feed, c, m), Fold(r.Feed, c, m'), t);
    SameBlock(r, c, m, m');
    BlockInjective(r, c, m, m');
  }

  lemma FoldThrough<T>(r: Register<T>, x: T, s: seq<byte>, m: seq<byte>, t: seq<byte>)
    ensures Fold(r.Feed, x, s + m + t) == Fold(r.Feed, Fold(r.Feed, Fold(r.Feed, x, s), m), t)
  {
    FoldAppend(r.Feed, x, s + m, t);
    FoldAppend(r.Feed, x, s, m);
  }

  /** A checksum can be carried on over the next piece of a message. */
  lemma ChecksumChain<T(!new)>(r: Register<T>, x: T, s: seq<byte>, t: seq<byte>)
    requires SelfInverse(r.flip)
    ensures r.Checksum(r.Checksum(x, s), t) == r.Checksum(x, s + t)
  {
    FoldAppend(r.Feed, r.flip(x), s, t);
  }

  lemma BurstDetected<T(!new)>(r: Register<T>, x: T, s: seq<byte>, m: seq<byte>, m': seq<byte>, t: seq<byte>)
    requires Lawful(r) && |m| == |m'| <= 4 && m != m'
    ensures r.Checksum(x, s + m + t) != r.Checksum(x, s + m' + t)
  {
    if r.Checksum(x, s + m + t) == r.Checksum(x, s + m' + t) {
      SameUnflipped(r, Fold(r.Feed, r.flip(x), s + m + t), Fold(r.Feed, r.flip(x), s + m' + t));
      BurstSeparates(r, r.flip(x), s, m, m', t);
    }
  }

  lemma FlippedTwice<T(!new)>(f: T -> T, a: T)
    requires SelfInverse(f)
    ensures f(f(a)) == a
  {
  }

  lemma SameUnflipped<T(!new)>(r: Register<T>, a: T, b: T)
    requires SelfInverse(r.flip) && r.flip(a) == r.flip(b)
    ensures a == b
  {
    FlippedTwice(r.flip, a);
    FlippedTwice(r.flip, b);
  }

  /** A byte can be fed by looking up what its low part shifts to and adding the rest of the register moved down. */
  lemma FeedByTable<T(!new)>(r: Register<T>, low: T -> T, high: T -> T, c: T, d: byte)
    requires forall a, b :: r.octet(r.xor(a, b)) == r.xor(r.octet(a), r.octet(b))
    requires forall x :: r.xor(low(x), r.up(high(x))) == x && r.octet(r.up(high(x))) == high(x)
    requires forall x, e: byte :: high(r.xor(x, r.word(e))) == high(x)
    ensures r.Feed(c, d) == r.xor(r.octet(low(r.xor(c, r.word(d)))), high(c))
  {
    var x := r.xor(c, r.word(d));
    assert r.octet(r.xor(low(x), r.up(high(x)))) == r.xor(r.octet(low(x)), r.octet(r.up(high(x))));
  }

  /** A message followed by bytes that bring the register to a known word ends in a known state. */
  lemma FoldToKnown<T(!new)>(r: Register<T>, x: T, s: seq<byte>, m: seq<byte>, known: T)
    requires Linear(r) && Slides(r) && ZeroNeutral(r) && |m| <= 4
    requires r.xor(Fold(r.Feed, x, s), r.Pack(m)) == known
    ensures Fold(r.Feed, x, s + m) == Iterate(r.octet, known, |m|)
  {
    FoldAppend(r.Feed, x, s, m);
    FeedPacked(r, Fold(r.Feed, x, s), m);
  }

  lemma ChecksumOfKnown<T(!new)>(r: Register<T>, x: T, s: seq<byte>, m: seq<byte>, known: T)
    requires Linear(r) && Slides(r) && ZeroNeutral(r) && |m| <= 4
    requires r.xor(Fold(r.Feed, r.flip(x), s), r.Pack(m)) == known
    ensures r.Checksum(x, s + m) == r.flip(Iterate(r.octet, known, |m|))
  {
    FoldToKnown(r, r.flip(x), s, m, known);
  }

  /** The value of a word whose digits are split off one by one, four of them taken together. */
  lemma FourSteps<T(!new)>(f: T -> nat, d: T -> nat, h: T -> T, x: T)
    requires forall y :: f(y) == d(y) + 2 * f(h(y))
    ensures f(x) == d(x) + 2 * d(h(x)) + 4 * d(h(h(x))) + 8 * d(h(h(h(x)))) + 16 * f(h(h(h(h(x)))))
  {
  }
}
