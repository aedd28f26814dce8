/** The buffered counter-mode generator. The block cipher is an arbitrary function
    from counter blocks to output blocks of the same size. */
module Keystream {

  newtype byte = b: int | 0 <= b < 256

  /** The little-endian number written by `c`. */
  function Value(c: seq<byte>): nat {
    if c == [] then 0 else c[0] as int + 256 * Value(c[1..])
  }

  function Pow256(n: nat): (p: nat)
    ensures p >= 1
  {
    if n == 0 then 1 else 256 * Pow256(n - 1)
  }

  function Next(b: byte): byte {
    if b == 255 then 0 else b + 1
  }

  /** Adds one with carry, the lowest byte first; a full counter wraps to zero. */
  function Increment(c: seq<byte>): (r: seq<byte>)
    ensures |r| == |c|
  {
    if c == [] then []
    else if Next(c[0]) != 0 then [Next(c[0])] + c[1..]
    else [0] + Increment(c[1..])
  }

  lemma {:induction false} ValueBound(c: seq<byte>)
    ensures Value(c) < Pow256(|c|)
  {
    if c != [] { ValueBound(c[1..]); }
  }

  /** The carry loop adds exactly one modulo 256^len. */
  lemma {:induction false} IncrementAddsOne(c: seq<byte>)
    ensures Value(Increment(c)) == if Value(c) + 1 == Pow256(|c|) then 0 else Value(c) + 1
  {
    if c != [] {
      IncrementAddsOne(c[1..]);
      ValueBound(c[1..]);
      assert Increment(c)[1..] == if Next(c[0]) != 0 then c[1..] else Increment(c[1..]);
    }
  }

  /** The counter after `k` refills. */
  function Counter(c: seq<byte>, k: nat): (r: seq<byte>)
    ensures |r| == |c|
    decreases k
  {
    if k == 0 then c else Counter(Increment(c), k - 1)
  }

  lemma {:induction false} CounterValue(c: seq<byte>, k: nat)
    ensures Value(Counter(c, k)) == (Value(c) + k) % Pow256(|c|)
    decreases k
  {
    var m := Pow256(|c|);
    ValueBound(c);
    if k == 0 {
      SmallMod(Value(c), m);
    } else {
      IncrementAddsOne(c);
      CounterValue(Increment(c), k - 1);
      if Value(c) + 1 == m { ModShift(k - 1, m); }
    }
  }

  lemma SmallMod(x: nat, m: nat)
    requires x < m
    ensures x % m == x
  {
  }

  lemma ModShift(x: int, m: nat)
    requires m > 0
    ensures (m + x) % m == x % m
  {
    var q, r := x / m, x % m;
    assert m + x == m * (q + 1) + r;
    DivUnique(m + x, m, q + 1, r);
  }

  lemma DivUnique(x: int, m: nat, q: int, r: nat)
    requires m > 0 && r < m && x == m * q + r
    ensures x % m == r
  {
    var d := x / m - q;
    assert m * (x / m) + x % m == x;
    assert m * d == r - x % m by { assert m * (x / m - q) == m * (x / m) - m * q; }
    Multiples(m, d);
  }

  lemma Multiples(m: nat, d: int)
    ensures d >= 1 ==> m * d >= m
    ensures d <= -1 ==> m * d <= 0 - m
    ensures d <= 0 ==> m * d <= 0
  {
  }

  lemma ModDistinct(x: int, y: int, m: nat)
    requires m > 0 && x < y < x + m
    ensures x % m != y % m
  {
    if x % m == y % m {
      var d := y / m - x / m;
      assert y - x == m * d by {
        assert m * (x / m) + x % m == x && m * (y / m) + y % m == y;
        assert m * (y / m - x / m) == m * (y / m) - m * (x / m);
      }
      Multiples(m, d);
    }
  }

  /** No counter block repeats within 256^len refills. */
  lemma NoRepeat(c: seq<byte>, i: nat, j: nat)
    requires i < j < i + Pow256(|c|)
    ensures Counter(c, i) != Counter(c, j)
  {
    CounterValue(c, i);
    CounterValue(c, j);
    ModDistinct(Value(c) + i, Value(c) + j, Pow256(|c|));
  }

  // -------------------------------------------------------------- the stream

  ghost predicate BlockCipher(E: seq<byte> -> seq<byte>, size: nat) {
    size >= 1 && forall c :: |c| == size ==> |E(c)| == size
  }

  /** The first `n` bytes of: `left`, then E(c), E(c + 1), E(c + 2), ... */
  ghost function Stream(E: seq<byte> -> seq<byte>, left: seq<byte>, c: seq<byte>, n: nat): (s: seq<byte>)
    requires BlockCipher(E, |c|)
    ensures |s| == n
    decreases n, |left| == 0
  {
    if n <= |left| then left[..n] else left + Stream(E, E(c), Increment(c), n - |left|)
  }

  ghost function Blocks(E: seq<byte> -> seq<byte>, c: seq<byte>, k: nat): (s: seq<byte>)
    requires BlockCipher(E, |c|)
    ensures |s| == k * |c|
    decreases k
  {
    if k == 0 then [] else
      assert |c| + (k - 1) * |c| == k * |c|;
      E(c) + Blocks(E, Increment(c), k - 1)
  }

  /** The stream is the leftover bytes and then whole cipher blocks in counter order. */
  lemma {:induction false} StreamIsBlocks(E: seq<byte> -> seq<byte>, left: seq<byte>, c: seq<byte>, k: nat)
    requires BlockCipher(E, |c|)
    ensures Stream(E, left, c, |left| + k * |c|) == left + Blocks(E, c, k)
    decreases k
  {
    if k == 0 {
      assert left[..|left|] == left + [];
    } else {
      var n := (k - 1) * |c|;
      assert k * |c| == |c| + n;
      StreamIsBlocks(E, E(c), Increment(c), k - 1);
    }
  }

  lemma {:induction false} BlockAt(E: seq<byte> -> seq<byte>, c: seq<byte>, k: nat, j: nat)
    requires BlockCipher(E, |c|) && j < k
    ensures 0 <= j * |c| <= j * |c| + |c| <= |Blocks(E, c, k)|
    ensures Blocks(E, c, k)[j * |c|..j * |c| + |c|] == E(Counter(c, j))
    decreases k
  {
    var s := Blocks(E, c, k);
    var t := Blocks(E, Increment(c), k - 1);
    assert s == E(c) + t;
    if j == 0 {
      assert s[0..|c|] == E(c);
    } else {
      BlockAt(E, Increment(c), k - 1, j - 1);
      var a := (j - 1) * |c|;
      assert j * |c| == |c| + a;
      assert s[|c| + a..|c| + a + |c|] == t[a..a + |c|];
    }
  }

  lemma {:induction false} StreamSplit(E: seq<byte> -> seq<byte>, left: seq<byte>, c: seq<byte>, k: nat, m: nat)
    requires BlockCipher(E, |c|) && k <= |left|
    ensures Stream(E, left, c, k + m) == left[..k] + Stream(E, left[k..], c, m)
  {
    if k + m <= |left| {
      assert left[..k + m] == left[..k] + left[k..][..m];
    } else {
      SplitBefore(left, k, Stream(E, E(c), Increment(c), k + m - |left|));
    }
  }

  lemma SplitBefore(left: seq<byte>, k: nat, s: seq<byte>)
    requires k <= |left|
    ensures left + s == left[..k] + (left[k..] + s)
  {
  }

  /** Delivering `out` moves the generator from (left, c) to (left', c'). */
  ghost predicate Delivers(E: seq<byte> -> seq<byte>, left: seq<byte>, c: seq<byte>, out: seq<byte>, left': seq<byte>, c': seq<byte>)
    requires BlockCipher(E, |c|) && |c'| == |c|
  {
    forall m: nat :: DeliversThen(E, left, c, out, left', c', m)
  }

  ghost predicate DeliversThen(E: seq<byte> -> seq<byte>, left: seq<byte>, c: seq<byte>, out: seq<byte>,
                               left': seq<byte>, c': seq<byte>, m: nat)
    requires BlockCipher(E, |c|) && |c'| == |c|
  {
    Stream(E, left, c, |out| + m) == out + Stream(E, left', c', m)
  }

  class CounterEncryptorRand {
    const cipher: seq<byte> -> seq<byte>
    const counter: array<byte>
    const rand: array<byte>
    var ix: nat

    ghost predicate Valid()
      reads this, counter, rand
    {
      counter != rand && rand.Length == counter.Length && BlockCipher(cipher, counter.Length) && ix <= rand.Length
    }

    ghost function Left(): seq<byte>
      requires ix <= rand.Length
      reads this, rand
    {
      rand[ix..]
    }

    constructor (cipher: seq<byte> -> seq<byte>, seed: seq<byte>)
      requires BlockCipher(cipher, |seed|)
      ensures Valid() && this.cipher == cipher && counter[..] == seed && Left() == []
      ensures fresh(counter) && fresh(rand)
    {
      var c := new byte[|seed|](i requires 0 <= i < |seed| => seed[i]);
      var r := new byte[|seed|](_ => 0);
      this.cipher, this.counter, this.rand, this.ix := cipher, c, r, |seed|;
    }

    /** Copies in place what the source's panic guards: a counter of the right size. */
    method Seed(b: seq<byte>)
      requires Valid() && |b| == counter.Length
      modifies counter
      ensures Valid() && counter[..] == b && Left() == old(Left())
    {
      forall i | 0 <= i < |b| {
        counter[i] := b[i];
      }
    }

    /** The carry loop. */
    method IncrementCounter()
      requires Valid()
      modifies counter
      ensures Valid() && counter[..] == Increment(old(counter[..]))
    {
      ghost var was := counter[..];
      var i := 0;
      while i < counter.Length
        invariant i <= counter.Length
        invariant forall k :: 0 <= k < i ==> was[k] == 255 && counter[k] == 0
        invariant forall k :: i <= k < counter.Length ==> counter[k] == was[k]
      {
        counter[i] := Next(counter[i]);
        if counter[i] != 0 {
          break;
        }
        i := i + 1;
      }
      IncrementShape(was, counter[..], i);
    }

    method Refill()
      requires Valid()
      modifies this`ix, counter, rand
      ensures Valid() && ix == 0
      ensures rand[..] == cipher(old(counter[..])) && counter[..] == Increment(old(counter[..]))
    {
      ghost var was := counter[..];
      var block := cipher(counter[..]);
      forall i | 0 <= i < |block| {
        rand[i] := block[i];
      }
      assert rand[..] == block && counter[..] == was;
      IncrementCounter();
      assert rand[..] == block;
      ix := 0;
    }

    /** Whatever the size of the destination, the stream goes on where it stopped. */
    method Read(b: array<byte>) returns (n: nat)
      requires Valid() && b != counter && b != rand
      modifies this`ix, counter, rand, b
      ensures Valid()
      ensures n <= b.Length && (b.Length > 0 ==> n > 0) && b[n..] == old(b[n..])
      ensures n < b.Length ==> Left() == []
      ensures Delivers(cipher, old(Left()), old(counter[..]), b[..n], Left(), counter[..])
    {
      ghost var left, c := Left(), counter[..];
      if ix == rand.Length {
        Refill();
        assert left == [] && Left() == rand[..];
      }
      n := rand.Length - ix;
      if n > b.Length {
        n := b.Length;
      }
      ghost var left1, c1 := Left(), counter[..];
      forall i | 0 <= i < n {
        b[i] := rand[ix + i];
      }
      ix := ix + n;
      assert b[..n] == left1[..n] && Left() == left1[n..] && counter[..] == c1;
      Served(cipher, left, c, left1, c1, n);
    }
  }

  lemma {:induction false} IncrementShape(was: seq<byte>, now: seq<byte>, i: nat)
    requires |was| == |now| && i <= |was|
    requires forall k :: 0 <= k < i ==> was[k] == 255 && now[k] == 0
    requires i < |was| ==> now[i] == Next(was[i]) != 0
    requires forall k :: i < k < |was| ==> now[k] == was[k]
    ensures now == Increment(was)
    decreases i
  {
    if i > 0 {
      IncrementShape(was[1..], now[1..], i - 1);
      assert now == [now[0]] + now[1..];
    } else if was != [] {
      assert now == [now[0]] + was[1..];
    }
  }

  lemma Served(E: seq<byte> -> seq<byte>, left: seq<byte>, c: seq<byte>, left1: seq<byte>, c1: seq<byte>, n: nat)
    requires BlockCipher(E, |c|) && |c1| == |c| && n <= |left1|
    requires (left1 == left && c1 == c) || (left == [] && left1 == E(c) && c1 == Increment(c))
    ensures Delivers(E, left, c, left1[..n], left1[n..], c1)
  {
    forall m: nat
      ensures DeliversThen(E, left, c, left1[..n], left1[n..], c1, m)
    {
      ServedThen(E, left, c, left1, c1, left1[..n], n, m);
    }
  }

  lemma ServedThen(E: seq<byte> -> seq<byte>, left: seq<byte>, c: seq<byte>, left1: seq<byte>, c1: seq<byte>, out: seq<byte>,
                   n: nat, m: nat)
    requires BlockCipher(E, |c|) && |c1| == |c| && n <= |left1| && out == left1[..n] && |out| == n
    requires (left1 == left && c1 == c) || (left == [] && left1 == E(c) && c1 == Increment(c))
    ensures DeliversThen(E, left, c, out, left1[n..], c1, m)
  {
    ServedOnce(E, left, c, left1, c1, n, m);
  }

  lemma ServedOnce(E: seq<byte> -> seq<byte>, left: seq<byte>, c: seq<byte>, left1: seq<byte>, c1: seq<byte>, n: nat, m: nat)
    requires BlockCipher(E, |c|) && |c1| == |c| && n <= |left1|
    requires (left1 == left && c1 == c) || (left == [] && left1 == E(c) && c1 == Increment(c))
    ensures Stream(E, left, c, n + m) == left1[..n] + Stream(E, left1[n..], c1, m)
  {
    StreamAfterRefill(E, left, c, left1, c1, n + m);
    StreamSplit(E, left1, c1, n, m);
  }

  lemma StreamAfterRefill(E: seq<byte> -> seq<byte>, left: seq<byte>, c: seq<byte>, left1: seq<byte>, c1: seq<byte>, n: nat)
    requires BlockCipher(E, |c|) && |c1| == |c|
    requires (left1 == left && c1 == c) || (left == [] && left1 == E(c) && c1 == Increment(c))
    ensures Stream(E, left, c, n) == Stream(E, left1, c1, n)
  {
  }

  lemma DeliversJoin(E: seq<byte> -> seq<byte>, l0: seq<byte>, c0: seq<byte>, a: seq<byte>, l1: seq<byte>, c1: seq<byte>,
                     b: seq<byte>, l2: seq<byte>, c2: seq<byte>)
    requires BlockCipher(E, |c0|) && |c0| == |c1| == |c2|
    requires Delivers(E, l0, c0, a, l1, c1) && Delivers(E, l1, c1, b, l2, c2)
    ensures Delivers(E, l0, c0, a + b, l2, c2)
  {
    forall m: nat
      ensures DeliversThen(E, l0, c0, a + b, l2, c2, m)
    {
      assert DeliversThen(E, l0, c0, a, l1, c1, |b| + m) && DeliversThen(E, l1, c1, b, l2, c2, m);
      assert a + (b + Stream(E, l2, c2, m)) == a + b + Stream(E, l2, c2, m);
    }
  }

  /** The reads that ask for at least one byte. */
  function Demands(sizes: seq<nat>): nat {
    if sizes == [] then 0 else Demands(sizes[..|sizes| - 1]) + if sizes[|sizes| - 1] > 0 then 1 else 0
  }

  /** The bytes that are asked for in all. */
  function Demanded(sizes: seq<nat>): nat {
    if sizes == [] then 0 else Demanded(sizes[..|sizes| - 1]) + sizes[|sizes| - 1]
  }

  /** Any sequence of reads, of any sizes: the output is a prefix of the stream and so
      depends on its own length only, not on how the reads were split; every read that
      asks for bytes gets some. */
  method ReadAll(g: CounterEncryptorRand, sizes: seq<nat>) returns (out: seq<byte>)
    requires g.Valid()
    modifies g`ix, g.counter, g.rand
    ensures g.Valid() && Demands(sizes) <= |out| <= Demanded(sizes)
    ensures Delivers(g.cipher, old(g.Left()), old(g.counter[..]), out, g.Left(), g.counter[..])
    ensures out == Stream(g.cipher, old(g.Left()), old(g.counter[..]), |out|)
  {
    out := [];
    ghost var left, c := g.Left(), g.counter[..];
    for k := 0 to |sizes|
      invariant g.Valid() && Demands(sizes[..k]) <= |out| <= Demanded(sizes[..k])
      invariant Delivers(g.cipher, left, c, out, g.Left(), g.counter[..])
    {
      ghost var left1, c1 := g.Left(), g.counter[..];
      var b := new byte[sizes[k]];
      var n := g.Read(b);
      DeliversJoin(g.cipher, left, c, out, left1, c1, b[..n], g.Left(), g.counter[..]);
      out := out + b[..n];
      assert sizes[..k + 1][..k] == sizes[..k];
    }
    assert sizes[..|sizes|] == sizes;
    assert DeliversThen(g.cipher, left, c, out, g.Left(), g.counter[..], 0);
  }

  /** After seeding, the leftover bytes come first and then E(b), E(b + 1), ... */
  method ReadAfterSeed(g: CounterEncryptorRand, b: seq<byte>, sizes: seq<nat>) returns (out: seq<byte>)
    requires g.Valid() && |b| == g.counter.Length
    modifies g`ix, g.counter, g.rand
    ensures g.Valid() && out == Stream(g.cipher, old(g.Left()), b, |out|)
    ensures Demands(sizes) <= |out| <= Demanded(sizes)
  {
    g.Seed(b);
    out := ReadAll(g, sizes);
  }
}
