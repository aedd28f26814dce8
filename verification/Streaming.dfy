/** When streaming find and replace means the same as replacing in the whole text:
    conditions on the pattern, the replacement and the buffer that suffice. */
module Streaming {
  import opened Literal
  import opened Window

  function LiteralRewrite(find: Bytes, repl: Bytes): Bytes -> Bytes
    requires find != []
  {
    w => ReplaceAll(find, repl, w)
  }

  /** This source is streamed without panicking and gives ReplaceAll of the whole. */
  ghost predicate Right(find: Bytes, repl: Bytes, B: nat, d: Bytes, eager: bool)
    requires find != [] && B >= 1
  {
    var L := LiteralRewrite(find, repl);
    Fits(L, B, d, eager) && Windows(L, B, d, eager) == ReplaceAll(find, repl, d)
  }

  /** So is every source, however it reports its end. */
  ghost predicate AlwaysRight(find: Bytes, repl: Bytes, B: nat)
    requires find != [] && B >= 1
  {
    forall d, eager :: Right(find, repl, B, d, eager)
  }

  // ------------------------------------------------- runs by an invariant

  /** Rewriting the window `w`, emitting the left half and carrying the right one
      leaves the meaning of the whole text alone, whatever follows. */
  ghost predicate Sound(find: Bytes, repl: Bytes, w: Bytes, t: Bytes)
    requires find != []
  {
    var o := ReplaceAll(find, repl, w);
    ReplaceAll(find, repl, w + t) == o[..|o| / 2] + ReplaceAll(find, repl, o[|o| / 2..] + t)
  }

  /** A later window is sound, loses nothing and leaves a carry like the one it had. */
  ghost predicate Turn(find: Bytes, repl: Bytes, inv: Bytes -> bool, w: Bytes, t: Bytes)
    requires find != []
  {
    var o := ReplaceAll(find, repl, w);
    Sound(find, repl, w, t) && |o| <= 2 * |w| + 1 && CarryOf(w, o) == o[|o| / 2..] && inv(o[|o| / 2..])
  }

  /** Every later window of every run turns over like that. */
  ghost predicate Turns(find: Bytes, repl: Bytes, B: nat, inv: Bytes -> bool)
    requires find != []
  {
    forall c, b, t :: inv(c) && |b| == B ==> Turn(find, repl, inv, c + b, t)
  }

  /** And the first window sets it going. */
  ghost predicate Starts(find: Bytes, repl: Bytes, B: nat, inv: Bytes -> bool)
    requires find != []
  {
    forall w, t :: |w| == 2 * B ==>
      Sound(find, repl, w, t) && inv(ReplaceAll(find, repl, w)[|ReplaceAll(find, repl, w)| / 2..])
  }

  lemma {:induction false} RestByInvariant(find: Bytes, repl: Bytes, B: nat, inv: Bytes -> bool, c: Bytes, d: Bytes, eager: bool)
    requires find != [] && B >= 1 && Turns(find, repl, B, inv) && inv(c)
    ensures RestFits(LiteralRewrite(find, repl), B, c, d, eager)
    ensures Rest(LiteralRewrite(find, repl), B, c, d, eager) == ReplaceAll(find, repl, c + d)
    decreases |d|
  {
    if !Final(d, B, eager) {
      var w := c + d[..B];
      var o := ReplaceAll(find, repl, w);
      assert Turn(find, repl, inv, w, d[B..]);
      RestByInvariant(find, repl, B, inv, o[|o| / 2..], d[B..], eager);
      Cut(c, d, B);
    }
  }

  lemma RightByInvariant(find: Bytes, repl: Bytes, B: nat, inv: Bytes -> bool)
    requires find != [] && B >= 1 && Turns(find, repl, B, inv) && Starts(find, repl, B, inv)
    ensures AlwaysRight(find, repl, B)
  {
    forall d, eager
      ensures Right(find, repl, B, d, eager)
    {
      if !Final(d, 2 * B, eager) {
        var w := d[..2 * B];
        var o := ReplaceAll(find, repl, w);
        assert Sound(find, repl, w, d[2 * B..]);
        RestByInvariant(find, repl, B, inv, o[|o| / 2..], d[2 * B..], eager);
        Cut([], d, 2 * B);
      }
    }
  }

  // ----------------------------------- replacements that are not longer

  /** A buffer of B bytes is large enough for a pattern of `m` bytes and a replacement
      of `r`: if every carry has at least `keep` bytes, it has an end of the window
      that may yet become a match, and at least `keep` bytes again. */
  predicate Roomy(m: nat, r: nat, B: nat, keep: nat)
    requires m >= 1
  {
    && keep <= B && m <= B + keep + 1
    && m <= Low(m, r, B + keep + 1 - m) + 2
    && 2 * keep <= Low(m, r, B + keep) + 1
  }

  /** The replacement is neither empty nor longer than the pattern, no match in a buffer
      can use a byte of it, and the buffer is large enough. */
  predicate Streamable(find: Bytes, repl: Bytes, B: nat) {
    && 1 <= |repl| <= |find| && ClearWithin(find, repl, 2 * B)
    && exists keep: nat :: keep <= B && Roomy(|find|, |repl|, B, keep)
  }

  /** An end of a rewritten window that may yet become a match lies in its right half. */
  lemma HalfIsCuttable(find: Bytes, repl: Bytes, B: nat, keep: nat, w: Bytes)
    requires 1 <= |repl| <= |find| && ClearWithin(find, repl, |w|) && Roomy(|find|, |repl|, B, keep)
    requires |w| >= B + keep
    ensures var o := ReplaceAll(find, repl, w); Cuttable(find, o, |o| / 2)
  {
    var o := ReplaceAll(find, repl, w);
    forall n | |o| - |o| / 2 < n < |find| && n <= |o|
      ensures !(Last(o, n) <= find)
    {
      if Last(o, n) <= find { OpenEndFits(find, repl, B, keep, w, n); }
    }
  }

  lemma HalfKeeps(find: Bytes, repl: Bytes, B: nat, keep: nat, w: Bytes)
    requires 1 <= |repl| <= |find| && Roomy(|find|, |repl|, B, keep) && |w| >= B + keep
    ensures var o := ReplaceAll(find, repl, w); |o| - |o| / 2 >= keep
  {
    ShrinkBound(find, repl, w);
    LowMono(|find|, |repl|, B + keep, |w|);
  }

  /** What stands before an end that may yet become a match is nearly as long. */
  lemma OpenEndFits(find: Bytes, repl: Bytes, B: nat, keep: nat, w: Bytes, n: nat)
    requires 1 <= |repl| <= |find| && ClearWithin(find, repl, |w|) && Roomy(|find|, |repl|, B, keep)
    requires |w| >= B + keep && n < |find| && n <= |ReplaceAll(find, repl, w)| && Last(ReplaceAll(find, repl, w), n) <= find
    ensures |ReplaceAll(find, repl, w)| >= |find| - 2 + n
  {
    TailIsOriginal(find, repl, w, n, |w|);
    ShrinkBound(find, repl, Front(w, n));
    LowMono(|find|, |repl|, B + keep + 1 - |find|, |w| - n);
  }

  /** Streaming equals whole-body replacement on every source. */
  lemma StreamingIsReplaceAll(find: Bytes, repl: Bytes, B: nat)
    requires B >= 1 && Streamable(find, repl, B)
    ensures AlwaysRight(find, repl, B)
  {
    var keep: nat :| keep <= B && Roomy(|find|, |repl|, B, keep);
    var inv := (c: Bytes) => keep <= |c| <= B;
    forall w, t | |w| == 2 * B
      ensures Sound(find, repl, w, t) && inv(ReplaceAll(find, repl, w)[|ReplaceAll(find, repl, w)| / 2..])
    {
      RoomyTurn(find, repl, B, keep, w, t);
    }
    forall c, b, t | inv(c) && |b| == B
      ensures Turn(find, repl, inv, c + b, t)
    {
      ClearInShorter(find, repl, 2 * B, |c + b|);
      RoomyTurn(find, repl, B, keep, c + b, t);
    }
    RightByInvariant(find, repl, B, inv);
  }

  lemma ClearInShorter(find: Bytes, repl: Bytes, most: nat, n: nat)
    requires ClearWithin(find, repl, most) && n <= most
    ensures ClearWithin(find, repl, n)
  {
  }

  lemma RoomyTurn(find: Bytes, repl: Bytes, B: nat, keep: nat, w: Bytes, t: Bytes)
    requires 1 <= |repl| <= |find| && ClearWithin(find, repl, |w|) && Roomy(|find|, |repl|, B, keep)
    requires |w| >= B + keep
    ensures var o := ReplaceAll(find, repl, w);
            Sound(find, repl, w, t) && |o| <= |w| && CarryOf(w, o) == o[|o| / 2..] && |o| - |o| / 2 >= keep
  {
    var o := ReplaceAll(find, repl, w);
    HalfIsCuttable(find, repl, B, keep, w);
    HalfKeeps(find, repl, B, keep, w);
    WindowStep(find, repl, w, |o| / 2, t);
    LengthBound(find, repl, w);
    CarryWhole(w, o);
  }

  /** m (m - 2) bytes of buffer suffice for every replacement no match can use. */
  lemma AmpleBuffer(find: Bytes, repl: Bytes, B: nat)
    requires 1 <= |repl| <= |find| && Clear(find, repl)
    requires B >= 1 && B >= |find| * (|find| - 2) && B + 1 >= |find|
    ensures Streamable(find, repl, B)
  {
    var m, r := |find|, |repl|;
    var keep := (m - 1) / 2;
    if m >= 3 { RoomForShort(m, r, B, keep, m * (m - 3)); }
    assert Roomy(m, r, B, keep);
  }

  lemma RoomForShort(m: nat, r: nat, B: nat, keep: nat, a: nat)
    requires m >= 3 && 1 <= r <= m && keep < m - 1 && a == m * (m - 3) && B >= a + m
    ensures Low(m, r, B + keep) >= m - 2 && Low(m, r, B + keep + 1 - m) >= m - 2
  {
    LowAtLeast(m, r, m - 3, m, a + m);
    LowMono(m, r, a + m, B + keep);
    LowAtLeast(m, r, m - 3, keep + 1, a + (keep + 1));
    LowMono(m, r, a + (keep + 1), B + keep + 1 - m);
  }

  lemma {:induction false} LowAtLeast(m: nat, r: nat, q: nat, s: nat, n: nat)
    requires m >= 1 && r >= 1 && n == m * q + s
    ensures Low(m, r, n) >= q + Low(m, r, s)
    decreases q
  {
    if q > 0 {
      OneFewer(m, q);
      LowAtLeast(m, r, q - 1, s, n - m);
    }
  }

  lemma OneFewer(m: nat, q: nat)
    requires q > 0
    ensures m * q == m * (q - 1) + m
  {
  }

  // ------------------------------------------------------- equal lengths

  /** A text `o` that is settled up to `a`, with `x` after that, whatever follows: `out`
      is what it becomes when `y` stands for `x` and what follows. Between the cut at `k`
      and `a` stands the end of a replacement. */
  predicate Settled(repl: Bytes, o: Bytes, x: Bytes, out: Bytes, y: Bytes, k: nat, a: nat) {
    && k <= a <= |o| && a - k <= |repl|
    && o[k..a] == Last(repl, a - k) && o == o[..a] + x && out == o[..a] + y
  }

  lemma SettledAfter(repl: Bytes, g: Bytes, o: Bytes, x: Bytes, out: Bytes, y: Bytes, k': nat, a': nat, k: nat, a: nat)
    requires Settled(repl, o, x, out, y, k', a') && k == |g| + k' && a == |g| + a'
    ensures Settled(repl, g + o, x, g + out, y, k, a)
  {
    assert (g + o)[..a] == g + o[..a'];
    assert (g + o)[k..a] == o[k'..a'];
  }

  /** Where the scan of `w` first stops at or after the cut. */
  ghost predicate ScanStops(find: Bytes, repl: Bytes, w: Bytes, t: Bytes, k: nat, a: nat)
    requires find != []
  {
    && |ReplaceAll(find, repl, w)| == |w| && a <= |w|
    && Settled(repl, ReplaceAll(find, repl, w), ReplaceAll(find, repl, w[a..]),
               ReplaceAll(find, repl, w + t), ReplaceAll(find, repl, w[a..] + t), k, a)
  }

  lemma StopsLater(find: Bytes, repl: Bytes, h: Bytes, g: Bytes, v: Bytes, w: Bytes, t: Bytes, k': nat, a': nat, k: nat, a: nat)
    requires find != [] && |h| == |g| && w == h + v && ScanStops(find, repl, v, t, k', a')
    requires k == |h| + k' && a == |h| + a'
    requires ReplaceAll(find, repl, w) == g + ReplaceAll(find, repl, v)
    requires ReplaceAll(find, repl, w + t) == g + ReplaceAll(find, repl, v + t)
    ensures ScanStops(find, repl, w, t, k, a)
  {
    assert w[a..] == v[a'..];
    SettledAfter(repl, g, ReplaceAll(find, repl, v), ReplaceAll(find, repl, v[a'..]),
                 ReplaceAll(find, repl, v + t), ReplaceAll(find, repl, v[a'..] + t), k', a', k, a);
  }

  lemma StopsAfterMatch(find: Bytes, repl: Bytes, v: Bytes, t: Bytes, k: nat)
    requires find != [] && |repl| == |find| && k <= |find|
    ensures ScanStops(find, repl, find + v, t, k, |find|)
  {
    LengthBound(find, repl, v);
    MatchFirst(find, repl, v);
    MatchFirst(find, repl, v + t);
    var x := ReplaceAll(find, repl, v);
    assert find + v + t == find + (v + t) && (find + v)[|find|..] == v;
    assert (repl + x)[..|find|] == repl && (repl + x)[k..|find|] == Last(repl, |find| - k);
  }

  lemma MatchStep(find: Bytes, repl: Bytes, v: Bytes, t: Bytes, k': nat, a': nat, k: nat, a: nat)
    requires find != [] && |repl| == |find| && ScanStops(find, repl, v, t, k', a')
    requires k == |find| + k' && a == |find| + a'
    ensures ScanStops(find, repl, find + v, t, k, a)
  {
    MatchFirst(find, repl, v);
    MatchFirst(find, repl, v + t);
    assert find + v + t == find + (v + t);
    StopsLater(find, repl, find, repl, v, find + v, t, k', a', k, a);
  }

  lemma ByteStep(find: Bytes, repl: Bytes, b: char, v: Bytes, t: Bytes, k': nat, a': nat, k: nat, a: nat)
    requires find != [] && |find| <= 1 + |v| && !(find <= [b] + v) && ScanStops(find, repl, v, t, k', a')
    requires k == 1 + k' && a == 1 + a'
    ensures ScanStops(find, repl, [b] + v, t, k, a)
  {
    PassWithMore(find, repl, b, v, t);
    StopsLater(find, repl, [b], [b], v, [b] + v, t, k', a', k, a);
  }

  lemma PassWithMore(find: Bytes, repl: Bytes, b: char, v: Bytes, t: Bytes)
    requires find != [] && |find| <= 1 + |v| && !(find <= [b] + v)
    ensures ReplaceAll(find, repl, [b] + v) == [b] + ReplaceAll(find, repl, v)
    ensures ReplaceAll(find, repl, [b] + v + t) == [b] + ReplaceAll(find, repl, v + t)
  {
    PassOne(find, repl, b, v);
    PrefixOfConcat(find, [b] + v, t);
    assert [b] + v + t == [b] + (v + t);
    PassOne(find, repl, b, v + t);
  }

  lemma {:induction false} StopOfScan(find: Bytes, repl: Bytes, w: Bytes, t: Bytes, k: nat) returns (a: nat)
    requires find != [] && |repl| == |find| && k + |find| <= |w| + 1
    ensures ScanStops(find, repl, w, t, k, a)
    decreases |w|, 1
  {
    if k == 0 {
      a := 0;
      StopsAtOnce(find, repl, w, t);
    } else if find <= w {
      var v := w[|find|..];
      assert w == find + v;
      a := StopInMatch(find, repl, v, t, k);
    } else {
      var b, v := w[0], w[1..];
      assert w == [b] + v;
      a := StopPastByte(find, repl, b, v, t, k - 1);
    }
  }

  lemma {:induction false} StopPastByte(find: Bytes, repl: Bytes, b: char, v: Bytes, t: Bytes, k: nat) returns (a: nat)
    requires find != [] && |repl| == |find| && k + |find| <= |v| + 1 && !(find <= [b] + v)
    ensures ScanStops(find, repl, [b] + v, t, k + 1, a)
    decreases |v| + 1, 0
  {
    var a' := StopOfScan(find, repl, v, t, k);
    a := 1 + a';
    ByteStep(find, repl, b, v, t, k, a', k + 1, a);
  }

  lemma {:induction false} StopInMatch(find: Bytes, repl: Bytes, v: Bytes, t: Bytes, k: nat) returns (a: nat)
    requires find != [] && |repl| == |find| && k <= |v| + 1
    ensures ScanStops(find, repl, find + v, t, k, a)
    decreases |v| + |find|, 0
  {
    if k <= |find| {
      a := |find|;
      StopsAfterMatch(find, repl, v, t, k);
    } else {
      var k' := k - |find|;
      var b := StopOfScan(find, repl, v, t, k');
      a := |find| + b;
      MatchStep(find, repl, v, t, k', b, k, a);
    }
  }

  lemma StopsAtOnce(find: Bytes, repl: Bytes, w: Bytes, t: Bytes)
    requires find != [] && |repl| == |find|
    ensures ScanStops(find, repl, w, t, 0, 0)
  {
    LengthBound(find, repl, w);
    var o := ReplaceAll(find, repl, w);
    assert w[0..] == w && [] + o == o && o[..0] == [] && o[0..0] == [] == Last(repl, 0);
    assert [] + ReplaceAll(find, repl, w + t) == ReplaceAll(find, repl, w + t);
  }

  /** A cut that keeps one byte less than the pattern is sound if what is kept does not
      come from a text in which a match can use a replacement. */
  lemma CutIsSound(find: Bytes, repl: Bytes, w: Bytes, t: Bytes, k: nat)
    requires find != [] && |repl| == |find| && k + |find| <= |w| + 1 && ClearWithin(find, repl, |w| - k)
    ensures var o := ReplaceAll(find, repl, w);
            |o| == |w| && ReplaceAll(find, repl, w + t) == o[..k] + ReplaceAll(find, repl, o[k..] + t)
  {
    var a := StopOfScan(find, repl, w, t, k);
    var x, i := ReplaceAll(find, repl, w[a..]), |repl| - (a - k);
    RescanHarmless(find, repl, w[a..], t, |w| - k);
    SkipReplacement(find, repl, i, x + t);
    SettledCut(repl, ReplaceAll(find, repl, w), x, ReplaceAll(find, repl, w + t), ReplaceAll(find, repl, w[a..] + t), k, a, t);
  }

  lemma SettledCut(repl: Bytes, o: Bytes, x: Bytes, out: Bytes, y: Bytes, k: nat, a: nat, t: Bytes)
    requires Settled(repl, o, x, out, y, k, a)
    ensures o[k..] + t == repl[|repl| - (a - k)..] + (x + t)
    ensures out == o[..k] + (repl[|repl| - (a - k)..] + y)
  {
    assert o[a..] == x;
    assert o[k..] == o[k..a] + o[a..];
    assert o[..a] == o[..k] + o[k..a];
  }

  /** With equal lengths a carry is as long as the buffer; one byte less than the pattern
      is all it has to keep, and it is the only text that is rewritten again. */
  lemma EqualLengthStreams(find: Bytes, repl: Bytes, B: nat)
    requires B >= 1 && |repl| == |find| >= 1 && |find| <= B + 1 && ClearWithin(find, repl, B)
    ensures AlwaysRight(find, repl, B)
  {
    var inv := (c: Bytes) => |c| == B;
    forall w, t | |w| == 2 * B
      ensures Sound(find, repl, w, t) && Turn(find, repl, inv, w, t)
    {
      EqualTurn(find, repl, B, w, t);
    }
    RightByInvariant(find, repl, B, inv);
  }

  lemma EqualTurn(find: Bytes, repl: Bytes, B: nat, w: Bytes, t: Bytes)
    requires |repl| == |find| >= 1 && |find| <= B + 1 && ClearWithin(find, repl, B) && |w| == 2 * B
    ensures var o := ReplaceAll(find, repl, w);
            Sound(find, repl, w, t) && |o| == 2 * B && CarryOf(w, o) == o[|o| / 2..]
  {
    LengthBound(find, repl, w);
    SoundAtHalf(find, repl, B, w, t);
    CarryKept(w, ReplaceAll(find, repl, w));
  }

  lemma SoundAtHalf(find: Bytes, repl: Bytes, B: nat, w: Bytes, t: Bytes)
    requires |repl| == |find| >= 1 && |find| <= B + 1 && ClearWithin(find, repl, B) && |w| == 2 * B
    ensures Sound(find, repl, w, t)
  {
    LengthBound(find, repl, w);
    assert |ReplaceAll(find, repl, w)| / 2 == B;
    CutIsSound(find, repl, w, t, B);
  }

  // ------------------------------------------------------------- deletion

  /** The patterns whose deletion streams: single bytes, doubled bytes, and pairs
      that just fit into a window of a one-byte buffer. */
  predicate Deletable(find: Bytes, B: nat)
    requires find != []
  {
    |find| == 1 || (|find| == 2 && (B == 1 || find[0] == find[1]))
  }

  predicate Constant(find: Bytes) {
    forall i :: 0 <= i < |find| ==> find[i] == find[0]
  }

  /** A byte that ends a run too short for a match is passed over with it. */
  lemma {:induction false} SkipRun(find: Bytes, w: Bytes, n: nat)
    requires find != [] && Constant(find) && n < |find| && n < |w| && w[n] != find[0]
    ensures ReplaceAll(find, [], w) == w[..n + 1] + ReplaceAll(find, [], w[n + 1..])
    decreases n, 1
  {
    if |w| < |find| {
      assert w == w[..n + 1] + w[n + 1..];
    } else {
      NotAtFront(find, w, n);
      if n > 0 { SkipRunBehind(find, w, n); } else { TakeNone(w[1..], ReplaceAll(find, [], w[1..])); }
      SkipOne(find, w, n);
    }
  }

  lemma NotAtFront(f: Bytes, w: Bytes, n: nat)
    requires n < |f| && n < |w| && f[n] != w[n]
    ensures !(f <= w)
  {
  }

  lemma SkipOne(find: Bytes, w: Bytes, n: nat)
    requires find != [] && !(find <= w) && n < |find| <= |w|
    requires ReplaceAll(find, [], w[1..]) == w[1..][..n] + ReplaceAll(find, [], w[1..][n..])
    ensures ReplaceAll(find, [], w) == w[..n + 1] + ReplaceAll(find, [], w[n + 1..])
  {
    ConsTake(w, n + 1, ReplaceAll(find, [], w[1..][n..]));
  }

  lemma TakeNone(s: Bytes, y: Bytes)
    ensures s[..0] + y == y && s[0..] == s
  {
  }

  /** Deleting runs of one byte elsewhere does not create a match at the front. */
  lemma NoRunAtFront(find: Bytes, w: Bytes, t: Bytes)
    requires find != [] && Constant(find) && |w| >= |find| && !(find <= w)
    ensures !(find <= [w[0]] + (ReplaceAll(find, [], w[1..]) + t))
  {
    var n := FirstDifference(find, w);
    var y := ReplaceAll(find, [], w[1..]);
    var z := y;
    if n > 0 {
      assert find[n] == find[0];
      SkipRunBehind(find, w, n);
      z := ReplaceAll(find, [], w[1..][n..]);
    } else {
      assert w[1..][..0] + y == y;
    }
    StillDiffers(find, w, y, z, n, t);
  }

  lemma SkipRunBehind(find: Bytes, w: Bytes, n: nat)
    requires find != [] && Constant(find) && 0 < n < |find| <= |w| && w[n] != find[0]
    ensures ReplaceAll(find, [], w[1..]) == w[1..][..n] + ReplaceAll(find, [], w[1..][n..])
    decreases n, 0
  {
    assert w[1..][n - 1] == w[n];
    SkipRun(find, w[1..], n - 1);
  }

  lemma FirstDifference(f: Bytes, w: Bytes) returns (n: nat)
    requires |f| <= |w| && !(f <= w)
    ensures n < |f| && w[n] != f[n]
  {
    n :| n < |f| && w[n] != f[n];
  }

  lemma StillDiffers(f: Bytes, w: Bytes, y: Bytes, z: Bytes, n: nat, t: Bytes)
    requires n < |f| && n < |w| && w[n] != f[n] && y == w[1..][..n] + z
    ensures !(f <= [w[0]] + (y + t))
  {
    assert [w[0]] + (y + t) == [w[0]] + w[1..][..n] + (z + t);
    assert ([w[0]] + w[1..][..n])[n] == w[n];
  }

  lemma {:induction false} RunsAreGone(find: Bytes, w: Bytes)
    requires find != [] && Constant(find)
    ensures Free(find, ReplaceAll(find, [], w))
    decreases |w|
  {
    if |w| < |find| {
    } else if find <= w {
      RunsAreGone(find, w[|find|..]);
      assert [] + ReplaceAll(find, [], w[|find|..]) == ReplaceAll(find, [], w[|find|..]);
    } else {
      var x := ReplaceAll(find, [], w[1..]);
      RunsAreGone(find, w[1..]);
      NoRunAtFront(find, w, []);
      assert x + [] == x;
      FreeCons(find, w[0], x);
    }
  }

  lemma Dropped(find: Bytes, t: Bytes)
    requires find != []
    ensures ReplaceAll(find, [], find + t) == ReplaceAll(find, [], t)
  {
    MatchFirst(find, [], t);
    assert [] + ReplaceAll(find, [], t) == ReplaceAll(find, [], t);
  }

  lemma DroppedBoth(find: Bytes, v: Bytes, t: Bytes)
    requires find != []
    ensures ReplaceAll(find, [], find + v) == ReplaceAll(find, [], v)
    ensures ReplaceAll(find, [], find + v + t) == ReplaceAll(find, [], v + t)
  {
    assert find + v + t == find + (v + t);
    Dropped(find, v);
    Dropped(find, v + t);
  }

  lemma {:induction false} RunsRescan(find: Bytes, w: Bytes, t: Bytes)
    requires find != [] && Constant(find)
    ensures ReplaceAll(find, [], ReplaceAll(find, [], w) + t) == ReplaceAll(find, [], w + t)
    decreases |w|
  {
    if |w| < |find| {
    } else if find <= w {
      var v := w[|find|..];
      RunsRescan(find, v, t);
      assert w == find + v;
      DroppedBoth(find, v, t);
    } else {
      var v := w[1..];
      var o := ReplaceAll(find, [], v);
      RunsRescan(find, v, t);
      NoRunAtFront(find, w, t);
      PrefixOfConcat(find, w, t);
      assert w + t == [w[0]] + (v + t);
      PassBoth(find, [], w[0], o, v, t);
    }
  }

  lemma AsLong(find: Bytes, repl: Bytes, s: Bytes)
    requires find != [] && |s| == |find|
    ensures ReplaceAll(find, repl, s) == if s == find then repl else s
  {
    if s == find {
      MatchFirst(find, repl, []);
      assert find + [] == find && repl + [] == repl;
    } else {
      assert s == [s[0]] + s[1..];
      PassOne(find, repl, s[0], s[1..]);
    }
  }

  /** A window that is no longer than the pattern is deleted whole or not touched. */
  lemma PairRescan(find: Bytes, w: Bytes, t: Bytes)
    requires find != [] && |w| <= |find|
    ensures var o := ReplaceAll(find, [], w);
            ReplaceAll(find, [], o + t) == ReplaceAll(find, [], w + t) && Free(find, o)
  {
    if |w| == |find| {
      AsLong(find, [], w);
      Dropped(find, t);
      assert [] + t == t;
      assert At(find, w, 0) ==> w == find;
    }
  }

  /** Deleting such a pattern streams right on every source. */
  lemma DeletionStreams(find: Bytes, B: nat)
    requires B >= 1 && find != [] && Deletable(find, B)
    ensures AlwaysRight(find, [], B)
  {
    var short := |find| == 2 && B == 1;
    var inv := (c: Bytes) => short ==> |c| <= 1;
    forall w, t | short ==> |w| <= 2
      ensures Sound(find, [], w, t) && Turn(find, [], inv, w, t)
    {
      var o := ReplaceAll(find, [], w);
      LengthBound(find, [], w);
      if short {
        PairRescan(find, w, t);
      } else {
        RunsAreGone(find, w);
        RunsRescan(find, w, t);
      }
      assert |o| - |o| / 2 >= |find| - 1 || o == [];
      EmitPrefix(find, [], o, |o| / 2, t);
      CarryWhole(w, o);
    }
    RightByInvariant(find, [], B, inv);
  }

  // ------------------------------------------------- longer replacements

  /** The longer replacements that stream: with a one-byte buffer every window after
      the first holds at most one match, at its end, and loses nothing if the bytes
      beyond the length of the pattern are zero, as are those of a fresh buffer. */
  predicate GrowthHarmless(find: Bytes, repl: Bytes, B: nat) {
    && B == 1 && 1 <= |find| <= 2 && |find| < |repl| <= |find| + 3
    && repl[|find|..] == Zeros(|repl| - |find|)
    && Unused(find, repl)
  }

  /** No match can start in what is carried of such a replacement: all of it after a
      single byte, all but its first byte after a pair, and only the zeros if they are three. */
  predicate Unused(find: Bytes, repl: Bytes)
    requires 1 <= |find| < |repl|
  {
    && find[0] != 0 as char
    && if |find| == 1 then repl[0] != find[0] else |repl| == 5 || repl[1..3] != find
  }

  /** One more byte after pattern-free text can only complete a match at its end. */
  lemma OneByteMore(find: Bytes, repl: Bytes, p: Bytes, q: Bytes, b: Bytes)
    requires find != [] && Free(find, p + q) && |q| == |find| - 1 && |b| == 1
    ensures ReplaceAll(find, repl, p + q + b) == p + if q + b == find then repl else q + b
  {
    EarlyBytes(find, repl, p, q, b);
    AsLong(find, repl, q + b);
  }

  lemma EarlyBytes(find: Bytes, repl: Bytes, p: Bytes, q: Bytes, t: Bytes)
    requires find != [] && Free(find, p + q) && |q| >= |find| - 1
    ensures ReplaceAll(find, repl, p + q + t) == p + ReplaceAll(find, repl, q + t)
  {
    assert (p + q)[..|p|] == p && (p + q)[|p|..] == q;
    assert Cuttable(find, p + q, |p|);
    EmitPrefix(find, repl, p + q, |p|, t);
  }

  lemma HarmlessTurn(find: Bytes, repl: Bytes, c: Bytes, b: Bytes)
    requires GrowthHarmless(find, repl, 1) && Free(find, c) && |c| >= 1 && |b| == 1
    ensures var w := c + b;
            var o := ReplaceAll(find, repl, w);
            |o| <= 2 * |w| + 1 && CarryOf(w, o) == o[|o| / 2..]
  {
    var k := |c| + 1 - |find|;
    var p, q := c[..k], c[k..];
    assert p + q == c;
    OneByteMore(find, repl, p, q, b);
    if q + b == find {
      AddedZeros(find, repl, p, c + b);
    } else {
      assert p + (q + b) == c + b;
    }
    CarryWhole(c + b, ReplaceAll(find, repl, c + b));
  }

  lemma AddedZeros(find: Bytes, repl: Bytes, p: Bytes, w: Bytes)
    requires GrowthHarmless(find, repl, 1) && |w| == |p| + |find| && |w| >= 2
    ensures var o := p + repl;
            |w| < |o| <= 2 * |w| + 1 && o[|w|..] == Zeros(|o| - |w|)
  {
    assert (p + repl)[|w|..] == repl[|find|..];
  }

  lemma SingleIsClear(find: Bytes, repl: Bytes)
    requires GrowthHarmless(find, repl, 1) && |find| == 1
    ensures Clear(find, repl)
  {
    forall b | b in repl
      ensures b !in find
    {
      var i :| 0 <= i < |repl| && repl[i] == b;
      if i > 0 { assert repl[1..][i - 1] == 0 as char; }
    }
    DisjointIsClear(find, repl);
  }

  lemma SingleStreams(find: Bytes, repl: Bytes)
    requires GrowthHarmless(find, repl, 1) && |find| == 1
    ensures AlwaysRight(find, repl, 1)
  {
    var inv := (c: Bytes) => Free(find, c) && |c| >= 1;
    SingleIsClear(find, repl);
    forall w, t | |w| >= 2
      ensures var o := ReplaceAll(find, repl, w); Sound(find, repl, w, t) && inv(o[|o| / 2..])
    {
      var o := ReplaceAll(find, repl, w);
      LengthBound(find, repl, w);
      WindowStep(find, repl, w, |o| / 2, t);
      RewrittenIsFree(find, repl, w, |w|);
      FreeSuffix(find, o, |o| / 2);
    }
    forall c, b, t | inv(c) && |b| == 1
      ensures Turn(find, repl, inv, c + b, t)
    {
      HarmlessTurn(find, repl, c, b);
    }
    RightByInvariant(find, repl, 1, inv);
  }

  /** What a one-byte buffer carries while it rewrites pairs: a match can only be
      completed after at most two bytes. */
  predicate Kept(find: Bytes, c: Bytes)
    requires |find| == 2
  {
    Free(find, c) && 1 <= |c| <= 3 && (|c| == 3 ==> c[2] != find[0])
  }

  /** What is carried of a replacement is not rewritten again. */
  lemma UnusedIsKept(find: Bytes, repl: Bytes, s: nat, t: Bytes)
    requires GrowthHarmless(find, repl, 1) && |find| == 2
    requires 1 <= s <= 2 && (|repl| == 5 ==> s == 2) && |repl| - s <= 3
    ensures ReplaceAll(find, repl, repl[s..] + t) == repl[s..] + ReplaceAll(find, repl, t)
    ensures Kept(find, repl[s..])
  {
    var c, n := repl[s..], |repl| - 2;
    assert repl[2..] == Zeros(n);
    if s == 2 {
      SkipForeign(find, repl, c, t);
      AllForeign(find, c);
    } else {
      assert c == [repl[1]] + Zeros(n);
      ThenZeros(find, repl, repl[1], n, t);
    }
  }

  lemma AllForeign(find: Bytes, s: Bytes)
    requires find != [] && find[0] !in s
    ensures Free(find, s)
  {
    forall i | 0 <= i <= |s| - |find|
      ensures !At(find, s, i)
    {
      assert s[i..i + |find|][0] == s[i] && s[i] in s;
    }
  }

  lemma ThenZeros(find: Bytes, repl: Bytes, y: char, n: nat, t: Bytes)
    requires |find| == 2 && find[0] != 0 as char && n >= 1 && (y != find[0] || find[1] != 0 as char)
    ensures ReplaceAll(find, repl, [y] + Zeros(n) + t) == [y] + Zeros(n) + ReplaceAll(find, repl, t)
    ensures Free(find, [y] + Zeros(n))
  {
    var c := [y] + Zeros(n);
    assert c + t == [y] + (Zeros(n) + t) && c + ReplaceAll(find, repl, t) == [y] + (Zeros(n) + ReplaceAll(find, repl, t));
    SkipForeign(find, repl, Zeros(n), t);
    var x := Zeros(n) + t;
    assert ([y] + x)[0] == y && ([y] + x)[1] == 0 as char;
    PassOne(find, repl, y, x);
    forall i | 0 <= i <= |c| - |find|
      ensures !At(find, c, i)
    {
      assert c[i..i + 2][0] == c[i] && c[i..i + 2][1] == c[i + 1];
    }
  }

  lemma PairMatched(find: Bytes, repl: Bytes, p: Bytes, t: Bytes)
    requires GrowthHarmless(find, repl, 1) && |find| == 2 && |p| <= 1 && Free(find, p + find[..1])
    ensures var o := p + repl;
            && ReplaceAll(find, repl, p + find + t) == o[..|o| / 2] + ReplaceAll(find, repl, o[|o| / 2..] + t)
            && Kept(find, o[|o| / 2..])
  {
    var o := p + repl;
    EarlyMatch(find, repl, p, t);
    var s := |o| / 2 - |p|;
    UnusedIsKept(find, repl, s, t);
    assert o[|o| / 2..] == repl[s..];
    Reassemble(o, |o| / 2, ReplaceAll(find, repl, t));
  }

  lemma EarlyMatch(find: Bytes, repl: Bytes, p: Bytes, t: Bytes)
    requires |find| == 2 && Free(find, p + find[..1])
    ensures ReplaceAll(find, repl, p + find + t) == p + repl + ReplaceAll(find, repl, t)
  {
    var b := find[1..];
    assert p + find[..1] + (b + t) == p + find + t && find[..1] + (b + t) == find + t;
    EarlyBytes(find, repl, p, find[..1], b + t);
    MatchFirst(find, repl, t);
  }

  lemma NotThere(find: Bytes, p: Bytes, q: Bytes, b: Bytes, i: nat)
    requires |find| == 2 && Free(find, p + q) && |q| == |b| == 1 && q + b != find && i <= |p|
    ensures !At(find, p + q + b, i)
  {
    var s, w := p + q, p + q + b;
    if i < |p| {
      assert !At(find, s, i) && s[i..i + 2] == [s[i], s[i + 1]];
      assert w[i..i + 2] == [w[i], w[i + 1]] && w[i] == s[i] && w[i + 1] == s[i + 1];
    } else {
      assert w[i..i + 2] == q + b;
    }
  }

  lemma PairUnmatched(find: Bytes, repl: Bytes, p: Bytes, q: Bytes, b: Bytes, t: Bytes)
    requires |find| == 2 && Free(find, p + q) && |p| <= 2 && |q| == |b| == 1 && q + b != find
    ensures var w := p + q + b;
            && ReplaceAll(find, repl, w + t) == w[..|w| / 2] + ReplaceAll(find, repl, w[|w| / 2..] + t)
            && Kept(find, w[|w| / 2..])
  {
    var w := p + q + b;
    forall i | 0 <= i <= |w| - 2
      ensures !At(find, w, i)
    {
      NotThere(find, p, q, b, i);
    }
    EmitPrefix(find, repl, w, |w| / 2, t);
    FreeSuffix(find, w, |w| / 2);
  }

  lemma PairSplit(find: Bytes, p: Bytes, q: Bytes, b: Bytes)
    requires |q| == 1 && q + b == find
    ensures find[..1] == q && p + q + b == p + find
  {
    assert (q + b)[..1] == q;
  }

  lemma PairTurn(find: Bytes, repl: Bytes, p: Bytes, q: Bytes, b: Bytes, t: Bytes)
    requires GrowthHarmless(find, repl, 1) && |find| == 2 && Free(find, p + q)
    requires |p| <= 2 && |q| == |b| == 1 && (|p| == 2 ==> q[0] != find[0])
    ensures var w := p + q + b;
            var o := ReplaceAll(find, repl, w);
            Sound(find, repl, w, t) && Kept(find, o[|o| / 2..])
  {
    var w := p + q + b;
    OneByteMore(find, repl, p, q, b);
    if q + b == find {
      PairSplit(find, p, q, b);
      PairMatched(find, repl, p, t);
    } else {
      assert p + (q + b) == w;
      PairUnmatched(find, repl, p, q, b, t);
    }
  }

  lemma PairStreams(find: Bytes, repl: Bytes)
    requires GrowthHarmless(find, repl, 1) && |find| == 2
    ensures AlwaysRight(find, repl, 1)
  {
    var inv := (c: Bytes) => Kept(find, c);
    forall w, t | |w| == 2
      ensures var o := ReplaceAll(find, repl, w); Sound(find, repl, w, t) && inv(o[|o| / 2..])
    {
      assert [] + w[..1] + w[1..] == w;
      PairTurn(find, repl, [], w[..1], w[1..], t);
    }
    forall c, b, t | inv(c) && |b| == 1
      ensures Turn(find, repl, inv, c + b, t)
    {
      var n := |c| - 1;
      assert c[..n] + c[n..] == c;
      PairTurn(find, repl, c[..n], c[n..], b, t);
      HarmlessTurn(find, repl, c, b);
    }
    RightByInvariant(find, repl, 1, inv);
  }

  lemma GrowthStreams(find: Bytes, repl: Bytes, B: nat)
    requires B >= 1 && GrowthHarmless(find, repl, B)
    ensures AlwaysRight(find, repl, B)
  {
    if |find| == 1 {
      SingleStreams(find, repl);
    } else {
      PairStreams(find, repl);
    }
  }

  // ----------------------------------------------------- all of them

  /** What a caller can check before the call. */
  predicate Streams(find: Bytes, repl: Bytes, B: nat)
    requires find != []
  {
    || repl == find
    || Streamable(find, repl, B)
    || (|repl| == |find| <= B + 1 && ClearWithin(find, repl, B))
    || (repl == [] && Deletable(find, B))
    || GrowthHarmless(find, repl, B)
  }

  lemma {:induction false} ReplacedByItself(find: Bytes, s: Bytes)
    requires find != []
    ensures ReplaceAll(find, find, s) == s
    decreases |s|
  {
    if |s| < |find| {
    } else if find <= s {
      ReplacedByItself(find, s[|find|..]);
    } else {
      ReplacedByItself(find, s[1..]);
    }
  }

  lemma ItselfStreams(find: Bytes, B: nat)
    requires find != [] && B >= 1
    ensures AlwaysRight(find, find, B)
  {
    var inv := (c: Bytes) => true;
    forall w, t
      ensures Sound(find, find, w, t) && Turn(find, find, inv, w, t)
    {
      ReplacedByItself(find, w);
      ReplacedByItself(find, w + t);
      ReplacedByItself(find, w[|w| / 2..] + t);
      Reassemble(w, |w| / 2, t);
      CarryKept(w, w);
    }
    RightByInvariant(find, find, B, inv);
  }

  lemma StreamsIsRight(find: Bytes, repl: Bytes, B: nat)
    requires find != [] && B >= 1 && Streams(find, repl, B)
    ensures AlwaysRight(find, repl, B)
  {
    if repl == find {
      ItselfStreams(find, B);
    } else if Streamable(find, repl, B) {
      StreamingIsReplaceAll(find, repl, B);
    } else if |repl| == |find| {
      EqualLengthStreams(find, repl, B);
    } else if repl == [] {
      DeletionStreams(find, B);
    } else {
      GrowthStreams(find, repl, B);
    }
  }
}
