/** Replacements longer than the pattern: a later window that outgrows its buffer
    loses the bytes beyond it, and when that shows in the output. */
module Growth {
  import opened Literal
  import opened Window
  import opened Streaming
  import opened Exactness

  // ------------------------------------------------------------- a balance

  function ZeroCount(s: Bytes): nat {
    if s == [] then 0 else (if s[0] == 0 as char then 1 else 0) + ZeroCount(s[1..])
  }

  lemma {:induction false} ZeroConcat(a: Bytes, b: Bytes)
    ensures ZeroCount(a + b) == ZeroCount(a) + ZeroCount(b)
    decreases |a|
  {
    if a == [] {
      assert a + b == b;
    } else {
      assert (a + b)[1..] == a[1..] + b;
      ZeroConcat(a[1..], b);
    }
  }

  lemma {:induction false} AllZero(s: Bytes)
    ensures ZeroCount(s) <= |s|
    ensures ZeroCount(s) == |s| <==> s == Zeros(|s|)
  {
    if s != [] {
      AllZero(s[1..]);
      assert s == [s[0]] + s[1..];
      assert Zeros(|s|) == [0 as char] + Zeros(|s| - 1);
    }
  }

  function Matches(find: Bytes, s: Bytes): nat
    requires find != []
    decreases |s|
  {
    if |s| < |find| then 0
    else if find <= s then 1 + Matches(find, s[|find|..])
    else Matches(find, s[1..])
  }

  /** `y` is what becomes of `x` by `n` replacements and the loss of `lost` bytes that
      were not zero. */
  predicate Balanced(find: Bytes, repl: Bytes, x: Bytes, y: Bytes, n: nat, lost: nat) {
    && |y| == |x| + Times(n, |repl| - |find|)
    && ZeroCount(y) == ZeroCount(x) + Times(n, ZeroCount(repl) - ZeroCount(find)) + lost
  }

  function Times(n: nat, d: int): int {
    if n == 0 then 0 else d + Times(n - 1, d)
  }

  lemma {:induction false} TimesAdds(a: nat, b: nat, d: int)
    ensures Times(a + b, d) == Times(a, d) + Times(b, d)
    decreases a
  {
    if a > 0 { TimesAdds(a - 1, b, d); }
  }

  lemma {:induction false} TimesMono(a: nat, b: nat, d: int)
    requires a < b && d > 0
    ensures Times(a, d) < Times(b, d)
    decreases b
  {
    if a < b - 1 { TimesMono(a, b - 1, d); }
  }

  lemma SameProduct(a: nat, b: nat, d: int)
    requires d > 0 && Times(a, d) == Times(b, d)
    ensures a == b
  {
    if a < b { TimesMono(a, b, d); }
    if b < a { TimesMono(b, a, d); }
  }

  lemma {:induction false} ReplaceAllBalances(find: Bytes, repl: Bytes, s: Bytes)
    requires find != []
    ensures Balanced(find, repl, s, ReplaceAll(find, repl, s), Matches(find, s), 0)
    decreases |s|
  {
    if |s| < |find| {
    } else if find <= s {
      var t := s[|find|..];
      ReplaceAllBalances(find, repl, t);
      assert s == find + t;
      ZeroConcat(find, t);
      ZeroConcat(repl, ReplaceAll(find, repl, t));
    } else {
      var t := s[1..];
      ReplaceAllBalances(find, repl, t);
      assert s == [s[0]] + t;
      ZeroConcat([s[0]], t);
      ZeroConcat([s[0]], ReplaceAll(find, repl, t));
    }
  }

  /** The carry has the length of the right half, and more zero bytes unless it is the
      right half. */
  lemma CarryBalance(w: Bytes, o: Bytes) returns (lost: nat)
    requires |o| <= 2 * |w| + 1
    ensures |CarryOf(w, o)| == |o| - |o| / 2
    ensures ZeroCount(CarryOf(w, o)) == ZeroCount(o[|o| / 2..]) + lost
    ensures lost == 0 <==> CarryOf(w, o) == o[|o| / 2..]
  {
    var k := |o| / 2;
    CarryWhole(w, o);
    if |o| <= |w| {
      lost := 0;
    } else {
      var over := o[|w|..];
      assert o[k..] == o[k..|w|] + over;
      assert CarryOf(w, o) == o[k..|w|] + Zeros(|over|);
      ZeroConcat(o[k..|w|], over);
      ZeroConcat(o[k..|w|], Zeros(|over|));
      AllZero(over);
      AllZero(Zeros(|over|));
      lost := |over| - ZeroCount(over);
    }
  }

  // --------------------------------------------------- what a run loses

  /** No later window of this run loses a byte: those that grow do so by zero bytes. */
  ghost predicate RestLossless(R: Bytes -> Bytes, B: nat, c: Bytes, d: Bytes, eager: bool)
    requires B >= 1
    decreases |d|
  {
    Final(d, B, eager) || (
      var w := c + d[..B];
      CarryOf(w, R(w)) == R(w)[|R(w)| / 2..] && RestLossless(R, B, CarryOf(w, R(w)), d[B..], eager))
  }

  ghost predicate Lossless(R: Bytes -> Bytes, B: nat, d: Bytes, eager: bool)
    requires B >= 1
  {
    Final(d, 2 * B, eager) || (
      var o := R(d[..2 * B]);
      RestLossless(R, B, o[|o| / 2..], d[2 * B..], eager))
  }

  /** A window `w` that becomes `o`, of which the carry `c`, with `d` after it, becomes `rest`. */
  lemma WindowBalances(find: Bytes, repl: Bytes, w: Bytes, o: Bytes, k: nat, c: Bytes, d: Bytes, rest: Bytes,
                       n: nat, n': nat, lost: nat, lost': nat)
    requires k <= |o| && Balanced(find, repl, w, o, n, 0) && Balanced(find, repl, c + d, rest, n', lost')
    requires |c| == |o| - k && ZeroCount(c) == ZeroCount(o[k..]) + lost
    ensures Balanced(find, repl, w + d, o[..k] + rest, n + n', lost + lost')
  {
    TimesAdds(n, n', |repl| - |find|);
    TimesAdds(n, n', ZeroCount(repl) - ZeroCount(find));
    ZeroSplit(o, k);
    ZeroConcat(o[..k], rest);
    ZeroConcat(c, d);
    ZeroConcat(w, d);
  }

  lemma ZeroSplit(o: Bytes, k: nat)
    requires k <= |o|
    ensures ZeroCount(o) == ZeroCount(o[..k]) + ZeroCount(o[k..])
  {
    assert o[..k] + o[k..] == o;
    ZeroConcat(o[..k], o[k..]);
  }

  /** `R` replaces `n(w)` times in every text `w`. */
  ghost predicate Balances(R: Bytes -> Bytes, n: Bytes -> nat, find: Bytes, repl: Bytes) {
    forall w :: Balanced(find, repl, w, R(w), n(w), 0)
  }

  ghost predicate RestBalanced(R: Bytes -> Bytes, find: Bytes, repl: Bytes, B: nat, c: Bytes, d: Bytes, eager: bool, n: nat, lost: nat)
    requires B >= 1
  {
    Balanced(find, repl, c + d, Rest(R, B, c, d, eager), n, lost)
  }

  lemma NextBalances(R: Bytes -> Bytes, find: Bytes, repl: Bytes, B: nat, c: Bytes, d: Bytes, eager: bool,
                     n': nat, n: nat, lost': nat, lost: nat)
    requires B >= 1 && !Final(d, B, eager) && n >= n' && lost >= lost'
    requires var w := c + d[..B];
             var o := R(w);
             && Balanced(find, repl, w, o, n - n', 0) && RestBalanced(R, find, repl, B, CarryOf(w, o), d[B..], eager, n', lost')
             && |CarryOf(w, o)| == |o| - |o| / 2 && ZeroCount(CarryOf(w, o)) == ZeroCount(o[|o| / 2..]) + lost - lost'
    ensures RestBalanced(R, find, repl, B, c, d, eager, n, lost)
  {
    var w, t := c + d[..B], d[B..];
    var o := R(w);
    WindowBalances(find, repl, w, o, |o| / 2, CarryOf(w, o), t, Rest(R, B, CarryOf(w, o), t, eager), n - n', n', lost - lost', lost');
    Cut(c, d, B);
  }

  lemma LastBalances(R: Bytes -> Bytes, m: Bytes -> nat, find: Bytes, repl: Bytes, B: nat, c: Bytes, d: Bytes, eager: bool)
    requires B >= 1 && Balances(R, m, find, repl) && Final(d, B, eager)
    ensures RestBalanced(R, find, repl, B, c, d, eager, m(c + d), 0)
  {
  }

  lemma {:induction false} RestBalances(R: Bytes -> Bytes, m: Bytes -> nat, find: Bytes, repl: Bytes,
                                        B: nat, c: Bytes, d: Bytes, eager: bool)
    returns (n: nat, lost: nat)
    requires B >= 1 && Balances(R, m, find, repl) && RestFits(R, B, c, d, eager)
    ensures RestBalanced(R, find, repl, B, c, d, eager, n, lost)
    ensures lost == 0 <==> RestLossless(R, B, c, d, eager)
    decreases |d|
  {
    if Final(d, B, eager) {
      n, lost := m(c + d), 0;
      LastBalances(R, m, find, repl, B, c, d, eager);
    } else {
      var w := c + d[..B];
      var lost1 := CarryBalance(w, R(w));
      var n2, lost2 := RestBalances(R, m, find, repl, B, CarryOf(w, R(w)), d[B..], eager);
      n, lost := m(w) + n2, lost1 + lost2;
      NextBalances(R, find, repl, B, c, d, eager, n2, n, lost2, lost);
    }
  }

  ghost predicate WindowsBalanced(R: Bytes -> Bytes, find: Bytes, repl: Bytes, B: nat, d: Bytes, eager: bool, n: nat, lost: nat)
    requires B >= 1
  {
    Balanced(find, repl, d, Windows(R, B, d, eager), n, lost)
  }

  lemma FirstBalances(R: Bytes -> Bytes, find: Bytes, repl: Bytes, B: nat, d: Bytes, eager: bool, n': nat, n: nat, lost: nat)
    requires B >= 1 && !Final(d, 2 * B, eager) && n >= n'
    requires var o := R(d[..2 * B]);
             Balanced(find, repl, d[..2 * B], o, n - n', 0) && RestBalanced(R, find, repl, B, o[|o| / 2..], d[2 * B..], eager, n', lost)
    ensures WindowsBalanced(R, find, repl, B, d, eager, n, lost)
  {
    var w, t := d[..2 * B], d[2 * B..];
    var o := R(w);
    var c := o[|o| / 2..];
    WindowBalances(find, repl, w, o, |o| / 2, c, t, Rest(R, B, c, t, eager), n - n', n', 0, lost);
    Cut([], d, 2 * B);
  }

  lemma OnlyBalances(R: Bytes -> Bytes, m: Bytes -> nat, find: Bytes, repl: Bytes, B: nat, d: Bytes, eager: bool)
    requires B >= 1 && Balances(R, m, find, repl) && Final(d, 2 * B, eager)
    ensures WindowsBalanced(R, find, repl, B, d, eager, m(d), 0)
  {
  }

  lemma WindowsBalance(R: Bytes -> Bytes, m: Bytes -> nat, find: Bytes, repl: Bytes, B: nat, d: Bytes, eager: bool)
    returns (n: nat, lost: nat)
    requires B >= 1 && Balances(R, m, find, repl) && Fits(R, B, d, eager)
    ensures WindowsBalanced(R, find, repl, B, d, eager, n, lost)
    ensures lost == 0 <==> Lossless(R, B, d, eager)
  {
    if Final(d, 2 * B, eager) {
      n, lost := m(d), 0;
      OnlyBalances(R, m, find, repl, B, d, eager);
    } else {
      var w := d[..2 * B];
      var o := R(w);
      var n2, lost2 := RestBalances(R, m, find, repl, B, o[|o| / 2..], d[2 * B..], eager);
      n, lost := m(w) + n2, lost2;
      FirstBalances(R, find, repl, B, d, eager, n2, n, lost);
    }
  }

  /** Lost bytes always show: no later mistake makes up for them. */
  lemma LossShows(find: Bytes, repl: Bytes, B: nat, d: Bytes, eager: bool)
    requires find != [] && B >= 1 && |repl| > |find|
    requires Right(find, repl, B, d, eager)
    ensures Lossless(LiteralRewrite(find, repl), B, d, eager)
  {
    var L, m := LiteralRewrite(find, repl), (w: Bytes) => Matches(find, w);
    forall w
      ensures Balanced(find, repl, w, L(w), m(w), 0)
    {
      ReplaceAllBalances(find, repl, w);
    }
    var n, lost := WindowsBalance(L, m, find, repl, B, d, eager);
    assert Balanced(find, repl, d, L(d), m(d), 0);
    SameProduct(n, m(d), |repl| - |find|);
  }

  // --------------------------------------------- what is right without loss

  lemma LongEnough(find: Bytes, repl: Bytes, B: nat, w: Bytes, t: Bytes)
    requires find != [] && Clear(find, repl) && |repl| > |find| && |find| <= B + 1 && |w| >= B + |find| - 1
    ensures var o := ReplaceAll(find, repl, w);
            Sound(find, repl, w, t) && |o| - |o| / 2 >= |find| - 1
  {
    LengthBound(find, repl, w);
    var o := ReplaceAll(find, repl, w);
    WindowStep(find, repl, w, |o| / 2, t);
  }

  lemma {:induction false} LosslessRest(find: Bytes, repl: Bytes, B: nat, c: Bytes, d: Bytes, eager: bool)
    requires find != [] && B >= 1 && Clear(find, repl) && |repl| > |find| && |find| <= B + 1
    requires RestLossless(LiteralRewrite(find, repl), B, c, d, eager) && |c| >= |find| - 1
    ensures Rest(LiteralRewrite(find, repl), B, c, d, eager) == ReplaceAll(find, repl, c + d)
    decreases |d|
  {
    if !Final(d, B, eager) {
      var w := c + d[..B];
      var o := ReplaceAll(find, repl, w);
      LongEnough(find, repl, B, w, d[B..]);
      LosslessRest(find, repl, B, o[|o| / 2..], d[B..], eager);
      Cut(c, d, B);
    }
  }

  lemma LosslessIsRight(find: Bytes, repl: Bytes, B: nat, d: Bytes, eager: bool)
    requires find != [] && B >= 1 && Clear(find, repl) && |repl| > |find| && |find| <= B + 1
    requires Fits(LiteralRewrite(find, repl), B, d, eager) && Lossless(LiteralRewrite(find, repl), B, d, eager)
    ensures Right(find, repl, B, d, eager)
  {
    if !Final(d, 2 * B, eager) {
      var w := d[..2 * B];
      var o := ReplaceAll(find, repl, w);
      LongEnough(find, repl, B, w, d[2 * B..]);
      LosslessRest(find, repl, B, o[|o| / 2..], d[2 * B..], eager);
      Cut([], d, 2 * B);
    }
  }

  /** A longer replacement streams right on a source only if no window of the run loses
      a byte; if no match can use a byte of the replacement, and the run does not panic,
      exactly then. */
  lemma RightIffLossless(find: Bytes, repl: Bytes, B: nat, d: Bytes, eager: bool)
    requires find != [] && B >= 1 && |repl| > |find|
    requires Fits(LiteralRewrite(find, repl), B, d, eager)
    ensures Right(find, repl, B, d, eager) ==> Lossless(LiteralRewrite(find, repl), B, d, eager)
    ensures Clear(find, repl) && |find| <= B + 1 && Lossless(LiteralRewrite(find, repl), B, d, eager)
            ==> Right(find, repl, B, d, eager)
  {
    if Right(find, repl, B, d, eager) { LossShows(find, repl, B, d, eager); }
    if Clear(find, repl) && |find| <= B + 1 && Lossless(LiteralRewrite(find, repl), B, d, eager) {
      LosslessIsRight(find, repl, B, d, eager);
    }
  }

  // ---------------------------------------------------- the exact condition

  /** A source of three buffers whose second window holds one match, `t` bytes of it
      carried, and `s` more bytes after it. */
  lemma OvergrownWindow(find: Bytes, repl: Bytes, B: nat, t: nat, s: nat)
    requires B >= 1 && |repl| > |find| && t < |find| && t <= B && |find| - t + s == B
    requires s > 0 || repl[|find|..] != Zeros(|repl| - |find|) || |repl| > |find| + 2 * B + 1
    ensures !AlwaysRight(find, repl, B)
  {
    var z, z' := Fill(find, B - t), Fill(find, s);
    var w1, b := Fill(find, 2 * B - t) + find[..t], find[t..] + z';
    Unfinished(find, repl, Fill(find, 2 * B - t), t);
    OneMatch(find, repl, z, z');
    Overflow(find, repl, B, t, s, z + repl + z');
    SecondText(find, B, t, z');
    LossyWindow(find, repl, B, w1, b, z + find + z', z + repl + z');
  }

  lemma SecondText(find: Bytes, B: nat, t: nat, z: Bytes)
    requires t < |find| && t <= B
    ensures (Fill(find, 2 * B - t) + find[..t])[B..] + (find[t..] + z) == Fill(find, B - t) + find + z
  {
    assert (Fill(find, 2 * B - t) + find[..t])[B..] == Fill(find, B - t) + find[..t];
    assert find[..t] + find[t..] == find;
  }

  lemma Overflow(find: Bytes, repl: Bytes, B: nat, t: nat, s: nat, o: Bytes)
    requires B >= 1 && |repl| > |find| && t < |find| && t <= B && |find| - t + s == B
    requires s > 0 || repl[|find|..] != Zeros(|repl| - |find|) || |repl| > |find| + 2 * B + 1
    requires o == Fill(find, B - t) + repl + Fill(find, s)
    ensures o[2 * B..] != Zeros(|o| - 2 * B) || |o| > 4 * B + 1
  {
    if s > 0 {
      assert o[2 * B..][|o| - 2 * B - 1] == Fill(find, s)[s - 1];
    } else {
      assert o[2 * B..] == repl[|find|..];
    }
  }

  lemma SecondWindow(R: Bytes -> Bytes, B: nat, w1: Bytes, b: Bytes, w: Bytes, o: Bytes)
    requires B >= 1 && |w1| == 2 * B && |b| == B && R(w1) == w1 && w == w1[B..] + b && o == R(w)
    ensures Fits(R, B, w1 + b, false) ==> |o| <= 2 * |w| + 1
    ensures Lossless(R, B, w1 + b, false) ==> CarryOf(w, o) == o[|o| / 2..]
  {
    assert (w1 + b)[..2 * B] == w1 && (w1 + b)[2 * B..] == b && b[..B] == b;
  }

  /** A second window that loses bytes or panics makes the source wrong. */
  lemma LossyWindow(find: Bytes, repl: Bytes, B: nat, w1: Bytes, b: Bytes, w: Bytes, o: Bytes)
    requires find != [] && B >= 1 && |repl| > |find| && |w1| == 2 * B && |b| == B
    requires ReplaceAll(find, repl, w1) == w1 && w == w1[B..] + b && o == ReplaceAll(find, repl, w) && |o| > |w|
    requires o[|w|..] != Zeros(|o| - |w|) || |o| > 2 * |w| + 1
    ensures !AlwaysRight(find, repl, B)
  {
    SecondWindow(LiteralRewrite(find, repl), B, w1, b, w, o);
    if Right(find, repl, B, w1 + b, false) {
      LossShows(find, repl, B, w1 + b, false);
      CarryWhole(w, o);
    }
  }

  // What is carried of a replacement is rewritten again unless it is `Unused`.

  lemma SingleUsedFails(find: Bytes, repl: Bytes, i: nat)
    requires |find| == 1 && i < |repl| && |repl| > 1 && repl[i] == find[0]
    ensures !AlwaysRight(find, repl, 1)
  {
    var w, o, t := find + find, repl + repl, Fill(find, 1);
    MatchThen(find, repl, [], []);
    assert [] + find + [] == find && [] + repl + [] == repl;
    MatchFirst(find, repl, find + t);
    MatchFirst(find, repl, find);
    MatchFirst(find, repl, t);
    AsLong(find, repl, t);
    assert w + t == find + (find + t) && o + t == repl + (repl + t);
    assert o[|repl|..] == repl && (repl + t)[i..i + 1] == find;
    CarryFails(find, repl, 1, w, t, i);
  }

  /** The last byte of the replacement is the first of the pattern, or the two bytes
      after its first are the pattern. */
  lemma PairUsedFails(find: Bytes, repl: Bytes)
    requires |find| == 2 && 3 <= |repl| <= 4 && repl[2..] == Zeros(|repl| - 2) && find[0] != 0 as char && repl[1..3] == find
    ensures !AlwaysRight(find, repl, 1)
  {
    assert repl[2] == repl[2..][0] && find[1] == repl[1..3][1];
    if |repl| == 3 {
      var t := Fill(find, 1);
      MatchThen(find, repl, [], t);
      MatchThen(find, repl, [], []);
      assert [] + find + t == find + t && [] + repl + t == repl + t && [] + find + [] == find && [] + repl + [] == repl;
      assert (repl[1..] + t)[0..2] == find;
      CarryFails(find, repl, 1, find, t, 0);
    } else {
      PairTwiceFails(find, repl);
    }
  }

  /** Two matches in a row: of the second all but the first byte is carried. */
  lemma PairTwiceFails(find: Bytes, repl: Bytes)
    requires |find| == 2 && |repl| == 4 && repl[2..] == Zeros(2) && find[0] != 0 as char && repl[1..3] == find
    ensures !AlwaysRight(find, repl, 1)
  {
    var L, a, b := LiteralRewrite(find, repl), find[..1], find[1..];
    var c2, w3 := Zeros(1) + a, Zeros(1) + find;
    var c3 := CarryOf(w3, Zeros(1) + repl);
    PairTexts(find, repl, c3);
    FirstWindow(L, 1, find, find, false, repl, 2);
    CarryKept(Zeros(2) + a, Zeros(2) + a);
    LaterWindow(L, 1, Zeros(2), a, b, false, Zeros(2) + a, Zeros(2) + a, 1, c2);
    LastOfTwo(L, 1, c2, b, w3, Zeros(1) + repl, 2, c3);
    if AlwaysRight(find, repl, 1) { RightOn(find, repl, 1, find + find, false); }
  }

  lemma PairTexts(find: Bytes, repl: Bytes, c: Bytes)
    requires |find| == 2 && find[0] != 0 as char && |c| == 3 && c[..2] == find
    ensures var R := w => ReplaceAll(find, repl, w); 
            && R(find) == repl && |R(find + find)| == 2 * |repl| && R(Zeros(2) + find[..1]) == Zeros(2) + find[..1]
            && R(Zeros(1) + find) == Zeros(1) + repl && |R(c)| == |repl| + 1
  {
    Unfinished(find, repl, Zeros(2), 1);
    MatchThen(find, repl, Zeros(1), []);
    MatchFirst(find, repl, find);
    MatchFirst(find, repl, []);
    MatchFirst(find, repl, c[2..]);
    assert find + [] == find && repl + [] == repl && c == find + c[2..];
    assert Zeros(1) + find + [] == Zeros(1) + find && Zeros(1) + repl + [] == Zeros(1) + repl;
  }

  lemma UsedFails(find: Bytes, repl: Bytes)
    requires 1 <= |find| <= 2 && |find| < |repl| <= |find| + 3 && repl[|find|..] == Zeros(|repl| - |find|)
    requires !Unused(find, repl)
    ensures !AlwaysRight(find, repl, 1)
  {
    var n := |repl|;
    assert repl[n - 1] == repl[|find|..][n - 1 - |find|];
    if |find| == 1 {
      SingleUsedFails(find, repl, if find[0] == 0 as char then n - 1 else 0);
    } else if find[0] == 0 as char {
      assert Last(repl, 1) == find[..1];
      OverlapFails(find, repl, 1, 1);
    } else {
      PairUsedFails(find, repl);
    }
  }

  /** A longer replacement streams right on every source exactly if it is
      `GrowthHarmless`; with a buffer of two or more bytes, none does. */
  lemma GrowthExact(find: Bytes, repl: Bytes, B: nat)
    requires find != [] && B >= 1 && |repl| > |find|
    ensures AlwaysRight(find, repl, B) <==> GrowthHarmless(find, repl, B)
  {
    var m := |find|;
    if GrowthHarmless(find, repl, B) {
      GrowthStreams(find, repl, B);
    } else if m >= B + 2 {
      LongPatternFails(find, repl, B);
    } else if B >= 2 {
      var t := if m + 1 > B then m + 1 - B else 0;
      OvergrownWindow(find, repl, B, t, B + t - m);
    } else if |repl| > m + 3 || repl[m..] != Zeros(|repl| - m) {
      OvergrownWindow(find, repl, B, m - 1, 0);
    } else {
      UsedFails(find, repl);
    }
  }

  /** The smallest case: the last byte of the text becomes zero. */
  lemma GrowthExample()
    ensures Windows(LiteralRewrite("a", "xy"), 1, "aa" + "a", false) == "xy" + ("xy" + ("x" + [0 as char]))
    ensures Fits(LiteralRewrite("a", "xy"), 1, "aa" + "a", false)
    ensures ReplaceAll("a", "xy", "aa" + "a") == "xy" + ("xy" + "xy")
  {
    var L, x := LiteralRewrite("a", "xy"), "x" + [0 as char];
    ExampleTexts(x);
    FirstWindow(L, 1, "aa", "a", false, "xyxy", 2);
    assert "xyxy"[..2] == "xy" && "xyxy"[2..] == "xy" && "xy" + "a" == "xya";
    assert CarryOf("xya", "xyxy") == x;
    LastOfTwo(L, 1, "xy", "a", "xya", "xyxy", 2, x);
    assert ("aa" + "a")[..2] == "aa" && ("aa" + "a")[2..] == "a";
  }

  lemma ExampleTexts(x: Bytes)
    requires 'a' !in x
    ensures ReplaceAll("a", "xy", "aa") == "xyxy" && ReplaceAll("a", "xy", "xya") == "xyxy"
    ensures ReplaceAll("a", "xy", x) == x && ReplaceAll("a", "xy", "aa" + "a") == "xy" + ("xy" + "xy")
  {
    MatchFirst("a", "xy", []);
    MatchFirst("a", "xy", "a");
    MatchFirst("a", "xy", "aa");
    assert "a" + [] == "a" && "a" + "a" == "aa" && "a" + "aa" == "aa" + "a" && "xy" + [] == "xy" && "xy" + "xy" == "xyxy";
    SkipForeign("a", "xy", "xy", "a");
    assert "xy" + "a" == "xya";
    SkipForeign("a", "xy", x, []);
    assert x + [] == x;
  }

  lemma LaterWindow(R: Bytes -> Bytes, B: nat, c: Bytes, b: Bytes, t: Bytes, eager: bool, w: Bytes, o: Bytes, k: nat, c': Bytes)
    requires B >= 1 && |b| == B && (t != [] || !eager) && w == c + b && o == R(w) && k == |o| / 2 && c' == CarryOf(w, o)
    ensures Rest(R, B, c, b + t, eager) == o[..k] + Rest(R, B, c', t, eager)
  {
    assert (b + t)[..B] == b && (b + t)[B..] == t;
  }

  lemma LastOfTwo(R: Bytes -> Bytes, B: nat, c: Bytes, d: Bytes, w: Bytes, o: Bytes, k: nat, c': Bytes)
    requires B >= 1 && |d| == B && w == c + d && o == R(w) && k == |o| / 2 && c' == CarryOf(w, o)
    ensures Rest(R, B, c, d, false) == o[..k] + R(c') && (|o| <= 2 * |w| + 1 ==> RestFits(R, B, c, d, false))
  {
    assert d[..B] == d && d[B..] == [] && c' + [] == c';
  }
}
