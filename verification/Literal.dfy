/** Leftmost, non-overlapping replacement of a non-empty literal: what
    `regexp.ReplaceAll` computes for a pattern without metacharacters and a
    replacement without `$` templates. */
module Literal {

  /** Bytes of a body, or characters of a header or URL: one alphabet for both. */
  type Bytes = string

  function ReplaceAll(find: Bytes, repl: Bytes, s: Bytes): Bytes
    requires find != []
    decreases |s|
  {
    if |s| < |find| then s
    else if find <= s then repl + ReplaceAll(find, repl, s[|find|..])
    else [s[0]] + ReplaceAll(find, repl, s[1..])
  }

  predicate At(find: Bytes, s: Bytes, i: int) {
    0 <= i <= |s| - |find| && s[i..i + |find|] == find
  }

  /** The pattern does not occur in `s`. */
  predicate Free(find: Bytes, s: Bytes) {
    forall i :: 0 <= i <= |s| - |find| ==> !At(find, s, i)
  }

  /** A pattern laid over the replacement, `i` bytes from its start, agrees with it
      wherever the two meet. */
  predicate Overlaps(find: Bytes, repl: Bytes, i: int) {
    forall k :: 0 <= k < |find| && 0 <= i + k < |repl| ==> find[k] == repl[i + k]
  }

  /** No occurrence of the pattern can start with a byte of a replacement. */
  predicate Sealed(find: Bytes, repl: Bytes) {
    forall i :: 0 <= i < |repl| ==> !Overlaps(find, repl, i)
  }

  /** An occurrence can start with the `p` bytes before a match and go on with its
      replacement: together they fit the pattern, and the match is the first one in
      those bytes and the pattern. */
  predicate LeadsIn(find: Bytes, repl: Bytes, p: int) {
    && 0 < p < |find| && Overlaps(find, repl, 0 - p)
    && forall q :: 0 <= q < p ==> !At(find, find[..p] + find, q)
  }

  /** No occurrence of the pattern can make use of a byte of a replacement. */
  predicate Clear(find: Bytes, repl: Bytes) {
    Sealed(find, repl) && forall p :: 0 < p < |find| ==> !LeadsIn(find, repl, p)
  }

  /** At least not in texts of up to `n` bytes. */
  predicate ClearWithin(find: Bytes, repl: Bytes, n: nat) {
    Sealed(find, repl) && forall p :: 0 < p < |find| && LeadsIn(find, repl, p) ==> |find| + p > n
  }

  /** In particular when the two have no byte in common. */
  lemma DisjointIsClear(find: Bytes, repl: Bytes)
    requires find != [] && repl != [] && forall b :: b in repl ==> b !in find
    ensures Clear(find, repl)
  {
    forall i | -|find| < i < |repl|
      ensures !Overlaps(find, repl, i)
    {
      var k := if i < 0 then -i else 0;
      assert repl[i + k] in repl && find[k] in find;
    }
    forall p | 0 < p < |find|
      ensures !LeadsIn(find, repl, p)
    {
      assert !Overlaps(find, repl, 0 - p);
    }
  }

  // --------------------------------------------------- prefixes and ends

  /** All but the last `n` bytes. */
  function Front(s: Bytes, n: nat): (t: Bytes)
    requires n <= |s|
    ensures |t| == |s| - n
  {
    s[..|s| - n]
  }

  /** The last `n` bytes. */
  function Last(s: Bytes, n: nat): (t: Bytes)
    requires n <= |s|
    ensures |t| == n
  {
    s[|s| - n..]
  }

  lemma PrefixOfConcat(f: Bytes, w: Bytes, t: Bytes)
    requires |f| <= |w|
    ensures f <= w + t <==> f <= w
  {
    assert (w + t)[..|f|] == w[..|f|];
  }

  lemma PrefixCons(f: Bytes, s: Bytes)
    requires f != [] && s != []
    ensures f <= s <==> f[0] == s[0] && f[1..] <= s[1..]
  {
    assert s == [s[0]] + s[1..] && f == [f[0]] + f[1..];
    if f <= s { assert f[1..] == s[1..][..|f| - 1]; }
  }

  /** Two texts that agree as far as both reach. */
  predicate Meet(a: Bytes, b: Bytes) {
    a <= b || b <= a
  }

  /** A match running into a replacement overlaps it. */
  lemma OverlapAtFront(find: Bytes, repl: Bytes, k: nat, x: Bytes)
    requires k < |find| && Meet(find[k..], repl + x)
    ensures Overlaps(find, repl, 0 - k)
  {
    forall j | 0 <= j < |find| && 0 <= j - k < |repl|
      ensures find[j] == repl[j - k]
    {
      assert find[k..][j - k] == (repl + x)[j - k];
    }
  }

  /** A match inside a replacement overlaps it. */
  lemma OverlapInside(find: Bytes, repl: Bytes, i: nat, x: Bytes)
    requires i < |repl| && Meet(find, repl[i..] + x)
    ensures Overlaps(find, repl, i)
  {
    forall k | 0 <= k < |find| && i + k < |repl|
      ensures find[k] == repl[i + k]
    {
      assert (repl[i..] + x)[k] == repl[i + k];
    }
  }

  /** Bytes that cannot start a match are passed over unchanged. */
  lemma {:induction false} SkipForeign(find: Bytes, repl: Bytes, g: Bytes, t: Bytes)
    requires find != [] && find[0] !in g
    ensures ReplaceAll(find, repl, g + t) == g + ReplaceAll(find, repl, t)
    decreases |g|
  {
    if g == [] {
      assert g + t == t;
    } else {
      var s := g + t;
      assert g[0] in g && s[0] == g[0];
      assert s[1..] == g[1..] + t;
      SkipForeign(find, repl, g[1..], t);
      PrefixCons(find, s);
      var x := ReplaceAll(find, repl, t);
      assert [g[0]] + (g[1..] + x) == g + x;
      if |s| < |find| { assert s == g + x; }
    }
  }

  lemma PassOne(find: Bytes, repl: Bytes, b: char, x: Bytes)
    requires find != [] && !(find <= [b] + x)
    ensures ReplaceAll(find, repl, [b] + x) == [b] + ReplaceAll(find, repl, x)
  {
    assert ([b] + x)[1..] == x;
  }

  lemma MatchFirst(find: Bytes, repl: Bytes, t: Bytes)
    requires find != []
    ensures ReplaceAll(find, repl, find + t) == repl + ReplaceAll(find, repl, t)
  {
    assert (find + t)[|find|..] == t;
  }

  /** A single match between bytes that cannot start one. */
  lemma OneMatch(find: Bytes, repl: Bytes, p: Bytes, t: Bytes)
    requires find != [] && find[0] !in p && find[0] !in t
    ensures ReplaceAll(find, repl, p + find + t) == p + repl + t
  {
    assert p + find + t == p + (find + t) && p + repl + t == p + (repl + t);
    SkipForeign(find, repl, p, find + t);
    MatchFirst(find, repl, t);
    assert t + [] == t;
    SkipForeign(find, repl, t, []);
  }

  /** Inserted text is passed over unchanged as well. */
  lemma {:induction false} SkipReplacement(find: Bytes, repl: Bytes, i: nat, x: Bytes)
    requires find != [] && Sealed(find, repl) && i <= |repl|
    ensures ReplaceAll(find, repl, repl[i..] + x) == repl[i..] + ReplaceAll(find, repl, x)
    decreases |repl| - i
  {
    var s := repl[i..] + x;
    if i == |repl| {
      assert s == x;
    } else {
      assert s[0] == repl[i] && s[1..] == repl[i + 1..] + x;
      SkipReplacement(find, repl, i + 1, x);
      if find <= s { OverlapInside(find, repl, i, x); }
      var y := ReplaceAll(find, repl, x);
      assert [repl[i]] + (repl[i + 1..] + y) == repl[i..] + y;
      if |s| < |find| { assert s == repl[i..] + y; }
    }
  }

  // ------------------------------------------------------------- rescanning

  /** No match starts among the bytes `g` in front of `w`. */
  predicate Passed(find: Bytes, g: Bytes, w: Bytes) {
    forall q :: 0 <= q < |g| ==> !(find <= (g + w)[q..])
  }

  lemma PassedOn(find: Bytes, g: Bytes, w: Bytes)
    requires g <= find && |g| < |find| && w != [] && w[0] == find[|g|] && !(find <= w) && Passed(find, g, w)
    ensures g + [w[0]] <= find && Passed(find, g + [w[0]], w[1..])
  {
    var h := g + [w[0]];
    assert h == find[..|g| + 1];
    assert h + w[1..] == g + w;
    assert (g + w)[|g|..] == w;
  }

  /** The beginning `g` of a pattern does not go on into the replacement of the match
      that follows: they would have been a match themselves. */
  lemma NoLeadIn(find: Bytes, repl: Bytes, g: Bytes, w: Bytes, x: Bytes, n: nat)
    requires repl != [] && ClearWithin(find, repl, n) && g <= find && |g| < |find| && find <= w
    requires |g| + |w| <= n && Passed(find, g, w)
    ensures !Meet(find[|g|..], repl + x)
  {
    var p := |g|;
    if Meet(find[p..], repl + x) {
      OverlapAtFront(find, repl, p, x);
      if p > 0 {
        assert !LeadsIn(find, repl, p);
        var q :| 0 <= q < p && At(find, find[..p] + find, q);
        EarlierMatch(find, g, w, q);
      }
    }
  }

  lemma EarlierMatch(find: Bytes, g: Bytes, w: Bytes, q: nat)
    requires g <= find && find <= w && q < |g| && At(find, find[..|g|] + find, q)
    ensures find <= (g + w)[q..]
  {
    assert g == find[..|g|];
    assert (g + w)[q..][..|find|] == (g + w)[q..q + |find|] == (g + find)[q..q + |find|] by {
      assert g + w == g + find + w[|find|..];
    }
  }

  /** If what follows the beginning `g` of the pattern starts the rewritten text, it
      already started the original text: a match never uses a rewritten byte. */
  lemma {:induction false} MatchIsOriginal(find: Bytes, repl: Bytes, g: Bytes, w: Bytes, t: Bytes, n: nat)
    requires find != [] && repl != [] && ClearWithin(find, repl, n) && |g| + |w| <= n
    requires g <= find && |find| - |g| <= |w| && Passed(find, g, w)
    requires find[|g|..] <= ReplaceAll(find, repl, w) + t
    ensures find[|g|..] <= w
    decreases |w|
  {
    var k := |g|;
    if k < |find| {
      if |w| < |find| {
        PrefixOfConcat(find[k..], w, t);
      } else if find <= w {
        var x := ReplaceAll(find, repl, w[|find|..]);
        assert repl + x + t == repl + (x + t);
        NoLeadIn(find, repl, g, w, x + t, n);
      } else {
        var x := ReplaceAll(find, repl, w[1..]);
        Onward(find, k, w[0], x + t);
        assert [w[0]] + x + t == [w[0]] + (x + t);
        PassedOn(find, g, w);
        MatchIsOriginal(find, repl, g + [w[0]], w[1..], t, n);
        PrefixCons(find[k..], w);
        assert find[k..][1..] == find[k + 1..];
      }
    }
  }

  lemma Onward(find: Bytes, k: nat, b: char, x: Bytes)
    requires k < |find|
    ensures find[k..] <= [b] + x <==> find[k] == b && find[k + 1..] <= x
  {
    PrefixCons(find[k..], [b] + x);
    assert find[k..][1..] == find[k + 1..] && ([b] + x)[1..] == x;
  }

  lemma MatchAtFront(find: Bytes, repl: Bytes, w: Bytes, t: Bytes, n: nat)
    requires find != [] && repl != [] && ClearWithin(find, repl, n) && |w| <= n
    requires |w| >= |find| && !(find <= w)
    ensures !(find <= [w[0]] + (ReplaceAll(find, repl, w[1..]) + t))
  {
    var x := ReplaceAll(find, repl, w[1..]) + t;
    assert find[0..] == find;
    Onward(find, 0, w[0], x);
    assert w == [w[0]] + w[1..];
    Onward(find, 0, w[0], w[1..]);
    if find <= [w[0]] + x {
      PassedOn(find, [], w);
      assert [] + [w[0]] == [w[0]];
      MatchIsOriginal(find, repl, [w[0]], w[1..], t, n);
    }
  }

  /** Scanning already rewritten text a second time changes nothing, whatever follows. */
  lemma {:induction false} RescanHarmless(find: Bytes, repl: Bytes, w: Bytes, t: Bytes, n: nat)
    requires find != [] && repl != [] && ClearWithin(find, repl, n) && |w| <= n
    ensures ReplaceAll(find, repl, ReplaceAll(find, repl, w) + t) == ReplaceAll(find, repl, w + t)
    decreases |w|
  {
    if |w| < |find| {
    } else if find <= w {
      var v := w[|find|..];
      RescanHarmless(find, repl, v, t, n);
      assert w == find + v && find + v + t == find + (v + t);
      MatchFirst(find, repl, v + t);
      SkipReplaced(find, repl, ReplaceAll(find, repl, v), t);
    } else {
      var v := w[1..];
      RescanHarmless(find, repl, v, t, n);
      MatchAtFront(find, repl, w, t, n);
      PrefixOfConcat(find, w, t);
      assert w + t == [w[0]] + (v + t);
      PassBoth(find, repl, w[0], ReplaceAll(find, repl, v), v, t);
    }
  }

  lemma SkipReplaced(find: Bytes, repl: Bytes, x: Bytes, t: Bytes)
    requires find != [] && Sealed(find, repl)
    ensures ReplaceAll(find, repl, repl + x + t) == repl + ReplaceAll(find, repl, x + t)
  {
    assert repl + x + t == repl[0..] + (x + t) && repl[0..] == repl;
    SkipReplacement(find, repl, 0, x + t);
  }

  /** Passing one byte over keeps two texts that are rewritten alike alike. */
  lemma PassBoth(find: Bytes, repl: Bytes, b: char, o: Bytes, v: Bytes, t: Bytes)
    requires find != [] && !(find <= [b] + (o + t)) && !(find <= [b] + (v + t))
    requires ReplaceAll(find, repl, o + t) == ReplaceAll(find, repl, v + t)
    ensures ReplaceAll(find, repl, [b] + o + t) == ReplaceAll(find, repl, [b] + (v + t))
  {
    PassOne(find, repl, b, o + t);
    PassOne(find, repl, b, v + t);
    assert [b] + o + t == [b] + (o + t);
  }

  // ------------------------------------------------------- pattern-free text

  lemma FreeCons(find: Bytes, b: char, x: Bytes)
    requires find != [] && Free(find, x) && !(find <= [b] + x)
    ensures Free(find, [b] + x)
  {
    forall i | 0 <= i <= |[b] + x| - |find|
      ensures !At(find, [b] + x, i)
    {
      if i > 0 {
        assert ([b] + x)[i..i + |find|] == x[i - 1..i - 1 + |find|];
        assert !At(find, x, i - 1);
      }
    }
  }

  lemma FreeSuffix(find: Bytes, o: Bytes, k: nat)
    requires Free(find, o) && k <= |o|
    ensures Free(find, o[k..])
  {
    forall i | 0 <= i <= |o[k..]| - |find|
      ensures !At(find, o[k..], i)
    {
      assert o[k..][i..i + |find|] == o[k + i..k + i + |find|];
      assert !At(find, o, k + i);
    }
  }

  lemma {:induction false} FreeReplacement(find: Bytes, repl: Bytes, i: nat, x: Bytes)
    requires find != [] && Sealed(find, repl) && Free(find, x) && i <= |repl|
    ensures Free(find, repl[i..] + x)
    decreases |repl| - i
  {
    if i == |repl| {
      assert repl[i..] + x == x;
    } else {
      FreeReplacement(find, repl, i + 1, x);
      assert repl[i..] + x == [repl[i]] + (repl[i + 1..] + x);
      if find <= repl[i..] + x { OverlapInside(find, repl, i, x); }
      FreeCons(find, repl[i], repl[i + 1..] + x);
    }
  }

  /** Rewritten text contains no occurrence of the pattern. */
  lemma {:induction false} RewrittenIsFree(find: Bytes, repl: Bytes, w: Bytes, n: nat)
    requires find != [] && repl != [] && ClearWithin(find, repl, n) && |w| <= n
    ensures Free(find, ReplaceAll(find, repl, w))
    decreases |w|
  {
    if |w| < |find| {
    } else if find <= w {
      var x := ReplaceAll(find, repl, w[|find|..]);
      RewrittenIsFree(find, repl, w[|find|..], n);
      FreeReplacement(find, repl, 0, x);
      assert repl[0..] + x == repl + x;
    } else {
      var x := ReplaceAll(find, repl, w[1..]);
      RewrittenIsFree(find, repl, w[1..], n);
      MatchAtFront(find, repl, w, [], n);
      assert x + [] == x;
      FreeCons(find, w[0], x);
    }
  }

  /** No match that needs more text than `o` can start among its first `k` bytes. */
  predicate Cuttable(find: Bytes, o: Bytes, k: nat)
    requires k <= |o|
  {
    forall n :: |o| - k < n < |find| && n <= |o| ==> !(Last(o, n) <= find)
  }

  lemma ConsTake(s: Bytes, k: nat, x: Bytes)
    requires 0 < k <= |s|
    ensures [s[0]] + (s[1..][..k - 1] + x) == s[..k] + x
    ensures s[1..][k - 1..] == s[k..]
  {
    assert [s[0]] + s[1..][..k - 1] == s[..k];
  }

  lemma CuttableTail(find: Bytes, o: Bytes, k: nat)
    requires 0 < k <= |o| && Cuttable(find, o, k)
    ensures Cuttable(find, o[1..], k - 1)
  {
    forall n | |o| - k < n < |find| && n <= |o[1..]|
      ensures !(Last(o[1..], n) <= find)
    {
      assert Last(o[1..], n) == Last(o, n);
    }
  }

  lemma PrefixOfLonger(o: Bytes, f: Bytes, t: Bytes)
    requires |o| <= |f| && f <= o + t
    ensures o <= f
  {
    assert f[..|o|] == (o + t)[..|o|] == o;
  }

  /** No match starts at the front of pattern-free text that can be cut after it. */
  lemma NoMatchYet(find: Bytes, o: Bytes, t: Bytes)
    requires find != [] && o != [] && Free(find, o) && Cuttable(find, o, 1)
    ensures !(find <= o + t)
  {
    if |find| <= |o| {
      PrefixOfConcat(find, o, t);
      assert !At(find, o, 0);
    } else {
      assert Last(o, |o|) == o;
      if find <= o + t { PrefixOfLonger(o, find, t); }
    }
  }

  /** A prefix of pattern-free text that can be cut off can be emitted at once. */
  lemma {:induction false} EmitPrefix(find: Bytes, repl: Bytes, o: Bytes, k: nat, t: Bytes)
    requires find != [] && Free(find, o) && k <= |o| && Cuttable(find, o, k)
    ensures ReplaceAll(find, repl, o + t) == o[..k] + ReplaceAll(find, repl, o[k..] + t)
    decreases k
  {
    var x := ReplaceAll(find, repl, o[k..] + t);
    if k == 0 {
      assert o[..0] + x == x && o[0..] == o;
    } else {
      NoMatchYet(find, o, t);
      FreeSuffix(find, o, 1);
      CuttableTail(find, o, k);
      EmitPrefix(find, repl, o[1..], k - 1, t);
      assert (o + t)[1..] == o[1..] + t;
      ConsTake(o, k, x);
      if |o + t| < |find| { assert o + t == o[..k] + (o[k..] + t); }
    }
  }

  /** One window of the streaming form: rewrite `w`, emit the first `k` bytes,
      carry the rest; the whole-text meaning is unchanged. */
  lemma WindowStep(find: Bytes, repl: Bytes, w: Bytes, k: nat, t: Bytes)
    requires find != [] && repl != [] && ClearWithin(find, repl, |w|)
    requires k <= |ReplaceAll(find, repl, w)| && Cuttable(find, ReplaceAll(find, repl, w), k)
    ensures var o := ReplaceAll(find, repl, w);
            ReplaceAll(find, repl, w + t) == o[..k] + ReplaceAll(find, repl, o[k..] + t)
  {
    RescanHarmless(find, repl, w, t, |w|);
    RewrittenIsFree(find, repl, w, |w|);
    EmitPrefix(find, repl, ReplaceAll(find, repl, w), k, t);
  }

  // -------------------------------------------------------------- lengths

  /** A replacement that is not longer never lengthens a text, one that is not
      shorter never shortens it. */
  lemma {:induction false} LengthBound(find: Bytes, repl: Bytes, w: Bytes)
    requires find != []
    ensures |repl| <= |find| ==> |ReplaceAll(find, repl, w)| <= |w|
    ensures |repl| >= |find| ==> |ReplaceAll(find, repl, w)| >= |w|
    decreases |w|
  {
    if |w| < |find| {
    } else if find <= w {
      LengthBound(find, repl, w[|find|..]);
    } else {
      LengthBound(find, repl, w[1..]);
    }
  }

  /** The length to which at least `n` bytes shrink when every `m` of them may be
      replaced by `r`: the largest bound that never falls when `n` grows. */
  function Low(m: nat, r: nat, n: nat): nat
    requires m >= 1
  {
    if n < m then (if n < r then n else r) else r + Low(m, r, n - m)
  }

  lemma {:induction false} LowSteps(m: nat, r: nat, n: nat)
    requires 1 <= m && r <= m
    ensures Low(m, r, n) <= Low(m, r, n + 1) <= Low(m, r, n) + 1
    decreases n
  {
    if n >= m { LowSteps(m, r, n - m); }
  }

  lemma {:induction false} LowMono(m: nat, r: nat, a: nat, b: nat)
    requires 1 <= m && r <= m && a <= b
    ensures Low(m, r, a) <= Low(m, r, b)
    decreases b - a
  {
    if a < b {
      LowSteps(m, r, a);
      LowMono(m, r, a + 1, b);
    }
  }

  /** How far a replacement that does not lengthen its match can shrink a text. */
  lemma {:induction false} ShrinkBound(find: Bytes, repl: Bytes, w: Bytes)
    requires find != [] && |repl| <= |find|
    ensures |ReplaceAll(find, repl, w)| >= Low(|find|, |repl|, |w|)
    decreases |w|
  {
    if |w| < |find| {
    } else if find <= w {
      ShrinkBound(find, repl, w[|find|..]);
    } else {
      ShrinkBound(find, repl, w[1..]);
      LowSteps(|find|, |repl|, |w| - 1);
    }
  }

  /** A rewritten text that could continue the beginning `g` of the pattern was not
      rewritten at all. */
  lemma {:induction false} WholeIsOriginal(find: Bytes, repl: Bytes, g: Bytes, w: Bytes, n: nat)
    requires find != [] && repl != [] && ClearWithin(find, repl, n) && |g| + |w| <= n
    requires g <= find && Passed(find, g, w) && ReplaceAll(find, repl, w) <= find[|g|..]
    ensures |ReplaceAll(find, repl, w)| == |w|
    decreases |w|
  {
    if |w| < |find| {
    } else if find <= w {
      NoLeadIn(find, repl, g, w, ReplaceAll(find, repl, w[|find|..]), n);
    } else {
      var x := ReplaceAll(find, repl, w[1..]);
      TailCons(find, w[0], x, |g|);
      PassedOn(find, g, w);
      WholeIsOriginal(find, repl, g + [w[0]], w[1..], n);
    }
  }

  lemma TailCons(find: Bytes, b: char, x: Bytes, s: nat)
    requires s <= |find| && [b] + x <= find[s..]
    ensures s < |find| && find[s] == b && x <= find[s + 1..]
  {
    assert |find[s..]| >= 1 && ([b] + x)[1..] == x;
    assert find[s..][1..] == find[s + 1..];
    PrefixCons([b] + x, find[s..]);
  }

  /** The end of a rewritten text that could begin a match was not rewritten either:
      what stands before it is what its text before the same number of bytes became. */
  lemma {:induction false} TailIsOriginal(find: Bytes, repl: Bytes, w: Bytes, n: nat, most: nat)
    requires find != [] && repl != [] && ClearWithin(find, repl, most) && |w| <= most
    requires n <= |ReplaceAll(find, repl, w)| && Last(ReplaceAll(find, repl, w), n) <= find
    ensures n <= |w| && |ReplaceAll(find, repl, w)| == |ReplaceAll(find, repl, Front(w, n))| + n
    decreases |w|
  {
    var o := ReplaceAll(find, repl, w);
    if |w| < |find| {
      assert ReplaceAll(find, repl, Front(w, n)) == Front(w, n);
    } else if n == |o| {
      assert Last(o, n) == o && find[0..] == find;
      WholeIsOriginal(find, repl, [], w, most);
      assert Front(w, n) == [];
    } else if find <= w {
      TailAfterMatch(find, repl, ReplaceAll(find, repl, w[|find|..]), n);
      TailIsOriginal(find, repl, w[|find|..], n, most);
      MatchKept(find, repl, w, n);
    } else {
      TailAfterByte(w[0], ReplaceAll(find, repl, w[1..]), n);
      TailIsOriginal(find, repl, w[1..], n, most);
      Unmatched(find, repl, w, n);
    }
  }

  /** Such an end does not reach into a replacement. */
  lemma TailAfterMatch(find: Bytes, repl: Bytes, x: Bytes, n: nat)
    requires find != [] && Sealed(find, repl) && n < |repl + x| && Last(repl + x, n) <= find
    ensures n <= |x| && Last(repl + x, n) == Last(x, n)
  {
    var i := |repl| + |x| - n;
    assert i < |repl| ==> Last(repl + x, n) == repl[i..] + x;
    if i < |repl| { OverlapInside(find, repl, i, x); }
  }

  lemma TailAfterByte(b: char, x: Bytes, n: nat)
    requires n < |[b] + x|
    ensures n <= |x| && Last([b] + x, n) == Last(x, n)
  {
  }

  lemma MatchKept(find: Bytes, repl: Bytes, w: Bytes, n: nat)
    requires find != [] && find <= w && n <= |w[|find|..]|
    ensures var w' := w[|find|..];
            |ReplaceAll(find, repl, Front(w, n))| == |repl| + |ReplaceAll(find, repl, Front(w', n))|
  {
    assert Front(w, n) + Last(w, n) == w;
    PrefixOfConcat(find, Front(w, n), Last(w, n));
    assert Front(w, n)[|find|..] == Front(w[|find|..], n);
  }

  /** Cutting a text short does not create a match at its front. */
  lemma Unmatched(find: Bytes, repl: Bytes, w: Bytes, n: nat)
    requires find != [] && n < |w| && !(find <= w)
    ensures var w' := w[1..];
            |ReplaceAll(find, repl, Front(w, n))| == 1 + |ReplaceAll(find, repl, Front(w', n))|
  {
    assert Front(w, n)[1..] == Front(w[1..], n);
    if |find| <= |w| - n {
      assert Front(w, n) + Last(w, n) == w;
      PrefixOfConcat(find, Front(w, n), Last(w, n));
    }
  }

  /** Replacing by anything else changes every text in which the pattern occurs. */
  lemma {:induction false} OccurrenceShows(find: Bytes, repl: Bytes, x: Bytes, i: int)
    requires find != [] && repl != find && At(find, x, i)
    ensures ReplaceAll(find, repl, x) != x
    decreases |x|
  {
    if find <= x {
      var y := x[|find|..];
      LengthBound(find, repl, y);
      assert x == find + y;
      if |repl| == |find| {
        assert (repl + ReplaceAll(find, repl, y))[..|find|] == repl && x[..|find|] == find;
      }
    } else {
      assert x[1..][i - 1..i - 1 + |find|] == x[i..i + |find|];
      OccurrenceShows(find, repl, x[1..], i - 1);
      assert x == [x[0]] + x[1..];
    }
  }
}
