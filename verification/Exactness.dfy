/** Where streaming find and replace goes wrong: sources for every pattern and
    replacement outside the conditions of `Streaming`, and with them conditions that
    are exact. */
module Exactness {
  import opened Literal
  import opened Window
  import opened Streaming

  /** A byte that cannot start a match and is not zero. */
  function Filler(find: Bytes): (z: char)
    requires find != []
    ensures z != find[0] && z != 0 as char
  {
    if find[0] == 'y' then 'z' else 'y'
  }

  function Fill(find: Bytes, n: nat): (s: Bytes)
    requires find != []
    ensures |s| == n && find[0] !in s
  {
    seq(n, _ => Filler(find))
  }

  lemma RightOn(find: Bytes, repl: Bytes, B: nat, d: Bytes, eager: bool)
    requires find != [] && B >= 1 && AlwaysRight(find, repl, B)
    ensures Windows(LiteralRewrite(find, repl), B, d, eager) == ReplaceAll(find, repl, d)
  {
    assert Right(find, repl, B, d, eager);
  }

  lemma Wrong(find: Bytes, repl: Bytes, B: nat, d: Bytes, eager: bool)
    requires find != [] && B >= 1
    requires Windows(LiteralRewrite(find, repl), B, d, eager) != LiteralRewrite(find, repl)(d)
    ensures !AlwaysRight(find, repl, B)
  {
    assert !Right(find, repl, B, d, eager);
  }

  lemma FirstWindow(R: Bytes -> Bytes, B: nat, w: Bytes, t: Bytes, eager: bool, o: Bytes, k: nat)
    requires B >= 1 && |w| == 2 * B && (t != [] || !eager) && o == R(w) && k == |o| / 2
    ensures Windows(R, B, w + t, eager) == o[..k] + Rest(R, B, o[k..], t, eager)
  {
    assert (w + t)[..2 * B] == w && (w + t)[2 * B..] == t;
  }

  // ------------------------------------------------------- long patterns

  lemma {:induction false} ShortRest(find: Bytes, repl: Bytes, B: nat, c: Bytes, d: Bytes, eager: bool)
    requires find != [] && B >= 1 && |c| + |d| < |find|
    ensures Rest(LiteralRewrite(find, repl), B, c, d, eager) == c + d
    decreases |d|
  {
    if !Final(d, B, eager) {
      var w := c + d[..B];
      CarryKept(w, w);
      ShortRest(find, repl, B, w[|w| / 2..], d[B..], eager);
      Reassemble(w, |w| / 2, d[B..]);
      Cut(c, d, B);
    }
  }

  /** The beginning of a match is passed over until its end is there. */
  lemma Unfinished(find: Bytes, repl: Bytes, z: Bytes, k: nat)
    requires k < |find| && find[0] !in z
    ensures ReplaceAll(find, repl, z + find[..k]) == z + find[..k]
  {
    SkipForeign(find, repl, z, find[..k]);
  }

  /** With a pattern longer than bufferSize + 1 bytes some match is torn apart,
      whatever is to be put in its place. */
  lemma LongPatternFails(find: Bytes, repl: Bytes, B: nat)
    requires B >= 1 && repl != find && |find| >= B + 2
    ensures !AlwaysRight(find, repl, B)
  {
    var z := Fill(find, B - 1);
    var d := z + find;
    Torn(find, repl, B, z);
    assert At(find, d, B - 1);
    OccurrenceShows(find, repl, d, B - 1);
    if AlwaysRight(find, repl, B) { RightOn(find, repl, B, d, false); }
  }

  lemma Torn(find: Bytes, repl: Bytes, B: nat, z: Bytes)
    requires B >= 1 && |find| >= B + 2 && |z| == B - 1 && find[0] !in z
    ensures Windows(LiteralRewrite(find, repl), B, z + find, false) == z + find
  {
    var w, t := z + find[..B + 1], find[B + 1..];
    assert w + t == z + find by { assert find[..B + 1] + t == find; }
    Unfinished(find, repl, z, B + 1);
    FirstWindow(LiteralRewrite(find, repl), B, w, t, false, w, B);
    ShortRest(find, repl, B, w[B..], t, false);
    Reassemble(w, B, t);
  }

  // ---------------------------------------- carried text that is rewritten again

  /** A first window, and `t` after it that rewriting all at once leaves alone: streaming
      does not if the pattern occurs in the carry with `t`. */
  lemma CarryFails(find: Bytes, repl: Bytes, B: nat, w: Bytes, t: Bytes, i: int)
    requires find != [] && B >= 1 && repl != find && |w| == 2 * B && 1 <= |t| <= B
    requires var o := ReplaceAll(find, repl, w);
             ReplaceAll(find, repl, w + t) == o + t && At(find, o[|o| / 2..] + t, i)
    ensures !AlwaysRight(find, repl, B)
  {
    var o := ReplaceAll(find, repl, w);
    var k := |o| / 2;
    var x := o[k..] + t;
    OccurrenceShows(find, repl, x, i);
    FirstWindow(LiteralRewrite(find, repl), B, w, t, true, o, k);
    Reassemble(o, k, t);
    SamePrefix(o[..k], ReplaceAll(find, repl, x), x);
    if AlwaysRight(find, repl, B) { RightOn(find, repl, B, w + t, true); }
  }

  /** In particular if the rewritten window ends with the first `j` bytes of the pattern
      and the others follow. */
  lemma JoinFails(find: Bytes, repl: Bytes, B: nat, w: Bytes, j: nat)
    requires find != [] && B >= 1 && repl != find && |w| == 2 * B && 1 <= j < |find| && |find| - j <= B
    requires var o := ReplaceAll(find, repl, w);
             && ReplaceAll(find, repl, w + find[j..]) == o + find[j..]
             && j <= |o| - |o| / 2 && Last(o, j) == find[..j]
    ensures !AlwaysRight(find, repl, B)
  {
    var o := ReplaceAll(find, repl, w);
    Joined(find, o, |o| / 2, j);
    CarryFails(find, repl, B, w, find[j..], |o| - |o| / 2 - j);
  }

  lemma Joined(find: Bytes, o: Bytes, k: nat, j: nat)
    requires j <= |find| && k + j <= |o| && Last(o, j) == find[..j]
    ensures At(find, o[k..] + find[j..], |o| - k - j)
  {
    var x, i := o[k..] + find[j..], |o| - k - j;
    assert x[i..i + |find|] == Last(o, j) + find[j..];
    assert find[..j] + find[j..] == find;
  }

  lemma SamePrefix(p: Bytes, a: Bytes, b: Bytes)
    ensures p + a == p + b <==> a == b
  {
    assert (p + a)[|p|..] == a && (p + b)[|p|..] == b;
  }

  /** If the replacement ends with `j` bytes that start the pattern, carried text is
      rewritten again, whatever the size of the buffer. */
  lemma OverlapFails(find: Bytes, repl: Bytes, B: nat, j: nat)
    requires find != [] && B >= 1 && repl != find && 1 <= j < |find| && j <= |repl|
    requires Last(repl, j) == find[..j]
    ensures !AlwaysRight(find, repl, B)
  {
    if |find| >= B + 2 {
      LongPatternFails(find, repl, B);
    } else {
      var z, t := Fill(find, 2 * B - |find|), find[j..];
      MatchTwice(find, repl, z, t);
      LastBehind(z, repl, j);
      JoinFails(find, repl, B, z + find, j);
    }
  }

  lemma MatchTwice(find: Bytes, repl: Bytes, z: Bytes, t: Bytes)
    requires find != [] && find[0] !in z && |t| < |find|
    ensures ReplaceAll(find, repl, z + find + t) == z + repl + t
    ensures ReplaceAll(find, repl, z + find) == z + repl
  {
    MatchThen(find, repl, z, t);
    MatchThen(find, repl, z, []);
    assert z + find + [] == z + find && z + repl + [] == z + repl;
  }

  lemma LastBehind(z: Bytes, s: Bytes, j: nat)
    requires j <= |s|
    ensures Last(z + s, j) == Last(s, j)
  {
  }

  lemma MatchThen(find: Bytes, repl: Bytes, z: Bytes, t: Bytes)
    requires find != [] && find[0] !in z && |t| < |find|
    ensures ReplaceAll(find, repl, z + find + t) == z + repl + t
  {
    assert z + find + t == z + (find + t) && z + repl + t == z + (repl + t);
    SkipForeign(find, repl, z, find + t);
    MatchFirst(find, repl, t);
  }

  /** The smallest case. */
  lemma OverlapExample()
    ensures Windows(LiteralRewrite("ab", "xa"), 1, "ab" + "b", true) == "x" + "xa"
    ensures ReplaceAll("ab", "xa", "ab" + "b") == "xa" + "b"
  {
    MatchThen("ab", "xa", "", "b");
    MatchThen("ab", "xa", "", "");
    assert "" + "ab" + "" == "ab" && "" + "xa" + "" == "xa" && "" + "ab" + "b" == "ab" + "b";
    FirstWindow(LiteralRewrite("ab", "xa"), 1, "ab", "b", true, "xa", 1);
    assert "xa"[..1] == "x" && "xa"[1..] + "b" == "ab";
  }

  lemma PassedBehind(find: Bytes, g: Bytes, x: Bytes)
    requires g != [] && Passed(find, g, x)
    ensures Passed(find, g[1..], x)
  {
    forall q | 0 <= q < |g[1..]|
      ensures !(find <= (g[1..] + x)[q..])
    {
      assert (g[1..] + x)[q..] == (g + x)[q + 1..];
    }
  }

  lemma {:induction false} SkipUnmatched(find: Bytes, repl: Bytes, g: Bytes, x: Bytes)
    requires find != [] && Passed(find, g, x)
    ensures ReplaceAll(find, repl, g + x) == g + ReplaceAll(find, repl, x)
    decreases |g|
  {
    if g == [] {
      assert g + x == x;
    } else {
      assert (g + x)[0..] == [g[0]] + (g[1..] + x);
      PassedBehind(find, g, x);
      SkipUnmatched(find, repl, g[1..], x);
      PassOne(find, repl, g[0], g[1..] + x);
      var y := ReplaceAll(find, repl, x);
      assert [g[0]] + (g[1..] + y) == g + y;
    }
  }

  /** If a match can begin before a match that is replaced and go on with the
      replacement, carried text is rewritten again by every buffer that holds both. */
  lemma LeadInFails(find: Bytes, repl: Bytes, B: nat, p: nat)
    requires LeadsIn(find, repl, p) && |find| + p <= B && 1 <= |repl| <= |find| && repl != find
    ensures !AlwaysRight(find, repl, B)
  {
    var j := p + |repl|;
    if j < |find| {
      InnerPieceFails(find, repl, B, p);
    } else {
      var z, t := Fill(find, 2 * B - |find| - p), Fill(find, 1);
      var w, o := z + (find[..p] + find), z + (find[..p] + repl);
      LeadInTwice(find, repl, z, p, t);
      OverlapIsPiece(find, repl, p, |find| - p);
      var k := |o| / 2;
      assert o[k..] == z[k..] + (find[..p] + repl);
      LeadInOccurs(find, repl, z[k..], p, t);
      CarryFails(find, repl, B, w, t, |z| - k);
    }
  }

  /** A replacement from inside the pattern ends in the middle of it. */
  lemma InnerPieceFails(find: Bytes, repl: Bytes, B: nat, p: nat)
    requires LeadsIn(find, repl, p) && |find| + p <= B && 1 <= |repl| && p + |repl| < |find|
    ensures !AlwaysRight(find, repl, B)
  {
    var j := p + |repl|;
    var z := Fill(find, 2 * B - |find| - p);
    LeadInTwice(find, repl, z, p, find[j..]);
    PieceEnds(find, repl, z, p);
    JoinFails(find, repl, B, z + (find[..p] + find), j);
  }

  lemma PieceEnds(find: Bytes, repl: Bytes, z: Bytes, p: nat)
    requires Overlaps(find, repl, 0 - p) && p + |repl| <= |find|
    ensures Last(z + (find[..p] + repl), p + |repl|) == find[..p + |repl|]
  {
    OverlapIsPiece(find, repl, p, |repl|);
    assert repl[..|repl|] == repl;
    assert find[..p] + find[p..p + |repl|] == find[..p + |repl|];
    assert Last(z + (find[..p] + repl), p + |repl|) == find[..p] + repl;
  }

  lemma OverlapIsPiece(find: Bytes, repl: Bytes, p: nat, n: nat)
    requires Overlaps(find, repl, 0 - p) && p + n <= |find| && n <= |repl|
    ensures repl[..n] == find[p..p + n]
  {
    forall k | 0 <= k < n
      ensures repl[k] == find[p + k]
    {
      assert repl[(0 - p) + (p + k)] == find[p + k];
    }
  }

  lemma LeadInOccurs(find: Bytes, repl: Bytes, z: Bytes, p: nat, t: Bytes)
    requires p < |find| && |find| - p <= |repl| && repl[..|find| - p] == find[p..]
    ensures At(find, z + (find[..p] + repl) + t, |z|)
  {
    var x, i := z + (find[..p] + repl) + t, |z|;
    assert x[i..i + |find|] == (find[..p] + repl)[..|find|] == find[..p] + repl[..|find| - p];
    assert find[..p] + find[p..] == find;
  }

  lemma LeadInTwice(find: Bytes, repl: Bytes, z: Bytes, p: nat, t: Bytes)
    requires LeadsIn(find, repl, p) && find[0] !in z && |t| < |find|
    ensures ReplaceAll(find, repl, z + (find[..p] + find) + t) == z + (find[..p] + repl) + t
    ensures ReplaceAll(find, repl, z + (find[..p] + find)) == z + (find[..p] + repl)
  {
    LeadIn(find, repl, z, p, t);
    LeadIn(find, repl, z, p, []);
    assert z + (find[..p] + find) + [] == z + (find[..p] + find);
    assert z + (find[..p] + repl) + [] == z + (find[..p] + repl);
  }

  lemma LeadIn(find: Bytes, repl: Bytes, z: Bytes, p: nat, t: Bytes)
    requires LeadsIn(find, repl, p) && find[0] !in z && |t| < |find|
    ensures ReplaceAll(find, repl, z + (find[..p] + find) + t) == z + (find[..p] + repl) + t
  {
    var g, x := find[..p], find + t;
    assert z + (g + find) + t == z + (g + x) && z + (g + repl) + t == z + (g + (repl + t));
    SkipForeign(find, repl, z, g + x);
    forall q | 0 <= q < |g|
      ensures !(find <= (g + x)[q..])
    {
      assert !At(find, g + find, q);
      assert (g + x)[q..][..|find|] == (g + find)[q..q + |find|];
    }
    SkipUnmatched(find, repl, g, x);
    MatchFirst(find, repl, t);
  }

  // ------------------------------------------------- exact conditions

  /** If a match can begin in the replacement, carried text is rewritten again,
      whatever the size of the buffer. */
  lemma UnsealedFails(find: Bytes, repl: Bytes, B: nat)
    requires B >= 1 && 1 <= |repl| <= |find| && repl != find && !Sealed(find, repl)
    ensures !AlwaysRight(find, repl, B)
  {
    var i :| 0 <= i < |repl| && Overlaps(find, repl, i);
    var j := |repl| - i;
    OverlapIsEnd(find, repl, i);
    OverlapFails(find, repl, B, j);
  }

  lemma OverlapIsEnd(find: Bytes, repl: Bytes, i: nat)
    requires i < |repl| <= |find| && Overlaps(find, repl, i)
    ensures Last(repl, |repl| - i) == find[..|repl| - i]
    ensures |repl| - i == |find| ==> repl == find
  {
    forall k | 0 <= k < |repl| - i
      ensures Last(repl, |repl| - i)[k] == find[k]
    {
      assert find[k] == repl[i + k];
    }
    assert i == 0 ==> Last(repl, |repl| - i) == repl;
  }

  /** What a match can use in a buffer makes some source wrong. */
  lemma UnclearFails(find: Bytes, repl: Bytes, B: nat)
    requires B >= 1 && 1 <= |repl| <= |find| && repl != find && !ClearWithin(find, repl, B)
    ensures !AlwaysRight(find, repl, B)
  {
    if Sealed(find, repl) {
      var p :| 0 < p < |find| && LeadsIn(find, repl, p) && |find| + p <= B;
      LeadInFails(find, repl, B, p);
    } else {
      UnsealedFails(find, repl, B);
    }
  }

  /** A replacement of the same length streams right on every source exactly if the
      pattern is at most bufferSize + 1 bytes long and no match in a text of bufferSize
      bytes can use a byte of the replacement. */
  lemma EqualLengthExact(find: Bytes, repl: Bytes, B: nat)
    requires find != [] && B >= 1 && |repl| == |find| && repl != find
    ensures AlwaysRight(find, repl, B) <==> |find| <= B + 1 && ClearWithin(find, repl, B)
  {
    if |find| >= B + 2 {
      LongPatternFails(find, repl, B);
    } else if ClearWithin(find, repl, B) {
      EqualLengthStreams(find, repl, B);
    } else {
      UnclearFails(find, repl, B);
    }
  }

  /** With an ample buffer, a replacement that is not longer streams right on every
      source exactly if no match can use a byte of it. */
  lemma NotLongerExact(find: Bytes, repl: Bytes, B: nat)
    requires 1 <= |repl| <= |find| && repl != find
    requires B >= |find| * (|find| - 2) && B >= 2 * |find| - 1
    ensures AlwaysRight(find, repl, B) <==> Clear(find, repl)
  {
    if Clear(find, repl) {
      AmpleBuffer(find, repl, B);
      StreamingIsReplaceAll(find, repl, B);
    } else {
      UnclearFails(find, repl, B);
    }
  }
}
