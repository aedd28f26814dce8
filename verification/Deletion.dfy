/** Replacing by nothing: for which patterns deleting while streaming means deleting
    in the whole text. */
module Deletion {
  import opened Literal
  import opened Window
  import opened Streaming
  import opened Exactness

  /** Deleting joins what stood on both sides into a new match, unless the pattern
      is a single byte repeated. */
  lemma JoiningDeletionFails(find: Bytes, B: nat)
    requires B >= 2 && 2 <= |find| <= B + 1 && !Constant(find)
    ensures !AlwaysRight(find, [], B)
  {
    var z, a := Fill(find, 2 * B - |find| - 1), [find[0]];
    DeletedBetween(find, z, find[1..]);
    DeletedBetween(find, z, []);
    var w := z + (a + find);
    assert w + [] == w && z + a + [] == z + a;
    assert Last(z + a, 1) == a == find[..1];
    JoinFails(find, [], B, w, 1);
  }

  lemma DeletedBetween(find: Bytes, z: Bytes, t: Bytes)
    requires find != [] && find[0] !in z && !Constant(find) && |t| < |find|
    ensures ReplaceAll(find, [], z + ([find[0]] + find) + t) == z + [find[0]] + t
  {
    var a := [find[0]];
    assert z + (a + find) + t == z + (a + (find + t)) && z + a + t == z + (a + t);
    SkipForeign(find, [], z, a + (find + t));
    DeletedAfter(find, t);
  }

  lemma DeletedAfter(find: Bytes, t: Bytes)
    requires find != [] && !Constant(find) && |t| < |find|
    ensures ReplaceAll(find, [], [find[0]] + (find + t)) == [find[0]] + t
  {
    NotShifted(find, t);
    PassOne(find, [], find[0], find + t);
    Dropped(find, t);
  }

  /** A small case: text joined by the deletion is deleted, too. */
  lemma JoiningExample()
    ensures Windows(LiteralRewrite("abc", ""), 2, "aabc" + "bc", true) == ""
    ensures ReplaceAll("abc", "", "aabc" + "bc") == "a" + "bc"
  {
    assert "abc"[0] != "abc"[1];
    DeletedBetween("abc", "", "bc");
    DeletedBetween("abc", "", "");
    assert "" + ("a" + "abc") + "" == "aabc" && "" + "a" + "" == "a" && "" + ("a" + "abc") + "bc" == "aabc" + "bc";
    FirstWindow(LiteralRewrite("abc", ""), 2, "aabc", "bc", true, "a", 0);
    assert "a"[..0] == "" && "a"[0..] + "bc" == "abc";
    AsLong("abc", "", "abc");
  }

  lemma NotShifted(find: Bytes, t: Bytes)
    requires find != [] && !Constant(find)
    ensures !(find <= [find[0]] + (find + t))
  {
    var x := [find[0]] + (find + t);
    if find <= x {
      forall i: nat | i < |find|
        ensures find[i] == find[0]
      {
        Shifted(find, x, t, i);
      }
    }
  }

  lemma {:induction false} Shifted(find: Bytes, x: Bytes, t: Bytes, i: nat)
    requires i < |find| && find <= x && x == [find[0]] + (find + t)
    ensures find[i] == find[0]
    decreases i
  {
    assert find[i] == x[i];
    if i > 0 { Shifted(find, x, t, i - 1); }
  }

  /** `n` times the byte `a`. */
  function Run(a: char, n: nat): (s: Bytes)
    ensures |s| == n && forall i :: 0 <= i < n ==> s[i] == a
  {
    if n == 0 then [] else [a] + Run(a, n - 1)
  }

  /** How much of a run of `n` bytes is left when every `m` of them are deleted. */
  function Left(m: nat, n: nat): (k: nat)
    requires m >= 1
    ensures k < m && k <= n
  {
    if n < m then n else Left(m, n - m)
  }

  lemma {:induction false} LeftAdds(m: nat, x: nat, n: nat)
    requires m >= 1
    ensures Left(m, x + n) == Left(m, x + Left(m, n))
    decreases n
  {
    if n >= m {
      LeftAdds(m, x, n - m);
      assert x + n - m == x + (n - m);
    }
  }

  lemma {:induction false} LeftMultiple(m: nat, k: nat)
    requires m >= 1
    ensures Left(m, m * k) == 0
    decreases k
  {
    if k > 0 {
      assert m * k - m == m * (k - 1) && m * k >= m;
      LeftMultiple(m, k - 1);
    }
  }

  lemma {:induction false} RunDeleted(a: char, m: nat, n: nat)
    requires m >= 1
    ensures ReplaceAll(Run(a, m), [], Run(a, n)) == Run(a, Left(m, n))
    decreases n
  {
    if n >= m {
      assert Run(a, n) == Run(a, m) + Run(a, n - m);
      Dropped(Run(a, m), Run(a, n - m));
      RunDeleted(a, m, n - m);
    }
  }

  /** How many bytes the windows over a run of `n` bytes give when `k` are carried. */
  function RunOutput(m: nat, B: nat, k: nat, n: nat): nat
    requires m >= 1 && B >= 1
    decreases n
  {
    if n < B then Left(m, k + n)
    else
      var l := Left(m, k + B);
      l / 2 + RunOutput(m, B, l - l / 2, n - B)
  }

  /** `R` deletes every `m` of the bytes of a run. */
  ghost predicate DeletesRuns(R: Bytes -> Bytes, a: char, m: nat)
    requires m >= 1
  {
    forall n: nat :: R(Run(a, n)) == Run(a, Left(m, n))
  }

  /** A later window that does not grow. */
  lemma NextWindow(R: Bytes -> Bytes, B: nat, c: Bytes, d: Bytes, w: Bytes, o: Bytes, k: nat, c': Bytes, d': Bytes)
    requires B >= 1 && |d| >= B && w == c + d[..B] && o == R(w) && |o| <= |w|
    requires k == |o| / 2 && c' == o[k..] && d' == d[B..]
    ensures |Rest(R, B, c, d, false)| == k + |Rest(R, B, c', d', false)|
  {
    CarryWhole(w, o);
  }

  ghost function RunRest(R: Bytes -> Bytes, a: char, B: nat, k: nat, n: nat): nat
    requires B >= 1
  {
    |Rest(R, B, Run(a, k), Run(a, n), false)|
  }

  lemma LastRunWindow(R: Bytes -> Bytes, a: char, m: nat, B: nat, k: nat, n: nat)
    requires m >= 1 && n < B && DeletesRuns(R, a, m)
    ensures RunRest(R, a, B, k, n) == RunOutput(m, B, k, n)
  {
    AddRuns(a, k, n);
  }

  lemma OneRunWindow(R: Bytes -> Bytes, a: char, m: nat, B: nat, k: nat, n: nat, l: nat, h: nat)
    requires m >= 1 && n >= B >= 1 && DeletesRuns(R, a, m) && l == Left(m, k + B) && h == l / 2
    ensures RunRest(R, a, B, k, n) == h + RunRest(R, a, B, l - h, n - B)
  {
    PrefixOfRun(a, n, B);
    SuffixOfRun(a, n, B);
    SuffixOfRun(a, l, h);
    AddRuns(a, k, B);
    NextWindow(R, B, Run(a, k), Run(a, n), Run(a, k + B), Run(a, l), h, Run(a, l - h), Run(a, n - B));
  }

  lemma OneOutput(m: nat, B: nat, k: nat, n: nat, l: nat, h: nat)
    requires m >= 1 && n >= B >= 1 && l == Left(m, k + B) && h == l / 2
    ensures RunOutput(m, B, k, n) == h + RunOutput(m, B, l - h, n - B)
  {
  }

  lemma NextRunWindow(R: Bytes -> Bytes, a: char, m: nat, B: nat, k: nat, n: nat, l: nat, h: nat)
    requires m >= 1 && n >= B >= 1 && DeletesRuns(R, a, m) && l == Left(m, k + B) && h == l / 2
    requires RunRest(R, a, B, l - h, n - B) == RunOutput(m, B, l - h, n - B)
    ensures RunRest(R, a, B, k, n) == RunOutput(m, B, k, n)
  {
    OneRunWindow(R, a, m, B, k, n, l, h);
    OneOutput(m, B, k, n, l, h);
  }

  lemma {:induction false} RestOfRun(R: Bytes -> Bytes, a: char, m: nat, B: nat, k: nat, n: nat)
    requires m >= 1 && B >= 1 && DeletesRuns(R, a, m)
    ensures RunRest(R, a, B, k, n) == RunOutput(m, B, k, n)
    decreases n
  {
    if n < B {
      LastRunWindow(R, a, m, B, k, n);
    } else {
      var l := Left(m, k + B);
      RestOfRun(R, a, m, B, l - l / 2, n - B);
      NextRunWindow(R, a, m, B, k, n, l, l / 2);
    }
  }

  lemma AddRuns(a: char, x: nat, y: nat)
    ensures Run(a, x) + Run(a, y) == Run(a, x + y)
  {
  }

  lemma PrefixOfRun(a: char, n: nat, k: nat)
    requires k <= n
    ensures Run(a, n)[..k] == Run(a, k)
  {
  }

  lemma SuffixOfRun(a: char, n: nat, k: nat)
    requires k <= n
    ensures Run(a, n)[k..] == Run(a, n - k)
  {
  }

  /** A run of three or more bytes: a source on which a byte of what is left of the
      run is emitted too early, although all of the run should go. */
  lemma RunDeletionFails(a: char, m: nat, B: nat)
    requires 3 <= m <= B + 1
    ensures !AlwaysRight(Run(a, m), [], B)
  {
    Multiple(m, 4 * B);
    var n := m * (4 * B);
    if Left(m, B) == 0 {
      FillerFails(a, m, B, n);
    } else {
      RunFails(a, m, B, n);
    }
  }

  lemma Multiple(m: nat, k: nat)
    requires m >= 3
    ensures m * k >= 3 * k && Left(m, m * k) == 0
  {
    LeftMultiple(m, k);
    assert m * k == (m - 3) * k + 3 * k;
  }

  /** Unless the buffer holds whole matches only, two or more bytes are left over after
      one of the first three windows, and one of them is emitted. */
  lemma SomeIsEmitted(m: nat, B: nat, n: nat)
    requires m >= 3 && B >= 1 && n >= 3 * B && Left(m, B) > 0
    ensures var l := Left(m, 2 * B); l / 2 + RunOutput(m, B, l - l / 2, n) >= 1
  {
    var l := Left(m, 2 * B);
    if l <= 1 {
      SomethingLeft(m, B, Left(m, B), l);
      NextOutput(m, B, l, n, Left(m, l + B));
    }
  }

  lemma NextOutput(m: nat, B: nat, k: nat, n: nat, l: nat)
    requires m >= 1 && B >= 1 && n >= 2 * B && l == Left(m, k + B) && (l >= 2 || Left(m, l + B) >= 2)
    ensures RunOutput(m, B, k, n) >= 1
  {
    OutputStep(m, B, k, n, l);
    if l <= 1 { OutputStep(m, B, l, n - B, Left(m, l + B)); }
  }

  lemma OutputStep(m: nat, B: nat, k: nat, n: nat, l: nat)
    requires m >= 1 && n >= B >= 1 && l == Left(m, k + B)
    ensures l >= 2 ==> RunOutput(m, B, k, n) >= 1
    ensures l <= 1 ==> RunOutput(m, B, k, n) == RunOutput(m, B, l, n - B)
  {
  }

  lemma SomethingLeft(m: nat, B: nat, b: nat, l0: nat)
    requires m >= 3 && b == Left(m, B) && b > 0 && l0 == Left(m, 2 * B) && l0 <= 1
    ensures var l1 := Left(m, l0 + B); l1 >= 2 || Left(m, l1 + B) >= 2
  {
    LeftOf(m, B, B, b);
    LeftOf(m, b, B, b);
    assert B + B == 2 * B && B + b == b + B;
    LeftOf(m, l0, B, b);
    var l1 := Left(m, l0 + B);
    if l1 <= 1 {
      LeftOf(m, l1, B, b);
      Residues(m, b, l0, l1);
    }
  }

  function Less(m: nat, x: nat): nat {
    if x < m then x else x - m
  }

  lemma LeftOf(m: nat, x: nat, n: nat, b: nat)
    requires m >= 1 && b == Left(m, n)
    ensures Left(m, x + n) == Left(m, x + b)
    ensures x < m ==> Left(m, x + b) == Less(m, x + b)
  {
    LeftAdds(m, x, n);
  }

  lemma Residues(m: nat, b: nat, l0: nat, l1: nat)
    requires m >= 3 && 0 < b < m && l0 == Less(m, b + b) && l0 <= 1 && l1 == Less(m, l0 + b) && l1 <= 1
    ensures Less(m, l1 + b) >= 2
  {
  }

  lemma FirstRunWindow(R: Bytes -> Bytes, a: char, m: nat, B: nat, z: Bytes, p: nat, n: nat, l: nat, h: nat)
    requires m >= 1 && B >= 1 && |z| + p == 2 * B && DeletesRuns(R, a, m)
    requires R(z + Run(a, p)) == z + Run(a, l) && h == (|z| + l) / 2 && |z| <= h
    requires R(z + Run(a, p + n)) == z + Run(a, 0) && |z| < h + RunOutput(m, B, |z| + l - h, n)
    ensures Windows(R, B, z + Run(a, p + n), false) != R(z + Run(a, p + n))
  {
    RestOfRun(R, a, m, B, |z| + l - h, n);
    SuffixAfter(a, z, l, h);
    FirstWindow(R, B, z + Run(a, p), Run(a, n), false, z + Run(a, l), h);
    AddRuns(a, p, n);
    assert z + Run(a, p) + Run(a, n) == z + Run(a, p + n);
  }

  lemma WholeRunGoes(a: char, m: nat, z: Bytes, n: nat)
    requires m >= 1 && a !in z && Left(m, n) == 0
    ensures LiteralRewrite(Run(a, m), [])(z + Run(a, n)) == z + Run(a, 0)
  {
    AfterFiller(a, m, z, n);
  }

  /** A source of a run after `z`, of which the run should go: it is wrong if its first
      window, with `p` bytes of the run, and `n` more of them give more than `z`. */
  lemma RunSourceFails(a: char, m: nat, B: nat, z: Bytes, p: nat, n: nat, l: nat, h: nat)
    requires m >= 1 && B >= 1 && a !in z && |z| + p == 2 * B && Left(m, p + n) == 0 && l == Left(m, p)
    requires h == (|z| + l) / 2 && |z| <= h && |z| < h + RunOutput(m, B, |z| + l - h, n)
    ensures !AlwaysRight(Run(a, m), [], B)
  {
    DeletingRuns(a, m);
    AfterFiller(a, m, z, p);
    WholeRunGoes(a, m, z, p + n);
    FirstRunWindow(LiteralRewrite(Run(a, m), []), a, m, B, z, p, n, l, h);
    Wrong(Run(a, m), [], B, z + Run(a, p + n), false);
  }

  lemma DeletingRuns(a: char, m: nat)
    requires m >= 1
    ensures DeletesRuns(LiteralRewrite(Run(a, m), []), a, m)
  {
    forall i: nat
      ensures LiteralRewrite(Run(a, m), [])(Run(a, i)) == Run(a, Left(m, i))
    {
      RunDeleted(a, m, i);
    }
  }

  lemma SuffixAfter(a: char, z: Bytes, n: nat, h: nat)
    requires |z| <= h <= |z| + n
    ensures (z + Run(a, n))[h..] == Run(a, |z| + n - h)
  {
  }

  lemma RunFails(a: char, m: nat, B: nat, n: nat)
    requires m >= 3 && B >= 1 && n >= 5 * B && Left(m, n) == 0 && Left(m, B) > 0
    ensures !AlwaysRight(Run(a, m), [], B)
  {
    SomeIsEmitted(m, B, n - 2 * B);
    RunSourceFails(a, m, B, [], 2 * B, n - 2 * B, Left(m, 2 * B), Left(m, 2 * B) / 2);
  }

  /** Otherwise a byte in front shifts the run. */
  lemma FillerFails(a: char, m: nat, B: nat, n: nat)
    requires 3 <= m <= B + 1 && Left(m, B) == 0 && n >= 5 * B && Left(m, n) == 0
    ensures !AlwaysRight(Run(a, m), [], B)
  {
    var p, n' := 2 * B - 1, n - 2 * B + 1;
    OneLess(m, B);
    FillerOutput(m, B, m / 2, n');
    RunSourceFails(a, m, B, [Filler(Run(a, m))], p, n', m - 1, m / 2);
  }

  lemma FillerOutput(m: nat, B: nat, h: nat, n: nat)
    requires m >= 3 && n >= B >= 1 && Left(m, B) == 0 && h == m / 2
    ensures h + RunOutput(m, B, m - h, n) >= 2
  {
    if m == 3 {
      LeftAdds(m, 2, B);
      OutputStep(m, B, 2, n, 2);
    }
  }

  lemma AfterFiller(a: char, m: nat, z: Bytes, n: nat)
    requires m >= 1 && a !in z
    ensures LiteralRewrite(Run(a, m), [])(z + Run(a, n)) == z + Run(a, Left(m, n))
  {
    RunDeleted(a, m, n);
    SkipForeign(Run(a, m), [], z, Run(a, n));
  }

  lemma OneLess(m: nat, B: nat)
    requires 2 <= m && B >= m && Left(m, B) == 0
    ensures Left(m, 2 * B - 1) == m - 1
  {
    LeftAdds(m, B - m + m - 1, B);
    LeftAdds(m, m - 1, B - m);
    assert 2 * B - 1 == (B - 1) + B && B - 1 == (m - 1) + (B - m);
  }

  /** Deleting streams right on every source exactly for the patterns that are
      `Deletable`. */
  lemma DeletionExact(find: Bytes, B: nat)
    requires find != [] && B >= 1
    ensures AlwaysRight(find, [], B) <==> Deletable(find, B)
  {
    var m := |find|;
    if Deletable(find, B) {
      DeletionStreams(find, B);
    } else if m >= B + 2 {
      LongPatternFails(find, [], B);
    } else if !Constant(find) {
      JoiningDeletionFails(find, B);
    } else {
      assert find == Run(find[0], m);
      RunDeletionFails(find[0], m, B);
    }
  }
}
