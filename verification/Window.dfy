/** The sliding-window rewriter as a pure recursion over the whole source, for any
    rewriting function, and how much text it carries. */
module Window {
  import opened Literal

  function Zeros(n: nat): Bytes {
    seq(n, _ => 0 as char)
  }

  function Min(a: int, b: int): int {
    if a < b then a else b
  }

  /** What a later window hands on after `w` was rewritten to `o`: `o` is copied
      into the old buffer of length |w| and the next buffer is made with zero
      bytes, so text that outgrew the buffer is cut off and padded. */
  function CarryOf(w: Bytes, o: Bytes): Bytes {
    var kept := Min(|o|, |w|);
    var mid := Min(|o| / 2, kept);
    o[mid..kept] + Zeros(|o| - kept)
  }

  /** Whether a slice of `n` bytes meets the end of a source with `d` left. `eager`
      says that the source reports its error together with its last byte, so that
      it does so even when the slice is filled exactly. */
  predicate Final(d: Bytes, n: nat, eager: bool) {
    |d| < n || (|d| == n && eager)
  }

  /** Output for the remaining source `d` when `c` is carried. */
  ghost function Rest(R: Bytes -> Bytes, B: nat, c: Bytes, d: Bytes, eager: bool): Bytes
    requires B >= 1
    decreases |d|
  {
    if Final(d, B, eager) then R(c + d)
    else
      var w := c + d[..B];
      var o := R(w);
      o[..|o| / 2] + Rest(R, B, CarryOf(w, o), d[B..], eager)
  }

  /** Output for the whole source `d`: the first window holds 2B bytes and is
      reallocated to its rewritten length, so it may grow freely. */
  ghost function Windows(R: Bytes -> Bytes, B: nat, d: Bytes, eager: bool): Bytes
    requires B >= 1
  {
    if Final(d, 2 * B, eager) then R(d)
    else
      var o := R(d[..2 * B]);
      o[..|o| / 2] + Rest(R, B, o[|o| / 2..], d[2 * B..], eager)
  }

  /** The demand of the slice expression on line 138: no window of this run after
      the first more than doubles. */
  ghost predicate RestFits(R: Bytes -> Bytes, B: nat, c: Bytes, d: Bytes, eager: bool)
    requires B >= 1
    decreases |d|
  {
    Final(d, B, eager) || (
      var w := c + d[..B];
      |R(w)| <= 2 * |w| + 1 && RestFits(R, B, CarryOf(w, R(w)), d[B..], eager))
  }

  ghost predicate Fits(R: Bytes -> Bytes, B: nat, d: Bytes, eager: bool)
    requires B >= 1
  {
    Final(d, 2 * B, eager) || (
      var o := R(d[..2 * B]);
      RestFits(R, B, o[|o| / 2..], d[2 * B..], eager))
  }

  ghost predicate NonGrowing(R: Bytes -> Bytes) {
    forall w :: |R(w)| <= |w|
  }

  /** The carry is the right half of the rewritten window exactly when the
      window did not grow, or grew by zero bytes only. */
  lemma CarryWhole(w: Bytes, o: Bytes)
    requires |o| <= 2 * |w| + 1
    ensures CarryOf(w, o) == o[|o| / 2..] <==> |o| <= |w| || o[|w|..] == Zeros(|o| - |w|)
  {
    if |o| > |w| {
      var mid := |o| / 2;
      assert o[mid..] == o[mid..|w|] + o[|w|..];
      assert CarryOf(w, o)[|w| - mid..] == Zeros(|o| - |w|);
      assert o[mid..][|w| - mid..] == o[|w|..];
    }
  }

  lemma CarryKept(w: Bytes, o: Bytes)
    requires |o| <= |w|
    ensures CarryOf(w, o) == o[|o| / 2..]
  {
    CarryWhole(w, o);
  }

  // ---------------------------------------------------------------- identity

  lemma {:induction false} RestOfIdentity(R: Bytes -> Bytes, B: nat, c: Bytes, d: Bytes, eager: bool)
    requires B >= 1 && forall w :: R(w) == w
    ensures Rest(R, B, c, d, eager) == c + d
    decreases |d|
  {
    if !Final(d, B, eager) {
      var w := c + d[..B];
      CarryKept(w, w);
      RestOfIdentity(R, B, w[|w| / 2..], d[B..], eager);
      Reassemble(w, |w| / 2, d[B..]);
      Cut(c, d, B);
    }
  }

  /** A rewrite that changes nothing streams the source through unchanged. */
  lemma IdentityStreams(R: Bytes -> Bytes, B: nat, d: Bytes, eager: bool)
    requires B >= 1 && forall w :: R(w) == w
    ensures Windows(R, B, d, eager) == d
  {
    if !Final(d, 2 * B, eager) {
      var w := d[..2 * B];
      RestOfIdentity(R, B, w[|w| / 2..], d[2 * B..], eager);
      Reassemble(w, |w| / 2, d[2 * B..]);
      Cut([], d, 2 * B);
    }
  }

  lemma Reassemble(w: Bytes, k: nat, t: Bytes)
    requires k <= |w|
    ensures w[..k] + (w[k..] + t) == w + t
  {
    assert w[..k] + w[k..] == w;
  }

  lemma Cut(c: Bytes, d: Bytes, k: nat)
    requires k <= |d|
    ensures c + d[..k] + d[k..] == c + d && d[..k] + d[k..] == d
  {
    assert d[..k] + d[k..] == d;
  }

  // ------------------------------------------------------------ carry bounds

  /** Every carry of a run that starts with `c` and has `d` left to read. */
  ghost function Carries(R: Bytes -> Bytes, B: nat, c: Bytes, d: Bytes): seq<Bytes>
    requires B >= 1
    decreases |d|
  {
    if |d| < B then [c]
    else
      var w := c + d[..B];
      [c] + Carries(R, B, CarryOf(w, R(w)), d[B..])
  }

  function HalveUp(e: nat, k: nat): nat
    decreases k
  {
    if k == 0 then e else HalveUp((e + 1) / 2, k - 1)
  }

  function Excess(c: Bytes, B: nat): nat {
    if |c| > B then |c| - B else 0
  }

  lemma {:induction false} HalveUpMono(a: nat, b: nat, k: nat)
    requires a <= b
    ensures HalveUp(a, k) <= HalveUp(b, k)
    decreases k
  {
    if k > 0 { HalveUpMono((a + 1) / 2, (b + 1) / 2, k - 1); }
  }

  lemma {:induction false} HalveUpShrinks(e: nat, k: nat)
    ensures HalveUp(e, k) <= e && (e == 0 ==> HalveUp(e, k) == 0)
    decreases k
  {
    if k > 0 { HalveUpShrinks((e + 1) / 2, k - 1); }
  }

  /** No window of this run grows. */
  ghost predicate RunNonGrowing(R: Bytes -> Bytes, B: nat, c: Bytes, d: Bytes)
    requires B >= 1
    decreases |d|
  {
    |d| >= B ==>
      var w := c + d[..B];
      |R(w)| <= |w| && RunNonGrowing(R, B, CarryOf(w, R(w)), d[B..])
  }

  /** What the first window added beyond bufferSize is halved, rounding up, by
      every later window; in particular a carry that fits goes on fitting. */
  lemma {:induction false} ExcessHalves(R: Bytes -> Bytes, B: nat, c: Bytes, d: Bytes, i: nat)
    requires B >= 1 && RunNonGrowing(R, B, c, d)
    requires i < |Carries(R, B, c, d)|
    ensures Excess(Carries(R, B, c, d)[i], B) <= HalveUp(Excess(c, B), i)
    decreases |d|
  {
    if i > 0 {
      var w := c + d[..B];
      CarryWhole(w, R(w));
      var c' := CarryOf(w, R(w));
      assert Excess(c', B) <= (Excess(c, B) + 1) / 2;
      ExcessHalves(R, B, c', d[B..], i - 1);
      HalveUpMono(Excess(c', B), (Excess(c, B) + 1) / 2, i - 1);
    }
  }

  /** With no growing window at all, no carry exceeds bufferSize, hence no
      buffer exceeds twice that. */
  lemma CarryBound(R: Bytes -> Bytes, B: nat, d: Bytes, i: nat)
    requires B >= 1 && |d| >= 2 * B && |R(d[..2 * B])| <= 2 * B
    requires var o := R(d[..2 * B]);
             RunNonGrowing(R, B, o[|o| / 2..], d[2 * B..]) && i < |Carries(R, B, o[|o| / 2..], d[2 * B..])|
    ensures var o := R(d[..2 * B]);
            |Carries(R, B, o[|o| / 2..], d[2 * B..])[i]| <= B
  {
    var o := R(d[..2 * B]);
    ExcessHalves(R, B, o[|o| / 2..], d[2 * B..], i);
    HalveUpShrinks(0, i);
  }
}
