/** An upper bound on how long a rewriting reader can go on answering without an
    error, for any rewriting function at all. It exists because the alphabet is
    finite: only finitely many windows of each length have to be considered. */
module Budget {
  import opened Literal

  ghost function Strings(n: nat): set<Bytes> {
    if n == 0 then {[]}
    else
      var shorter := Strings(n - 1);
      shorter + set c: char, s | s in shorter :: [c] + s
  }

  lemma {:induction false} AllStrings(w: Bytes, n: nat)
    requires |w| <= n
    ensures w in Strings(n)
    decreases n
  {
    if n > 0 {
      if |w| < n {
        AllStrings(w, n - 1);
      } else {
        AllStrings(w[1..], n - 1);
        assert w == [w[0]] + w[1..];
      }
    }
  }

  ghost function LongestOf(R: Bytes -> Bytes, S: set<Bytes>): (m: nat)
    ensures forall w :: w in S ==> |R(w)| <= m
    decreases |S|
  {
    if S == {} then 0
    else
      var w :| w in S;
      |R(w)| + LongestOf(R, S - {w})
  }

  /** Bounds |R(w)| for every `w` no longer than `n`. */
  ghost function Longest(R: Bytes -> Bytes, n: nat): nat {
    LongestOf(R, Strings(n)) + if n == 0 then 0 else Longest(R, n - 1)
  }

  lemma LongestBounds(R: Bytes -> Bytes, w: Bytes, n: nat)
    requires |w| <= n
    ensures |R(w)| <= Longest(R, n)
  {
    AllStrings(w, n);
  }

  lemma {:induction false} LongestMono(R: Bytes -> Bytes, m: nat, n: nat)
    requires m <= n
    ensures Longest(R, m) <= Longest(R, n)
    decreases n
  {
    if m < n { LongestMono(R, m, n - 1); }
  }

  ghost function Growth(R: Bytes -> Bytes): nat -> nat {
    n => Longest(R, n)
  }

  ghost predicate Monotone(G: nat -> nat) {
    forall m, n :: m <= n ==> G(m) <= G(n)
  }

  /** `G` bounds how long a rewritten window can be. */
  ghost predicate Bounds(R: Bytes -> Bytes, G: nat -> nat) {
    Monotone(G) && forall w :: |R(w)| <= G(|w|)
  }

  /** Every rewriting function has a bound. */
  lemma GrowthBounds(R: Bytes -> Bytes)
    ensures Bounds(R, Growth(R))
  {
    forall m: nat, n: nat | m <= n
      ensures Growth(R)(m) <= Growth(R)(n)
    {
      LongestMono(R, m, n);
    }
    forall w
      ensures |R(w)| <= Growth(R)(|w|)
    {
      LongestBounds(R, w, |w|);
    }
  }

  /** With `c` bytes carried and a source that answers at most `f` more times. */
  ghost function Later(G: nat -> nat, B: nat, f: nat, c: nat): nat
    decreases f
  {
    1 + G(c + B) + if f == 0 then 0 else c + B + Later(G, B, f - 1, c + B + 1)
  }

  ghost function First(G: nat -> nat, B: nat, f: nat): nat {
    1 + G(2 * B) + if f == 0 then 0 else Later(G, B, f - 1, G(2 * B))
  }

  lemma {:induction false} LaterMono(G: nat -> nat, B: nat, f: nat, c: nat, f': nat, c': nat)
    requires Monotone(G) && f <= f' && c <= c'
    ensures Later(G, B, f, c) <= Later(G, B, f', c')
    decreases f
  {
    assert G(c + B) <= G(c' + B);
    if f > 0 { LaterMono(G, B, f - 1, c + B + 1, f' - 1, c' + B + 1); }
  }

  lemma FirstBudget(R: Bytes -> Bytes, G: nat -> nat, B: nat, f: nat, f': nat, w: Bytes)
    requires Bounds(R, G) && |w| <= 2 * B
    ensures |R(w)| < First(G, B, f)
    ensures f' < f ==> |R(w)| / 2 + Later(G, B, f', |R(w)| - |R(w)| / 2) < First(G, B, f)
  {
    assert |R(w)| <= G(|w|) <= G(2 * B);
    if f' < f { Halved(G, B, f', f - 1, |R(w)|, G(2 * B)); }
  }

  /** What is left of the allowance after a window of `n` bytes, carried in half. */
  lemma Halved(G: nat -> nat, B: nat, f': nat, f: nat, n: nat, most: nat)
    requires Monotone(G) && f' <= f && n <= most
    ensures n / 2 + Later(G, B, f', n - n / 2) <= n / 2 + Later(G, B, f, most)
  {
    LaterMono(G, B, f', n - n / 2, f, most);
  }

  lemma NextBudget(R: Bytes -> Bytes, G: nat -> nat, B: nat, f: nat, f': nat, c: nat, w: Bytes)
    requires Bounds(R, G) && c <= |w| <= c + B
    ensures |R(w)| < Later(G, B, f, c)
    ensures f' < f && |R(w)| <= 2 * |w| + 1 ==>
      |R(w)| / 2 + Later(G, B, f', |R(w)| - |R(w)| / 2) < Later(G, B, f, c)
  {
    assert |R(w)| <= G(|w|) <= G(c + B);
    if f' < f && |R(w)| <= 2 * |w| + 1 { HalvedAgain(G, B, f', f, |R(w)|, c); }
  }

  lemma HalvedAgain(G: nat -> nat, B: nat, f': nat, f: nat, n: nat, c: nat)
    requires Monotone(G) && f' < f && n <= 2 * (c + B) + 1
    ensures n / 2 + Later(G, B, f', n - n / 2) <= c + B + Later(G, B, f - 1, c + B + 1)
  {
    LaterMono(G, B, f', n - n / 2, f - 1, c + B + 1);
  }
}
