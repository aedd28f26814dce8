/** Every literal rule decided: whether streaming it means the same as replacing in
    the whole text, on every source. */
module Verdict {
  import opened Literal
  import opened Streaming
  import opened Exactness
  import opened Deletion
  import opened Growth

  /** A buffer large enough for shorter replacements. */
  predicate Ample(m: nat, B: nat) {
    B >= 2 && B >= m * (m - 2) && B >= 2 * m - 1
  }

  /** The conditions of `Streams` are exact: for equal lengths, deletions and longer
      replacements with every buffer, and for shorter ones with an ample buffer. */
  lemma StreamsIsExact(find: Bytes, repl: Bytes, B: nat)
    requires find != [] && B >= 1
    requires repl == [] || |repl| >= |find| || Ample(|find|, B)
    ensures AlwaysRight(find, repl, B) <==> Streams(find, repl, B)
  {
    if Streams(find, repl, B) {
      StreamsIsRight(find, repl, B);
    } else if repl == [] {
      DeletionExact(find, B);
    } else if |repl| > |find| {
      GrowthExact(find, repl, B);
    } else if |repl| == |find| {
      EqualLengthExact(find, repl, B);
    } else {
      NotLongerExact(find, repl, B);
      if Clear(find, repl) { AmpleBuffer(find, repl, B); }
    }
  }

  /** What is left of them with an ample buffer: replacing the pattern by itself,
      deleting a single or doubled byte, and replacements that are not longer and of
      which no match can use a byte. */
  predicate RightRule(find: Bytes, repl: Bytes)
    requires find != []
  {
    || repl == find
    || (repl == [] && (|find| == 1 || (|find| == 2 && find[0] == find[1])))
    || (1 <= |repl| <= |find| && Clear(find, repl))
  }

  lemma EveryLiteralRule(find: Bytes, repl: Bytes, B: nat)
    requires find != [] && Ample(|find|, B)
    ensures AlwaysRight(find, repl, B) <==> RightRule(find, repl)
  {
    StreamsIsExact(find, repl, B);
    if repl == find {
    } else if 1 <= |repl| <= |find| {
      NotLongerExact(find, repl, B);
    }
  }

  /** The size of the buffers of the program. */
  const RegexBufferSize: nat := 4096 * 4

  /** With them, every rule whose pattern has at most 129 bytes is decided. */
  lemma ProgramBuffer(find: Bytes, repl: Bytes)
    requires 1 <= |find| <= 129
    ensures AlwaysRight(find, repl, RegexBufferSize) <==> RightRule(find, repl)
  {
    var m := |find|;
    assert m * (m - 2) <= 129 * 127 by {
      if m >= 2 { Monotone(m, 129, m - 2, 127); }
    }
    EveryLiteralRule(find, repl, RegexBufferSize);
  }

  lemma Monotone(a: nat, b: nat, c: nat, d: nat)
    requires a <= b && c <= d
    ensures a * c <= b * d
  {
    assert b * d - a * c == (b - a) * d + a * (d - c);
  }

  /** The body rule of the documentation streams wrongly, with every buffer. */
  lemma DocumentedRule(B: nat)
    requires B >= 1
    ensures !AlwaysRight("bing", "google", B)
  {
    GrowthExact("bing", "google", B);
  }
}
