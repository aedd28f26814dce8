/** The body rewriter: a stack of readers, one for each rule, and what it delivers. */
module BodyRewrite {
  import opened Wrappers
  import opened Literal
  import opened Window
  import opened Streaming
  import opened Rules
  import opened Readers
  import Growth

  /** What a reader holds: its bytes, and whether its error comes with the last of them. */
  datatype Source = Source(text: Bytes, eager: bool)

  ghost function Held(r: Reader): Source
    reads r.Obj()
  {
    Source(r.Left(), r.Eager())
  }

  function RuleRewrite(lib: RegexpLib, find: string, repl: Bytes): Bytes -> Bytes {
    w => lib.replaceAll(find, w, repl)
  }

  /** The branch for appending, which dereferences the absent prepend text. */
  predicate DereferencesNil(rule: Rule) {
    rule.replace.None? && rule.prepend.None? && rule.append.Some?
  }

  /** What the rule's reader holds over a reader that holds `s`. */
  ghost function StreamMeaning(lib: RegexpLib, B: nat, s: Source, rule: Rule): Source
    requires B >= 1
  {
    if rule.find.Some? && rule.replace.Some? then
      Source(Windows(RuleRewrite(lib, rule.find.value, rule.replace.value), B, s.text, s.eager), false)
    else if rule.replace.Some? then Source(rule.replace.value, false)
    else if rule.prepend.Some? then Source(rule.prepend.value + s.text, s.eager && s.text != [])
    else s
  }

  ghost function StackMeaning(lib: RegexpLib, B: nat, s: Source, rules: seq<Rule>): Source
    requires B >= 1
    decreases |rules|
  {
    if rules == [] then s else StackMeaning(lib, B, StreamMeaning(lib, B, s, rules[0]), rules[1..])
  }

  /** No window that a find rule meets after its first one more than doubles. */
  ghost predicate RuleFits(lib: RegexpLib, B: nat, s: Source, rule: Rule)
    requires B >= 1
  {
    rule.find.Some? && rule.replace.Some? ==>
      Fits(RuleRewrite(lib, rule.find.value, rule.replace.value), B, s.text, s.eager)
  }

  ghost predicate StackFits(lib: RegexpLib, B: nat, s: Source, rules: seq<Rule>)
    requires B >= 1
    decreases |rules|
  {
    rules == [] || DereferencesNil(rules[0])
    || (RuleFits(lib, B, s, rules[0]) && StackFits(lib, B, StreamMeaning(lib, B, s, rules[0]), rules[1..]))
  }

  function ErrorAfter(fin: Error, rule: Rule): Error {
    if rule.find.None? && rule.replace.Some? then EOF else fin
  }

  function FinalError(fin: Error, rules: seq<Rule>): Error
    decreases |rules|
  {
    if rules == [] then fin else FinalError(ErrorAfter(fin, rules[0]), rules[1..])
  }

  /** None is the panic of the branch for appending. */
  method ApplyStreamRule(lib: RegexpLib, input: Reader, bufferSize: nat, rule: Rule) returns (r: Option<Reader>)
    requires input.Valid() && bufferSize >= 1 && RuleFits(lib, bufferSize, Held(input), rule)
    ensures r.None? <==> DereferencesNil(rule)
    ensures r.Some? ==>
      && r.value.Valid() && fresh(r.value.Repr() - input.Repr())
      && Held(r.value) == StreamMeaning(lib, bufferSize, Held(input), rule)
      && r.value.Fin() == ErrorAfter(input.Fin(), rule)
  {
    if rule.find.Some? && rule.replace.Some? {
      var x := new RegexReader(input, bufferSize, RuleRewrite(lib, rule.find.value, rule.replace.value));
      r := Some(FromRegex(x));
    } else if rule.replace.Some? {
      var t := new TextReader(rule.replace.value);
      r := Some(FromText(t));
    } else if rule.prepend.Some? {
      var q := new PrependReader(rule.prepend.value, input);
      r := Some(FromPrepend(q));
    } else if rule.append.Some? {
      r := None;
    } else {
      r := Some(input);
    }
  }

  /** With the first `k` rules stacked on a reader that held `s0`, the stack holds `s`. */
  ghost predicate Stacked(lib: RegexpLib, B: nat, s0: Source, fin0: Error, rules: seq<Rule>, k: nat, s: Source, fin: Error)
    requires B >= 1 && k <= |rules|
  {
    && StackFits(lib, B, s, rules[k..])
    && StackMeaning(lib, B, s, rules[k..]) == StackMeaning(lib, B, s0, rules)
    && FinalError(fin, rules[k..]) == FinalError(fin0, rules)
  }

  lemma NextRule(lib: RegexpLib, B: nat, s0: Source, fin0: Error, rules: seq<Rule>, k: nat, s: Source, fin: Error)
    requires B >= 1 && k < |rules| && !DereferencesNil(rules[k]) && Stacked(lib, B, s0, fin0, rules, k, s, fin)
    ensures RuleFits(lib, B, s, rules[k])
    ensures Stacked(lib, B, s0, fin0, rules, k + 1, StreamMeaning(lib, B, s, rules[k]), ErrorAfter(fin, rules[k]))
  {
    assert rules[k..][0] == rules[k] && rules[k..][1..] == rules[k + 1..];
  }

  lemma AllStacked(lib: RegexpLib, B: nat, s0: Source, fin0: Error, rules: seq<Rule>, s: Source, fin: Error)
    requires B >= 1
    ensures Stacked(lib, B, s0, fin0, rules, |rules|, s, fin) ==>
              s == StackMeaning(lib, B, s0, rules) && fin == FinalError(fin0, rules)
  {
  }

  /** The stack holds the left-to-right fold of the rules' meanings. */
  method AlterBody(lib: RegexpLib, r: Reader, bufferSize: nat, rules: seq<Rule>) returns (out: Option<Reader>)
    requires r.Valid() && bufferSize >= 1 && StackFits(lib, bufferSize, Held(r), rules)
    ensures out.None? <==> exists k :: 0 <= k < |rules| && DereferencesNil(rules[k])
    ensures out.Some? ==>
      && out.value.Valid() && fresh(out.value.Repr() - r.Repr())
      && Held(out.value) == StackMeaning(lib, bufferSize, Held(r), rules)
      && out.value.Fin() == FinalError(r.Fin(), rules)
  {
    if |rules| == 0 {
      return Some(r);
    }
    var reader := r;
    ghost var s := Held(r);
    assert rules[0..] == rules;
    for k := 0 to |rules|
      invariant reader.Valid() && fresh(reader.Repr() - r.Repr())
      invariant forall j :: 0 <= j < k ==> !DereferencesNil(rules[j])
      invariant Stacked(lib, bufferSize, s, r.Fin(), rules, k, Held(reader), reader.Fin())
    {
      if DereferencesNil(rules[k]) {
        return None;
      }
      NextRule(lib, bufferSize, s, r.Fin(), rules, k, Held(reader), reader.Fin());
      var next := ApplyStreamRule(lib, reader, bufferSize, rules[k]);
      reader := next.value;
    }
    AllStacked(lib, bufferSize, s, r.Fin(), rules, Held(reader), reader.Fin());
    out := Some(reader);
  }

  /** For every body, every way its source splits, stalls and ends, every sequence of
      destination sizes and every list of rules: what is read from the stack. */
  method StackedBody(lib: RegexpLib, data: Bytes, stalls: nat, fin: Error, eager: bool,
                     bufferSize: nat, rules: seq<Rule>, capacity: nat, idle: nat)
    returns (out: Option<Bytes>)
    requires bufferSize >= 1 && capacity >= 1 && StackFits(lib, bufferSize, Source(data, eager), rules)
    ensures out.None? <==> exists k :: 0 <= k < |rules| && DereferencesNil(rules[k])
    ensures out.Some? ==> out.value == StackMeaning(lib, bufferSize, Source(data, eager), rules).text
  {
    var body := new Body(data, stalls, fin, eager);
    var stack := AlterBody(lib, FromBody(body), bufferSize, rules);
    if stack.None? {
      return None;
    }
    var text, e := Drain(stack.value, capacity, idle);
    out := Some(text);
  }

  // ------------------------------------------- agreement with whole texts

  /** The rules whose streaming form means the same as their form on texts. */
  ghost predicate Faithful(lib: RegexpLib, B: nat, rule: Rule) {
    && !DereferencesNil(rule)
    && (rule.find.Some? && rule.replace.Some? ==>
          && rule.find.value != []
          && Streams(rule.find.value, rule.replace.value, B)
          && forall w :: lib.replaceAll(rule.find.value, w, rule.replace.value)
                         == ReplaceAll(rule.find.value, rule.replace.value, w))
  }

  lemma FaithfulMeaning(lib: RegexpLib, B: nat, s: Source, rule: Rule)
    requires B >= 1 && Faithful(lib, B, rule)
    ensures RuleFits(lib, B, s, rule)
    ensures StreamMeaning(lib, B, s, rule).text == ApplyRule(lib, s.text, rule)
  {
    if rule.find.Some? && rule.replace.Some? {
      var find, repl := rule.find.value, rule.replace.value;
      StreamsIsRight(find, repl, B);
      assert Right(find, repl, B, s.text, s.eager);
      SameRewrite(RuleRewrite(lib, find, repl), LiteralRewrite(find, repl), B, s.text, s.eager);
    }
  }

  lemma SameRewrite(R: Bytes -> Bytes, L: Bytes -> Bytes, B: nat, d: Bytes, e: bool)
    requires B >= 1 && forall w :: R(w) == L(w)
    ensures Windows(R, B, d, e) == Windows(L, B, d, e) && (Fits(R, B, d, e) <==> Fits(L, B, d, e))
  {
    if !Final(d, 2 * B, e) {
      var o := R(d[..2 * B]);
      SameRest(R, L, B, o[|o| / 2..], d[2 * B..], e);
    }
  }

  lemma {:induction false} SameRest(R: Bytes -> Bytes, L: Bytes -> Bytes, B: nat, c: Bytes, d: Bytes, e: bool)
    requires B >= 1 && forall w :: R(w) == L(w)
    ensures Rest(R, B, c, d, e) == Rest(L, B, c, d, e) && (RestFits(R, B, c, d, e) <==> RestFits(L, B, c, d, e))
    decreases |d|
  {
    if !Final(d, B, e) {
      var w := c + d[..B];
      SameRest(R, L, B, CarryOf(w, R(w)), d[B..], e);
    }
  }

  /** The stack means the same as applying the rules to the whole body in turn. */
  lemma {:induction false} StackIsFold(lib: RegexpLib, B: nat, s: Source, rules: seq<Rule>)
    requires B >= 1 && forall k :: 0 <= k < |rules| ==> Faithful(lib, B, rules[k])
    ensures StackFits(lib, B, s, rules)
    ensures StackMeaning(lib, B, s, rules).text == ApplyRules(lib, s.text, rules)
    decreases |rules|
  {
    if rules != [] {
      FaithfulMeaning(lib, B, s, rules[0]);
      StackIsFold(lib, B, StreamMeaning(lib, B, s, rules[0]), rules[1..]);
    }
  }

  /** For every body, every way its source splits, stalls and ends, every sequence
      of destination sizes and every list of faithful rules: what is read from the
      stack is the rules applied to the whole body. */
  method RewrittenBody(lib: RegexpLib, data: Bytes, stalls: nat, fin: Error, eager: bool,
                       bufferSize: nat, rules: seq<Rule>, capacity: nat, idle: nat)
    returns (out: Bytes)
    requires bufferSize >= 1 && capacity >= 1
    requires forall k :: 0 <= k < |rules| ==> Faithful(lib, bufferSize, rules[k])
    ensures out == ApplyRules(lib, data, rules)
  {
    StackIsFold(lib, bufferSize, Source(data, eager), rules);
    var text := StackedBody(lib, data, stalls, fin, eager, bufferSize, rules, capacity, idle);
    out := text.value;
  }

  /** The same readers on the smallest growing replacement: the end of the text is lost. */
  method CutOffBody(stalls: nat, fin: Error, capacity: nat, idle: nat) returns (out: Bytes)
    requires capacity >= 1
    ensures out == "xy" + ("xy" + ("x" + [0 as char]))
    ensures ReplaceAll("a", "xy", "aa" + "a") == "xy" + ("xy" + "xy")
  {
    Growth.GrowthExample();
    var e;
    out, e := StreamedBody("aa" + "a", stalls, fin, false, 1, LiteralRewrite("a", "xy"), capacity, idle);
  }

  /** A documented append rule never streams: its reader construction dereferences
      nil, and it is the only kind of legal rule that does. */
  lemma AppendNeverStreams(lib: RegexpLib, j: RuleJSON)
    requires ErrorOf(lib, j).None?
    ensures DereferencesNil(Executable(j)) <==> j.append.Some?
  {
  }
}
