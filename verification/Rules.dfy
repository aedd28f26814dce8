/** Rewrite rules: their JSON form, their compilation and their meaning on text. */
module Rules {
  import opened Wrappers
  import opened Literal

  /** The regular-expression library: which patterns compile, and what replacing
      every match of a compiled pattern yields. */
  datatype RegexpLib = RegexpLib(compiles: string -> bool, replaceAll: (string, Bytes, Bytes) -> Bytes)

  /** An executable rule; a compiled pattern is represented by its source text. */
  datatype Rule = Rule(prepend: Option<Bytes>, find: Option<string>, replace: Option<Bytes>, append: Option<Bytes>)

  datatype RuleJSON = RuleJSON(find: Option<string>, replace: Option<Bytes>, append: Option<Bytes>,
                               prepend: Option<Bytes>, delete: Option<string>)

  datatype CompileError = IllegalFields | BadPattern(pattern: string)

  function ApplyRule(lib: RegexpLib, input: Bytes, rule: Rule): Bytes {
    if rule.find.Some? && rule.replace.Some? then lib.replaceAll(rule.find.value, input, rule.replace.value)
    else if rule.replace.Some? then rule.replace.value
    else if rule.prepend.Some? then rule.prepend.value + input
    else if rule.append.Some? then input + rule.append.value
    else input
  }

  function ApplyRules(lib: RegexpLib, input: Bytes, rules: seq<Rule>): Bytes
    decreases |rules|
  {
    if rules == [] then input else ApplyRules(lib, ApplyRule(lib, input, rules[0]), rules[1..])
  }

  // -------------------------------------------- the documented JSON meaning

  function Count(present: bool): nat {
    if present then 1 else 0
  }

  /** Exactly one of replace, prepend, append and delete; find only beside replace. */
  predicate Legal(r: RuleJSON) {
    && Count(r.replace.Some?) + Count(r.prepend.Some?) + Count(r.append.Some?) + Count(r.delete.Some?) == 1
    && (r.find.Some? ==> r.replace.Some?)
  }

  /** The pattern a legal rule asks to compile, if any. */
  function PatternOf(r: RuleJSON): Option<string> {
    if r.delete.Some? then r.delete else r.find
  }

  function ErrorOf(lib: RegexpLib, r: RuleJSON): Option<CompileError> {
    if !Legal(r) then Some(IllegalFields)
    else if PatternOf(r).Some? && !lib.compiles(PatternOf(r).value) then Some(BadPattern(PatternOf(r).value))
    else None
  }

  /** What the documentation says a legal rule does to a text. */
  function Documented(lib: RegexpLib, input: Bytes, r: RuleJSON): Bytes {
    match (r.find, r.replace, r.prepend, r.append, r.delete)
    case (Some(f), Some(t), None, None, None) => lib.replaceAll(f, input, t)
    case (None, Some(t), None, None, None) => t
    case (None, None, Some(t), None, None) => t + input
    case (None, None, None, Some(t), None) => input + t
    case (None, None, None, None, Some(p)) => lib.replaceAll(p, input, "")
    case _ => input
  }

  function DocumentedAll(lib: RegexpLib, input: Bytes, rules: seq<RuleJSON>): Bytes
    decreases |rules|
  {
    if rules == [] then input else DocumentedAll(lib, Documented(lib, input, rules[0]), rules[1..])
  }

  /** The executable form of a legal rule: deletion is replacement by nothing. */
  function Executable(r: RuleJSON): Rule {
    if r.delete.Some? then Rule(None, r.delete, Some(""), None)
    else Rule(r.prepend, r.find, r.replace, r.append)
  }

  /** The shapes that the documentation gives: find and replace, replace, prepend,
      append, delete. */
  predicate Shaped(r: RuleJSON) {
    match r
    case RuleJSON(Some(_), Some(_), None, None, None) => true
    case RuleJSON(None, Some(_), None, None, None) => true
    case RuleJSON(None, None, None, Some(_), None) => true
    case RuleJSON(None, None, Some(_), None, None) => true
    case RuleJSON(None, None, None, None, Some(_)) => true
    case _ => false
  }

  /** A rule is fine exactly if it has one of these shapes and every pattern in it compiles. */
  predicate Fine(lib: RegexpLib, r: RuleJSON) {
    && Shaped(r)
    && (r.find.Some? ==> lib.compiles(r.find.value))
    && (r.delete.Some? ==> lib.compiles(r.delete.value))
  }

  /** The error of a rule that is not: its shape is looked at first. */
  predicate ErrorIs(lib: RegexpLib, r: RuleJSON, e: CompileError) {
    match e
    case IllegalFields => !Shaped(r)
    case BadPattern(p) => Shaped(r) && !lib.compiles(p) && (r.find == Some(p) || r.delete == Some(p))
  }

  lemma FineExact(lib: RegexpLib, r: RuleJSON)
    ensures Legal(r) <==> Shaped(r)
    ensures ErrorOf(lib, r).None? <==> Fine(lib, r)
    ensures forall e :: ErrorOf(lib, r) == Some(e) <==> ErrorIs(lib, r, e)
  {
  }

  /** `rules` is the compilation of `json`: same length, same order, every rule legal. */
  ghost predicate Compiles(lib: RegexpLib, json: seq<RuleJSON>, rules: seq<Rule>) {
    && |rules| == |json|
    && forall i :: 0 <= i < |json| ==> ErrorOf(lib, json[i]).None? && rules[i] == Executable(json[i])
  }

  predicate AllFine(lib: RegexpLib, rules: seq<RuleJSON>) {
    forall i :: 0 <= i < |rules| ==> Fine(lib, rules[i])
  }

  /** `e` is the error of the first rule that has one. */
  ghost predicate FirstError(lib: RegexpLib, json: seq<RuleJSON>, e: CompileError) {
    exists k :: 0 <= k < |json| && ErrorOf(lib, json[k]) == Some(e)
             && forall i :: 0 <= i < k ==> ErrorOf(lib, json[i]).None?
  }

  // ------------------------------------------------------------- compilation

  method CompileRules(lib: RegexpLib, json: seq<RuleJSON>) returns (r: Result<seq<Rule>, CompileError>)
    ensures r.Ok? <==> AllFine(lib, json)
    ensures r.Ok? ==> Compiles(lib, json, r.value)
    ensures r.Err? ==> FirstError(lib, json, r.error)
    ensures r.Err? ==> exists k :: 0 <= k < |json| && ErrorIs(lib, json[k], r.error) && AllFine(lib, json[..k])
  {
    forall j
      ensures Fine(lib, j) <==> ErrorOf(lib, j).None?
      ensures forall e :: ErrorOf(lib, j) == Some(e) <==> ErrorIs(lib, j, e)
    {
      FineExact(lib, j);
    }
    var rules: seq<Rule> := [];
    for k := 0 to |json|
      invariant |rules| == k
      invariant forall i :: 0 <= i < k ==> ErrorOf(lib, json[i]).None? && rules[i] == Executable(json[i])
    {
      var j := json[k];
      var rule := Rule(None, None, None, None);
      if j.replace.Some? {
        if j.append.Some? || j.prepend.Some? || j.delete.Some? {
          return Err(IllegalFields);
        }
        rule := rule.(replace := j.replace);
        if j.find.Some? {
          if !lib.compiles(j.find.value) {
            return Err(BadPattern(j.find.value));
          }
          rule := rule.(find := j.find);
        }
      } else if j.prepend.Some? {
        if j.delete.Some? || j.find.Some? || j.replace.Some? || j.append.Some? {
          return Err(IllegalFields);
        }
        rule := rule.(prepend := j.prepend);
      } else if j.append.Some? {
        if j.delete.Some? || j.find.Some? || j.replace.Some? || j.prepend.Some? {
          return Err(IllegalFields);
        }
        rule := rule.(append := j.append);
      } else if j.delete.Some? {
        if j.prepend.Some? || j.find.Some? || j.replace.Some? || j.append.Some? {
          return Err(IllegalFields);
        }
        if !lib.compiles(j.delete.value) {
          return Err(BadPattern(j.delete.value));
        }
        rule := rule.(find := j.delete, replace := Some(""));
      } else {
        return Err(IllegalFields);
      }
      rules := rules + [rule];
    }
    r := Ok(rules);
  }

  /** Folding the compiled rules over a text is the documented meaning of the list. */
  lemma {:induction false} CompiledMeaning(lib: RegexpLib, json: seq<RuleJSON>, rules: seq<Rule>, s: Bytes)
    requires Compiles(lib, json, rules)
    ensures ApplyRules(lib, s, rules) == DocumentedAll(lib, s, json)
    decreases |json|
  {
    if json != [] {
      assert ErrorOf(lib, json[0]).None? && rules[0] == Executable(json[0]);
      CompiledMeaning(lib, json[1..], rules[1..], Documented(lib, s, json[0]));
    }
  }

  /** From the JSON form to the text, kind by kind. */
  lemma RuleKinds(lib: RegexpLib, s: Bytes, f: string, t: Bytes)
    ensures ApplyRule(lib, s, Executable(RuleJSON(Some(f), Some(t), None, None, None))) == lib.replaceAll(f, s, t)
    ensures ApplyRule(lib, s, Executable(RuleJSON(None, Some(t), None, None, None))) == t
    ensures var r := ApplyRule(lib, s, Executable(RuleJSON(None, None, Some(t), None, None)));
            |r| == |s| + |t| && s <= r && r[|s|..] == t
    ensures var r := ApplyRule(lib, s, Executable(RuleJSON(None, None, None, Some(t), None)));
            |r| == |s| + |t| && t <= r && r[|t|..] == s
    ensures ApplyRule(lib, s, Executable(RuleJSON(None, None, None, None, Some(f)))) == lib.replaceAll(f, s, "")
  {
  }

  // --------------------------------------------------------- whole documents

  datatype TypeJSON = TypeJSON(url: seq<RuleJSON>, header: seq<RuleJSON>, body: seq<RuleJSON>, status: seq<RuleJSON>)
  datatype Type = Type(url: seq<Rule>, header: seq<Rule>, body: seq<Rule>, status: seq<Rule>)
  datatype WhereJSON = WhereJSON(request: Option<TypeJSON>, response: Option<TypeJSON>)
  datatype Where = Where(request: Type, response: Type)
  datatype Speeds = Speeds(upload: Option<nat>, download: Option<nat>, delay: Option<nat>)
  datatype EntryJSON = EntryJSON(url: Option<string>, speeds: Speeds, rewrite: Option<WhereJSON>)
  datatype Entry = Entry(url: string, speeds: Speeds, rewrite: Where)

  const NO_RULES := TypeJSON([], [], [], [])

  /** All rules of one direction in the order in which they are compiled. */
  function Flat(t: TypeJSON): seq<RuleJSON> {
    t.url + t.header + t.body + t.status
  }

  ghost predicate CompilesType(lib: RegexpLib, json: TypeJSON, t: Type) {
    && Compiles(lib, json.url, t.url) && Compiles(lib, json.header, t.header)
    && Compiles(lib, json.body, t.body) && Compiles(lib, json.status, t.status)
  }

  lemma ErrorInPart(lib: RegexpLib, done: seq<RuleJSON>, part: seq<RuleJSON>, rest: seq<RuleJSON>, e: CompileError)
    requires forall i :: 0 <= i < |done| ==> ErrorOf(lib, done[i]).None?
    requires FirstError(lib, part, e)
    ensures FirstError(lib, done + part + rest, e)
  {
    var all := done + part + rest;
    var k :| 0 <= k < |part| && ErrorOf(lib, part[k]) == Some(e)
          && forall i :: 0 <= i < k ==> ErrorOf(lib, part[i]).None?;
    assert all[|done| + k] == part[k];
    forall i | 0 <= i < |done| + k
      ensures ErrorOf(lib, all[i]).None?
    {
      assert all[i] == if i < |done| then done[i] else part[i - |done|];
    }
  }

  /** The error of the first of the four lists that has one. */
  ghost predicate TypeError(lib: RegexpLib, t: TypeJSON, e: CompileError) {
    if !AllFine(lib, t.url) then FirstError(lib, t.url, e)
    else if !AllFine(lib, t.header) then FirstError(lib, t.header, e)
    else if !AllFine(lib, t.body) then FirstError(lib, t.body, e)
    else FirstError(lib, t.status, e)
  }

  lemma FineHasNoError(lib: RegexpLib, rules: seq<RuleJSON>)
    ensures AllFine(lib, rules) <==> forall i :: 0 <= i < |rules| ==> ErrorOf(lib, rules[i]).None?
  {
    forall i | 0 <= i < |rules|
      ensures Fine(lib, rules[i]) <==> ErrorOf(lib, rules[i]).None?
    {
      FineExact(lib, rules[i]);
    }
  }

  lemma FineConcat(lib: RegexpLib, a: seq<RuleJSON>, b: seq<RuleJSON>)
    requires AllFine(lib, a) && AllFine(lib, b)
    ensures AllFine(lib, a + b)
  {
  }

  /** It is the first error of the four lists in a row. */
  lemma FirstOfType(lib: RegexpLib, t: TypeJSON, e: CompileError)
    requires TypeError(lib, t, e)
    ensures FirstError(lib, Flat(t), e)
  {
    if !AllFine(lib, t.url) {
      FirstInPart(lib, [], t.url, t.header + t.body + t.status, Flat(t), e);
    } else if !AllFine(lib, t.header) {
      FirstInPart(lib, t.url, t.header, t.body + t.status, Flat(t), e);
    } else {
      FineConcat(lib, t.url, t.header);
      if !AllFine(lib, t.body) {
        FirstInPart(lib, t.url + t.header, t.body, t.status, Flat(t), e);
      } else {
        FineConcat(lib, t.url + t.header, t.body);
        FirstInPart(lib, t.url + t.header + t.body, t.status, [], Flat(t), e);
      }
    }
  }

  lemma FirstInPart(lib: RegexpLib, done: seq<RuleJSON>, part: seq<RuleJSON>, rest: seq<RuleJSON>, all: seq<RuleJSON>, e: CompileError)
    requires AllFine(lib, done) && FirstError(lib, part, e) && all == done + part + rest
    ensures FirstError(lib, all, e)
  {
    FineHasNoError(lib, done);
    ErrorInPart(lib, done, part, rest, e);
  }

  predicate TypeFine(lib: RegexpLib, t: TypeJSON) {
    AllFine(lib, t.url) && AllFine(lib, t.header) && AllFine(lib, t.body) && AllFine(lib, t.status)
  }

  method CompileTypes(lib: RegexpLib, json: TypeJSON) returns (r: Result<Type, CompileError>)
    ensures r.Ok? <==> TypeFine(lib, json)
    ensures r.Ok? ==> CompilesType(lib, json, r.value)
    ensures r.Err? ==> TypeError(lib, json, r.error) && FirstError(lib, Flat(json), r.error)
  {
    var url := CompileRules(lib, json.url);
    if url.Err? {
      FirstOfType(lib, json, url.error);
      return Err(url.error);
    }
    var header := CompileRules(lib, json.header);
    if header.Err? {
      FirstOfType(lib, json, header.error);
      return Err(header.error);
    }
    var body := CompileRules(lib, json.body);
    if body.Err? {
      FirstOfType(lib, json, body.error);
      return Err(body.error);
    }
    var status := CompileRules(lib, json.status);
    if status.Err? {
      FirstOfType(lib, json, status.error);
      return Err(status.error);
    }
    r := Ok(Type(url.value, header.value, body.value, status.value));
  }

  /** A missing request or response section counts as one without rules. */
  function Section(w: Option<WhereJSON>, request: bool): TypeJSON {
    match w
    case None => NO_RULES
    case Some(x) =>
      match (if request then x.request else x.response)
      case None => NO_RULES
      case Some(t) => t
  }

  ghost predicate EntryError(lib: RegexpLib, j: EntryJSON, e: CompileError) {
    if j.url.Some? && !lib.compiles(j.url.value) then e == BadPattern(j.url.value)
    else FirstError(lib, Flat(Section(j.rewrite, true)) + Flat(Section(j.rewrite, false)), e)
  }

  predicate EntryClean(lib: RegexpLib, j: EntryJSON) {
    && (j.url.Some? ==> lib.compiles(j.url.value))
    && var all := Flat(Section(j.rewrite, true)) + Flat(Section(j.rewrite, false));
       forall i :: 0 <= i < |all| ==> ErrorOf(lib, all[i]).None?
  }

  ghost predicate CompilesEntry(lib: RegexpLib, j: EntryJSON, x: Entry) {
    && (j.url.Some? ==> lib.compiles(j.url.value) && x.url == j.url.value)
    && (j.url.None? ==> x.url == ".*")
    && x.speeds == j.speeds
    && CompilesType(lib, Section(j.rewrite, true), x.rewrite.request)
    && CompilesType(lib, Section(j.rewrite, false), x.rewrite.response)
  }

  lemma FlatIsClean(lib: RegexpLib, json: TypeJSON, t: Type)
    requires CompilesType(lib, json, t)
    ensures forall i :: 0 <= i < |Flat(json)| ==> ErrorOf(lib, Flat(json)[i]).None?
  {
    forall i | 0 <= i < |Flat(json)|
      ensures ErrorOf(lib, Flat(json)[i]).None?
    {
      var a, b, c := |json.url|, |json.header|, |json.body|;
      assert Flat(json)[i] == if i < a then json.url[i] else if i < a + b then json.header[i - a]
                              else if i < a + b + c then json.body[i - a - b] else json.status[i - a - b - c];
    }
  }

  lemma ConcatClean(lib: RegexpLib, a: seq<RuleJSON>, b: seq<RuleJSON>)
    requires forall i :: 0 <= i < |a| ==> ErrorOf(lib, a[i]).None?
    requires forall i :: 0 <= i < |b| ==> ErrorOf(lib, b[i]).None?
    ensures forall i :: 0 <= i < |a + b| ==> ErrorOf(lib, (a + b)[i]).None?
  {
  }

  /** The request section and then the response section of one entry. */
  method CompileWhere(lib: RegexpLib, json: Option<WhereJSON>) returns (r: Result<Where, CompileError>)
    ensures r.Ok? ==>
      && (if json.Some? && json.value.request.Some? then CompilesType(lib, json.value.request.value, r.value.request)
          else r.value.request == Type([], [], [], []))
      && (if json.Some? && json.value.response.Some? then CompilesType(lib, json.value.response.value, r.value.response)
          else r.value.response == Type([], [], [], []))
    ensures r.Err? ==>
      if json.Some? && json.value.request.Some? && !TypeFine(lib, json.value.request.value)
      then TypeError(lib, json.value.request.value, r.error)
      else json.Some? && json.value.response.Some? && TypeError(lib, json.value.response.value, r.error)
    ensures r.Ok? ==>
      && CompilesType(lib, Section(json, true), r.value.request)
      && CompilesType(lib, Section(json, false), r.value.response)
    ensures r.Err? ==> FirstError(lib, Flat(Section(json, true)) + Flat(Section(json, false)), r.error)
  {
    ghost var req, resp := Flat(Section(json, true)), Flat(Section(json, false));
    var rewrite := if json.Some? then json.value else WhereJSON(None, None);
    var request := CompileTypes(lib, if rewrite.request.Some? then rewrite.request.value else NO_RULES);
    if request.Err? {
      ErrorInPart(lib, [], req, resp, request.error);
      assert [] + req + resp == req + resp;
      return Err(request.error);
    }
    var response := CompileTypes(lib, if rewrite.response.Some? then rewrite.response.value else NO_RULES);
    if response.Err? {
      FlatIsClean(lib, Section(json, true), request.value);
      ErrorInPart(lib, req, resp, [], response.error);
      assert req + resp + [] == req + resp;
      return Err(response.error);
    }
    r := Ok(Where(request.value, response.value));
  }

  lemma CompiledIsClean(lib: RegexpLib, j: EntryJSON, x: Entry)
    requires CompilesEntry(lib, j, x)
    ensures EntryClean(lib, j)
  {
    FlatIsClean(lib, Section(j.rewrite, true), x.rewrite.request);
    FlatIsClean(lib, Section(j.rewrite, false), x.rewrite.response);
    ConcatClean(lib, Flat(Section(j.rewrite, true)), Flat(Section(j.rewrite, false)));
  }

  /** Entries are compiled in order; the first one with an error decides the outcome. */
  method Compile(lib: RegexpLib, json: seq<EntryJSON>) returns (r: Result<seq<Entry>, CompileError>)
    ensures r.Ok? ==> |r.value| == |json| && forall i :: 0 <= i < |json| ==>
      && CompilesEntry(lib, json[i], r.value[i]) && r.value[i].speeds == json[i].speeds
      && r.value[i].url == if json[i].url.Some? then json[i].url.value else ".*"
    ensures r.Err? ==> exists k ::
      && 0 <= k < |json| && EntryError(lib, json[k], r.error)
      && forall i :: 0 <= i < k ==> EntryClean(lib, json[i])
  {
    var entries: seq<Entry> := [];
    for k := 0 to |json|
      invariant |entries| == k
      invariant forall i :: 0 <= i < k ==> CompilesEntry(lib, json[i], entries[i])
      invariant forall i :: 0 <= i < k ==> EntryClean(lib, json[i])
    {
      var j := json[k];
      if j.url.Some? && !lib.compiles(j.url.value) {
        assert EntryError(lib, json[k], BadPattern(j.url.value));
        return Err(BadPattern(j.url.value));
      }
      var url := if j.url.Some? then j.url.value else ".*";
      var rewrite := CompileWhere(lib, j.rewrite);
      if rewrite.Err? {
        assert EntryError(lib, json[k], rewrite.error);
        return Err(rewrite.error);
      }
      var entry := Entry(url, j.speeds, rewrite.value);
      CompiledIsClean(lib, j, entry);
      entries := entries + [entry];
    }
    r := Ok(entries);
  }
}
