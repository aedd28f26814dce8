/** Headers as text: the printer and parser around the header rules. Text is a
    sequence of Unicode characters. */
module Header {
  import opened Literal
  import opened Rules
  import opened Strings

  type Headers = map<string, seq<string>>

  // ------------------------------------------------------ library functions

  /** unicode.IsSpace */
  predicate IsSpace(c: char) {
    var n := c as int;
    || 9 <= n <= 13 || n == 0x20 || n == 0x85 || n == 0xA0 || n == 0x1680 || 0x2000 <= n <= 0x200A
    || n == 0x2028 || n == 0x2029 || n == 0x202F || n == 0x205F || n == 0x3000
  }

  function TrimLeft(s: string): string {
    if s != "" && IsSpace(s[0]) then TrimLeft(s[1..]) else s
  }

  function TrimRight(s: string): string {
    if s != "" && IsSpace(s[|s| - 1]) then TrimRight(s[..|s| - 1]) else s
  }

  /** strings.TrimSpace */
  function Trim(s: string): string {
    TrimRight(TrimLeft(s))
  }

  /** The bytes allowed in a header field name (section 3.2.6 of RFC 7230). */
  predicate IsTokenChar(c: char) {
    'a' <= c <= 'z' || 'A' <= c <= 'Z' || '0' <= c <= '9' || c in "!#$%&'*+-.^_`|~"
  }

  function Recase(c: char, upper: bool): char {
    if upper && 'a' <= c <= 'z' then ((c as int) - 32) as char
    else if !upper && 'A' <= c <= 'Z' then ((c as int) + 32) as char
    else c
  }

  function Capitalize(s: string, upper: bool): string {
    if s == "" then ""
    else
      var c := Recase(s[0], upper);
      [c] + Capitalize(s[1..], c == '-')
  }

  /** textproto.CanonicalMIMEHeaderKey */
  function Canon(k: string): string {
    if forall c :: c in k ==> IsTokenChar(c) then Capitalize(k, true) else k
  }

  function Lines(s: string): (r: seq<string>)
    ensures r != []
  {
    Split(s, '\n')
  }

  /** Index of the first colon, |s| if there is none. */
  function Colon(s: string): (i: nat)
    ensures i <= |s| && (i < |s| ==> s[i] == ':') && ':' !in s[..i]
  {
    if s == "" || s[0] == ':' then 0
    else
      var i := 1 + Colon(s[1..]);
      assert s[..i] == [s[0]] + s[1..][..i - 1];
      i
  }

  /** http.Header.Add */
  function Add(h: Headers, k: string, v: string): Headers {
    var ck := Canon(k);
    h[ck := (if ck in h then h[ck] else []) + [v]]
  }

  // --------------------------------------------------------------- the code

  function GetKeyValue(line: string): (string, string) {
    var i := Colon(line);
    (line[..i], if i < |line| then Trim(line[i + 1..]) else "")
  }

  function AddLine(h: Headers, line: string): Headers {
    var (k, v) := GetKeyValue(line);
    if k != "" || v != "" then Add(h, k, v) else h
  }

  function AddLines(h: Headers, lines: seq<string>): Headers
    decreases |lines|
  {
    if lines == [] then h else AddLines(AddLine(h, lines[0]), lines[1..])
  }

  function Parse(s: string): Headers {
    AddLines(map[], Lines(s))
  }

  function KeyLines(k: string, vs: seq<string>): seq<string> {
    if vs == [] then [] else [k + ": " + vs[0]] + KeyLines(k, vs[1..])
  }

  function AllLines(h: Headers, order: seq<string>): seq<string>
    requires forall k :: k in order ==> k in h
  {
    if order == [] then [] else KeyLines(order[0], h[order[0]]) + AllLines(h, order[1..])
  }

  function Join(lines: seq<string>): string {
    if lines == [] then "" else if |lines| == 1 then lines[0] else lines[0] + "\n" + Join(lines[1..])
  }

  /** One iteration order of the header's map. */
  ghost predicate IsOrder(h: Headers, order: seq<string>) {
    && (forall k :: k in order <==> k in h)
    && forall i, j :: 0 <= i < j < |order| ==> order[i] != order[j]
  }

  function Print(h: Headers, order: seq<string>): string
    requires forall k :: k in order ==> k in h
  {
    "\n" + Join(AllLines(h, order)) + "\n"
  }

  // -------------------------------------- what parsing means, key by key

  /** The value of a line whose canonical key is `ck`. */
  function ValueFor(line: string, ck: string): seq<string> {
    var (k, v) := GetKeyValue(line);
    if (k != "" || v != "") && Canon(k) == ck then [v] else []
  }

  /** The values of the lines whose canonical key is `ck`, in line order. */
  function ValuesFor(lines: seq<string>, ck: string): seq<string>
    decreases |lines|
  {
    if lines == [] then [] else ValueFor(lines[0], ck) + ValuesFor(lines[1..], ck)
  }

  function Collected(h: Headers, ck: string): seq<string> {
    if ck in h then h[ck] else []
  }

  lemma LineCollects(h: Headers, line: string, ck: string)
    requires forall k :: k in h ==> h[k] != []
    ensures var r := AddLine(h, line);
            (forall k :: k in r ==> r[k] != []) && Collected(r, ck) == Collected(h, ck) + ValueFor(line, ck)
  {
  }

  lemma Regrouped(a: seq<string>, b: seq<string>, c: seq<string>)
    ensures a + b + c == a + (b + c)
  {
  }

  /** Parsing collects, for every key, exactly the values of its lines. */
  lemma {:induction false} CollectsValues(h: Headers, lines: seq<string>, ck: string)
    requires forall k :: k in h ==> h[k] != []
    ensures var r := AddLines(h, lines);
            && (forall k :: k in r ==> r[k] != [])
            && Collected(r, ck) == Collected(h, ck) + ValuesFor(lines, ck)
    decreases |lines|
  {
    if lines != [] {
      var r := AddLine(h, lines[0]);
      LineCollects(h, lines[0], ck);
      CollectsValues(r, lines[1..], ck);
      Regrouped(Collected(h, ck), ValueFor(lines[0], ck), ValuesFor(lines[1..], ck));
    }
  }

  lemma ParseMeaning(s: string, ck: string)
    ensures ck in Parse(s) <==> ValuesFor(Lines(s), ck) != []
    ensures ck in Parse(s) ==> Parse(s)[ck] == ValuesFor(Lines(s), ck)
  {
    CollectsValues(map[], Lines(s), ck);
  }

  lemma SameValues(s: string, t: string)
    requires forall ck :: ValuesFor(Lines(s), ck) == ValuesFor(Lines(t), ck)
    ensures Parse(s) == Parse(t)
  {
    forall ck
      ensures ck in Parse(s) <==> ck in Parse(t)
      ensures ck in Parse(s) ==> Parse(s)[ck] == Parse(t)[ck]
    {
      ParseMeaning(s, ck);
      ParseMeaning(t, ck);
    }
  }

  lemma {:induction false} ValuesConcat(a: seq<string>, b: seq<string>, ck: string)
    ensures ValuesFor(a + b, ck) == ValuesFor(a, ck) + ValuesFor(b, ck)
    decreases |a|
  {
    if a == [] {
      assert a + b == b;
    } else {
      assert (a + b)[1..] == a[1..] + b;
      ValuesConcat(a[1..], b, ck);
    }
  }

  // -------------------------------------------------------- lines and text

  lemma LinesConcat(a: string, b: string)
    ensures Lines(a + "\n" + b) == Lines(a) + Lines(b)
  {
    SplitConcat(a, b, '\n');
  }

  lemma {:induction false} LinesOfJoin(lines: seq<string>)
    requires forall l :: l in lines ==> '\n' !in l
    ensures Lines(Join(lines)) == if lines == [] then [""] else lines
    decreases |lines|
  {
    if |lines| == 1 {
      OneField(lines[0], '\n');
    } else if |lines| > 1 {
      OneField(lines[0], '\n');
      LinesOfJoin(lines[1..]);
      LinesConcat(lines[0], Join(lines[1..]));
      assert lines == [lines[0]] + lines[1..];
    }
  }

  /** Newlines put before or after a text do not change what it parses to. */
  lemma PaddingIsHarmless(s: string)
    ensures Parse("\n" + s) == Parse(s) == Parse(s + "\n")
  {
    assert "" + "\n" + s == "\n" + s && s + "\n" + "" == s + "\n";
    LinesConcat("", s);
    LinesConcat(s, "");
    forall ck
      ensures ValuesFor([""] + Lines(s), ck) == ValuesFor(Lines(s), ck)
      ensures ValuesFor(Lines(s) + [""], ck) == ValuesFor(Lines(s), ck)
    {
      NoValue(ck);
      ValuesConcat([""], Lines(s), ck);
      ValuesConcat(Lines(s), [""], ck);
    }
    SameValues("\n" + s, s);
    SameValues(s + "\n", s);
  }

  lemma NoValue(ck: string)
    ensures ValuesFor([""], ck) == []
  {
    assert Trim("") == "";
  }

  // ------------------------------------------- what the small functions mean

  predicate AllSpace(s: string) {
    forall c :: c in s ==> IsSpace(c)
  }

  /** Begins and ends with something other than space. */
  predicate Tight(s: string) {
    s != "" ==> !IsSpace(s[0]) && !IsSpace(s[|s| - 1])
  }

  lemma {:induction false} TrimLeftOf(a: string, t: string)
    requires AllSpace(a)
    ensures TrimLeft(a + t) == TrimLeft(t)
    decreases |a|
  {
    if a == "" {
      assert a + t == t;
    } else {
      assert a[0] in a && (a + t)[1..] == a[1..] + t;
      TrimLeftOf(a[1..], t);
    }
  }

  lemma {:induction false} TrimRightOf(t: string, b: string)
    requires AllSpace(b)
    ensures TrimRight(t + b) == TrimRight(t)
    decreases |b|
  {
    if b == "" {
      assert t + b == t;
    } else {
      var n := |b| - 1;
      assert b[n] in b && (t + b)[..|t + b| - 1] == t + b[..n];
      TrimRightOf(t, b[..n]);
    }
  }

  /** Trimming takes away exactly the white space around a text. */
  lemma TrimIsMiddle(a: string, t: string, b: string)
    requires AllSpace(a) && Tight(t) && AllSpace(b)
    ensures Trim(a + t + b) == t
  {
    assert a + t + b == a + (t + b);
    TrimLeftOf(a, t + b);
    if t == "" {
      assert t + b == b && b + "" == b;
      TrimLeftOf(b, "");
    } else {
      TrimRightOf(t, b);
    }
  }

  /** A line without a colon is a key without value; otherwise the key ends at the first
      colon, and the value is what follows without the white space around it. */
  lemma KeyValueOf(k: string, a: string, v: string, b: string)
    requires ':' !in k && AllSpace(a) && Tight(v) && AllSpace(b)
    ensures GetKeyValue(k) == (k, "")
    ensures GetKeyValue(k + ":" + (a + v + b)) == (k, v)
  {
    var rest := a + v + b;
    var line := k + ":" + rest;
    NoColon(k);
    ColonAfter(k, rest);
    TrimIsMiddle(a, v, b);
    assert line[|k| + 1..] == rest && line[..|k|] == k && k[..|k|] == k;
  }

  lemma {:induction false} NoColon(k: string)
    requires ':' !in k
    ensures Colon(k) == |k|
    decreases |k|
  {
    if k != "" {
      assert k[0] in k;
      NoColon(k[1..]);
    }
  }

  predicate Lower(c: char) {
    'a' <= c <= 'z'
  }

  predicate Upper(c: char) {
    'A' <= c <= 'Z'
  }

  predicate SameLetter(c: char, d: char) {
    || c == d
    || (Lower(c) && Upper(d) && c as int == d as int + 32)
    || (Upper(c) && Lower(d) && c as int + 32 == d as int)
  }

  /** The same name but for the case of letters. */
  predicate SameName(a: string, b: string) {
    |a| == |b| && forall i :: 0 <= i < |a| ==> SameLetter(a[i], b[i])
  }

  predicate Token(k: string) {
    forall c :: c in k ==> IsTokenChar(c)
  }

  /** Whether the letter at `i` begins a word. */
  predicate Begins(k: string, i: nat)
    requires i < |k|
  {
    i == 0 || k[i - 1] == '-'
  }

  lemma {:induction false} CapitalizeAt(k: string, upper: bool, i: nat)
    requires i < |k|
    ensures |Capitalize(k, upper)| == |k|
    ensures Capitalize(k, upper)[i] == Recase(k[i], if i == 0 then upper else k[i - 1] == '-')
    decreases i, |k|
  {
    var c := Recase(k[0], upper);
    assert c == '-' <==> k[0] == '-';
    CapitalizeLength(k[1..], c == '-');
    if i > 0 { CapitalizeAt(k[1..], c == '-', i - 1); }
  }

  lemma {:induction false} CapitalizeLength(k: string, upper: bool)
    ensures |Capitalize(k, upper)| == |k|
    decreases |k|
  {
    if k != "" { CapitalizeLength(k[1..], Recase(k[0], upper) == '-'); }
  }

  /** The canonical form of a field name is the name with a capital at the beginning of
      every word and small letters elsewhere; what is no field name stays as it is. */
  lemma CanonShape(k: string)
    ensures !Token(k) ==> Canon(k) == k
    ensures Token(k) ==> SameName(Canon(k), k)
    ensures Token(k) ==> forall i :: 0 <= i < |k| ==> if Begins(k, i) then !Lower(Canon(k)[i]) else !Upper(Canon(k)[i])
  {
    CapitalizeLength(k, true);
    if Token(k) {
      forall i | 0 <= i < |k|
        ensures SameLetter(Canon(k)[i], k[i]) && if Begins(k, i) then !Lower(Canon(k)[i]) else !Upper(Canon(k)[i])
      {
        CapitalizeAt(k, true, i);
      }
    }
  }

  /** So two field names are filed under one key exactly if they differ in case only. */
  lemma CanonIgnoresCase(a: string, b: string)
    requires Token(a) && Token(b)
    ensures Canon(a) == Canon(b) <==> SameName(a, b)
  {
    CanonShape(a);
    CanonShape(b);
    if SameName(a, b) {
      forall i | 0 <= i < |a|
        ensures Canon(a)[i] == Canon(b)[i]
      {
        SameCanonAt(a, b, Canon(a), Canon(b), i);
      }
    }
    if Canon(a) == Canon(b) { SameAsBoth(a, b, Canon(a)); }
  }

  lemma SameCanonAt(a: string, b: string, c: string, d: string, i: nat)
    requires SameName(a, b) && SameName(c, a) && SameName(d, b) && i < |a|
    requires if Begins(a, i) then !Lower(c[i]) else !Upper(c[i])
    requires if Begins(b, i) then !Lower(d[i]) else !Upper(d[i])
    ensures c[i] == d[i]
  {
    assert SameLetter(a[i], b[i]) && (i > 0 ==> SameLetter(a[i - 1], b[i - 1]));
  }

  lemma SameAsBoth(a: string, b: string, c: string)
    requires SameName(c, a) && SameName(c, b)
    ensures SameName(a, b)
  {
    forall i | 0 <= i < |a|
      ensures SameLetter(a[i], b[i])
    {
      assert SameLetter(c[i], a[i]) && SameLetter(c[i], b[i]);
    }
  }

  // ------------------------------------------------------------ normal form

  /** A key as the parser stores it. */
  predicate NormalKey(k: string) {
    Canon(k) == k && ':' !in k && '\n' !in k
  }

  predicate NormalValue(v: string) {
    Trim(v) == v && '\n' !in v
  }

  /** What printing and parsing preserve: canonical keys without colon or newline,
      at least one value each, trimmed values without newline, and no empty value
      under the empty key. */
  ghost predicate Normal(h: Headers) {
    forall k :: k in h ==>
      && NormalKey(k) && h[k] != []
      && forall v :: v in h[k] ==> NormalValue(v) && (k != "" || v != "")
  }

  lemma PrintedLine(k: string, v: string)
    requires ':' !in k
    ensures GetKeyValue(k + ": " + v) == (k, Trim(v))
  {
    var line := k + ": " + v;
    ColonAfter(k, " " + v);
    assert line == k + ":" + (" " + v);
    assert line[|k| + 1..] == " " + v && line[..|k|] == k;
    assert TrimLeft(" " + v) == TrimLeft(v) by { assert (" " + v)[1..] == v; }
  }

  lemma {:induction false} ColonAfter(k: string, t: string)
    requires ':' !in k
    ensures Colon(k + ":" + t) == |k|
    decreases |k|
  {
    if k != "" {
      assert k[0] in k;
      assert (k + ":" + t)[1..] == k[1..] + ":" + t;
      ColonAfter(k[1..], t);
    }
  }

  lemma {:induction false} ValuesOfKey(k: string, vs: seq<string>, ck: string)
    requires NormalKey(k) && forall v :: v in vs ==> NormalValue(v) && (k != "" || v != "")
    ensures ValuesFor(KeyLines(k, vs), ck) == if ck == k then vs else []
    decreases |vs|
  {
    if vs != [] {
      PrintedLine(k, vs[0]);
      assert vs[0] in vs && vs == [vs[0]] + vs[1..];
      ValuesOfKey(k, vs[1..], ck);
    }
  }

  lemma {:induction false} ValuesOfAll(h: Headers, order: seq<string>, ck: string)
    requires Normal(h) && forall k :: k in order ==> k in h
    requires forall i, j :: 0 <= i < j < |order| ==> order[i] != order[j]
    ensures ValuesFor(AllLines(h, order), ck) == if ck in order then h[ck] else []
    decreases |order|
  {
    if order != [] {
      var k := order[0];
      ValuesOfKey(k, h[k], ck);
      ValuesOfAll(h, order[1..], ck);
      ValuesConcat(KeyLines(k, h[k]), AllLines(h, order[1..]), ck);
      assert ck in order <==> ck == k || ck in order[1..];
    }
  }

  lemma {:induction false} KeyLinesClean(k: string, vs: seq<string>)
    requires '\n' !in k && forall v :: v in vs ==> '\n' !in v
    ensures forall l :: l in KeyLines(k, vs) ==> '\n' !in l
    decreases |vs|
  {
    if vs != [] {
      assert vs[0] in vs;
      KeyLinesClean(k, vs[1..]);
    }
  }

  lemma {:induction false} AllLinesClean(h: Headers, order: seq<string>)
    requires Normal(h) && forall k :: k in order ==> k in h
    ensures forall l :: l in AllLines(h, order) ==> '\n' !in l
    decreases |order|
  {
    if order != [] {
      KeyLinesClean(order[0], h[order[0]]);
      AllLinesClean(h, order[1..]);
    }
  }

  /** Printing a normal header in any order and parsing it gives it back, with
      every key's values in their order. */
  lemma PrintParses(h: Headers, order: seq<string>)
    requires Normal(h) && IsOrder(h, order)
    ensures Parse(Print(h, order)) == h
  {
    var lines := AllLines(h, order);
    var s := Join(lines);
    AllLinesClean(h, order);
    LinesOfJoin(lines);
    PaddingIsHarmless("\n" + s);
    PaddingIsHarmless(s);
    forall ck
      ensures ck in Parse(s) <==> ck in h
      ensures ck in h ==> Parse(s)[ck] == h[ck]
    {
      ParseMeaning(s, ck);
      ValuesOfAll(h, order, ck);
      NoValue(ck);
    }
  }

  // ------------------------------------------ everything parsed is normal

  lemma {:induction false} CapitalizeTwice(s: string, upper: bool)
    ensures Capitalize(Capitalize(s, upper), upper) == Capitalize(s, upper)
    decreases |s|
  {
    if s != "" {
      var c := Recase(s[0], upper);
      CapitalizeTwice(s[1..], c == '-');
      assert Recase(c, upper) == c;
    }
  }

  lemma {:induction false} CapitalizeKeepsTokens(s: string, upper: bool)
    requires forall c :: c in s ==> IsTokenChar(c)
    ensures |Capitalize(s, upper)| == |s| && forall c :: c in Capitalize(s, upper) ==> IsTokenChar(c)
    decreases |s|
  {
    if s != "" {
      assert IsTokenChar(s[0]);
      CapitalizeKeepsTokens(s[1..], Recase(s[0], upper) == '-');
    }
  }

  lemma CanonIsNormal(k: string)
    requires ':' !in k && '\n' !in k
    ensures NormalKey(Canon(k)) && (Canon(k) == "" <==> k == "")
  {
    if forall c :: c in k ==> IsTokenChar(c) {
      CapitalizeKeepsTokens(k, true);
      CapitalizeTwice(k, true);
      assert !IsTokenChar(':') && !IsTokenChar('\n');
    }
  }

  lemma {:induction false} TrimLeftShape(s: string)
    ensures var t := TrimLeft(s); |t| <= |s| && t == s[|s| - |t|..] && (t != "" ==> !IsSpace(t[0]))
  {
    if s != "" && IsSpace(s[0]) { TrimLeftShape(s[1..]); }
  }

  lemma {:induction false} TrimRightShape(s: string)
    ensures var t := TrimRight(s);
            t <= s && (t != "" ==> !IsSpace(t[|t| - 1])) && (s != "" && !IsSpace(s[0]) ==> t != "")
    decreases |s|
  {
    if s != "" && IsSpace(s[|s| - 1]) { TrimRightShape(s[..|s| - 1]); }
  }

  lemma TrimIsNormal(s: string)
    requires '\n' !in s
    ensures NormalValue(Trim(s))
  {
    TrimLeftShape(s);
    TrimRightShape(TrimLeft(s));
    var t := Trim(s);
    assert forall c :: c in t ==> c in TrimLeft(s);
  }

  lemma AddLineKeepsNormal(h: Headers, line: string)
    requires Normal(h) && '\n' !in line
    ensures Normal(AddLine(h, line))
  {
    var (k, v) := GetKeyValue(line);
    CanonIsNormal(k);
    ValueIsNormal(line);
    if k != "" || v != "" { AddKeepsNormal(h, k, v); }
  }

  lemma ValueIsNormal(line: string)
    requires '\n' !in line
    ensures NormalValue(GetKeyValue(line).1)
  {
    var i := Colon(line);
    TrimIsNormal("");
    if i < |line| { TrimIsNormal(line[i + 1..]); }
  }

  lemma AddKeepsNormal(h: Headers, k: string, v: string)
    requires Normal(h) && NormalKey(Canon(k)) && (Canon(k) == "" <==> k == "") && NormalValue(v) && (k != "" || v != "")
    ensures Normal(Add(h, k, v))
  {
  }

  lemma {:induction false} AddLinesKeepsNormal(h: Headers, lines: seq<string>)
    requires Normal(h) && forall l :: l in lines ==> '\n' !in l
    ensures Normal(AddLines(h, lines))
    decreases |lines|
  {
    if lines != [] {
      assert lines[0] in lines;
      AddLineKeepsNormal(h, lines[0]);
      AddLinesKeepsNormal(AddLine(h, lines[0]), lines[1..]);
    }
  }

  lemma ParsedIsNormal(s: string)
    ensures Normal(Parse(s))
  {
    forall l | l in Lines(s)
      ensures '\n' !in l
    {
      FieldIsClean(s, '\n', l);
    }
    AddLinesKeepsNormal(map[], Lines(s));
  }

  /** For every text and every iteration order: parsing is a normal form. */
  lemma NormalForm(s: string, order: seq<string>)
    requires IsOrder(Parse(s), order)
    ensures Parse(Print(Parse(s), order)) == Parse(s)
  {
    ParsedIsNormal(s);
    PrintParses(Parse(s), order);
  }

  /** A header survives being printed and parsed exactly when it is normal. */
  lemma RoundTripExact(h: Headers, order: seq<string>)
    requires IsOrder(h, order)
    ensures Parse(Print(h, order)) == h <==> Normal(h)
  {
    ParsedIsNormal(Print(h, order));
    if Normal(h) { PrintParses(h, order); }
  }

  // ------------------------------------------------------ the imperative form

  predicate NoneEmpty(lines: seq<string>) {
    forall i :: 0 <= i < |lines| ==> lines[i] != ""
  }

  /** The inner loop: adds one line for each value of `k`. */
  method AppendValues(str0: string, k: string, vv: seq<string>, ghost done: seq<string>) returns (str: string)
    requires NoneEmpty(done) && str0 == Join(done)
    ensures NoneEmpty(done + KeyLines(k, vv)) && str == Join(done + KeyLines(k, vv))
  {
    str := str0;
    assert done + KeyLines(k, vv[..0]) == done;
    for j := 0 to |vv|
      invariant LinesSoFar(done, k, vv[..j], str)
    {
      OneMoreLine(done, k, vv[..j], vv[j], str);
      assert vv[..j + 1] == vv[..j] + [vv[j]];
      if str != "" {
        str := str + "\n";
      }
      str := str + (k + ": " + vv[j]);
    }
    assert vv[..|vv|] == vv;
  }

  ghost predicate LinesSoFar(done: seq<string>, k: string, vs: seq<string>, str: string) {
    NoneEmpty(done + KeyLines(k, vs)) && str == Join(done + KeyLines(k, vs))
  }

  lemma OneMoreLine(done: seq<string>, k: string, vs: seq<string>, v: string, str: string)
    requires LinesSoFar(done, k, vs, str)
    ensures LinesSoFar(done, k, vs + [v], (if str != "" then str + "\n" else str) + (k + ": " + v))
  {
    var lines, l := done + KeyLines(k, vs), k + ": " + v;
    JoinSnoc(lines, l);
    KeyLinesSnoc(k, vs, v);
    assert done + KeyLines(k, vs + [v]) == lines + [l];
    assert str == "" ==> str + l == l;
  }

  /** Every line stands between two newlines. */
  ghost predicate Shows(str: string, line: string) {
    exists i :: At("\n" + line + "\n", str, i)
  }

  lemma {:induction false} LinesShow(lines: seq<string>, j: nat)
    requires j < |lines|
    ensures Shows("\n" + Join(lines) + "\n", lines[j])
    decreases j
  {
    var l := "\n" + lines[j] + "\n";
    var s := "\n" + Join(lines) + "\n";
    if j == 0 {
      var rest := if |lines| == 1 then "" else Join(lines[1..]) + "\n";
      assert s == l + rest;
      assert At(l, s, 0);
    } else {
      var t := "\n" + Join(lines[1..]) + "\n";
      LinesShow(lines[1..], j - 1);
      var i :| At(l, t, i);
      assert s == "\n" + lines[0] + t;
      ShowsLater(l, "\n" + lines[0], t, i);
    }
  }

  lemma ShowsLater(l: string, p: string, t: string, i: int)
    requires At(l, t, i)
    ensures At(l, p + t, |p| + i)
  {
    assert (p + t)[|p| + i..|p| + i + |l|] == t[i..i + |l|];
  }

  lemma {:induction false} LineOfValue(k: string, vs: seq<string>, j: nat)
    requires j < |vs|
    ensures k + ": " + vs[j] in KeyLines(k, vs)
    decreases j
  {
    if j > 0 { LineOfValue(k, vs[1..], j - 1); }
  }

  lemma {:induction false} LineOfKey(h: Headers, order: seq<string>, k: string, j: nat)
    requires (forall x :: x in order ==> x in h) && k in order && j < |h[k]|
    ensures k + ": " + h[k][j] in AllLines(h, order)
    decreases |order|
  {
    if order[0] == k {
      LineOfValue(k, h[k], j);
    } else {
      LineOfKey(h, order[1..], k, j);
    }
  }

  /** The printed text has every value on a line of its own, between newlines. */
  lemma PrintShows(h: Headers, order: seq<string>, k: string, v: string)
    requires IsOrder(h, order) && k in h && v in h[k]
    ensures Shows(Print(h, order), k + ": " + v)
  {
    var j :| 0 <= j < |h[k]| && h[k][j] == v;
    LineOfKey(h, order, k, j);
    var lines := AllLines(h, order);
    var n :| 0 <= n < |lines| && lines[n] == k + ": " + v;
    LinesShow(lines, n);
  }

  method HeaderToString(header: Headers) returns (str: string)
    ensures exists order :: IsOrder(header, order) && str == Print(header, order)
    ensures |str| >= 2 && str[0] == '\n' && str[|str| - 1] == '\n'
    ensures forall k, v :: k in header && v in header[k] ==> Shows(str, k + ": " + v)
  {
    var left := header.Keys;
    str := "";
    ghost var order: seq<string> := [];
    while left != {}
      invariant left <= header.Keys
      invariant forall k :: k in order <==> k in header && k !in left
      invariant forall i, j :: 0 <= i < j < |order| ==> order[i] != order[j]
      invariant NoneEmpty(AllLines(header, order)) && str == Join(AllLines(header, order))
    {
      var k :| k in left;
      left := left - {k};
      str := AppendValues(str, k, header[k], AllLines(header, order));
      AllLinesSnoc(header, order, k);
      order := order + [k];
    }
    str := "\n" + str + "\n";
    assert IsOrder(header, order);
    forall k, v | k in header && v in header[k]
      ensures Shows(str, k + ": " + v)
    {
      PrintShows(header, order, k, v);
    }
  }

  lemma {:induction false} JoinSnoc(lines: seq<string>, l: string)
    requires NoneEmpty(lines)
    ensures Join(lines + [l]) == if Join(lines) == "" then l else Join(lines) + "\n" + l
    ensures Join(lines) == "" <==> lines == []
    decreases |lines|
  {
    if lines == [] {
      assert lines + [l] == [l];
    } else {
      JoinSnoc(lines[1..], l);
      assert (lines + [l])[1..] == lines[1..] + [l];
    }
  }

  lemma {:induction false} KeyLinesSnoc(k: string, vs: seq<string>, v: string)
    ensures KeyLines(k, vs + [v]) == KeyLines(k, vs) + [k + ": " + v]
    decreases |vs|
  {
    if vs == [] {
      assert vs + [v] == [v];
    } else {
      KeyLinesSnoc(k, vs[1..], v);
      assert (vs + [v])[1..] == vs[1..] + [v];
    }
  }

  lemma {:induction false} AllLinesSnoc(h: Headers, order: seq<string>, k: string)
    requires k in h && forall x :: x in order ==> x in h
    ensures AllLines(h, order + [k]) == AllLines(h, order) + KeyLines(k, h[k])
    decreases |order|
  {
    if order == [] {
      assert order + [k] == [k] && AllLines(h, [k][1..]) == [];
    } else {
      AllLinesSnoc(h, order[1..], k);
      assert (order + [k])[1..] == order[1..] + [k];
      var first := KeyLines(order[0], h[order[0]]);
      assert first + (AllLines(h, order[1..]) + KeyLines(k, h[k])) == first + AllLines(h, order[1..]) + KeyLines(k, h[k]);
    }
  }

  method StringToHeader(str: string) returns (header: Headers)
    ensures header == Parse(str)
  {
    header := map[];
    var lines := Lines(str);
    for i := 0 to |lines|
      invariant AddLines(header, lines[i..]) == Parse(str)
    {
      assert lines[i..][0] == lines[i] && lines[i..][1..] == lines[i + 1..];
      var (k, v) := GetKeyValue(lines[i]);
      if k != "" || v != "" {
        header := Add(header, k, v);
      }
    }
  }

  class HeaderRef {
    var h: Headers

    constructor (h: Headers)
      ensures this.h == h
    {
      this.h := h;
    }
  }

  /** Rewrites the header through its text, printed in some order of its keys. */
  method AlterHeader(lib: RegexpLib, header: HeaderRef, rules: seq<Rule>)
    modifies header
    ensures rules == [] ==> header.h == old(header.h)
    ensures rules != [] ==> exists order ::
      IsOrder(old(header.h), order) && header.h == Parse(ApplyRules(lib, Print(old(header.h), order), rules))
  {
    if |rules| <= 0 {
      return;
    }
    var str := HeaderToString(header.h);
    ghost var printed := str;
    for i := 0 to |rules|
      invariant ApplyRules(lib, str, rules[i..]) == ApplyRules(lib, printed, rules)
    {
      assert rules[i..][0] == rules[i] && rules[i..][1..] == rules[i + 1..];
      str := ApplyRule(lib, str, rules[i]);
    }
    if |str| < 1 || str[0] != '\n' {
      PaddingIsHarmless(str);
      str := "\n" + str;
    }
    if |str| < 2 || str[|str| - 1] != '\n' {
      PaddingIsHarmless(str);
      str := str + "\n";
    }
    header.h := StringToHeader(str);
  }

  /** Rules that leave every printed form alone give a header back unchanged,
      value order included, exactly when it is normal. */
  method AlterHeaderUnchanged(lib: RegexpLib, header: HeaderRef, rules: seq<Rule>)
    requires rules != []
    requires forall order :: IsOrder(header.h, order) ==>
               ApplyRules(lib, Print(header.h, order), rules) == Print(header.h, order)
    modifies header
    ensures header.h == old(header.h) <==> Normal(old(header.h))
  {
    ghost var h := header.h;
    AlterHeader(lib, header, rules);
    ghost var order :| IsOrder(h, order) && header.h == Parse(ApplyRules(lib, Print(h, order), rules));
    RoundTripExact(h, order);
  }
}
