/** strings.Split with a one-character separator. */
module Strings {

  function Split(s: string, sep: char): (r: seq<string>)
    ensures r != []
  {
    if s == "" then [""]
    else if s[0] == sep then [""] + Split(s[1..], sep)
    else
      var r := Split(s[1..], sep);
      [[s[0]] + r[0]] + r[1..]
  }

  lemma {:induction false} SplitConcat(a: string, b: string, sep: char)
    ensures Split(a + [sep] + b, sep) == Split(a, sep) + Split(b, sep)
    decreases |a|
  {
    var s := a + [sep] + b;
    if a == "" {
      assert s[0] == sep && s[1..] == b;
    } else {
      assert s[0] == a[0] && s[1..] == a[1..] + [sep] + b;
      SplitConcat(a[1..], b, sep);
    }
  }

  lemma {:induction false} OneField(a: string, sep: char)
    requires sep !in a
    ensures Split(a, sep) == [a]
  {
    if a != "" {
      assert a[0] in a;
      OneField(a[1..], sep);
      assert a == [a[0]] + a[1..];
    }
  }

  lemma {:induction false} FieldIsClean(s: string, sep: char, f: string)
    requires f in Split(s, sep)
    ensures sep !in f
    decreases |s|
  {
    if s != "" {
      var r := Split(s[1..], sep);
      if s[0] == sep {
        if f != "" { FieldIsClean(s[1..], sep, f); }
      } else if f in r[1..] {
        FieldIsClean(s[1..], sep, f);
      } else {
        assert f == [s[0]] + r[0];
        FieldIsClean(s[1..], sep, r[0]);
      }
    }
  }
}
