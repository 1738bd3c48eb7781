/** Python's str.strip on strings of characters. */
module Strings {

  // The characters str.strip removes.
  predicate IsSpace(c: char) {
    '\t' <= c <= '\r' || '\U{1c}' <= c <= ' ' || c == '\U{85}' || c == '\U{a0}' || c == '\U{1680}'
    || '\U{2000}' <= c <= '\U{200a}' || c in {'\U{2028}', '\U{2029}', '\U{202f}', '\U{205f}', '\U{3000}'}
  }

  function StripLeft(s: string): string {
    if s != "" && IsSpace(s[0]) then StripLeft(s[1..]) else s
  }

  function StripRight(s: string): string {
    if s != "" && IsSpace(s[|s| - 1]) then StripRight(s[..|s| - 1]) else s
  }

  function Strip(s: string): string {
    StripRight(StripLeft(s))
  }

  predicate Stripped(s: string) {
    s != "" ==> !IsSpace(s[0]) && !IsSpace(s[|s| - 1])
  }

  lemma {:induction false} LeftEnd(s: string)
    ensures StripLeft(s) == "" || !IsSpace(StripLeft(s)[0])
  {
    if s != "" && IsSpace(s[0]) {
      LeftEnd(s[1..]);
    }
  }

  lemma {:induction false} RightEnd(s: string)
    ensures StripRight(s) <= s
    ensures StripRight(s) == "" || !IsSpace(StripRight(s)[|StripRight(s)| - 1])
  {
    if s != "" && IsSpace(s[|s| - 1]) {
      RightEnd(s[..|s| - 1]);
    }
  }

  // Stripping leaves no space at either end, and a stripped string is left alone.
  lemma StripSettles(s: string)
    ensures Stripped(Strip(s))
    ensures Stripped(s) ==> Strip(s) == s
  {
    LeftEnd(s);
    RightEnd(StripLeft(s));
  }

  ghost predicate AllSpaces(s: string) {
    forall c <- s :: IsSpace(c)
  }

  // m with nothing but spaces around it.
  ghost predicate Padded(s: string, m: string) {
    exists a: string, b: string :: AllSpaces(a) && AllSpaces(b) && s == a + m + b
  }

  // What stripping takes away is spaces at the two ends and nothing else.
  lemma {:induction false} LeftTakes(s: string) returns (a: string)
    ensures AllSpaces(a) && s == a + StripLeft(s)
  {
    a := "";
    if s != "" && IsSpace(s[0]) {
      var rest := LeftTakes(s[1..]);
      a := [s[0]] + rest;
    }
  }

  lemma {:induction false} RightTakes(s: string) returns (b: string)
    ensures AllSpaces(b) && s == StripRight(s) + b
  {
    b := "";
    if s != "" && IsSpace(s[|s| - 1]) {
      var rest := RightTakes(s[..|s| - 1]);
      b := rest + [s[|s| - 1]];
    }
  }

  lemma {:induction false} LeftSkips(a: string, s: string)
    requires AllSpaces(a)
    ensures StripLeft(a + s) == StripLeft(s)
  {
    if a == "" {
      assert a + s == s;
    } else {
      assert (a + s)[1..] == a[1..] + s;
      LeftSkips(a[1..], s);
    }
  }

  lemma {:induction false} RightSkips(s: string, b: string)
    requires AllSpaces(b)
    ensures StripRight(s + b) == StripRight(s)
  {
    if b == "" {
      assert s + b == s;
    } else {
      var n := |b| - 1;
      assert (s + b)[..|s + b| - 1] == s + b[..n];
      RightSkips(s, b[..n]);
    }
  }

  // A string strips to nothing exactly when it holds nothing but spaces.
  lemma BlankExactlyWhen(s: string)
    ensures Strip(s) == "" <==> AllSpaces(s)
  {
    StripsExactlyWhen(s, "");
    assert s == s + "" + "";
    assert AllSpaces("");
  }

  // A string strips to m exactly when it is m with spaces around it and m has none at its ends.
  lemma StripsExactlyWhen(s: string, m: string)
    ensures Strip(s) == m <==> Padded(s, m) && Stripped(m)
  {
    StripSettles(s);
    var a := LeftTakes(s);
    var b := RightTakes(StripLeft(s));
    assert s == a + Strip(s) + b;
    if Padded(s, m) && Stripped(m) {
      var before: string, after: string :| AllSpaces(before) && AllSpaces(after) && s == before + m + after;
      assert s == before + (m + after);
      LeftSkips(before, m + after);
      if m == "" {
        assert m + after == after && after + "" == after;
        LeftSkips(after, "");
      } else {
        assert StripLeft(m + after) == m + after;
        RightSkips(m, after);
      }
    }
  }
}
