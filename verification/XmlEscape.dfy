/** Escaping text for XML by four replacements in a row. */
module XmlEscape {

  function Replace(s: string, c: char, with: string): string {
    if s == "" then "" else (if s[0] == c then with else [s[0]]) + Replace(s[1..], c, with)
  }

  function Escaped(s: string): string {
    Replace(Replace(Replace(Replace(s, '&', "&amp;"), '<', "&lt;"), '>', "&gt;"), '"', "&quot;")
  }

  function Entity(c: char): string {
    match c
    case '&' => "&amp;"
    case '<' => "&lt;"
    case '>' => "&gt;"
    case '"' => "&quot;"
    case _ => [c]
  }

  /** All characters substituted at once. */
  function Substituted(s: string): string {
    if s == "" then "" else Entity(s[0]) + Substituted(s[1..])
  }

  lemma {:induction false} ReplaceParts(a: string, b: string, c: char, with: string)
    ensures Replace(a + b, c, with) == Replace(a, c, with) + Replace(b, c, with)
  {
    if a == "" {
      assert a + b == b;
    } else {
      ReplaceParts(a[1..], b, c, with);
      assert (a + b)[1..] == a[1..] + b;
      Regroup(if a[0] == c then with else [a[0]], Replace(a[1..], c, with), Replace(b, c, with));
    }
  }

  lemma Regroup(a: string, b: string, c: string)
    ensures a + (b + c) == a + b + c
  {
  }

  lemma {:induction false} ReplaceIdle(s: string, c: char, with: string)
    requires c !in s
    ensures Replace(s, c, with) == s
  {
    if s != "" {
      ReplaceIdle(s[1..], c, with);
    }
  }

  lemma ReplaceOne(c: char, with: string)
    ensures Replace([c], c, with) == with
  {
    assert [c][1..] == "";
    assert Replace("", c, with) == "";
    assert with + "" == with;
  }

  lemma EscapedParts(a: string, b: string)
    ensures Escaped(a + b) == Escaped(a) + Escaped(b)
  {
    var a1, b1 := Replace(a, '&', "&amp;"), Replace(b, '&', "&amp;");
    var a2, b2 := Replace(a1, '<', "&lt;"), Replace(b1, '<', "&lt;");
    var a3, b3 := Replace(a2, '>', "&gt;"), Replace(b2, '>', "&gt;");
    ReplaceParts(a, b, '&', "&amp;");
    ReplaceParts(a1, b1, '<', "&lt;");
    ReplaceParts(a2, b2, '>', "&gt;");
    ReplaceParts(a3, b3, '"', "&quot;");
  }

  /** No later replacement touches what an earlier one put in; this needs `&` to go first. */
  lemma EscapedOne(c: char)
    ensures Escaped([c]) == Entity(c)
  {
    var s1 := if c == '&' then "&amp;" else [c];
    Turn([c], c, '&', "&amp;", s1);
    Turn(s1, c, '<', "&lt;", if c == '<' then "&lt;" else s1);
    LastTwo(c, if c == '<' then "&lt;" else s1);
  }

  lemma LastTwo(c: char, s: string)
    requires s == [c] || (c == '&' && s == "&amp;") || (c == '<' && s == "&lt;")
    ensures Replace(Replace(s, '>', "&gt;"), '"', "&quot;") ==
            if c == '>' then "&gt;" else if c == '"' then "&quot;" else s
  {
    var t := if c == '>' then "&gt;" else s;
    Turn(s, c, '>', "&gt;", t);
    Turn(t, c, '"', "&quot;", if c == '"' then "&quot;" else t);
  }

  lemma Turn(s: string, c: char, from: char, with: string, r: string)
    requires if c == from then s == [c] && r == with else from !in s && r == s
    ensures Replace(s, from, with) == r
  {
    if c == from {
      ReplaceOne(c, with);
    } else {
      ReplaceIdle(s, from, with);
    }
  }

  /** The four replacements are one simultaneous substitution. */
  lemma {:induction false} EscapedIsSubstituted(s: string)
    ensures Escaped(s) == Substituted(s)
  {
    if s != "" {
      assert s == [s[0]] + s[1..];
      EscapedParts([s[0]], s[1..]);
      EscapedOne(s[0]);
      EscapedIsSubstituted(s[1..]);
    }
  }

  /** Each character has its own text, wherever it stands: the four texts written out. */
  lemma EscapedInPlace(a: string, c: char, b: string)
    ensures Escaped(a + [c] + b) ==
            Escaped(a) + (if c == '&' then "&amp;" else if c == '<' then "&lt;" else if c == '>' then "&gt;"
                          else if c == '"' then "&quot;" else [c]) + Escaped(b)
  {
    EscapedParts(a + [c], b);
    EscapedParts(a, [c]);
    EscapedOne(c);
  }

  predicate StartsWith(s: string, p: string) {
    |p| <= |s| && s[..|p|] == p
  }

  /** Reading the predefined entities of section 4.6 of XML 1.0 back. */
  function Unescaped(s: string): string {
    if s == "" then ""
    else if StartsWith(s, "&amp;") then "&" + Unescaped(s[5..])
    else if StartsWith(s, "&lt;") then "<" + Unescaped(s[4..])
    else if StartsWith(s, "&gt;") then ">" + Unescaped(s[4..])
    else if StartsWith(s, "&quot;") then "\"" + Unescaped(s[6..])
    else if StartsWith(s, "&apos;") then "'" + Unescaped(s[6..])
    else [s[0]] + Unescaped(s[1..])
  }

  lemma Front(p: string, rest: string)
    ensures StartsWith(p + rest, p) && (p + rest)[|p|..] == rest
    ensures forall i :: 0 <= i < |p| ==> (p + rest)[i] == p[i]
  {
  }

  lemma Differs(s: string, p: string, i: nat)
    requires i < |s| && i < |p| && s[i] != p[i]
    ensures !StartsWith(s, p)
  {
    if |p| <= |s| {
      assert s[..|p|][i] == s[i];
    }
  }

  lemma UnescapeLt(rest: string)
    ensures Unescaped("&lt;" + rest) == "<" + Unescaped(rest)
  {
    Front("&lt;", rest);
    Differs("&lt;" + rest, "&amp;", 1);
  }

  lemma UnescapeGt(rest: string)
    ensures Unescaped("&gt;" + rest) == ">" + Unescaped(rest)
  {
    Front("&gt;", rest);
    Differs("&gt;" + rest, "&amp;", 1);
    Differs("&gt;" + rest, "&lt;", 1);
  }

  lemma UnescapeQuot(rest: string)
    ensures Unescaped("&quot;" + rest) == "\"" + Unescaped(rest)
  {
    Front("&quot;", rest);
    Differs("&quot;" + rest, "&amp;", 1);
    Differs("&quot;" + rest, "&lt;", 1);
    Differs("&quot;" + rest, "&gt;", 1);
  }

  lemma UnescapePlain(c: char, rest: string)
    requires c != '&'
    ensures Unescaped([c] + rest) == [c] + Unescaped(rest)
  {
    var s := [c] + rest;
    Differs(s, "&amp;", 0);
    Differs(s, "&lt;", 0);
    Differs(s, "&gt;", 0);
    Differs(s, "&quot;", 0);
    Differs(s, "&apos;", 0);
    assert s[1..] == rest;
  }

  lemma UnescapeOne(c: char, rest: string)
    ensures Unescaped(Entity(c) + rest) == [c] + Unescaped(rest)
  {
    match c
    case '&' => Front("&amp;", rest);
    case '<' => UnescapeLt(rest);
    case '>' => UnescapeGt(rest);
    case '"' => UnescapeQuot(rest);
    case _ => UnescapePlain(c, rest);
  }

  /** Unescaping gives every text back. */
  lemma {:induction false} RoundTrip(s: string)
    ensures Unescaped(Escaped(s)) == s
  {
    EscapedIsSubstituted(s);
    if s != "" {
      RoundTrip(s[1..]);
      EscapedIsSubstituted(s[1..]);
      UnescapeOne(s[0], Substituted(s[1..]));
    }
  }

  /** Escaped text holds no markup of its own. */
  lemma {:induction false} NoMarkupLeft(s: string)
    ensures forall c :: c in Escaped(s) ==> c != '<' && c != '>' && c != '"'
  {
    EscapedIsSubstituted(s);
    if s != "" {
      NoMarkupLeft(s[1..]);
      EscapedIsSubstituted(s[1..]);
      forall c | c in Entity(s[0]) ensures c != '<' && c != '>' && c != '"' {
      }
    }
  }

  /** Replacing `&` last would escape the entities themselves. */
  lemma AmpersandMustGoFirst()
    ensures Replace(Replace("<", '<', "&lt;"), '&', "&amp;") == "&amp;lt;" != Substituted("<")
  {
    ReplaceOne('<', "&lt;");
    assert "&lt;" == "&" + "lt;";
    ReplaceParts("&", "lt;", '&', "&amp;");
    ReplaceOne('&', "&amp;");
    ReplaceIdle("lt;", '&', "&amp;");
    assert "&amp;" + "lt;" == "&amp;lt;";
    assert Substituted("<") == "&lt;" + "";
  }
}
