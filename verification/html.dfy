/** HTML escaping of user names before they are written into the lobby list (app.js `escapeHtml`). */
module Html {

  /** The replacement of one character: the four markup characters become entities. */
  function Entity(c: char): (r: string)
    ensures c != '&' && c != '<' && c != '>' && c != '"' ==> r == [c]
    ensures c == '&' || c == '<' || c == '>' || c == '"' ==>
      && |r| >= 4 && r[0] == '&' && r[|r| - 1] == ';'
      && forall k :: 0 <= k < |r| ==> r[k] != '<' && r[k] != '>' && r[k] != '"'
  {
    match c
    case '&' => "&amp;"
    case '<' => "&lt;"
    case '>' => "&gt;"
    case '"' => "&quot;"
    case _ => [c]
  }

  /** Replaces each `&`, `<`, `>` and `"` of `s` by its entity. */
  function EscapeHtml(s: string): (r: string)
    ensures |r| >= |s|
    ensures forall c :: c in r ==> c != '<' && c != '>' && c != '"'
  {
    if s == [] then []
    else
      var rest := EscapeHtml(s[1..]);
      assert forall c :: c in Entity(s[0]) + rest ==> c in Entity(s[0]) || c in rest;
      Entity(s[0]) + rest
  }

  /** Decodes the four entities `EscapeHtml` produces; every other character stands for itself. */
  function UnescapeHtml(s: string): string
    decreases |s|
  {
    if s == [] then []
    else if |s| >= 5 && s[..5] == "&amp;" then "&" + UnescapeHtml(s[5..])
    else if |s| >= 4 && s[..4] == "&lt;" then "<" + UnescapeHtml(s[4..])
    else if |s| >= 4 && s[..4] == "&gt;" then ">" + UnescapeHtml(s[4..])
    else if |s| >= 6 && s[..6] == "&quot;" then "\"" + UnescapeHtml(s[6..])
    else [s[0]] + UnescapeHtml(s[1..])
  }

  lemma DecodePlain(c: char, rest: string)
    requires c != '&'
    ensures UnescapeHtml([c] + rest) == [c] + UnescapeHtml(rest)
  {
    var e := [c] + rest;
    assert e[0] == c && e[1..] == rest;
  }

  /** Each entity decodes back to its character. */
  lemma EntityDecodes(c: char, rest: string)
    ensures UnescapeHtml(Entity(c) + rest) == [c] + UnescapeHtml(rest)
  {
    if c in "&<>\"" {
      var e := Entity(c) + rest;
      var n := |Entity(c)|;
      assert e[1] == Entity(c)[1];
      assert e[..n] == Entity(c) && e[n..] == rest;
    } else {
      DecodePlain(c, rest);
    }
  }

  /** Escaping loses nothing: decoding the entities gives back the original text. */
  lemma {:induction false} EscapeRoundTrip(s: string)
    ensures UnescapeHtml(EscapeHtml(s)) == s
  {
    if s != [] {
      EntityDecodes(s[0], EscapeHtml(s[1..]));
      EscapeRoundTrip(s[1..]);
    }
  }

  /** Text without markup characters is left unchanged. */
  lemma {:induction false} EscapeKeepsPlainText(s: string)
    requires forall c :: c in s ==> c != '&' && c != '<' && c != '>' && c != '"'
    ensures EscapeHtml(s) == s
  {
    if s != [] {
      assert forall c :: c in s[1..] ==> c in s;
      EscapeKeepsPlainText(s[1..]);
      assert s[0] in s;
      assert Entity(s[0]) == [s[0]];
      assert [s[0]] + s[1..] == s;
    }
  }

  /** Escaping works character by character: it distributes over concatenation. */
  lemma {:induction false} EscapeAppend(s: string, t: string)
    ensures EscapeHtml(s + t) == EscapeHtml(s) + EscapeHtml(t)
  {
    if s != [] {
      assert (s + t)[1..] == s[1..] + t;
      EscapeAppend(s[1..], t);
    } else {
      assert s + t == t;
    }
  }

  /** An example: a name with a tag and an ampersand. */
  lemma EscapeExample()
    ensures EscapeHtml("<b>&") == "&lt;b&gt;&amp;"
  {
    assert EscapeHtml("<b>&") == Entity('<') + EscapeHtml("b>&");
    assert EscapeHtml("b>&") == Entity('b') + EscapeHtml(">&");
    assert EscapeHtml(">&") == Entity('>') + EscapeHtml("&");
    assert EscapeHtml("&") == Entity('&') + EscapeHtml("");
  }
}
