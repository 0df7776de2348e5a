/** The page's HTML escaper: every one of the five markup-sensitive characters
    `& < > " '` is replaced by its entity, every other character is copied.
    `Escape` is the character-by-character meaning; `EscapeHtml` is the
    left-to-right scan that the global regular-expression replacement performs. */
module HtmlEscape {

  /** The characters matched by the replacement pattern `[&<>"']`. */
  predicate IsSpecial(c: char) {
    c == '&' || c == '<' || c == '>' || c == '"' || c == '\''
  }

  /** Characters that open or delimit markup and must never survive escaping. */
  predicate IsRawMarkup(c: char) {
    c == '<' || c == '>' || c == '"' || c == '\''
  }

  /** A string in which no character needs escaping. */
  predicate Plain(s: string) {
    forall i :: 0 <= i < |s| ==> !IsSpecial(s[i])
  }

  /** A string with no raw markup character in it. */
  predicate MarkupFree(s: string) {
    forall i :: 0 <= i < |s| ==> !IsRawMarkup(s[i])
  }

  /** The replacement for one character: the entity table for the five special
      characters, the character itself otherwise. */
  function Entity(c: char): (r: string)
    ensures IsSpecial(c) ==> |r| >= 4 && r[0] == '&' && r[|r| - 1] == ';'
    ensures !IsSpecial(c) ==> r == [c]
    ensures MarkupFree(r)
  {
    match c
    case '&' => "&amp;"
    case '<' => "&lt;"
    case '>' => "&gt;"
    case '"' => "&quot;"
    case '\'' => "&#039;"
    case _ => [c]
  }

  /** The escaped form of `s`: each character replaced by its entity, in order. */
  function Escape(s: string): (r: string)
    ensures |r| >= |s|
  {
    if s == [] then [] else Entity(s[0]) + Escape(s[1..])
  }

  /** Escaped text never contains a raw `<`, `>`, `"` or `'`. */
  lemma {:induction false} EscapeMarkupFree(s: string)
    ensures MarkupFree(Escape(s))
  {
    if s != [] {
      EscapeMarkupFree(s[1..]);
      var e, t := Entity(s[0]), Escape(s[1..]);
      forall i | 0 <= i < |e + t| ensures !IsRawMarkup((e + t)[i]) {
        if i >= |e| {
          assert (e + t)[i] == t[i - |e|];
        }
      }
    }
  }

  /** `Plain` splits at the first character. */
  lemma PlainCons(s: string)
    requires s != []
    ensures Plain(s) <==> !IsSpecial(s[0]) && Plain(s[1..])
  {
    if Plain(s) {
      forall i | 0 <= i < |s[1..]| ensures !IsSpecial(s[1..][i]) {
        assert s[1..][i] == s[i + 1];
      }
    }
    if !IsSpecial(s[0]) && Plain(s[1..]) {
      forall i | 0 <= i < |s| ensures !IsSpecial(s[i]) {
        if i > 0 { assert s[i] == s[1..][i - 1]; }
      }
    }
  }

  /** Escaping leaves a text unchanged exactly when no character in it needs
      escaping; otherwise the text strictly grows. */
  lemma {:induction false} EscapeUnchangedIff(s: string)
    ensures Escape(s) == s <==> Plain(s)
    ensures !Plain(s) ==> |Escape(s)| > |s|
  {
    if s != [] {
      PlainCons(s);
      EscapeUnchangedIff(s[1..]);
    }
  }

  /** The inverse decoder for the five entities: a reference partner for
      `Escape`, not an operation of the page. */
  function Unescape(s: string): (r: string)
    ensures |r| <= |s|
    decreases |s|
  {
    if s == [] then []
    else if "&amp;" <= s then "&" + Unescape(s[5..])
    else if "&lt;" <= s then "<" + Unescape(s[4..])
    else if "&gt;" <= s then ">" + Unescape(s[4..])
    else if "&quot;" <= s then "\"" + Unescape(s[6..])
    else if "&#039;" <= s then "'" + Unescape(s[6..])
    else [s[0]] + Unescape(s[1..])
  }

  /** Decoding an entity followed by anything yields its character first. */
  lemma UnescapeEntity(c: char, t: string)
    ensures Unescape(Entity(c) + t) == [c] + Unescape(t)
  {
    var e := Entity(c);
    var s := e + t;
    assert s[|e|..] == t;
    if !IsSpecial(c) {
      assert s[0] == c && s[1..] == t;
      assert !("&amp;" <= s) && !("&lt;" <= s) && !("&gt;" <= s);
      assert !("&quot;" <= s) && !("&#039;" <= s);
    } else {
      // every entity starts with `&` and is told apart by its second character
      assert s[1] == e[1];
      assert c != '&' ==> !("&amp;" <= s) by { assert "&amp;"[1] == 'a'; }
      assert c != '<' ==> !("&lt;" <= s) by { assert "&lt;"[1] == 'l'; }
      assert c != '>' ==> !("&gt;" <= s) by { assert "&gt;"[1] == 'g'; }
      assert c != '"' ==> !("&quot;" <= s) by { assert "&quot;"[1] == 'q'; }
      assert e <= s;
    }
  }

  /** Escaping loses nothing: decoding the escaped text gives the text back. */
  lemma {:induction false} UnescapeEscape(s: string)
    ensures Unescape(Escape(s)) == s
  {
    if s != [] {
      UnescapeEntity(s[0], Escape(s[1..]));
      UnescapeEscape(s[1..]);
      assert [s[0]] + s[1..] == s;
    }
  }

  /** Two texts with the same escaped form are the same text. */
  lemma EscapeInjective(a: string, b: string)
    requires Escape(a) == Escape(b)
    ensures a == b
  {
    UnescapeEscape(a);
    UnescapeEscape(b);
  }

  /** Escaping distributes over concatenation: each character is replaced
      independently of its neighbours. */
  lemma {:induction false} EscapeAppend(a: string, b: string)
    ensures Escape(a + b) == Escape(a) + Escape(b)
  {
    if a == [] {
      assert a + b == b;
    } else {
      assert (a + b)[0] == a[0];
      assert (a + b)[1..] == a[1..] + b;
      EscapeAppend(a[1..], b);
    }
  }

  /** A special character in the input leaves an `&` in the output. */
  lemma {:induction false} SpecialLeavesAmpersand(s: string)
    requires !Plain(s)
    ensures '&' in Escape(s)
  {
    if IsSpecial(s[0]) {
      assert Escape(s)[0] == '&';
    } else {
      assert !Plain(s[1..]) by {
        var i :| 0 <= i < |s| && IsSpecial(s[i]);
        assert s[1..][i - 1] == s[i];
      }
      SpecialLeavesAmpersand(s[1..]);
      var j :| 0 <= j < |Escape(s[1..])| && Escape(s[1..])[j] == '&';
      assert Escape(s)[j + 1] == '&';
    }
  }

  /** Escaping is idempotent on exactly the texts that need no escaping:
      a second pass re-escapes every `&` the first pass introduced. */
  lemma EscapeTwiceIff(s: string)
    ensures Escape(Escape(s)) == Escape(s) <==> Plain(s)
  {
    EscapeUnchangedIff(s);
    EscapeUnchangedIff(Escape(s));
    if !Plain(s) {
      SpecialLeavesAmpersand(s);
      var j :| 0 <= j < |Escape(s)| && Escape(s)[j] == '&';
      assert IsSpecial(Escape(s)[j]);
      assert !Plain(Escape(s));
    }
  }

  /** The concrete instance: a lone `&` becomes `&amp;`, then `&amp;amp;`. */
  lemma AmpersandTwice()
    ensures Escape("&") == "&amp;"
    ensures Escape(Escape("&")) == "&amp;amp;"
  {
    EscapeAppend("&", "amp;");
    assert "&amp;" == "&" + "amp;";
  }

  /** A tag with a plain name followed by an ampersand and both quote kinds,
      such as `<script>&"'`, is fully neutralised while the name survives. */
  lemma TagExample(name: string)
    requires Plain(name)
    ensures Escape("<" + name + ">" + "&\"'") == "&lt;" + name + "&gt;" + "&amp;&quot;&#039;"
  {
    EscapeSingle('<');
    EscapeSingle('>');
    EscapeUnchangedIff(name);
    QuotesExample();
    EscapeAppend("<", name);
    EscapeAppend("<" + name, ">");
    EscapeAppend("<" + name + ">", "&\"'");
  }

  /** An ampersand and both quote kinds each become their entity. */
  lemma QuotesExample()
    ensures Escape("&\"'") == "&amp;&quot;&#039;"
  {
    EscapeSingle('&');
    EscapeSingle('"');
    EscapeSingle('\'');
    EscapeAppend("\"", "'");
    assert "\"'" == "\"" + "'";
    EscapeAppend("&", "\"'");
    assert "&\"'" == "&" + "\"'";
  }

  /** A one-character text escapes to that character's replacement. */
  lemma EscapeSingle(c: char)
    ensures Escape([c]) == Entity(c)
  {
    assert [c][1..] == [];
  }

  /** The scan the replacement performs: the input is consumed left to right
      and each character's replacement is appended. */
  method EscapeHtml(text: string) returns (out: string)
    ensures out == Escape(text)
    ensures MarkupFree(out)
    ensures Unescape(out) == text
  {
    out := "";
    var i := 0;
    while i < |text|
      invariant 0 <= i <= |text|
      invariant out == Escape(text[..i])
    {
      assert text[..i + 1] == text[..i] + [text[i]];
      EscapeAppend(text[..i], [text[i]]);
      out := out + Entity(text[i]);
      i := i + 1;
    }
    assert text[..i] == text;
    UnescapeEscape(text);
    EscapeMarkupFree(text);
  }
}
