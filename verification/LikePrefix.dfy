/** The context-prefix filter of /search: a caller's prefix turned into a LIKE pattern. */
module LikePrefix {
  import opened Common

  /** Rust's `replace` of one character by a string. */
  function Replace(s: string, c: char, rep: string): string {
    if s == [] then [] else (if s[0] == c then rep else [s[0]]) + Replace(s[1..], c, rep)
  }

  /** The three replacements, one after the other. */
  function Escape(prefix: string): string {
    Replace(Replace(Replace(prefix, '\\', "\\\\"), '%', "\\%"), '_', "\\_")
  }

  function PrefixPattern(prefix: string): string { Escape(prefix) + "%" }

  /** SQL LIKE with ESCAPE '\'; a pattern that ends in its escape character is an error. */
  function Like(pattern: string, text: string): Result<bool>
    decreases |pattern|, |text|
  {
    if pattern == [] then Ok(text == [])
    else if pattern[0] == '%' then
      match Like(pattern[1..], text)
      case Err => Err
      case Ok(here) => if here || text == [] then Ok(here) else Like(pattern, text[1..])
    else if pattern[0] == '\\' && |pattern| == 1 then Err
    else
      var quoted := pattern[0] == '\\';
      var rest := if quoted then pattern[2..] else pattern[1..];
      var literal := if quoted then pattern[1] else pattern[0];
      if text != [] && (text[0] == literal || pattern[0] == '_') then Like(rest, text[1..])
      else
        match Like(rest, [])
        case Err => Err
        case Ok(_) => Ok(false)
  }

  predicate IsMeta(c: char) { c == '\\' || c == '%' || c == '_' }

  /** One simultaneous map: every metacharacter is quoted. */
  function Quote(s: string): string {
    if s == [] then [] else (if IsMeta(s[0]) then ['\\', s[0]] else [s[0]]) + Quote(s[1..])
  }

  lemma {:induction false} ReplaceConcat(a: string, b: string, c: char, rep: string)
    ensures Replace(a + b, c, rep) == Replace(a, c, rep) + Replace(b, c, rep)
  {
    if a == [] {
      assert a + b == b;
    } else {
      assert (a + b)[1..] == a[1..] + b;
      ReplaceConcat(a[1..], b, c, rep);
    }
  }

  lemma EscapeConcat(a: string, b: string)
    ensures Escape(a + b) == Escape(a) + Escape(b)
  {
    ReplaceConcat(a, b, '\\', "\\\\");
    var a1, b1 := Replace(a, '\\', "\\\\"), Replace(b, '\\', "\\\\");
    ReplaceConcat(a1, b1, '%', "\\%");
    ReplaceConcat(Replace(a1, '%', "\\%"), Replace(b1, '%', "\\%"), '_', "\\_");
  }

  lemma ReplaceOne(x: char, c: char, rep: string)
    ensures Replace([x], c, rep) == if x == c then rep else [x]
  {
    assert [x][1..] == [];
  }

  lemma ReplaceTwo(x: char, y: char, c: char, rep: string)
    requires x != c && y != c
    ensures Replace([x, y], c, rep) == [x, y]
  {
    assert [x, y] == [x] + [y];
    ReplaceConcat([x], [y], c, rep);
    ReplaceOne(x, c, rep);
    ReplaceOne(y, c, rep);
  }

  lemma EscapeOne(x: char)
    ensures Escape([x]) == if IsMeta(x) then ['\\', x] else [x]
  {
    ReplaceOne(x, '\\', "\\\\");
    if x == '\\' {
      ReplaceTwo('\\', '\\', '%', "\\%");
      ReplaceTwo('\\', '\\', '_', "\\_");
    } else {
      ReplaceOne(x, '%', "\\%");
      if x == '%' { ReplaceTwo('\\', '%', '_', "\\_"); } else { ReplaceOne(x, '_', "\\_"); }
    }
  }

  /** The order of the three replacements is right: no character is quoted twice. */
  lemma {:induction false} EscapeIsQuote(s: string)
    ensures Escape(s) == Quote(s)
  {
    if s != [] {
      assert s == [s[0]] + s[1..];
      EscapeConcat([s[0]], s[1..]);
      EscapeOne(s[0]);
      EscapeIsQuote(s[1..]);
    }
  }

  lemma {:induction false} PercentMatchesAll(text: string)
    ensures Like("%", text) == Ok(true)
    decreases |text|
  {
    assert "%"[1..] == [];
    if text != [] { PercentMatchesAll(text[1..]); }
  }

  /** Why quoting is needed: the bare underscore stands for any one character, the quoted one for itself. */
  lemma UnderscoreMatchesAny(c: char)
    ensures Like("_", [c]) == Ok(true) && Like("\\_", [c]) == Ok(c == '_')
  {
    assert "_"[1..] == [] && "\\_"[2..] == [] && [c][1..] == [];
    assert Like([], []) == Ok(true);
  }

  lemma {:induction false} QuotedPrefixMatches(p: string, text: string)
    ensures Like(Quote(p) + "%", text) == Ok(p <= text)
    decreases |p|
  {
    var pattern := Quote(p) + "%";
    if p == [] {
      assert pattern == "%";
      PercentMatchesAll(text);
    } else {
      var q := if IsMeta(p[0]) then ['\\', p[0]] else [p[0]];
      var rest := Quote(p[1..]) + "%";
      assert pattern == q + rest;
      assert pattern[|q|..] == rest;
      QuotedPrefixMatches(p[1..], []);
      if text != [] {
        QuotedPrefixMatches(p[1..], text[1..]);
        assert p <= text <==> p[0] == text[0] && p[1..] <= text[1..] by {
          assert p == [p[0]] + p[1..] && text == [text[0]] + text[1..];
        }
      }
    }
  }

  /** A context matches the pattern if and only if the caller's prefix, read literally, is a prefix of it. */
  lemma LiteralPrefix(prefix: string, context: string)
    ensures Like(PrefixPattern(prefix), context) == Ok(prefix <= context)
  {
    EscapeIsQuote(prefix);
    QuotedPrefixMatches(prefix, context);
  }
}
