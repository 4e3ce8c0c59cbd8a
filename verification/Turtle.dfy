/**
  Escaping of strings for Turtle literals.  The grammar is that of W3C RDF 1.1 Turtle: the string
  escapes of section 6.4 and STRING_LITERAL_QUOTE of section 6.5.
*/
module Turtle {
  import opened Common

  /** Replaces every occurrence of one character by a string. */
  function Replace(s: string, c: char, rep: string): string {
    if s == [] then [] else (if s[0] == c then rep else [s[0]]) + Replace(s[1..], c, rep)
  }

  /** The five successive replacements of the serializer. */
  function Escape(s: string): string {
    Replace(Replace(Replace(Replace(Replace(s, '\\', "\\\\"), '\"', "\\\""), '\n', "\\n"), '\r', "\\r"), '\t', "\\t")
  }

  function EscapeChar(c: char): string {
    match c
    case '\\' => "\\\\"
    case '\"' => "\\\""
    case '\n' => "\\n"
    case '\r' => "\\r"
    case '\t' => "\\t"
    case _ => [c]
  }

  /** One substitution per character. */
  function EscapeEach(s: string): string {
    if s == [] then [] else EscapeChar(s[0]) + EscapeEach(s[1..])
  }

  lemma {:induction false} ReplaceConcat(a: string, b: string, c: char, rep: string)
    ensures Replace(a + b, c, rep) == Replace(a, c, rep) + Replace(b, c, rep)
  {
    if a == [] {
      assert a + b == b;
    } else {
      assert (a + b)[1..] == a[1..] + b;
      ReplaceConcat(a[1..], b, c, rep);
    }
  }

  lemma EscapeConcat(a: string, b: string)
    ensures Escape(a + b) == Escape(a) + Escape(b)
  {
    ReplaceConcat(a, b, '\\', "\\\\");
    var a1, b1 := Replace(a, '\\', "\\\\"), Replace(b, '\\', "\\\\");
    ReplaceConcat(a1, b1, '\"', "\\\"");
    var a2, b2 := Replace(a1, '\"', "\\\""), Replace(b1, '\"', "\\\"");
    ReplaceConcat(a2, b2, '\n', "\\n");
    var a3, b3 := Replace(a2, '\n', "\\n"), Replace(b2, '\n', "\\n");
    ReplaceConcat(a3, b3, '\r', "\\r");
    ReplaceConcat(Replace(a3, '\r', "\\r"), Replace(b3, '\r', "\\r"), '\t', "\\t");
  }

  lemma ReplaceOne(x: char, c: char, rep: string)
    ensures Replace([x], c, rep) == if x == c then rep else [x]
  {
    assert [x][1..] == [];
  }

  lemma ReplaceAbsent(x: char, y: char, c: char, rep: string)
    requires x != c && y != c
    ensures Replace([x, y], c, rep) == [x, y]
  {
    assert [x, y] == [x] + [y];
    ReplaceConcat([x], [y], c, rep);
    ReplaceOne(x, c, rep);
    ReplaceOne(y, c, rep);
  }

  /** No replacement touches what an earlier one has written. */
  lemma EscapeOne(c: char)
    ensures Escape([c]) == EscapeChar(c)
  {
    ReplaceOne(c, '\\', "\\\\");
    ReplaceOne(c, '\"', "\\\"");
    ReplaceOne(c, '\n', "\\n");
    ReplaceOne(c, '\r', "\\r");
    ReplaceOne(c, '\t', "\\t");
    ReplaceAbsent('\\', '\\', '\"', "\\\"");
    ReplaceAbsent('\\', '\\', '\n', "\\n");
    ReplaceAbsent('\\', '\\', '\r', "\\r");
    ReplaceAbsent('\\', '\\', '\t', "\\t");
    ReplaceAbsent('\\', '\"', '\n', "\\n");
    ReplaceAbsent('\\', '\"', '\r', "\\r");
    ReplaceAbsent('\\', '\"', '\t', "\\t");
    ReplaceAbsent('\\', 'n', '\r', "\\r");
    ReplaceAbsent('\\', 'n', '\t', "\\t");
    ReplaceAbsent('\\', 'r', '\t', "\\t");
  }

  /** The five passes are one substitution per character. */
  lemma {:induction false} EscapeIsPerCharacter(s: string)
    ensures Escape(s) == EscapeEach(s)
  {
    if s != [] {
      assert s == [s[0]] + s[1..];
      EscapeConcat([s[0]], s[1..]);
      EscapeOne(s[0]);
      EscapeIsPerCharacter(s[1..]);
    }
  }

  // ----- reading a literal -----

  /** The character a string escape stands for. */
  function EscapedChar(c: char): Option<char> {
    match c
    case 't' => Some('\t')
    case 'b' => Some(8 as char)
    case 'n' => Some('\n')
    case 'r' => Some('\r')
    case 'f' => Some(12 as char)
    case '\"' => Some('\"')
    case '\'' => Some('\'')
    case '\\' => Some('\\')
    case _ => None
  }

  /** The text between the quotes of a literal: no bare quote, backslash or line break, only string escapes. */
  predicate LiteralBody(s: string) {
    s == [] ||
    (if s[0] == '\\' then |s| >= 2 && EscapedChar(s[1]).Some? && LiteralBody(s[2..])
     else s[0] != '\"' && s[0] != '\n' && s[0] != '\r' && LiteralBody(s[1..]))
  }

  function Unescape(s: string): string
    requires LiteralBody(s)
  {
    if s == [] then []
    else if s[0] == '\\' then [EscapedChar(s[1]).value] + Unescape(s[2..])
    else [s[0]] + Unescape(s[1..])
  }

  lemma {:induction false} EscapeEachReads(s: string)
    ensures LiteralBody(EscapeEach(s)) && Unescape(EscapeEach(s)) == s
  {
    if s != [] {
      EscapeEachReads(s[1..]);
      var rest := EscapeEach(s[1..]);
      var all := EscapeEach(s);
      assert all == EscapeChar(s[0]) + rest;
      if |EscapeChar(s[0])| == 1 {
        assert all[1..] == rest;
      } else {
        assert all[2..] == rest;
      }
    }
  }

  /** Every escaped string fits between the quotes of a literal, and reading the literal gives it back. */
  lemma EscapeRoundTrips(s: string)
    ensures LiteralBody(Escape(s)) && Unescape(Escape(s)) == s
  {
    EscapeIsPerCharacter(s);
    EscapeEachReads(s);
  }
}
