/** The string operations the catalog relies on, over a given notion of white space. */
module Text {

  predicate HasPrefix(s: string, prefix: string) {
    |prefix| <= |s| && s[..|prefix|] == prefix
  }

  function TrimStart(space: char -> bool, s: string): string {
    if s != [] && space(s[0]) then TrimStart(space, s[1..]) else s
  }

  function TrimEnd(space: char -> bool, s: string): string {
    if s != [] && space(s[|s| - 1]) then TrimEnd(space, s[..|s| - 1]) else s
  }

  function Trim(space: char -> bool, s: string): string {
    TrimEnd(space, TrimStart(space, s))
  }

  predicate Trimmed(space: char -> bool, s: string) {
    s == [] || (!space(s[0]) && !space(s[|s| - 1]))
  }

  lemma {:induction false} TrimStartProps(space: char -> bool, s: string)
    ensures var t := TrimStart(space, s); t == [] || !space(t[0])
    ensures (exists i :: 0 <= i < |s| && !space(s[i])) ==> TrimStart(space, s) != []
    ensures |TrimStart(space, s)| <= |s|
  {
    if s != [] && space(s[0]) {
      TrimStartProps(space, s[1..]);
      if i :| 0 <= i < |s| && !space(s[i]) {
        assert s[1..][i - 1] == s[i];
      }
    }
  }

  lemma {:induction false} TrimEndProps(space: char -> bool, s: string)
    ensures var t := TrimEnd(space, s); t == [] || !space(t[|t| - 1])
    ensures s != [] && !space(s[0]) ==> TrimEnd(space, s) != [] && TrimEnd(space, s)[0] == s[0]
  {
    if s != [] && space(s[|s| - 1]) {
      TrimEndProps(space, s[..|s| - 1]);
    }
  }

  /** Trimming leaves no white space at either end, changes nothing a second time, and keeps visible text. */
  lemma TrimProps(space: char -> bool, s: string)
    ensures Trimmed(space, Trim(space, s))
    ensures Trim(space, Trim(space, s)) == Trim(space, s)
    ensures (exists i :: 0 <= i < |s| && !space(s[i])) ==> Trim(space, s) != []
  {
    TrimStartProps(space, s);
    TrimEndProps(space, TrimStart(space, s));
  }

  predicate Blank(space: char -> bool, s: string) {
    forall i :: 0 <= i < |s| ==> space(s[i])
  }

  /** Trimming takes away the white space around a text and nothing else, and leaves nothing of a blank text. */
  lemma TrimExact(space: char -> bool, left: string, core: string, right: string)
    requires Blank(space, left) && Blank(space, right) && Trimmed(space, core)
    ensures Trim(space, left + core + right) == core
  {
    if core == [] {
      assert left + core + right == left + right;
      TrimStartExact(space, left + right, []);
      assert left + right + [] == left + right;
    } else {
      assert left + core + right == left + (core + right);
      TrimStartExact(space, left, core + right);
      TrimEndExact(space, core, right);
    }
  }

  lemma {:induction false} TrimStartExact(space: char -> bool, left: string, rest: string)
    requires Blank(space, left) && (rest == [] || !space(rest[0]))
    ensures TrimStart(space, left + rest) == rest
  {
    if left == [] {
      assert left + rest == rest;
    } else {
      assert (left + rest)[1..] == left[1..] + rest;
      TrimStartExact(space, left[1..], rest);
    }
  }

  lemma {:induction false} TrimEndExact(space: char -> bool, core: string, right: string)
    requires Blank(space, right) && core != [] && !space(core[|core| - 1])
    ensures TrimEnd(space, core + right) == core
  {
    if right == [] {
      assert core + right == core;
    } else {
      var s := core + right;
      assert s[..|s| - 1] == core + right[..|right| - 1];
      TrimEndExact(space, core, right[..|right| - 1]);
    }
  }

  /** What follows the last colon, or the whole string. */
  function AfterLastColon(s: string): string {
    if s == [] || s[|s| - 1] == ':' then [] else AfterLastColon(s[..|s| - 1]) + [s[|s| - 1]]
  }

  /** The last segment is found behind any prefix, and a string without a colon is its own last segment. */
  lemma {:induction false} AfterLastColonProps(prefix: string, segment: string)
    requires ':' !in segment
    ensures AfterLastColon(prefix + ":" + segment) == segment
    ensures AfterLastColon(segment) == segment
  {
    if segment != [] {
      var k := |segment| - 1;
      var s := prefix + ":" + segment;
      AfterLastColonProps(prefix, segment[..k]);
      assert s[..|s| - 1] == prefix + ":" + segment[..k];
      assert segment == segment[..k] + [segment[k]];
    }
  }
}
