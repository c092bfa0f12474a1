/**
  The JavaScript string operations the relevance engine relies on, over strings
  of Unicode characters: the `\s` character class, `toLowerCase` (ASCII letters
  only), `includes`, counting the matches of a literal search term with the `g`
  flag, and `split(/\s+/)`.
 */
module Text {

  /** A character of JavaScript's `\s` class (white space and line terminators). */
  predicate IsSpace(c: char) {
    c == ' ' || c == '\t' || c == '\n' || c == '\r' || c == '\U{000B}' || c == '\U{000C}'
    || c == '\U{00A0}' || c == '\U{1680}' || ('\U{2000}' <= c <= '\U{200A}')
    || c == '\U{2028}' || c == '\U{2029}' || c == '\U{202F}' || c == '\U{205F}'
    || c == '\U{3000}' || c == '\U{FEFF}'
  }

  /** No character of `t` is white space. */
  predicate NoSpace(t: string) {
    forall j :: 0 <= j < |t| ==> !IsSpace(t[j])
  }

  predicate IsAsciiUpper(c: char) {
    'A' <= c <= 'Z'
  }

  function LowerChar(c: char): char {
    if IsAsciiUpper(c) then (c as int + 32) as char else c
  }

  /** `s.toLowerCase()`, restricted to the ASCII letters. */
  function Lower(s: string): (r: string)
    ensures |r| == |s|
    ensures forall i :: 0 <= i < |r| ==> !IsAsciiUpper(r[i])
    ensures forall i :: 0 <= i < |s| && !IsAsciiUpper(s[i]) ==> r[i] == s[i]
    ensures forall i :: 0 <= i < |s| && IsAsciiUpper(s[i]) ==> r[i] as int == s[i] as int + 32
  {
    seq(|s|, i requires 0 <= i < |s| => LowerChar(s[i]))
  }

  /** Lower-casing works character by character, so it distributes over concatenation. */
  lemma LowerAppend(a: string, b: string)
    ensures Lower(a + b) == Lower(a) + Lower(b)
  {
    assert forall i :: 0 <= i < |a + b| ==> Lower(a + b)[i] == (Lower(a) + Lower(b))[i];
  }

  /** Lower-casing does not create or remove white space. */
  lemma LowerKeepsSpace(s: string, i: int)
    requires 0 <= i < |s|
    ensures IsSpace(Lower(s)[i]) <==> IsSpace(s[i])
  {
  }

  /** `w` occurs in `s` starting at index `i`. */
  predicate OccursAt(s: string, w: string, i: int) {
    0 <= i && i + |w| <= |s| && s[i..i + |w|] == w
  }

  /** `s.includes(w)`: `w` occurs somewhere in `s` (the empty string occurs everywhere). */
  predicate Contains(s: string, w: string) {
    exists i :: 0 <= i <= |s| - |w| && OccursAt(s, w, i)
  }

  /** An occurrence one place further in `s` is an occurrence in `s[1..]`. */
  lemma OccursAtShift(s: string, w: string, i: int)
    requires |s| > 0 && 0 <= i
    ensures OccursAt(s, w, i + 1) <==> OccursAt(s[1..], w, i)
  {
    if i + 1 + |w| <= |s| {
      assert s[1..][i..i + |w|] == s[i + 1..i + 1 + |w|];
    }
  }

  /**
    The number of matches of the literal search term `w` in `s` with the global
    flag: the scan takes the leftmost occurrence and resumes after it, so the
    counted occurrences do not overlap.
   */
  function CountOccurrences(s: string, w: string): (n: nat)
    requires |w| > 0
    ensures n * |w| <= |s|
    decreases |s|
  {
    if |s| < |w| then 0
    else if s[..|w|] == w then 1 + CountOccurrences(s[|w|..], w)
    else CountOccurrences(s[1..], w)
  }

  /** A search term is found at least once exactly when the string contains it. */
  lemma {:induction false} CountPositiveIffContains(s: string, w: string)
    requires |w| > 0
    ensures CountOccurrences(s, w) > 0 <==> Contains(s, w)
    decreases |s|
  {
    if |s| < |w| {
      assert !Contains(s, w);
    } else if s[..|w|] == w {
      assert OccursAt(s, w, 0);
    } else {
      CountPositiveIffContains(s[1..], w);
      if Contains(s, w) {
        var i :| 0 <= i <= |s| - |w| && OccursAt(s, w, i);
        assert i != 0;
        OccursAtShift(s, w, i - 1);
        assert Contains(s[1..], w);
      }
      if Contains(s[1..], w) {
        var i :| 0 <= i <= |s[1..]| - |w| && OccursAt(s[1..], w, i);
        OccursAtShift(s, w, i);
        assert OccursAt(s, w, i + 1);
      }
    }
  }

  /** The white space at the front of `s` removed. */
  function DropSpaces(s: string): (r: string)
    ensures |r| <= |s| && r == s[|s| - |r|..]
    ensures forall j :: 0 <= j < |s| - |r| ==> IsSpace(s[j])
    ensures r == "" || !IsSpace(r[0])
  {
    if s != "" && IsSpace(s[0]) then DropSpaces(s[1..]) else s
  }

  /**
    `s.split(/\s+/)`: the pieces between maximal runs of white space. A leading
    or trailing run yields an empty first or last piece; no piece in between is
    empty, and no piece contains white space.
   */
  function Split(s: string): (r: seq<string>)
    ensures |r| >= 1
    ensures s == "" ==> r == [""]
    ensures |s| > 0 && !IsSpace(s[0]) ==> r[0] != ""
    ensures forall i :: 0 <= i < |r| ==> NoSpace(r[i])
    ensures forall i :: 0 < i < |r| - 1 ==> r[i] != ""
    decreases |s|
  {
    if s == "" then [""]
    else if IsSpace(s[0]) then [""] + Split(DropSpaces(s[1..]))
    else
      var rest := Split(s[1..]);
      [[s[0]] + rest[0]] + rest[1..]
  }

  /** A run of white space in front of a word or of the end is dropped entirely. */
  lemma {:induction false} DropSpacesRun(sp: string, b: string)
    requires forall j :: 0 <= j < |sp| ==> IsSpace(sp[j])
    requires b == "" || !IsSpace(b[0])
    ensures DropSpaces(sp + b) == b
  {
    if sp == "" {
      assert sp + b == b;
    } else {
      assert (sp + b)[1..] == sp[1..] + b;
      DropSpacesRun(sp[1..], b);
    }
  }

  /** Text without white space is a single piece. */
  lemma {:induction false} SplitNoSpace(s: string)
    requires NoSpace(s)
    ensures Split(s) == [s]
    decreases |s|
  {
    if s != "" {
      SplitNoSpace(s[1..]);
      assert [s[0]] + s[1..] == s;
    }
  }

  /**
    A word `a`, a run of white space and the rest `b`: the first piece is `a`
    and the others are the pieces of `b`.
   */
  lemma {:induction false} SplitWordThenSpace(a: string, sp: string, b: string)
    requires NoSpace(a)
    requires sp != "" && forall j :: 0 <= j < |sp| ==> IsSpace(sp[j])
    requires b == "" || !IsSpace(b[0])
    ensures Split(a + sp + b) == [a] + Split(b)
    decreases |a|
  {
    if a == "" {
      assert a + sp + b == sp + b;
      assert (sp + b)[1..] == sp[1..] + b;
      DropSpacesRun(sp[1..], b);
    } else {
      assert (a + sp + b)[1..] == a[1..] + sp + b;
      SplitWordThenSpace(a[1..], sp, b);
      assert [a[0]] + a[1..] == a;
    }
  }

  /** Every piece lower-cased. */
  function LowerAll(pieces: seq<string>): (r: seq<string>)
    ensures |r| == |pieces|
  {
    seq(|pieces|, i requires 0 <= i < |pieces| => Lower(pieces[i]))
  }

  /** Lower-casing the pieces of `[x] + xs`. */
  lemma LowerAllCons(x: string, xs: seq<string>)
    ensures LowerAll([x] + xs) == [Lower(x)] + LowerAll(xs)
  {
    assert forall i :: 0 < i <= |xs| ==> ([x] + xs)[i] == xs[i - 1];
  }

  /** Lower-casing does not move the white space, so it commutes with dropping it. */
  lemma {:induction false} DropSpacesLower(s: string)
    ensures DropSpaces(Lower(s)) == Lower(DropSpaces(s))
    decreases |s|
  {
    if s != "" {
      LowerKeepsSpace(s, 0);
      assert Lower(s)[1..] == Lower(s[1..]);
      DropSpacesLower(s[1..]);
    }
  }

  /** `Split` on text that starts with a word character. */
  lemma SplitWordCons(c: char, u: string)
    requires !IsSpace(c)
    ensures Split([c] + u) == [[c] + Split(u)[0]] + Split(u)[1..]
  {
    assert ([c] + u)[1..] == u;
  }

  /** `Split` on text that starts with white space. */
  lemma SplitSpaceCons(c: char, u: string)
    requires IsSpace(c)
    ensures Split([c] + u) == [""] + Split(DropSpaces(u))
  {
    assert ([c] + u)[1..] == u;
  }

  /** Lower-casing text with a first character split off. */
  lemma LowerCons(c: char, u: string)
    ensures Lower([c] + u) == [LowerChar(c)] + Lower(u)
  {
    LowerAppend([c], u);
  }

  /** The step of `SplitLower` for text that starts with white space. */
  lemma {:induction false} SplitLowerSpaceStep(c: char, u: string)
    requires IsSpace(c)
    ensures Split(Lower([c] + u)) == LowerAll(Split([c] + u))
    decreases |u| + 1, 0
  {
    SplitLower(DropSpaces(u));
    LowerCons(c, u);
    assert LowerChar(c) == c;
    SplitSpaceCons(c, Lower(u));
    DropSpacesLower(u);
    SplitSpaceCons(c, u);
    LowerAllCons("", Split(DropSpaces(u)));
  }

  /** The step of `SplitLower` for text that starts with a word character. */
  lemma {:induction false} SplitLowerWordStep(c: char, u: string)
    requires !IsSpace(c)
    ensures Split(Lower([c] + u)) == LowerAll(Split([c] + u))
    decreases |u| + 1, 0
  {
    SplitLower(u);
    var d := LowerChar(c);
    LowerCons(c, u);
    assert !IsSpace(d);
    SplitWordCons(d, Lower(u));
    SplitWordCons(c, u);
    var rest := Split(u);
    assert rest == [rest[0]] + rest[1..];
    LowerAllCons(rest[0], rest[1..]);
    LowerCons(c, rest[0]);
    LowerAllCons([c] + rest[0], rest[1..]);
  }

  /** Splitting the lower-cased text gives the pieces of the text, each lower-cased:
      lower-casing does not change where the words break. */
  lemma {:induction false} SplitLower(s: string)
    ensures Split(Lower(s)) == LowerAll(Split(s))
    decreases |s|, 1
  {
    if s != "" {
      assert s == [s[0]] + s[1..];
      if IsSpace(s[0]) {
        SplitLowerSpaceStep(s[0], s[1..]);
      } else {
        SplitLowerWordStep(s[0], s[1..]);
      }
    }
  }
}
