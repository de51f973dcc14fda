/** String operations the source takes from Python: trimming, ASCII lower-casing and
    suffix removal. */
module Text {

  datatype Option<+T> = None | Some(value: T)

  /** The characters `str.strip` and the regular-expression class `\s` treat as white space. */
  predicate IsSpace(c: char) {
    || '\t' <= c <= '\r' || '\U{1c}' <= c <= ' ' || c == '\U{85}' || c == '\U{a0}'
    || c == '\U{1680}' || '\U{2000}' <= c <= '\U{200a}' || c == '\U{2028}' || c == '\U{2029}'
    || c == '\U{202f}' || c == '\U{205f}' || c == '\U{3000}'
  }

  function TrimLeft(s: string): (r: string)
    ensures |r| <= |s| && r == s[|s| - |r|..]
    ensures r != [] ==> !IsSpace(r[0])
    ensures forall i :: 0 <= i < |s| - |r| ==> IsSpace(s[i])
  {
    if s == [] || !IsSpace(s[0]) then s else TrimLeft(s[1..])
  }

  function TrimRight(s: string): (r: string)
    ensures r <= s
    ensures r != [] ==> !IsSpace(r[|r| - 1])
    ensures forall i :: |r| <= i < |s| ==> IsSpace(s[i])
  {
    if s == [] || !IsSpace(s[|s| - 1]) then s else TrimRight(s[..|s| - 1])
  }

  function Trim(s: string): (r: string)
    ensures forall c :: c in r ==> c in s
  {
    TrimRight(TrimLeft(s))
  }

  function LowerChar(c: char): char {
    if 'A' <= c <= 'Z' then c - 'A' + 'a' else c
  }

  function Lower(s: string): (r: string)
    ensures |r| == |s|
  {
    seq(|s|, i requires 0 <= i < |s| => LowerChar(s[i]))
  }

  predicate EndsWith(s: string, suffix: string) {
    |suffix| <= |s| && s[|s| - |suffix|..] == suffix
  }

  function DropSuffix(s: string, suffix: string): (r: string)
    ensures EndsWith(s, suffix) ==> r + suffix == s
    ensures !EndsWith(s, suffix) ==> r == s
  {
    if EndsWith(s, suffix) then s[..|s| - |suffix|] else s
  }

  // ----- what these operations mean -----

  predicate AllSpace(s: string) {
    forall i :: 0 <= i < |s| ==> IsSpace(s[i])
  }

  /** No white space at either end. */
  predicate IsTight(s: string) {
    s != [] ==> !IsSpace(s[0]) && !IsSpace(s[|s| - 1])
  }

  lemma {:induction false} TrimLeftPadding(before: string, s: string)
    requires AllSpace(before) && (s != [] ==> !IsSpace(s[0]))
    ensures TrimLeft(before + s) == s
  {
    hide IsSpace;
    if before == [] {
      assert before + s == s;
    } else {
      assert (before + s)[0] == before[0] && (before + s)[1..] == before[1..] + s;
      TrimLeftPadding(before[1..], s);
    }
  }

  lemma {:induction false} TrimRightPadding(s: string, after: string)
    requires AllSpace(after) && (s != [] ==> !IsSpace(s[|s| - 1]))
    ensures TrimRight(s + after) == s
    decreases |after|
  {
    hide IsSpace;
    var t, n := s + after, |after| - 1;
    if after == [] {
      assert t == s;
    } else {
      assert t[|t| - 1] == after[n] && t[..|t| - 1] == s + after[..n];
      TrimRightPadding(s, after[..n]);
    }
  }

  /** White space around a tight text is what trimming takes away, and nothing else. */
  lemma TrimUndoesPadding(before: string, s: string, after: string)
    requires AllSpace(before) && AllSpace(after) && IsTight(s) && s != []
    ensures Trim(before + s + after) == s
  {
    hide IsSpace, TrimLeft, TrimRight;
    assert before + s + after == before + (s + after) && (s + after)[0] == s[0];
    TrimLeftPadding(before, s + after);
    TrimRightPadding(s, after);
  }

  lemma {:induction false} TrimmedToNothing(s: string)
    ensures TrimLeft(s) == [] <==> AllSpace(s)
    ensures TrimRight(s) == [] <==> AllSpace(s)
  {
    hide IsSpace;
    assert TrimLeft(s) != [] ==> TrimLeft(s)[0] == s[|s| - |TrimLeft(s)|];
    assert TrimRight(s) != [] ==> TrimRight(s)[|TrimRight(s)| - 1] == s[|TrimRight(s)| - 1];
  }

  lemma TrimIsTight(s: string)
    ensures IsTight(Trim(s)) && (Trim(s) == "" <==> AllSpace(s))
  {
    hide IsSpace, TrimLeft, TrimRight, AllSpace;
    var l := TrimLeft(s);
    assert TrimRight(l) != [] ==> TrimRight(l)[0] == l[0];
    TrimmedToNothing(s);
    TrimmedToNothing(l);
    assert l != [] ==> !AllSpace(l) by { NotAllSpace(l); }
    assert l == [] ==> TrimRight(l) == [];
  }

  lemma NotAllSpace(l: string)
    ensures l != [] && !IsSpace(l[0]) ==> !AllSpace(l)
  {
  }

  /** Printing characters are not white space; blanks, tabs and line ends are. */
  lemma SpacesOfAscii(c: char)
    ensures '!' <= c <= '~' ==> !IsSpace(c)
    ensures IsSpace(' ') && IsSpace('\t') && IsSpace('\n') && IsSpace('\r')
  {
  }

  /** The same letter, in either case. */
  predicate SameLetter(a: char, b: char) {
    || a == b
    || ('A' <= a <= 'Z' && b as int == a as int + 32)
    || ('A' <= b <= 'Z' && a as int == b as int + 32)
  }

  predicate EqualButCase(s: string, t: string) {
    |s| == |t| && forall i :: 0 <= i < |s| ==> SameLetter(s[i], t[i])
  }

  lemma LowerIgnoresCase(s: string, t: string)
    ensures Lower(s) == Lower(t) <==> EqualButCase(s, t)
  {
    if Lower(s) == Lower(t) {
      forall i | 0 <= i < |s| ensures SameLetter(s[i], t[i]) { assert Lower(s)[i] == Lower(t)[i]; }
    }
    if EqualButCase(s, t) {
      forall i | 0 <= i < |s| ensures Lower(s)[i] == Lower(t)[i] { assert SameLetter(s[i], t[i]); }
    }
  }

  /** A text without capitals is its own lower case. */
  lemma LowerKeepsLower(s: string)
    requires forall i :: 0 <= i < |s| ==> !('A' <= s[i] <= 'Z')
    ensures Lower(s) == s
  {
  }
}
