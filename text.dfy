/**
 * The two string operations the game applies to answers: JavaScript's
 * `String.prototype.trim` (on submission) and `toLowerCase().trim()` (the
 * grouping key).
 */
module Text {

  /** The characters `trim` removes: ECMAScript's WhiteSpace and LineTerminator. */
  predicate IsSpace(c: char) {
    || c == '\t' || c == '\n' || c == '\U{B}' || c == '\U{C}' || c == '\r'
    || c == ' ' || c == '\U{A0}' || c == '\U{1680}'
    || ('\U{2000}' <= c <= '\U{200A}')
    || c == '\U{2028}' || c == '\U{2029}' || c == '\U{202F}' || c == '\U{205F}'
    || c == '\U{3000}' || c == '\U{FEFF}'
  }

  /** `s` with its leading white space removed. */
  function TrimStart(s: string): string {
    if s != [] && IsSpace(s[0]) then TrimStart(s[1..]) else s
  }

  /** `s` with its trailing white space removed. */
  function TrimEnd(s: string): string {
    if s != [] && IsSpace(s[|s| - 1]) then TrimEnd(s[..|s| - 1]) else s
  }

  /** `s.trim()`. */
  function Trim(s: string): string {
    TrimEnd(TrimStart(s))
  }

  /** Everything in `s` before index `i` and from index `j` on is white space. */
  predicate SpaceAround(s: string, i: int, j: int)
    requires 0 <= i <= j <= |s|
  {
    (forall k | 0 <= k < i :: IsSpace(s[k])) && (forall k | j <= k < |s| :: IsSpace(s[k]))
  }

  /** TrimStart drops a prefix of white space and stops at the first other character. */
  lemma {:induction false} TrimStartSpec(s: string)
    ensures var r := TrimStart(s);
      && |r| <= |s| && r == s[|s| - |r|..]
      && SpaceAround(s, |s| - |r|, |s|)
      && (r != [] ==> !IsSpace(r[0]))
  {
    if s != [] && IsSpace(s[0]) {
      TrimStartSpec(s[1..]);
    }
  }

  /** TrimEnd drops a suffix of white space and stops at the last other character. */
  lemma {:induction false} TrimEndSpec(s: string)
    ensures var r := TrimEnd(s);
      && |r| <= |s| && r == s[..|r|]
      && SpaceAround(s, 0, |r|)
      && (r != [] ==> !IsSpace(r[|r| - 1]))
  {
    if s != [] && IsSpace(s[|s| - 1]) {
      TrimEndSpec(s[..|s| - 1]);
    }
  }

  /**
   * `s.trim()` is an infix of `s` obtained by dropping only white space, and
   * it neither starts nor ends with white space.
   */
  lemma {:induction false} TrimSpec(s: string)
    ensures exists i, j | 0 <= i <= j <= |s| :: Trim(s) == s[i..j] && SpaceAround(s, i, j)
    ensures Trim(s) != [] ==> !IsSpace(Trim(s)[0]) && !IsSpace(Trim(s)[|Trim(s)| - 1])
  {
    var t := TrimStart(s);
    TrimStartSpec(s);
    TrimEndSpec(t);
    var r := TrimEnd(t);
    var i := |s| - |t|;
    assert r == s[i..i + |r|];
    assert SpaceAround(s, i, i + |r|);
  }

  /** Trimming a string that is already trimmed changes nothing. */
  lemma {:induction false} TrimIdempotent(s: string)
    ensures Trim(Trim(s)) == Trim(s)
  {
    var r := Trim(s);
    TrimSpec(s);
    if r != [] {
      assert TrimStart(r) == r;
      assert TrimEnd(r) == r;
    }
  }

  /** A string of white space trims to the empty string. */
  lemma {:induction false} TrimStartAllSpace(s: string)
    requires forall k | 0 <= k < |s| :: IsSpace(s[k])
    ensures TrimStart(s) == []
  {
    if s != [] {
      TrimStartAllSpace(s[1..]);
    }
  }

  /** When the string without its last character does not trim away, TrimStart keeps that character. */
  lemma {:induction false} TrimStartPrefix(s: string)
    requires s != []
    requires TrimStart(s[..|s| - 1]) != []
    ensures TrimStart(s) == TrimStart(s[..|s| - 1]) + [s[|s| - 1]]
  {
    if IsSpace(s[0]) {
      assert s[1..][..|s| - 2] == s[..|s| - 1][1..];
      TrimStartPrefix(s[1..]);
    }
  }

  /** Dropping one trailing white-space character does not change the trimmed string. */
  lemma {:induction false} TrimEndOverSpace(s: string)
    requires s != [] && IsSpace(s[|s| - 1])
    ensures Trim(s[..|s| - 1]) == Trim(s)
  {
    var u := s[..|s| - 1];
    var t, tu := TrimStart(s), TrimStart(u);
    if tu == [] {
      TrimStartSpec(u);
      assert forall k | 0 <= k < |s| :: IsSpace(s[k]) by {
        assert forall k | 0 <= k < |u| :: u[k] == s[k];
      }
      TrimStartAllSpace(s);
    } else {
      TrimStartPrefix(s);
      assert t == tu + [s[|s| - 1]];
      assert t[..|t| - 1] == tu;
    }
  }

  /** Trimming an infix that is surrounded only by white space gives the same result. */
  lemma {:induction false} TrimInfix(s: string, i: int, j: int)
    requires 0 <= i <= j <= |s|
    requires SpaceAround(s, i, j)
    ensures Trim(s[i..j]) == Trim(s)
  {
    if i > 0 {
      var u := s[1..];
      assert u[i - 1..j - 1] == s[i..j];
      assert SpaceAround(u, i - 1, j - 1) by {
        assert forall k | 0 <= k < |u| :: u[k] == s[k + 1];
      }
      TrimInfix(u, i - 1, j - 1);
      assert IsSpace(s[0]);
      assert TrimStart(s) == TrimStart(u);
    } else if j < |s| {
      var u := s[..|s| - 1];
      assert u[i..j] == s[i..j];
      assert SpaceAround(u, i, j) by {
        assert forall k | 0 <= k < |u| :: u[k] == s[k];
      }
      TrimInfix(u, i, j);
      assert IsSpace(s[|s| - 1]);
      TrimEndOverSpace(s);
    } else {
      assert s[i..j] == s;
    }
  }

  /** The capitals `toLowerCase` maps in this model: ASCII and Latin-1 (except U+00D7). */
  predicate IsUpper(c: char) {
    'A' <= c <= 'Z' || ('\U{C0}' <= c <= '\U{DE}' && c != '\U{D7}')
  }

  /** `toLowerCase` on one character: a capital maps to the character 32 code points later. */
  function LowerChar(c: char): char {
    if IsUpper(c) then (c as int + 32) as char else c
  }

  /** `s.toLowerCase()`. */
  function Lower(s: string): string {
    seq(|s|, i requires 0 <= i < |s| => LowerChar(s[i]))
  }

  /**
   * Lower-casing keeps the length, turns each capital into its small letter
   * (32 code points later), leaves no capital, keeps white space where it
   * was and leaves every other character alone.
   */
  lemma LowerSpec(s: string)
    ensures |Lower(s)| == |s|
    ensures forall i | 0 <= i < |s| && IsUpper(s[i]) :: Lower(s)[i] as int == s[i] as int + 32
    ensures forall i | 0 <= i < |s| :: !IsUpper(Lower(s)[i])
    ensures forall i | 0 <= i < |s| :: IsSpace(Lower(s)[i]) <==> IsSpace(s[i])
    ensures forall i | 0 <= i < |s| :: !IsUpper(s[i]) ==> Lower(s)[i] == s[i]
  {
  }

  /** Lower-casing is idempotent. */
  lemma LowerIdempotent(s: string)
    ensures Lower(Lower(s)) == Lower(s)
  {
  }

  /** The grouping key of an answer: `answer.toLowerCase().trim()`. */
  function Key(s: string): string {
    Trim(Lower(s))
  }

  /** White space around an answer never changes its key. */
  lemma {:induction false} KeyIgnoresSurroundingSpace(s: string)
    ensures Key(Trim(s)) == Key(s)
  {
    TrimSpec(s);
    var i, j :| 0 <= i <= j <= |s| && Trim(s) == s[i..j] && SpaceAround(s, i, j);
    var ls := Lower(s);
    assert Lower(s[i..j]) == ls[i..j];
    assert SpaceAround(ls, i, j) by {
      LowerSpec(s);
    }
    TrimInfix(ls, i, j);
  }

  /**
   * Case never changes a key: two answers that differ only where one has a
   * capital and the other its small letter have the same key.
   */
  lemma KeyIgnoresCase(s: string, t: string)
    requires |s| == |t|
    requires forall i | 0 <= i < |s| :: s[i] == t[i] || (IsUpper(t[i]) && s[i] as int == t[i] as int + 32)
    ensures Key(s) == Key(t)
  {
    assert Lower(s) == Lower(t);
  }

  /** The answers "Cat " and "cat" share the key "cat". */
  lemma CaseAndSpaceExample()
    ensures Key("Cat ") == Key("cat") == "cat"
  {
    assert Lower("Cat ") == "cat ";
    assert Lower("cat") == "cat";
    assert TrimStart("cat ") == "cat ";
    assert TrimEnd("cat ") == TrimEnd("cat");
  }
}
