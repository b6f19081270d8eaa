/** The three JavaScript string operations the query guard relies on:
    `String.prototype.trim`, `String.prototype.toLowerCase` (restricted to
    the ASCII letters) and `String.prototype.includes`. */
module JsString {

  /** The code points ECMAScript's `trim` removes: WhiteSpace (TAB, VT, FF,
      SPACE, NBSP, ZWNBSP and the Zs separators) and LineTerminator (LF, CR,
      LS, PS). */
  predicate IsSpace(c: char) {
    c == '\t' || c == '\U{000B}' || c == '\U{000C}' || c == ' ' ||
    c == '\U{00A0}' || c == '\U{FEFF}' ||
    c == '\U{1680}' || ('\U{2000}' <= c <= '\U{200A}') ||
    c == '\U{202F}' || c == '\U{205F}' || c == '\U{3000}' ||
    c == '\n' || c == '\r' || c == '\U{2028}' || c == '\U{2029}'
  }

  predicate AllSpace(s: string) {
    forall i :: 0 <= i < |s| ==> IsSpace(s[i])
  }

  /** Drops the leading whitespace: the result is a suffix of `s`, what was
      cut off is whitespace, and the result does not start with whitespace. */
  function TrimStart(s: string): (r: string)
    ensures |r| <= |s| && r == s[|s| - |r|..]
    ensures AllSpace(s[..|s| - |r|])
    ensures r != [] ==> !IsSpace(r[0])
  {
    if s != [] && IsSpace(s[0]) then TrimStart(s[1..]) else s
  }

  /** Drops the trailing whitespace: the result is a prefix of `s`, what was
      cut off is whitespace, and the result does not end with whitespace. */
  function TrimEnd(s: string): (r: string)
    ensures |r| <= |s| && r == s[..|r|]
    ensures AllSpace(s[|r|..])
    ensures r != [] ==> !IsSpace(r[|r| - 1])
  {
    if s != [] && IsSpace(s[|s| - 1]) then TrimEnd(s[..|s| - 1]) else s
  }

  /** `s.trim()`: no whitespace is left at either end (`TrimBounds` says
      where the cuts are). */
  function Trim(s: string): (r: string)
    ensures |r| <= |s|
    ensures r != [] ==> !IsSpace(r[0]) && !IsSpace(r[|r| - 1])
  {
    TrimEnd(TrimStart(s))
  }

  predicate IsUpper(c: char) {
    'A' <= c <= 'Z'
  }

  /** ASCII lower-casing of one character: a capital becomes the small
      letter at the same place in the alphabet, anything else is kept. */
  function LowerChar(c: char): (r: char)
    ensures !IsUpper(r)
    ensures IsUpper(c) || r == c
    ensures IsUpper(c) ==> 'a' <= r <= 'z' && r as int - 'a' as int == c as int - 'A' as int
  {
    if IsUpper(c) then (c as int + 32) as char else c
  }

  /** Lower-casing maps whitespace to whitespace and nothing else to it. */
  lemma LowerCharSpace(c: char)
    ensures IsSpace(LowerChar(c)) <==> IsSpace(c)
  {
  }

  /** ASCII upper-casing of one character, the inverse direction. */
  function UpperChar(c: char): (r: char)
    ensures !('a' <= r <= 'z')
    ensures LowerChar(r) == LowerChar(c)
  {
    if 'a' <= c <= 'z' then (c as int - 32) as char else c
  }

  /** `s.toLowerCase()` on ASCII letters: same length, each character
      lower-cased, no upper-case letter left. */
  function Lower(s: string): (r: string)
    ensures |r| == |s|
    ensures forall i :: 0 <= i < |s| ==> r[i] == LowerChar(s[i])
    ensures forall i :: 0 <= i < |r| ==> !IsUpper(r[i])
  {
    if s == [] then [] else [LowerChar(s[0])] + Lower(s[1..])
  }

  /** `s.toUpperCase()` on ASCII letters, used to state case-insensitivity. */
  function Upper(s: string): (r: string)
    ensures |r| == |s|
    ensures forall i :: 0 <= i < |r| ==> !('a' <= r[i] <= 'z')
    ensures forall i :: 0 <= i < |s| ==> LowerChar(r[i]) == LowerChar(s[i])
  {
    if s == [] then [] else [UpperChar(s[0])] + Upper(s[1..])
  }

  /** `k` occurs in `s` starting at offset `i`. */
  predicate OccursAt(s: string, k: string, i: int) {
    0 <= i && i + |k| <= |s| && s[i..i + |k|] == k
  }

  /** The meaning of `s.includes(k)`: some offset of `s` starts a copy of `k`. */
  ghost predicate Contains(s: string, k: string) {
    exists i :: OccursAt(s, k, i)
  }

  /** `s.includes(k)`, computed by trying each offset in turn. */
  function Includes(s: string, k: string): (r: bool)
    ensures r <==> Contains(s, k)
    decreases |s|
  {
    if |s| < |k| then
      false
    else if s[..|k|] == k then
      assert OccursAt(s, k, 0);
      true
    else
      ShiftOccurrence(s, k);
      Includes(s[1..], k)
  }

  /** When `k` does not start `s`, its occurrences in `s` are those in
      `s[1..]`, shifted by one. */
  lemma ShiftOccurrence(s: string, k: string)
    requires |k| <= |s| && s[..|k|] != k
    ensures Contains(s, k) <==> Contains(s[1..], k)
  {
    if Contains(s, k) {
      var i :| OccursAt(s, k, i);
      assert i != 0;
      assert s[1..][i - 1..i - 1 + |k|] == s[i..i + |k|];
      assert OccursAt(s[1..], k, i - 1);
    }
    if Contains(s[1..], k) {
      var i :| OccursAt(s[1..], k, i);
      assert s[i + 1..i + 1 + |k|] == s[1..][i..i + |k|];
      assert OccursAt(s, k, i + 1);
    }
  }

  /** A word with a character that `s` lacks does not occur in `s`. */
  lemma MissingChar(s: string, k: string, c: char)
    requires c in k && c !in s
    ensures !Contains(s, k)
  {
  }

  /** An occurrence survives putting text on either side. */
  lemma ContainsExtend(a: string, s: string, b: string, k: string)
    requires Contains(s, k)
    ensures Contains(a + s + b, k)
  {
    var i :| OccursAt(s, k, i);
    var t := a + s + b;
    assert t[|a| + i..|a| + i + |k|] == s[i..i + |k|];
    assert OccursAt(t, k, |a| + i);
  }

  /** Lower-casing distributes over concatenation. */
  lemma {:induction false} LowerAppend(a: string, b: string)
    ensures Lower(a + b) == Lower(a) + Lower(b)
  {
    if a == [] {
      assert a + b == b;
    } else {
      assert (a + b)[1..] == a[1..] + b;
      LowerAppend(a[1..], b);
    }
  }

  /** A string without upper-case letters is its own lower-case form. */
  lemma LowerUnchanged(s: string)
    requires forall i :: 0 <= i < |s| ==> !IsUpper(s[i])
    ensures Lower(s) == s
  {
  }

  /** A lower-case letter absent from `s` in both cases is absent from
      its lower-case form. */
  lemma LowerLacks(s: string, c: char)
    requires c !in s && UpperChar(c) !in s
    ensures c !in Lower(s)
  {
  }

  /** An upper-cased string lower-cases to the same thing as the original. */
  lemma LowerUpper(s: string)
    ensures Lower(Upper(s)) == Lower(s)
  {
  }

  /** Trimming and lower-casing commute, because lower-casing maps
      whitespace to whitespace and non-whitespace to non-whitespace. */
  lemma {:induction false} LowerTrimStart(s: string)
    ensures Lower(TrimStart(s)) == TrimStart(Lower(s))
  {
    if s != [] {
      LowerCharSpace(s[0]);
      assert Lower(s)[1..] == Lower(s[1..]);
      if IsSpace(s[0]) {
        LowerTrimStart(s[1..]);
      }
    }
  }

  lemma {:induction false} LowerTrimEnd(s: string)
    ensures Lower(TrimEnd(s)) == TrimEnd(Lower(s))
  {
    if s != [] {
      var n := |s| - 1;
      LowerAppend(s[..n], [s[n]]);
      assert s[..n] + [s[n]] == s;
      assert Lower(s)[..n] == Lower(s[..n]);
      LowerCharSpace(s[n]);
      if IsSpace(s[n]) {
        LowerTrimEnd(s[..n]);
      }
    }
  }

  lemma LowerTrim(s: string)
    ensures Lower(Trim(s)) == Trim(Lower(s))
  {
    LowerTrimStart(s);
    LowerTrimEnd(TrimStart(s));
  }

  /** Leading whitespace in front of `b` disappears under `TrimStart`. */
  lemma {:induction false} TrimStartAppend(a: string, b: string)
    ensures TrimStart(a + b) == if TrimStart(a) == [] then TrimStart(b) else TrimStart(a) + b
  {
    if a == [] {
      assert a + b == b;
    } else {
      assert (a + b)[0] == a[0];
      if IsSpace(a[0]) {
        assert (a + b)[1..] == a[1..] + b;
        assert TrimStart(a + b) == TrimStart(a[1..] + b);
        assert TrimStart(a) == TrimStart(a[1..]);
        TrimStartAppend(a[1..], b);
      } else {
        assert TrimStart(a + b) == a + b;
        assert TrimStart(a) == a;
      }
    }
  }

  /** Trailing whitespace after `a` disappears under `TrimEnd`. */
  lemma {:induction false} TrimEndAppend(a: string, b: string)
    ensures TrimEnd(a + b) == if TrimEnd(b) == [] then TrimEnd(a) else a + TrimEnd(b)
    decreases |b|
  {
    if b == [] {
      assert a + b == a;
    } else {
      var n := |b| - 1;
      assert (a + b)[|a| + n] == b[n];
      if IsSpace(b[n]) {
        assert (a + b)[..|a| + n] == a + b[..n];
        assert TrimEnd(a + b) == TrimEnd(a + b[..n]);
        assert TrimEnd(b) == TrimEnd(b[..n]);
        TrimEndAppend(a, b[..n]);
      } else {
        assert TrimEnd(a + b) == a + b;
        assert TrimEnd(b) == b;
      }
    }
  }

  lemma TrimAllSpace(ws: string)
    requires AllSpace(ws)
    ensures TrimStart(ws) == [] && TrimEnd(ws) == []
  {
  }

  /** `trim` ignores whitespace added at either end. */
  lemma TrimPadded(ws1: string, s: string, ws2: string)
    requires AllSpace(ws1) && AllSpace(ws2)
    ensures Trim(ws1 + s + ws2) == Trim(s)
  {
    var t := s + ws2;
    var u := ws1 + s + ws2;
    assert u == ws1 + t;
    TrimStartPadded(ws1, t);
    assert TrimStart(u) == TrimStart(t);
    TrimEndOfPadded(s, ws2);
    assert TrimEnd(TrimStart(u)) == TrimEnd(TrimStart(s));
  }

  lemma TrimStartPadded(ws: string, s: string)
    requires AllSpace(ws)
    ensures TrimStart(ws + s) == TrimStart(s)
  {
    TrimAllSpace(ws);
    TrimStartAppend(ws, s);
  }

  lemma TrimEndOfPadded(s: string, ws: string)
    requires AllSpace(ws)
    ensures TrimEnd(TrimStart(s + ws)) == TrimEnd(TrimStart(s))
  {
    TrimAllSpace(ws);
    TrimStartAppend(s, ws);
    if TrimStart(s) != [] {
      TrimEndAppend(TrimStart(s), ws);
    }
  }

  /** A word with no whitespace at its ends is found in `trim(s)` exactly
      when it is found in `s`: trimming only cuts whitespace. */
  lemma TrimKeepsWords(s: string, k: string)
    requires k != [] && !IsSpace(k[0]) && !IsSpace(k[|k| - 1])
    ensures Contains(Trim(s), k) <==> Contains(s, k)
  {
    var i, j := TrimBounds(s);
    if Contains(Trim(s), k) {
      ContainsInSlice(s, i, j, k);
    }
    if Contains(s, k) {
      var p :| OccursAt(s, k, p);
      OccurrenceInsideTrim(s, k, i, j, p);
    }
  }

  /** An occurrence in a slice is an occurrence in the whole. */
  lemma ContainsInSlice(s: string, i: nat, j: nat, k: string)
    requires i <= j <= |s| && Contains(s[i..j], k)
    ensures Contains(s, k)
  {
    var t := s[i..j];
    var p :| OccursAt(t, k, p);
    forall y | p <= y < p + |k| ensures t[y] == s[i + y] {}
    assert t[p..p + |k|] == s[i + p..i + p + |k|];
    assert OccursAt(s, k, i + p);
  }

  /** `s.trim()` is the slice of `s` left after cutting whitespace before
      `i` and from `j`. */
  lemma TrimBounds(s: string) returns (i: nat, j: nat)
    ensures i <= j <= |s| && Trim(s) == s[i..j]
    ensures AllSpace(s[..i]) && AllSpace(s[j..])
  {
    var t := TrimStart(s);
    i := |s| - |t|;
    assert t == s[i..];
    var r := TrimEnd(t);
    j := i + |r|;
    assert r == t[..|r|] == s[i..j];
    assert t[|r|..] == s[j..];
  }

  /** An occurrence of such a word lies between the whitespace cut off at
      the front (before `i`) and at the back (from `j`). */
  lemma OccurrenceInsideTrim(s: string, k: string, i: int, j: int, p: int)
    requires k != [] && !IsSpace(k[0]) && !IsSpace(k[|k| - 1])
    requires 0 <= i <= j <= |s| && AllSpace(s[..i]) && AllSpace(s[j..])
    requires OccursAt(s, k, p)
    ensures OccursAt(s[i..j], k, p - i)
  {
    assert s[p] == k[0];
    assert s[p + |k| - 1] == k[|k| - 1];
    assert i <= p && p + |k| <= j;
    var t := s[i..j];
    forall y | p - i <= y < p - i + |k| ensures t[y] == s[y + i] {}
    assert t[p - i..p - i + |k|] == s[p..p + |k|];
  }

  /** Lower-casing keeps an occurrence of a word that is already lower case. */
  lemma LowerKeepsLowerWords(s: string, k: string)
    requires Lower(k) == k
    requires Contains(s, k)
    ensures Contains(Lower(s), k)
  {
    var i :| OccursAt(s, k, i);
    assert Lower(s)[i..i + |k|] == Lower(s[i..i + |k|]);
    assert OccursAt(Lower(s), k, i);
  }
}
