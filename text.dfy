/**
 The three .NET string operations the location filter uses: `ToLower` (modelled
 as ASCII lower-casing), `Trim` (removing leading and trailing characters that
 `char.IsWhiteSpace` accepts) and the ordinal `Contains` substring test.
 */
module Text {

  predicate IsUpper(ch: char) { 'A' <= ch <= 'Z' }

  function LowerChar(ch: char): char
  {
    if IsUpper(ch) then (ch as int + 32) as char else ch
  }

  /** The characters `char.IsWhiteSpace` accepts: the Unicode White_Space property. */
  predicate IsWhiteSpace(ch: char)
  {
    var c := ch as int;
    (0x09 <= c <= 0x0D) || c == 0x20 || c == 0x85 || c == 0xA0 || c == 0x1680 ||
    (0x2000 <= c <= 0x200A) || c == 0x2028 || c == 0x2029 || c == 0x202F ||
    c == 0x205F || c == 0x3000
  }

  predicate AllWhiteSpace(s: string)
  {
    forall k :: 0 <= k < |s| ==> IsWhiteSpace(s[k])
  }

  /** `s.ToLower()`, character by character. */
  function ToLower(s: string): (r: string)
    ensures |r| == |s|
    ensures forall k :: 0 <= k < |s| ==> r[k] == LowerChar(s[k])
  {
    if s == [] then [] else [LowerChar(s[0])] + ToLower(s[1..])
  }

  /** A lower-cased string holds no upper-case letter, so lower-casing it again changes nothing. */
  lemma ToLowerIdempotent(s: string)
    ensures forall k :: 0 <= k < |s| ==> !IsUpper(ToLower(s)[k])
    ensures ToLower(ToLower(s)) == ToLower(s)
  {
  }

  lemma ToLowerAppend(a: string, b: string)
    ensures ToLower(a + b) == ToLower(a) + ToLower(b)
  {
  }

  /** Lower-casing leaves white space alone. */
  lemma ToLowerWhiteSpace(s: string)
    requires AllWhiteSpace(s)
    ensures ToLower(s) == s
  {
  }

  /** `s.TrimStart()`: drops the leading white space. */
  function TrimStart(s: string): (r: string)
    ensures |r| <= |s| && r == s[|s| - |r|..]
    ensures AllWhiteSpace(s[..|s| - |r|])
    ensures r != [] ==> !IsWhiteSpace(r[0])
  {
    if s != [] && IsWhiteSpace(s[0]) then
      var r := TrimStart(s[1..]);
      assert s[..|s| - |r|] == [s[0]] + s[1..][..|s| - 1 - |r|];
      r
    else s
  }

  /** `s.TrimEnd()`: drops the trailing white space. */
  function TrimEnd(s: string): (r: string)
    ensures |r| <= |s| && r == s[..|r|]
    ensures AllWhiteSpace(s[|r|..])
    ensures r != [] ==> !IsWhiteSpace(r[|r| - 1])
  {
    if s != [] && IsWhiteSpace(s[|s| - 1]) then
      var r := TrimEnd(s[..|s| - 1]);
      assert s[|r|..] == s[..|s| - 1][|r|..] + [s[|s| - 1]];
      r
    else s
  }

  /**
   `s.Trim()`: a slice of `s` that neither starts nor ends with white space;
   empty exactly when `s` is all white space.
   */
  function Trim(s: string): (r: string)
    ensures r == [] <==> AllWhiteSpace(s)
    ensures r != [] ==> !IsWhiteSpace(r[0]) && !IsWhiteSpace(r[|r| - 1])
    ensures exists i, j :: 0 <= i <= j <= |s| && r == s[i..j] && AllWhiteSpace(s[..i]) && AllWhiteSpace(s[j..])
  {
    var t := TrimStart(s);
    assert t == [] ==> s[..|s|] == s;
    assert t != [] ==> !AllWhiteSpace(s) by {
      if t != [] { assert s[|s| - |t|] == t[0]; }
    }
    var r := TrimEnd(t);
    var i, j := |s| - |t|, |s| - |t| + |r|;
    assert s[i..j] == t[..|r|];
    assert s[j..] == t[|r|..];
    r
  }

  lemma {:induction false} TrimStartWhiteSpacePrefix(w: string, x: string)
    requires AllWhiteSpace(w)
    ensures TrimStart(w + x) == TrimStart(x)
  {
    if w != [] {
      assert (w + x)[1..] == w[1..] + x;
      TrimStartWhiteSpacePrefix(w[1..], x);
    } else {
      assert w + x == x;
    }
  }

  lemma {:induction false} TrimStartAppend(x: string, y: string)
    requires TrimStart(x) != []
    ensures TrimStart(x + y) == TrimStart(x) + y
    decreases |x|
  {
    assert x != [] && (x + y)[0] == x[0];
    if IsWhiteSpace(x[0]) {
      assert (x + y)[1..] == x[1..] + y;
      assert TrimStart(x) == TrimStart(x[1..]);
      TrimStartAppend(x[1..], y);
    } else {
      assert TrimStart(x) == x && TrimStart(x + y) == x + y;
    }
  }

  lemma {:induction false} TrimEndWhiteSpaceSuffix(x: string, w: string)
    requires AllWhiteSpace(w)
    ensures TrimEnd(x + w) == TrimEnd(x)
  {
    if w != [] {
      assert (x + w)[..|x + w| - 1] == x + w[..|w| - 1];
      TrimEndWhiteSpaceSuffix(x, w[..|w| - 1]);
    } else {
      assert x + w == x;
    }
  }

  /** Padding with white space on either side does not change the trimmed string. */
  lemma TrimIgnoresPadding(w: string, x: string, w': string)
    requires AllWhiteSpace(w) && AllWhiteSpace(w')
    ensures Trim(w + x + w') == Trim(x)
  {
    assert w + x + w' == w + (x + w');
    TrimStartWhiteSpacePrefix(w, x + w');
    if TrimStart(x) != [] {
      TrimStartAppend(x, w');
      TrimEndWhiteSpaceSuffix(TrimStart(x), w');
    } else {
      assert AllWhiteSpace(x) by {
        assert x[..|x|] == x;
      }
      assert AllWhiteSpace(x + w');
      assert Trim(x + w') == [];
    }
  }

  /** `t` occurs in `s` starting at index `i`. */
  ghost predicate OccursAt(t: string, s: string, i: int)
  {
    0 <= i && i + |t| <= |s| && s[i..i + |t|] == t
  }

  /** `t` occurs somewhere in `s`. */
  ghost predicate IsSubstring(t: string, s: string)
  {
    exists i :: OccursAt(t, s, i)
  }

  /** `s.Contains(t)`: ordinal substring test. */
  function Contains(s: string, t: string): bool
    decreases |s|
  {
    if |t| > |s| then false
    else if s[..|t|] == t then true
    else Contains(s[1..], t)
  }

  /** `Contains` agrees with the direct definition of a substring. */
  lemma {:induction false} ContainsIffOccurs(s: string, t: string)
    ensures Contains(s, t) <==> IsSubstring(t, s)
    decreases |s|
  {
    if |t| > |s| {
    } else if s[..|t|] == t {
      assert OccursAt(t, s, 0);
    } else {
      ContainsIffOccurs(s[1..], t);
      assert !OccursAt(t, s, 0);
      if IsSubstring(t, s) {
        var i :| OccursAt(t, s, i);
        OccursAfterFirst(t, s, i - 1);
      }
      if Contains(s[1..], t) {
        var i :| OccursAt(t, s[1..], i);
        OccursAfterFirst(t, s, i);
      }
    }
  }

  /** An occurrence in `s[1..]` is an occurrence in `s` one position later. */
  lemma OccursAfterFirst(t: string, s: string, i: int)
    requires s != []
    ensures OccursAt(t, s[1..], i) <==> i >= 0 && OccursAt(t, s, i + 1)
  {
    if 0 <= i && i + |t| <= |s| - 1 {
      assert s[1..][i..i + |t|] == s[i + 1..i + 1 + |t|];
    }
  }

  /** The empty string occurs in every string. */
  lemma ContainsEmpty(s: string)
    ensures Contains(s, [])
  {
    assert s[..0] == [];
  }

  /** A string that occurs in `a` or in `b` occurs in `a + b`. */
  lemma ContainsInAppend(a: string, b: string, t: string)
    requires Contains(a, t) || Contains(b, t)
    ensures Contains(a + b, t)
  {
    ContainsIffOccurs(a, t);
    ContainsIffOccurs(b, t);
    ContainsIffOccurs(a + b, t);
    if Contains(a, t) {
      var i :| OccursAt(t, a, i);
      assert (a + b)[i..i + |t|] == a[i..i + |t|];
      assert OccursAt(t, a + b, i);
    } else {
      var i :| OccursAt(t, b, i);
      assert (a + b)[|a| + i..|a| + i + |t|] == b[i..i + |t|];
      assert OccursAt(t, a + b, |a| + i);
    }
  }
}
