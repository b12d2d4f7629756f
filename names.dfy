/**
 * The string handling of the join and chat handlers: turning a missing field
 * into the empty string, normalising a username (trim, then lower-case) and
 * cutting chat text to its maximum length.
 */
module Names {
  import opened Wrappers

  /** Longest chat text the server relays, in characters. */
  const CHAT_TEXT_LIMIT: nat := 800

  /** `String(x || '')` for a field that is either a string or absent. */
  function OrEmpty(field: Option<string>): (s: string)
    ensures field.None? ==> s == ""
    ensures field.Some? ==> s == field.value
  {
    match field
    case None => ""
    case Some(v) => v
  }

  /**
   * The code points above the ASCII range that `String.prototype.trim`
   * removes: the ECMAScript WhiteSpace and LineTerminator characters
   * outside ASCII (no-break space, the Unicode space separators, the line
   * and paragraph separators, and the byte order mark).
   */
  const WIDE_WHITESPACE: seq<int> := [
    0xA0, 0x1680,
    0x2000, 0x2001, 0x2002, 0x2003, 0x2004, 0x2005, 0x2006, 0x2007, 0x2008, 0x2009, 0x200A,
    0x2028, 0x2029, 0x202F, 0x205F, 0x3000, 0xFEFF
  ]

  /** `n` occurs in `codes`. */
  predicate InCodes(n: int, codes: seq<int>)
  {
    |codes| > 0 && (codes[0] == n || InCodes(n, codes[1..]))
  }

  /**
   * The characters that `String.prototype.trim` removes: tab, line feed,
   * vertical tab, form feed, carriage return and space in ASCII, and the
   * code points of WIDE_WHITESPACE beyond it.
   */
  predicate IsWhitespace(c: char)
  {
    var n := c as int;
    if n < 0x80 then n == 0x20 || 0x09 <= n <= 0x0D else InCodes(n, WIDE_WHITESPACE)
  }


  predicate IsUpperAscii(c: char)
  {
    'A' <= c <= 'Z'
  }

  /** True when `s` neither starts nor ends with whitespace. */
  predicate IsTrimmed(s: string)
  {
    s == [] || (!IsWhitespace(s[0]) && !IsWhitespace(s[|s| - 1]))
  }

  /** The number of whitespace characters `s` starts with. */
  function LeadingWhitespace(s: string): (n: nat)
    ensures n <= |s|
    ensures forall k :: 0 <= k < n ==> IsWhitespace(s[k])
    ensures n < |s| ==> !IsWhitespace(s[n])
  {
    if s == [] || !IsWhitespace(s[0]) then 0 else 1 + LeadingWhitespace(s[1..])
  }

  /** The position where the whitespace `s` ends with begins. */
  function TrailingWhitespace(s: string): (m: nat)
    ensures m <= |s|
    ensures forall k :: m <= k < |s| ==> IsWhitespace(s[k])
    ensures 0 < m ==> !IsWhitespace(s[m - 1])
  {
    if s == [] || !IsWhitespace(s[|s| - 1]) then |s| else TrailingWhitespace(s[..|s| - 1])
  }

  /** Every character of `s` outside the positions `i` to `j` is whitespace. */
  predicate Strips(s: string, i: int, j: int)
  {
    0 <= i <= j <= |s| &&
    (forall k :: 0 <= k < i ==> IsWhitespace(s[k])) &&
    (forall k :: j <= k < |s| ==> IsWhitespace(s[k]))
  }

  /**
   * `String.prototype.trim`: the input with a whitespace-only prefix and
   * suffix cut off, leaving no whitespace at either end.
   */
  function Trim(s: string): (r: string)
    ensures IsTrimmed(r)
    ensures exists i, j :: Strips(s, i, j) && r == s[i..j]
    ensures |r| <= |s|
    ensures IsTrimmed(s) ==> r == s
  {
    var i := LeadingWhitespace(s);
    if i == |s| then
      assert Strips(s, i, i) && [] == s[i..i];
      []
    else
      var j := TrailingWhitespace(s);
      assert i < j;
      assert s[i..j][0] == s[i] && s[i..j][j - i - 1] == s[j - 1];
      assert Strips(s, i, j);
      s[i..j]
  }

  /**
   * Only one trimmed piece of `s` has nothing but whitespace around it, so
   * the contract of `Trim` determines its result.
   */
  lemma TrimUnique(s: string, i1: int, j1: int, i2: int, j2: int)
    requires Strips(s, i1, j1) && IsTrimmed(s[i1..j1])
    requires Strips(s, i2, j2) && IsTrimmed(s[i2..j2])
    ensures s[i1..j1] == s[i2..j2]
  {
    if i1 < j1 {
      assert s[i1..j1][0] == s[i1] && s[i1..j1][j1 - i1 - 1] == s[j1 - 1];
    }
    if i2 < j2 {
      assert s[i2..j2][0] == s[i2] && s[i2..j2][j2 - i2 - 1] == s[j2 - 1];
    }
  }

  /** `toLowerCase` on one character, restricted to the ASCII letters. */
  function LowerAscii(c: char): char
  {
    if IsUpperAscii(c) then (c as int + 32) as char else c
  }

  /** `String.prototype.toLowerCase`, restricted to the ASCII letters. */
  function ToLower(s: string): (r: string)
    ensures |r| == |s|
    ensures forall i :: 0 <= i < |s| ==> r[i] == LowerAscii(s[i])
  {
    if s == [] then [] else [LowerAscii(s[0])] + ToLower(s[1..])
  }

  /**
   * The username normalisation of the join handler: trim, then lower-case.
   * The result has no surrounding whitespace and no upper-case ASCII letter.
   */
  function Normalize(raw: string): (name: string)
    ensures IsTrimmed(name)
    ensures forall i :: 0 <= i < |name| ==> !IsUpperAscii(name[i])
    ensures |name| <= |raw|
  {
    var t := Trim(raw);
    if t == [] then [] else
      LowerKeepsWhitespace(t[0]);
      LowerKeepsWhitespace(t[|t| - 1]);
      ToLower(t)
  }

  /** Lower-casing a character never changes whether it is whitespace. */
  lemma LowerKeepsWhitespace(c: char)
    ensures IsWhitespace(LowerAscii(c)) == IsWhitespace(c)
  {
  }

  /** A string without upper-case ASCII letters is its own lower-case form. */
  lemma {:induction false} ToLowerOfLower(s: string)
    requires forall i :: 0 <= i < |s| ==> !IsUpperAscii(s[i])
    ensures ToLower(s) == s
  {
    if s != [] {
      ToLowerOfLower(s[1..]);
    }
  }

  /** Normalising an already normalised name changes nothing. */
  lemma NormalizeIdempotent(raw: string)
    ensures Normalize(Normalize(raw)) == Normalize(raw)
  {
    var t := Trim(raw);
    var name := ToLower(t);
    if t != [] {
      LowerKeepsWhitespace(t[0]);
      LowerKeepsWhitespace(t[|t| - 1]);
    }
    assert IsTrimmed(name);
    ToLowerOfLower(name);
  }

  /** Any trimmed slice left after stripping whitespace is the trimmed string. */
  lemma TrimIs(s: string, i: int, j: int, core: string)
    requires Strips(s, i, j) && core == s[i..j] && IsTrimmed(core)
    ensures Trim(s) == core
  {
    var trimmed := Trim(s);
    var i2, j2 :| Strips(s, i2, j2) && trimmed == s[i2..j2];
    TrimUnique(s, i2, j2, i, j);
  }

  /** `t` sits at position `p` of `s`, with only whitespace around it. */
  predicate EmbeddedIn(t: string, s: string, p: int)
  {
    0 <= p && p + |t| <= |s| && s[p..p + |t|] == t &&
    (forall k :: 0 <= k < p ==> IsWhitespace(s[k])) &&
    (forall k :: p + |t| <= k < |s| ==> IsWhitespace(s[k]))
  }

  /** A string padded on both sides with whitespace embeds the original after the left padding. */
  lemma PaddedEmbeds(a: string, t: string, b: string)
    requires forall k :: 0 <= k < |a| ==> IsWhitespace(a[k])
    requires forall k :: 0 <= k < |b| ==> IsWhitespace(b[k])
    ensures EmbeddedIn(t, a + t + b, |a|)
  {
    var s := a + t + b;
    forall k | 0 <= k < |a| ensures IsWhitespace(s[k]) {
      assert s[k] == a[k];
    }
    forall k | |a| + |t| <= k < |s| ensures IsWhitespace(s[k]) {
      assert s[k] == b[k - |a| - |t|];
    }
    assert s[|a|..|a| + |t|] == t;
  }

  /** A slice of a piece of `s` is a slice of `s`, shifted by where the piece starts. */
  lemma SliceOfSlice(s: string, t: string, p: int, i: int, j: int)
    requires 0 <= p && p + |t| <= |s| && s[p..p + |t|] == t
    requires 0 <= i <= j <= |t|
    ensures s[p + i..p + j] == t[i..j]
  {
    var core := t[i..j];
    forall k | 0 <= k < j - i ensures s[p + i..p + j][k] == core[k] {
      assert core[k] == t[i + k] == s[p..p + |t|][i + k];
    }
  }

  /** Whitespace around an embedded `t` adds to the whitespace `t` is trimmed of. */
  lemma EmbeddedStrips(t: string, s: string, p: int, i: int, j: int)
    requires EmbeddedIn(t, s, p)
    requires Strips(t, i, j)
    ensures Strips(s, p + i, p + j)
  {
    var w := s[p..p + |t|];
    forall k | p <= k < p + i ensures IsWhitespace(s[k]) {
      assert s[k] == w[k - p];
    }
    forall k | p + j <= k < p + |t| ensures IsWhitespace(s[k]) {
      assert s[k] == w[k - p];
    }
  }

  /** A string with only whitespace around an embedded `t` trims to what `t` trims to. */
  lemma EmbeddedTrim(t: string, s: string, p: int, i: int, j: int)
    requires EmbeddedIn(t, s, p)
    requires Strips(t, i, j) && IsTrimmed(t[i..j])
    ensures Trim(s) == t[i..j]
  {
    EmbeddedStrips(t, s, p, i, j);
    SliceOfSlice(s, t, p, i, j);
    TrimIs(s, p + i, p + j, t[i..j]);
  }

  /** Trimming ignores whitespace added around the input. */
  lemma TrimIgnoresPadding(a: string, t: string, b: string)
    requires forall k :: 0 <= k < |a| ==> IsWhitespace(a[k])
    requires forall k :: 0 <= k < |b| ==> IsWhitespace(b[k])
    ensures Trim(a + t + b) == Trim(t)
  {
    var core := Trim(t);
    var i, j :| Strips(t, i, j) && core == t[i..j];
    PaddedEmbeds(a, t, b);
    EmbeddedTrim(t, a + t + b, |a|, i, j);
  }

  /**
   * Whitespace around a name does not matter: padding it on either side
   * with whitespace gives the same username.
   */
  lemma NormalizeIgnoresPadding(a: string, t: string, b: string)
    requires forall k :: 0 <= k < |a| ==> IsWhitespace(a[k])
    requires forall k :: 0 <= k < |b| ==> IsWhitespace(b[k])
    ensures Normalize(a + t + b) == Normalize(t)
  {
    TrimIgnoresPadding(a, t, b);
  }

  /**
   * Two strings whose characters are whitespace at the same positions are
   * trimmed at the same positions.
   */
  lemma TrimAtSamePositions(t: string, u: string) returns (i: int, j: int)
    requires |t| == |u|
    requires forall k :: 0 <= k < |t| ==> IsWhitespace(t[k]) == IsWhitespace(u[k])
    ensures 0 <= i <= j <= |t| && Trim(t) == t[i..j] && Trim(u) == u[i..j]
  {
    var core := Trim(t);
    i, j :| Strips(t, i, j) && core == t[i..j];
    assert Strips(u, i, j);
    assert IsTrimmed(u[i..j]) by {
      if i < j {
        assert t[i..j][0] == t[i] && u[i..j][0] == u[i];
        assert t[i..j][j - i - 1] == t[j - 1] && u[i..j][j - i - 1] == u[j - 1];
      }
    }
    TrimIs(u, i, j, u[i..j]);
  }

  /**
   * Letter case does not matter: names that agree once lower-cased give
   * the same username.
   */
  lemma NormalizeIgnoresCase(t: string, u: string)
    requires |t| == |u|
    requires forall k :: 0 <= k < |t| ==> LowerAscii(t[k]) == LowerAscii(u[k])
    ensures Normalize(t) == Normalize(u)
  {
    forall k | 0 <= k < |t| ensures IsWhitespace(t[k]) == IsWhitespace(u[k]) {
      LowerKeepsWhitespace(t[k]);
      LowerKeepsWhitespace(u[k]);
    }
    var i, j := TrimAtSamePositions(t, u);
    ToLowerAgrees(t[i..j], u[i..j]);
  }

  /** Strings that agree once lower-cased have the same lower-case form. */
  lemma ToLowerAgrees(x: string, y: string)
    requires |x| == |y|
    requires forall k :: 0 <= k < |x| ==> LowerAscii(x[k]) == LowerAscii(y[k])
    ensures ToLower(x) == ToLower(y)
  {
    var lx, ly := ToLower(x), ToLower(y);
    forall k | 0 <= k < |lx| ensures lx[k] == ly[k] {
    }
  }

  /** One blank on each side of a trimmed, non-empty name is removed by `Trim`. */
  lemma TrimsPadding(t: string)
    requires t != [] && IsTrimmed(t)
    ensures Trim([' '] + t + [' ']) == t
  {
    TrimIgnoresPadding([' '], t, [' ']);
  }

  lemma LowersMixedCaseName()
    ensures ToLower("ShradhaPQR") == "shradhapqr"
  {
    var lower := ToLower("ShradhaPQR");
    forall i | 0 <= i < 10 ensures lower[i] == "shradhapqr"[i] {
      assert lower[i] == LowerAscii("ShradhaPQR"[i]);
    }
  }

  /** Case and surrounding blanks do not matter: " ShradhaPQR " is the username "shradhapqr". */
  lemma MixedCaseNameNormalizes()
    ensures Normalize(" ShradhaPQR ") == "shradhapqr"
  {
    assert " ShradhaPQR " == [' '] + "ShradhaPQR" + [' '];
    TrimsPadding("ShradhaPQR");
    LowersMixedCaseName();
  }

  /**
   * `String(text || '').slice(0, limit)`: the first min(limit, |text|)
   * characters of the text.
   */
  function Truncate(text: string, limit: nat): (r: string)
    ensures |r| == if |text| <= limit then |text| else limit
    ensures r == text[..|r|]
  {
    if |text| <= limit then text else text[..limit]
  }
}
