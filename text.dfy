/**
 * The `str` operations of Rust's standard library that the tool relies on,
 * over strings as sequences of Unicode scalar values. Rust indexes strings by
 * UTF-8 byte offset; `Utf8Width` and `Utf8Length` carry that arithmetic over.
 */
module Text {
  import opened Wrappers

  /** `char::is_whitespace`: the Unicode White_Space property. */
  predicate IsWhitespace(c: char) {
    ('\t' <= c <= '\r') || c == ' ' || c == '\U{0085}' || c == '\U{00A0}' || c == '\U{1680}'
    || ('\U{2000}' <= c <= '\U{200A}') || c == '\U{2028}' || c == '\U{2029}'
    || c == '\U{202F}' || c == '\U{205F}' || c == '\U{3000}'
  }

  predicate AllWhitespace(s: string) {
    forall i :: 0 <= i < |s| ==> IsWhitespace(s[i])
  }

  predicate NoWhitespace(s: string) {
    forall i :: 0 <= i < |s| ==> !IsWhitespace(s[i])
  }

  /** Every character of `s` from index `lo` up to (not including) `hi` is whitespace. */
  predicate WhitespaceIn(s: string, lo: nat, hi: nat)
    requires lo <= hi <= |s|
  {
    forall k :: lo <= k < hi ==> IsWhitespace(s[k])
  }

  /** Scanning forward from `i`: the index of the first character that is not whitespace, or `|s|`. */
  function SkipWhitespace(s: string, i: nat): (n: nat)
    requires i <= |s|
    ensures i <= n <= |s| && WhitespaceIn(s, i, n)
    ensures n == |s| || !IsWhitespace(s[n])
    decreases |s| - i
  {
    if i < |s| && IsWhitespace(s[i]) then SkipWhitespace(s, i + 1) else i
  }

  /**
   * Scanning backward from `j` but not below `lo`: the index just after the
   * last character that is not whitespace, or `lo`.
   */
  function SkipWhitespaceBack(s: string, lo: nat, j: nat): (n: nat)
    requires lo <= j <= |s|
    ensures lo <= n <= j && WhitespaceIn(s, n, j)
    ensures n == lo || !IsWhitespace(s[n - 1])
    decreases j
  {
    if lo < j && IsWhitespace(s[j - 1]) then SkipWhitespaceBack(s, lo, j - 1) else j
  }

  /** `str::trim`: the text between the leading and the trailing whitespace. */
  function Trim(s: string): (r: string)
    ensures |r| <= |s|
    ensures r == [] || (!IsWhitespace(r[0]) && !IsWhitespace(r[|r| - 1]))
  {
    var i := SkipWhitespace(s, 0);
    s[i..SkipWhitespaceBack(s, i, |s|)]
  }

  /**
   * `trim` keeps the slice between the leading and the trailing whitespace:
   * what lies before and after the result is all whitespace, and the result
   * is empty exactly when the whole text is whitespace.
   */
  lemma TrimIsSlice(s: string)
    ensures exists i :: (0 <= i <= |s| - |Trim(s)| && Trim(s) == s[i..i + |Trim(s)|]
      && AllWhitespace(s[..i]) && AllWhitespace(s[i + |Trim(s)|..]))
    ensures Trim(s) == [] <==> AllWhitespace(s)
  {
    var i := SkipWhitespace(s, 0);
    var j := SkipWhitespaceBack(s, i, |s|);
    assert Trim(s) == s[i..j];
    assert i + |Trim(s)| == j;
    WhitespaceInSlice(s, 0, i);
    WhitespaceInSlice(s, j, |s|);
    assert s[0..i] == s[..i] && s[j..|s|] == s[j..];
    if Trim(s) == [] {
      forall k | 0 <= k < |s| ensures IsWhitespace(s[k]) {
        assert k < i || j <= k;
      }
    } else {
      assert !IsWhitespace(s[i]);
    }
  }

  lemma WhitespaceInSlice(s: string, lo: nat, hi: nat)
    requires lo <= hi <= |s| && WhitespaceIn(s, lo, hi)
    ensures AllWhitespace(s[lo..hi])
  {
    forall k | 0 <= k < hi - lo ensures IsWhitespace(s[lo..hi][k]) {
      assert s[lo..hi][k] == s[lo + k];
    }
  }

  /** Trimming a text padded with whitespace gives back the text: the two ends are all `trim` removes. */
  lemma TrimPadded(w1: string, x: string, w2: string)
    requires AllWhitespace(w1) && AllWhitespace(w2)
    requires x != [] && !IsWhitespace(x[0]) && !IsWhitespace(x[|x| - 1])
    ensures Trim(w1 + x + w2) == x
  {
    var s := w1 + x + w2;
    var a, b := |w1|, |w1| + |x|;
    var i := SkipWhitespace(s, 0);
    assert s[a] == x[0] && s[b - 1] == x[|x| - 1];
    assert i == a;
    var j := SkipWhitespaceBack(s, i, |s|);
    assert j == b;
    assert s[a..b] == x;
  }

  /** A line read with its newline trims to its text. */
  lemma TrimLine(x: string, w: string)
    requires AllWhitespace(w)
    requires x != [] && !IsWhitespace(x[0]) && !IsWhitespace(x[|x| - 1])
    ensures Trim(x + w) == x
  {
    TrimPadded([], x, w);
    assert [] + x + w == x + w;
  }

  // ---------------------------------------------------------------------------
  // UTF-8 byte arithmetic

  /** Number of bytes the UTF-8 encoding of `c` takes. */
  function Utf8Width(c: char): (n: nat)
    ensures 1 <= n <= 4
    ensures n == 1 <==> (c as int) < 0x80
  {
    var v := c as int;
    if v < 0x80 then 1 else if v < 0x800 then 2 else if v < 0x1_0000 then 3 else 4
  }

  /** `str::len`: the UTF-8 byte length of `s`. */
  function Utf8Length(s: string): nat {
    if s == [] then 0 else Utf8Width(s[0]) + Utf8Length(s[1..])
  }

  predicate IsAscii(s: string) {
    forall i :: 0 <= i < |s| ==> (s[i] as int) < 0x80
  }

  lemma {:induction false} AsciiLength(s: string)
    requires IsAscii(s)
    ensures Utf8Length(s) == |s|
  {
    if s != [] {
      AsciiLength(s[1..]);
    }
  }

  lemma Utf8LengthPrefixes(s: string)
    requires s != []
    ensures forall k :: 1 <= k <= |s| ==>
      Utf8Length(s[..k]) == Utf8Width(s[0]) + Utf8Length(s[1..][..k - 1])
  {
    forall k | 1 <= k <= |s|
      ensures Utf8Length(s[..k]) == Utf8Width(s[0]) + Utf8Length(s[1..][..k - 1])
    {
      assert s[..k][1..] == s[1..][..k - 1];
    }
  }

  /**
   * `&s[n..]` for a byte offset `n`: the text after the first `n` bytes, or
   * `None` where Rust panics, because `n` is past the end or inside a character.
   */
  function DropBytes(s: string, n: nat): (r: Option<string>)
    ensures r.Some? ==>
      |r.value| <= |s| && r.value == s[|s| - |r.value|..] && Utf8Length(s[..|s| - |r.value|]) == n
  {
    if n == 0 then
      assert s[..0] == [];
      Some(s)
    else if s == [] then
      None
    else if Utf8Width(s[0]) > n then
      None
    else
      var r := DropBytes(s[1..], n - Utf8Width(s[0]));
      if r.Some? then
        Utf8LengthPrefixes(s);
        assert s[1..][..|s| - 1 - |r.value|] == s[1..][..|s[1..]| - |r.value|];
        r
      else
        r
  }

  /** The slice fails exactly when no prefix of the text is `n` bytes long: `n` is past the end or inside a character. */
  lemma DropBytesFails(s: string, n: nat)
    ensures DropBytes(s, n).None? <==> forall k :: 0 <= k <= |s| ==> Utf8Length(s[..k]) != n
  {
    if DropBytes(s, n).None? {
      NoPrefixOfLength(s, n);
    } else {
      var m := |s| - |DropBytes(s, n).value|;
      assert 0 <= m <= |s| && Utf8Length(s[..m]) == n;
    }
  }

  /** Where the slice fails, no prefix of the text is `n` bytes long. */
  lemma {:induction false} NoPrefixOfLength(s: string, n: nat)
    requires DropBytes(s, n).None?
    ensures forall k :: 0 <= k <= |s| ==> Utf8Length(s[..k]) != n
  {
    assert s[..0] == [];
    if s != [] {
      var w := Utf8Width(s[0]);
      if w <= n {
        NoPrefixOfLength(s[1..], n - w);
      }
      forall k | 1 <= k <= |s| ensures Utf8Length(s[..k]) != n {
        var p := s[..k];
        assert p[0] == s[0] && p[1..] == s[1..][..k - 1];
        assert Utf8Length(p) == w + Utf8Length(s[1..][..k - 1]);
      }
    }
  }

  /** A text that starts with `n` bytes of ASCII loses exactly those bytes. */
  lemma {:induction false} DropAsciiPrefix(p: string, x: string)
    requires IsAscii(p)
    ensures DropBytes(p + x, |p|) == Some(x)
  {
    var s := p + x;
    AsciiLength(p);
    assert s[..|s| - |x|] == p;
    assert s[..|p|] == p;
    DropBytesFails(s, |p|);
    var r := DropBytes(s, |p|);
    // Both `x` and `r.value` are suffixes of `s` after exactly |p| bytes.
    var m := |s| - |r.value|;
    assert Utf8Length(s[..m]) == |p|;
    PrefixLengthsGrow(s, m, |p|);
  }

  /** An ASCII text shorter than `n` cannot lose `n` bytes. */
  lemma DropBytesShortAscii(s: string, n: nat)
    requires IsAscii(s) && |s| < n
    ensures DropBytes(s, n).None?
  {
    var cut := DropBytes(s, n);
    if cut.Some? {
      var m := |s| - |cut.value|;
      assert IsAscii(s[..m]);
      AsciiLength(s[..m]);
    }
  }

  /** Two different prefixes of a text differ in byte length: byte offsets name character boundaries uniquely. */
  lemma {:induction false} PrefixLengthsGrow(s: string, i: nat, j: nat)
    requires i <= |s| && j <= |s| && Utf8Length(s[..i]) == Utf8Length(s[..j])
    ensures i == j
  {
    assert s[..0] == [];
    if s != [] {
      Utf8LengthPrefixes(s);
    }
    if i != 0 && j != 0 {
      PrefixLengthsGrow(s[1..], i - 1, j - 1);
    }
  }

  // ---------------------------------------------------------------------------
  // Searching

  /**
   * `str::find` for a character, or the first of `char_indices` filtered to it:
   * the position of its first occurrence, counted in characters. Rust gives the
   * byte offset instead; callers that do byte arithmetic convert with
   * `Utf8Width`, and a slice at the character position cuts where Rust's does.
   */
  function IndexOf(s: string, c: char): (r: Option<nat>)
    ensures r.None? <==> c !in s
    ensures r.Some? ==> r.value < |s| && s[r.value] == c && c !in s[..r.value]
  {
    if s == [] then None
    else if s[0] == c then Some(0)
    else match IndexOf(s[1..], c)
      case None => None
      case Some(i) =>
        assert s[..i + 1] == [s[0]] + s[1..][..i];
        Some(i + 1)
  }

  /** The last of `char_indices` filtered to `c`: its last position, counted in characters. */
  function LastIndexOf(s: string, c: char): (r: Option<nat>)
    ensures r.None? <==> c !in s
    ensures r.Some? ==> r.value < |s| && s[r.value] == c && c !in s[r.value + 1..]
  {
    if s == [] then None
    else if s[|s| - 1] == c then Some(|s| - 1)
    else
      var r := LastIndexOf(s[..|s| - 1], c);
      assert s == s[..|s| - 1] + [s[|s| - 1]];
      if r.Some? then
        assert s[r.value + 1..] == s[..|s| - 1][r.value + 1..] + [s[|s| - 1]];
        r
      else
        r
  }

  lemma IndexOfIsFirst(s: string, c: char, i: nat)
    requires i < |s| && s[i] == c && c !in s[..i]
    ensures IndexOf(s, c) == Some(i)
  {
  }

  lemma LastIndexOfIsLast(s: string, c: char, i: nat)
    requires i < |s| && s[i] == c && c !in s[i + 1..]
    ensures LastIndexOf(s, c) == Some(i)
  {
  }

  /** `str::ends_with`. */
  predicate EndsWith(s: string, suffix: string) {
    |suffix| <= |s| && s[|s| - |suffix|..] == suffix
  }

  // ---------------------------------------------------------------------------
  // Ordering

  datatype Ordering = Less | Equal | Greater

  /**
   * `Ord::cmp` on `str`: byte-wise lexicographic comparison. UTF-8 preserves
   * the order of code points, so comparing characters gives the same answer.
   */
  function Cmp(a: string, b: string): (r: Ordering)
    ensures r == Equal <==> a == b
  {
    if a == [] then (if b == [] then Equal else Less)
    else if b == [] then Greater
    else if a[0] < b[0] then Less
    else if b[0] < a[0] then Greater
    else
      var r := Cmp(a[1..], b[1..]);
      assert a == [a[0]] + a[1..] && b == [b[0]] + b[1..];
      r
  }

  /** `a < b` on Rust strings (not Dafny's proper-prefix `<`). */
  predicate LexLess(a: string, b: string) {
    Cmp(a, b) == Less
  }

  /** The textbook definition of lexicographic order, independent of `Cmp`'s recursion. */
  predicate LexLessByFirstDifference(a: string, b: string) {
    (|a| < |b| && a == b[..|a|])
    || exists k :: 0 <= k < |a| && k < |b| && a[..k] == b[..k] && a[k] < b[k]
  }

  lemma {:induction false} LexLessIsFirstDifference(a: string, b: string)
    ensures LexLess(a, b) <==> LexLessByFirstDifference(a, b)
  {
    if a != [] && b != [] {
      if a[0] < b[0] {
        assert a[..0] == b[..0];
      } else if b[0] < a[0] {
        assert forall k :: 0 < k <= |a| && k <= |b| ==> a[..k][0] == a[0] && b[..k][0] == b[0];
      } else {
        LexLessIsFirstDifference(a[1..], b[1..]);
        if LexLessByFirstDifference(a[1..], b[1..]) {
          if |a[1..]| < |b[1..]| && a[1..] == b[1..][..|a[1..]|] {
            assert a == b[..|a|];
          } else {
            var k :| 0 <= k < |a[1..]| && k < |b[1..]| && a[1..][..k] == b[1..][..k] && a[1..][k] < b[1..][k];
            assert a[..k + 1] == [a[0]] + a[1..][..k];
            assert b[..k + 1] == [b[0]] + b[1..][..k];
          }
        }
        if LexLessByFirstDifference(a, b) {
          if |a| < |b| && a == b[..|a|] {
            assert a[1..] == b[1..][..|a[1..]|];
          } else {
            var k :| 0 <= k < |a| && k < |b| && a[..k] == b[..k] && a[k] < b[k];
            assert k > 0;
            assert a[1..][..k - 1] == a[..k][1..];
            assert b[1..][..k - 1] == b[..k][1..];
            assert LexLessByFirstDifference(a[1..], b[1..]);
          }
        }
      }
    } else if a == [] && b != [] {
      assert a == b[..0];
    }
  }

  lemma {:induction false} CmpAntisymmetric(a: string, b: string)
    ensures Cmp(a, b) == Less <==> Cmp(b, a) == Greater
  {
    if a != [] && b != [] && a[0] == b[0] {
      CmpAntisymmetric(a[1..], b[1..]);
    }
  }

  lemma {:induction false} LexLessTransitive(a: string, b: string, c: string)
    requires LexLess(a, b) && LexLess(b, c)
    ensures LexLess(a, c)
  {
    if a != [] && b != [] && c != [] && a[0] == b[0] && b[0] == c[0] {
      LexLessTransitive(a[1..], b[1..], c[1..]);
    }
  }

  /** Any two different strings are ordered one way or the other. */
  lemma LexLessTotal(a: string, b: string)
    ensures a == b || LexLess(a, b) || LexLess(b, a)
  {
    CmpAntisymmetric(a, b);
  }

  lemma LexLessAsymmetric(a: string, b: string)
    requires LexLess(a, b)
    ensures !LexLess(b, a) && a != b
  {
    CmpAntisymmetric(a, b);
  }

  // ---------------------------------------------------------------------------
  // Tokens

  /** The longest prefix of `s` without whitespace. */
  function TakeToken(s: string): (r: string)
    ensures |r| <= |s| && r == s[..|r|] && NoWhitespace(r)
    ensures |r| == |s| || IsWhitespace(s[|r|])
  {
    if s == [] || IsWhitespace(s[0]) then []
    else
      var r := TakeToken(s[1..]);
      assert [s[0]] + r == s[..1 + |r|];
      [s[0]] + r
  }

  /** `str::split_whitespace().nth(0)`: the first whitespace-separated token. */
  function FirstToken(s: string): (r: Option<string>)
    ensures r.None? <==> AllWhitespace(s)
    ensures r.Some? ==> r.value != [] && NoWhitespace(r.value)
  {
    var i := SkipWhitespace(s, 0);
    if i == |s| then
      None
    else
      assert s[i..][0] == s[i];
      Some(TakeToken(s[i..]))
  }

  /** The first token is the text between the leading whitespace and the next whitespace. */
  lemma FirstTokenOf(w: string, token: string, rest: string)
    requires AllWhitespace(w) && token != [] && NoWhitespace(token)
    requires rest == [] || IsWhitespace(rest[0])
    ensures FirstToken(w + token + rest) == Some(token)
  {
    var s := w + token + rest;
    var i := SkipWhitespace(s, 0);
    assert s[|w|] == token[0];
    assert i == |w|;
    assert s[i..] == token + rest;
    TakeTokenOf(token, rest);
  }

  lemma {:induction false} TakeTokenOf(token: string, rest: string)
    requires NoWhitespace(token)
    requires rest == [] || IsWhitespace(rest[0])
    ensures TakeToken(token + rest) == token
  {
    if token == [] {
      assert token + rest == rest;
    } else {
      assert (token + rest)[1..] == token[1..] + rest;
      TakeTokenOf(token[1..], rest);
    }
  }
}
