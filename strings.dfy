/**
 * The pieces of Go's `strings`, `bytes` and `unicode` packages that the
 * backend relies on: white-space classification and trimming, suffix tests,
 * substring search and UTF-8 byte lengths.
 */
module Strings {
  import opened Wrappers

  /** One octet of a WebSocket frame. */
  type byte = x: int | 0 <= x < 256

  /**
   * unicode.IsSpace: the ASCII spaces '\t', '\n', '\v', '\f', '\r', ' ',
   * U+0085 and U+00A0, and the White_Space code points above Latin-1.
   */
  predicate IsSpace(c: char) {
    var n := c as int;
    (9 <= n <= 13) || n == 32 || n == 0x85 || n == 0xA0 || n == 0x1680 ||
    (0x2000 <= n <= 0x200A) || n == 0x2028 || n == 0x2029 || n == 0x202F ||
    n == 0x205F || n == 0x3000
  }

  predicate AllSpace(s: string) {
    forall i | 0 <= i < |s| :: IsSpace(s[i])
  }

  /** Drops leading white space: the result is the suffix left after the longest all-space prefix. */
  function TrimLeft(s: string): (r: string)
    ensures |r| <= |s| && r == s[|s| - |r|..]
    ensures forall i | 0 <= i < |s| - |r| :: IsSpace(s[i])
    ensures r != [] ==> !IsSpace(r[0])
    decreases |s|
  {
    if s != [] && IsSpace(s[0]) then TrimLeft(s[1..]) else s
  }

  /** Drops trailing white space: the result is the prefix left before the longest all-space suffix. */
  function TrimRight(s: string): (r: string)
    ensures |r| <= |s| && r == s[..|r|]
    ensures forall i | |r| <= i < |s| :: IsSpace(s[i])
    ensures r != [] ==> !IsSpace(r[|r| - 1])
    decreases |s|
  {
    if s != [] && IsSpace(s[|s| - 1]) then TrimRight(s[..|s| - 1]) else s
  }

  /**
   * strings.TrimSpace: the input with leading and trailing white space
   * removed; it is empty exactly when the input is all white space.
   */
  function TrimSpace(s: string): (r: string)
    ensures |r| <= |s|
    ensures r == "" <==> AllSpace(s)
    ensures r != "" ==> !IsSpace(r[0]) && !IsSpace(r[|r| - 1])
    ensures exists a :: TrimmedAt(s, r, a)
  {
    TrimBothEnds(s);
    TrimIsInfix(s);
    TrimRight(TrimLeft(s))
  }

  lemma TrimBothEnds(s: string)
    ensures TrimRight(TrimLeft(s)) == "" <==> AllSpace(s)
  {
    var l := TrimLeft(s);
    var k := |s| - |l|;
    assert l != [] ==> l[0] == s[k];
    assert forall i | k <= i < |s| :: s[i] == l[i - k];
  }

  /** `r` is the slice of `s` starting at `a`, with only white space before and after it. */
  predicate TrimmedAt(s: string, r: string, a: int) {
    0 <= a <= |s| - |r| && r == s[a..a + |r|] && AllSpace(s[..a]) && AllSpace(s[a + |r|..])
  }

  /** Trimming keeps a slice of the input and drops only white space on either side of it. */
  lemma TrimIsInfix(s: string)
    ensures TrimmedAt(s, TrimRight(TrimLeft(s)), |s| - |TrimLeft(s)|)
  {
    var l := TrimLeft(s);
    var r := TrimRight(l);
    var a := |s| - |l|;
    LeadingSpace(s, a);
    TrailingSpace(l, |r|);
    SliceOfSuffix(s, a, |r|);
  }

  lemma SliceOfSuffix(s: string, a: nat, k: nat)
    requires a + k <= |s|
    ensures s[a..][..k] == s[a..a + k] && s[a..][k..] == s[a + k..]
  {
  }

  lemma LeadingSpace(s: string, a: nat)
    requires a <= |s| && forall i | 0 <= i < a :: IsSpace(s[i])
    ensures AllSpace(s[..a])
  {
    assert forall i | 0 <= i < a :: s[..a][i] == s[i];
  }

  lemma TrailingSpace(l: string, k: nat)
    requires k <= |l| && forall i | k <= i < |l| :: IsSpace(l[i])
    ensures AllSpace(l[k..])
  {
    assert forall i | 0 <= i < |l| - k :: l[k..][i] == l[k + i];
  }

  /** strings.HasSuffix / bytes.HasSuffix. */
  predicate HasSuffix<T(==)>(s: seq<T>, suffix: seq<T>) {
    |suffix| <= |s| && s[|s| - |suffix|..] == suffix
  }

  /** strings.TrimSuffix: removes one copy of `suffix` when `s` ends with it. */
  function TrimSuffix<T(==)>(s: seq<T>, suffix: seq<T>): (r: seq<T>)
    ensures HasSuffix(s, suffix) ==> r + suffix == s
    ensures !HasSuffix(s, suffix) ==> r == s
  {
    if HasSuffix(s, suffix) then s[..|s| - |suffix|] else s
  }

  /** `pat` occurs in `s` at position `i`. */
  predicate OccursAt<T(==)>(s: seq<T>, pat: seq<T>, i: int) {
    0 <= i && i + |pat| <= |s| && s[i..i + |pat|] == pat
  }

  /** The first occurrence of `pat` in `s` at or after `from`. */
  function FirstIndexFrom<T(==)>(s: seq<T>, pat: seq<T>, from: nat): (r: Option<nat>)
    ensures r.Some? ==> from <= r.value && OccursAt(s, pat, r.value)
    ensures r.Some? ==> forall j | from <= j < r.value :: !OccursAt(s, pat, j)
    ensures r.None? ==> forall j | from <= j :: !OccursAt(s, pat, j)
    decreases |s| - from
  {
    if from + |pat| > |s| then None
    else if s[from..from + |pat|] == pat then Some(from)
    else FirstIndexFrom(s, pat, from + 1)
  }

  /** bytes.Index / strings.Index: the first position of `pat` in `s`, if any. */
  function FirstIndex<T(==)>(s: seq<T>, pat: seq<T>): (r: Option<nat>)
    ensures r.Some? ==> OccursAt(s, pat, r.value) && forall j | 0 <= j < r.value :: !OccursAt(s, pat, j)
    ensures r.None? <==> forall j :: !OccursAt(s, pat, j)
  {
    FirstIndexFrom(s, pat, 0)
  }

  /** bytes.Contains / strings.Contains. */
  predicate Contains<T(==)>(s: seq<T>, pat: seq<T>) {
    FirstIndex(s, pat).Some?
  }

  /** Whatever the function picks is the first occurrence, so a known first occurrence is what it returns. */
  lemma FirstIndexIs<T>(s: seq<T>, pat: seq<T>, i: nat)
    requires OccursAt(s, pat, i)
    requires forall j | 0 <= j < i :: !OccursAt(s, pat, j)
    ensures FirstIndex(s, pat) == Some(i)
  {
    var r := FirstIndex(s, pat);
    assert r.Some?;
    assert r.value <= i;
  }

  /**
   * When the first element of `sep` does not occur in `a`, the first
   * occurrence of `sep` in `a + sep + b` is the one right after `a`.
   */
  lemma FirstIndexAfterFree<T>(a: seq<T>, sep: seq<T>, b: seq<T>)
    requires sep != [] && sep[0] !in a
    ensures FirstIndex(a + sep + b, sep) == Some(|a|)
  {
    var s := a + sep + b;
    assert s[|a|..|a| + |sep|] == sep;
    forall j | 0 <= j < |a|
      ensures !OccursAt(s, sep, j)
    {
      assert s[j] == a[j] != sep[0];
      assert s[j..j + |sep|] != sep by {
        if j + |sep| <= |s| { assert s[j..j + |sep|][0] == s[j]; }
      }
    }
    FirstIndexIs(s, sep, |a|);
  }

  /** Splits `s` around the first occurrence of `sep` (bytes.SplitN(s, sep, 2) when it has two parts). */
  function SplitFirst<T(==)>(s: seq<T>, sep: seq<T>): (r: Option<(seq<T>, seq<T>)>)
    ensures r.None? <==> !Contains(s, sep)
    ensures r.Some? ==> r.value.0 + sep + r.value.1 == s
    ensures r.Some? ==> forall j | 0 <= j < |r.value.0| :: !OccursAt(s, sep, j)
  {
    match FirstIndex(s, sep)
    case None => None
    case Some(i) =>
      assert s[..i] + sep + s[i + |sep|..] == s by {
        assert s[i..i + |sep|] == sep;
        assert s == s[..i] + s[i..i + |sep|] + s[i + |sep|..];
      }
      Some((s[..i], s[i + |sep|..]))
  }

  /** Splitting `a + sep + b` around `sep` gives back `a` and `b` when `a` cannot start a separator. */
  lemma SplitFirstFree<T>(a: seq<T>, sep: seq<T>, b: seq<T>)
    requires sep != [] && sep[0] !in a
    ensures SplitFirst(a + sep + b, sep) == Some((a, b))
  {
    FirstIndexAfterFree(a, sep, b);
    var s := a + sep + b;
    assert s[..|a|] == a;
    assert s[|a| + |sep|..] == b;
  }

  /** The number of bytes of the UTF-8 encoding of one code point. */
  function RuneLen(c: char): (n: nat)
    ensures 1 <= n <= 4
    ensures n == 1 <==> c as int < 0x80
  {
    var v := c as int;
    if v < 0x80 then 1 else if v < 0x800 then 2 else if v < 0x10000 then 3 else 4
  }

  /** Go's `len` on a string: the length of its UTF-8 encoding. */
  function Utf8Len(s: string): (n: nat)
    ensures |s| <= n <= 4 * |s|
    ensures (forall i | 0 <= i < |s| :: s[i] as int < 0x80) ==> n == |s|
  {
    if s == [] then 0 else RuneLen(s[0]) + Utf8Len(s[1..])
  }
}
