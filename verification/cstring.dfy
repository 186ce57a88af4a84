/**
  Character-level helpers shared by the request pipeline. Every C `char` of the
  server is modelled as one Dafny `char`; the C library functions the server calls
  (`isspace`, `tolower`, `strchr`, `strrchr`, `strcasecmp`) are given their meaning
  in the "C" locale.
*/
module CString {

  /** A value that may be absent, as a NULL pointer would say. */
  datatype Option<+T> = None | Some(value: T)

  /** The terminating byte of a C string. */
  const NUL: char := '\0'

  /** Largest value a single C `char` (one byte) can hold, plus one. */
  const ByteRange: int := 256

  /** A byte-sized character. */
  predicate IsByte(c: char) {
    c as int < ByteRange
  }

  /** `isspace` in the "C" locale: space, \t, \n, \v, \f and \r. */
  predicate IsSpace(c: char) {
    c == ' ' || 9 <= c as int <= 13
  }

  predicate IsHexDigit(c: char) {
    '0' <= c <= '9' || 'a' <= c <= 'f' || 'A' <= c <= 'F'
  }

  function HexValue(c: char): (v: nat)
    requires IsHexDigit(c)
    ensures v < 16
    ensures ('0' <= c <= '9') == (v < 10)
  {
    if '0' <= c <= '9' then c as int - '0' as int
    else if 'a' <= c <= 'f' then c as int - 'a' as int + 10
    else c as int - 'A' as int + 10
  }

  /** The upper-case hexadecimal digit for `v`. */
  function HexDigit(v: nat): (c: char)
    requires v < 16
    ensures IsHexDigit(c) && HexValue(c) == v
  {
    if v < 10 then ('0' as int + v) as char else ('A' as int + v - 10) as char
  }

  /** `tolower` in the "C" locale: only A-Z change. */
  function ToLower(c: char): char {
    if 'A' <= c <= 'Z' then (c as int - 'A' as int + 'a' as int) as char else c
  }

  function Lower(s: string): string {
    seq(|s|, i requires 0 <= i < |s| => ToLower(s[i]))
  }

  /** `strcasecmp(a, b) == 0` for NUL-free strings, "C" locale. */
  predicate EqualsIgnoreCase(a: string, b: string) {
    Lower(a) == Lower(b)
  }

  /**
    The C string held in the buffer `s`: everything before the first NUL, or all
    of `s` when it holds none.
  */
  function CStr(s: string): (r: string)
    ensures r <= s
    ensures NUL !in r
    ensures r == s || s[|r|] == NUL
  {
    if |s| == 0 || s[0] == NUL then [] else [s[0]] + CStr(s[1..])
  }

  /** `strchr(s, c)` as an index: the first position of `c`, or -1 when absent. */
  function IndexOf(s: string, c: char): (r: int)
    ensures -1 <= r < |s|
    ensures r == -1 <==> c !in s
    ensures r >= 0 ==> s[r] == c && c !in s[..r]
  {
    if |s| == 0 then -1
    else if s[0] == c then 0
    else
      var k := IndexOf(s[1..], c);
      if k == -1 then -1
      else
        assert s[..k + 1] == [s[0]] + s[1..][..k];
        k + 1
  }

  /** `strrchr(s, c)` as an index: the last position of `c`, or -1 when absent. */
  function LastIndexOf(s: string, c: char): (r: int)
    ensures -1 <= r < |s|
    ensures r == -1 <==> c !in s
    ensures r >= 0 ==> s[r] == c && c !in s[r + 1..]
  {
    if |s| == 0 then -1
    else if s[|s| - 1] == c then |s| - 1
    else
      var k := LastIndexOf(s[..|s| - 1], c);
      assert s == s[..|s| - 1] + [s[|s| - 1]];
      k
  }

  /** The six white-space characters of the "C" locale, and no others. */
  lemma SpaceCharacters(c: char)
    ensures IsSpace(c) <==> c in {' ', '\t', '\n', 11 as char, 12 as char, '\r'}
  {
  }

  /** `strcasecmp` compares position by position: same length, same characters up to case. */
  lemma EqualsIgnoreCaseCharwise(a: string, b: string)
    ensures EqualsIgnoreCase(a, b) <==> |a| == |b| && forall i :: 0 <= i < |a| ==> ToLower(a[i]) == ToLower(b[i])
  {
    if |a| == |b| && forall i :: 0 <= i < |a| ==> ToLower(a[i]) == ToLower(b[i]) {
      assert Lower(a) == Lower(b);
    }
    if EqualsIgnoreCase(a, b) {
      forall i | 0 <= i < |a|
        ensures ToLower(a[i]) == ToLower(b[i])
      {
        assert Lower(a)[i] == Lower(b)[i];
      }
    }
  }

  /** Lower-casing twice is lower-casing once. */
  lemma LowerIdempotent(s: string)
    ensures Lower(Lower(s)) == Lower(s)
  {
  }

  /** Lower-casing commutes with taking a suffix. */
  lemma LowerSuffix(s: string, k: nat)
    requires k <= |s|
    ensures Lower(s)[k..] == Lower(s[k..])
  {
  }

  /** A string without upper-case letters is its own lower-case form. */
  lemma LowerOfLowercase(s: string)
    requires forall i :: 0 <= i < |s| ==> !('A' <= s[i] <= 'Z')
    ensures Lower(s) == s
  {
  }

  /** Two strings with `c` at the same positions have the same last `c`. */
  lemma LastIndexOfSamePositions(s: string, t: string, c: char)
    requires |s| == |t|
    requires forall i :: 0 <= i < |s| ==> (s[i] == c <==> t[i] == c)
    ensures LastIndexOf(s, c) == LastIndexOf(t, c)
  {
    var a, b := LastIndexOf(s, c), LastIndexOf(t, c);
    if a >= 0 {
      assert t[a] == c;
    }
    if b >= 0 {
      assert s[b] == c;
    }
  }

  /** Lower-casing never creates or destroys a '.', so `strrchr` finds the same dot. */
  lemma LastDotUnchangedByLower(s: string)
    ensures LastIndexOf(Lower(s), '.') == LastIndexOf(s, '.')
  {
    LastIndexOfSamePositions(Lower(s), s, '.');
  }
}
