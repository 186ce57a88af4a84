/**
  Percent-decoding of the request path (`url_decode`). A '%' that has two more
  characters after it consumes all three and emits the one byte that `strtol`
  reads from the pair in base 16; a '%' nearer the end is copied through.
*/
module UrlDecode {
  import opened CString

  /**
    `strtol(hex, NULL, 16)` on the two-character C string `a b` (neither is NUL):
    leading white space is skipped, one sign is accepted, then the longest run of
    hexadecimal digits is read; no digits at all reads as 0. A "0x" prefix needs a
    digit after it, which two characters never leave room for, so it reads as 0.
  */
  function Strtol2(a: char, b: char): (v: int)
    ensures -16 < v < ByteRange
  {
    if IsHexDigit(a) then
      if IsHexDigit(b) then 16 * HexValue(a) + HexValue(b) else HexValue(a)
    else if IsSpace(a) || a == '+' then
      if IsHexDigit(b) then HexValue(b) else 0
    else if a == '-' then
      if IsHexDigit(b) then -(HexValue(b) as int) else 0
    else 0
  }

  /** The `(char)` cast of a `long`: keep the low eight bits. */
  function ToByte(v: int): (c: char)
    ensures IsByte(c)
    ensures 0 <= v < ByteRange ==> c as int == v
  {
    (v % ByteRange) as char
  }

  /**
    `url_decode(src)` where `src` is the content of the C string passed in:
    decoding stops at the first NUL, and a '%' escapes only when the two
    characters after it exist and are not NUL.
  */
  function Decode(s: string): (r: string)
    ensures |r| <= |CStr(s)|
    decreases |s|
  {
    if |s| == 0 || s[0] == NUL then []
    else if s[0] == '%' && |s| >= 3 && s[1] != NUL && s[2] != NUL then
      [ToByte(Strtol2(s[1], s[2]))] + Decode(s[3..])
    else
      [s[0]] + Decode(s[1..])
  }

  /** An escape consumes exactly three characters of the input and emits one byte. */
  lemma DecodeEscapeStep(s: string, i: int)
    requires 0 <= i && i + 2 < |s| && s[i] == '%' && s[i + 1] != NUL && s[i + 2] != NUL
    ensures Decode(s[i..]) == [ToByte(Strtol2(s[i + 1], s[i + 2]))] + Decode(s[i + 3..])
  {
    assert s[i..][3..] == s[i + 3..];
  }

  /** Any other non-NUL character is copied and consumes one character. */
  lemma DecodeCopyStep(s: string, i: int)
    requires 0 <= i < |s| && s[i] != NUL
    requires !(s[i] == '%' && i + 2 < |s| && s[i + 1] != NUL && s[i + 2] != NUL)
    ensures Decode(s[i..]) == [s[i]] + Decode(s[i + 1..])
  {
    assert s[i..][1..] == s[i + 1..];
  }

  /** The decoder as the C loop writes it: a cursor into `src` and a growing output. */
  method DecodeLoop(src: string) returns (decoded: string)
    ensures decoded == Decode(src)
  {
    decoded := [];
    var i := 0;
    while i < |src| && src[i] != NUL
      invariant 0 <= i <= |src|
      invariant decoded + Decode(src[i..]) == Decode(src)
      decreases |src| - i
    {
      if src[i] == '%' && i + 2 < |src| && src[i + 1] != NUL && src[i + 2] != NUL {
        var byte := ToByte(Strtol2(src[i + 1], src[i + 2]));
        DecodeEscapeStep(src, i);
        assert (decoded + [byte]) + Decode(src[i + 3..]) == decoded + ([byte] + Decode(src[i + 3..]));
        decoded := decoded + [byte];
        i := i + 3;
      } else {
        DecodeCopyStep(src, i);
        assert (decoded + [src[i]]) + Decode(src[i + 1..]) == decoded + ([src[i]] + Decode(src[i + 1..]));
        decoded := decoded + [src[i]];
        i := i + 1;
      }
    }
    assert Decode(src[i..]) == [];
  }

  /** Text without '%' (and without NUL) passes through unchanged. */
  lemma {:induction false} DecodeWithoutPercent(s: string)
    requires '%' !in s && NUL !in s
    ensures Decode(s) == s
    decreases |s|
  {
    if |s| > 0 {
      assert s == [s[0]] + s[1..];
      DecodeWithoutPercent(s[1..]);
    }
  }

  /** A '%' and two hexadecimal digits become the one byte they spell. */
  lemma DecodeEscape(a: char, b: char, rest: string)
    requires IsHexDigit(a) && IsHexDigit(b)
    ensures Decode(['%', a, b] + rest) == [(16 * HexValue(a) + HexValue(b)) as char] + Decode(rest)
  {
    var s := ['%', a, b] + rest;
    assert s[3..] == rest;
  }

  /** A '%' with fewer than two characters after it is copied literally. */
  lemma DecodeTrailingPercent(a: char)
    requires a != NUL
    ensures Decode("%") == "%"
    ensures Decode(['%', a]) == ['%', a]
  {
    assert ['%', a][1..] == [a];
    assert [a][1..] == [];
  }

  /** Only the C string matters: anything after a NUL is never looked at. */
  lemma {:induction false} DecodeStopsAtNul(s: string)
    ensures Decode(s) == Decode(CStr(s))
    decreases |s|
  {
    if |s| > 0 && s[0] != NUL {
      var c := CStr(s);
      assert c == [s[0]] + CStr(s[1..]);
      DecodeStopsAtNul(s[1..]);
      if s[0] == '%' && |s| >= 3 && s[1] != NUL && s[2] != NUL {
        assert c[1] == s[1] && c[2] == s[2];
        assert CStr(s[1..]) == [s[1]] + CStr(s[2..]);
        assert CStr(s[2..]) == [s[2]] + CStr(s[3..]);
        assert c[3..] == CStr(s[3..]);
        DecodeStopsAtNul(s[3..]);
      } else {
        assert c[1..] == CStr(s[1..]);
      }
    }
  }

  /** Escape one byte as '%' and two upper-case hexadecimal digits. */
  function EscapeByte(c: char): (e: string)
    requires IsByte(c)
    ensures |e| == 3 && e[0] == '%' && IsHexDigit(e[1]) && IsHexDigit(e[2])
  {
    ['%', HexDigit(c as int / 16), HexDigit(c as int % 16)]
  }

  /** Percent-encode every byte: the inverse of the decoder. */
  function Encode(s: string): (e: string)
    requires forall i :: 0 <= i < |s| ==> IsByte(s[i])
    ensures |e| == 3 * |s|
    ensures forall i :: 0 <= i < |e| ==> e[i] == '%' || IsHexDigit(e[i])
  {
    if |s| == 0 then [] else EscapeByte(s[0]) + Encode(s[1..])
  }

  /** The two digits of an escape spell the byte they escape. */
  lemma EscapeByteValue(c: char)
    requires IsByte(c)
    ensures 16 * HexValue(EscapeByte(c)[1]) + HexValue(EscapeByte(c)[2]) == c as int
  {
    var v := c as int;
    assert HexValue(EscapeByte(c)[1]) == v / 16;
    assert HexValue(EscapeByte(c)[2]) == v % 16;
  }

  /** Decoding a fully percent-encoded byte string gives the bytes back, NUL included. */
  lemma {:induction false} DecodeEncode(s: string)
    requires forall i :: 0 <= i < |s| ==> IsByte(s[i])
    ensures Decode(Encode(s)) == s
    decreases |s|
  {
    if |s| > 0 {
      var e := EscapeByte(s[0]);
      var tail := Encode(s[1..]);
      EscapeByteValue(s[0]);
      assert e == ['%', e[1], e[2]];
      assert Encode(s) == ['%', e[1], e[2]] + tail;
      DecodeEscape(e[1], e[2], tail);
      DecodeEncode(s[1..]);
      assert [s[0]] + s[1..] == s;
    }
  }
}
