/**
  The response headers the server writes: one fixed text per error status, each
  declaring an empty body, and the success header that carries the file size
  (printed with `%lld`) and the content type. The success header is formatted
  into a 1024-byte buffer and is refused when it would not fit.
*/
module Http {

  datatype Status = BadRequest | Forbidden | NotFound | MethodNotAllowed | InternalServerError

  /** The numeric code each status is sent with. */
  function Code(s: Status): (c: nat)
    ensures 400 <= c < 600
  {
    match s
    case BadRequest => 400
    case Forbidden => 403
    case NotFound => 404
    case MethodNotAllowed => 405
    case InternalServerError => 500
  }

  /** What every response's status line starts with. */
  const StatusPrefix: string := "HTTP/1.1 "

  /** How every error response ends: no body is announced. */
  const EmptyBody: string := "\r\nContent-Length: 0\r\n\r\n"

  /** The reason phrase after each error code. */
  function Reason(s: Status): string {
    match s
    case BadRequest => "Bad Request"
    case Forbidden => "Forbidden"
    case NotFound => "Not Found"
    case MethodNotAllowed => "Method Not Allowed"
    case InternalServerError => "Internal Server Error"
  }

  /** A code between 100 and 999 prints in exactly three digits. */
  lemma ThreeDigits(n: nat)
    requires 100 <= n < 1000
    ensures |Decimal(n)| == 3
  {
    var a := n / 10;
    assert Decimal(n) == Decimal(a) + [DigitChar(n % 10)];
    assert Decimal(a) == Decimal(a / 10) + [DigitChar(a % 10)];
    assert |Decimal(a / 10)| == 1;
  }

  /** Where each of six consecutive pieces sits in their concatenation. */
  lemma Pieces(a: string, b: string, c: string, d: string, e: string, f: string)
    ensures var h := a + b + c + d + e + f;
      && |h| == |a| + |b| + |c| + |d| + |e| + |f|
      && h[..|a|] == a
      && h[|a| + |b|..|a| + |b| + |c|] == c
      && h[|h| - |f| - |e|..|h| - |f|] == e
      && h[|h| - |f|..] == f
  {
    var h := a + b + c + d + e + f;
    assert h == a + (b + c + d + e + f);
    assert h == (a + b) + (c + (d + e + f));
    assert h == (a + b + c + d) + (e + f);
    assert h == (a + b + c + d + e) + f;
  }

  /**
    The complete text written for an error: status line, `Content-Length: 0`,
    blank line, as in "HTTP/1.1 404 Not Found\r\nContent-Length: 0\r\n\r\n".
  */
  function ErrorText(s: Status): (r: string)
    ensures |r| >= |StatusPrefix| + 3 + |EmptyBody|
    ensures r[..|StatusPrefix|] == StatusPrefix
    ensures r[|StatusPrefix|..|StatusPrefix| + 3] == Decimal(Code(s))
    ensures ParseDecimal(r[|StatusPrefix|..|StatusPrefix| + 3]) == Code(s)
    ensures r[|r| - |EmptyBody|..] == EmptyBody
  {
    var code := Decimal(Code(s));
    ThreeDigits(Code(s));
    DecimalRoundTrip(Code(s));
    Pieces(StatusPrefix, "", code, " ", Reason(s), EmptyBody);
    assert StatusPrefix + "" == StatusPrefix;
    StatusPrefix + code + " " + Reason(s) + EmptyBody
  }

  /** Size of the stack buffer the success header is formatted into. */
  const HeaderBufferSize: nat := 1024

  /** One more than the largest `off_t` (a signed 64-bit file size). */
  const OffTLimit: nat := 0x8000_0000_0000_0000

  function Pow10(k: nat): (p: nat)
    ensures p >= 1
  {
    if k == 0 then 1 else 10 * Pow10(k - 1)
  }

  predicate IsDigit(c: char) {
    '0' <= c <= '9'
  }

  function DigitChar(d: nat): (c: char)
    requires d < 10
    ensures IsDigit(c)
  {
    ('0' as int + d) as char
  }

  /** `%lld` of a non-negative value: its decimal digits, most significant first. */
  function Decimal(n: nat): (r: string)
    ensures |r| > 0
    ensures forall i :: 0 <= i < |r| ==> IsDigit(r[i])
    decreases n
  {
    if n < 10 then [DigitChar(n)] else Decimal(n / 10) + [DigitChar(n % 10)]
  }

  /** How a client reads a run of decimal digits back into a number. */
  function ParseDecimal(s: string): nat
    requires forall i :: 0 <= i < |s| ==> IsDigit(s[i])
  {
    if |s| == 0 then 0
    else
      var last := s[|s| - 1];
      assert IsDigit(last);
      10 * ParseDecimal(s[..|s| - 1]) + (last as int - '0' as int)
  }

  /** The printed size reads back as the size. */
  lemma {:induction false} DecimalRoundTrip(n: nat)
    ensures ParseDecimal(Decimal(n)) == n
    decreases n
  {
    if n >= 10 {
      var d := Decimal(n);
      assert d[..|d| - 1] == Decimal(n / 10);
      DecimalRoundTrip(n / 10);
    }
  }

  /** A value below 10^k prints in at most k digits. */
  lemma {:induction false} DecimalLength(n: nat, k: nat)
    requires 1 <= k && n < Pow10(k)
    ensures |Decimal(n)| <= k
    decreases k
  {
    if n >= 10 {
      assert n / 10 < Pow10(k - 1);
      DecimalLength(n / 10, k - 1);
    }
  }

  /** The status line of a success. */
  const OkStatus: string := "HTTP/1.1 200 OK\r\n"

  const LengthField: string := "Content-Length: "
  const TypeField: string := "\r\nContent-Type: "
  const HeaderEnd: string := "\r\n\r\n"

  /**
    The header of a 200 response. A client reads the size back from the digits
    after `Content-Length: ` and the type from the text before the blank line.
  */
  function OkHeader(size: nat, contentType: string): (h: string)
    ensures |h| == |OkStatus| + |LengthField| + |Decimal(size)| + |TypeField| + |contentType| + |HeaderEnd|
    ensures h[..|OkStatus|] == OkStatus
    ensures var d := |OkStatus| + |LengthField|;
      h[d..d + |Decimal(size)|] == Decimal(size) && ParseDecimal(h[d..d + |Decimal(size)|]) == size
    ensures h[|h| - |HeaderEnd| - |contentType|..|h| - |HeaderEnd|] == contentType
    ensures h[|h| - |HeaderEnd|..] == HeaderEnd
  {
    DecimalRoundTrip(size);
    Pieces(OkStatus, LengthField, Decimal(size), TypeField, contentType, HeaderEnd);
    OkStatus + LengthField + Decimal(size) + TypeField + contentType + HeaderEnd
  }

  /**
    Every size an `off_t` can hold, with a type no longer than 24 characters,
    gives a header that fits the buffer: the 500 answer for an overlong header
    is never chosen.
  */
  lemma OkHeaderFits(size: nat, contentType: string)
    requires size < OffTLimit && |contentType| <= 24
    ensures |OkHeader(size, contentType)| < HeaderBufferSize
  {
    assert Pow10(4) == 10_000;
    assert Pow10(8) == 100_000_000;
    assert Pow10(12) == 1_000_000_000_000;
    assert Pow10(16) == 10_000_000_000_000_000;
    assert OffTLimit < Pow10(19);
    DecimalLength(size, 19);
  }
}
