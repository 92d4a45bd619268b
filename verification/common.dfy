/** Small helpers shared by both generator variants: an optional value (the C#
    nullable reference), dotted-name joining and splitting, and the escaping
    used when a registration key is written as a C# string literal. */
module Common {

  /** A C# reference that may be null. */
  datatype Option<+T> = None | Some(value: T)

  /** `string.IsNullOrEmpty` on a nullable string. */
  predicate IsNullOrEmpty(s: Option<string>) {
    s.None? || s.value == ""
  }

  /** `parts` joined with `sep` between neighbours; the empty list joins to "". */
  function Join(parts: seq<string>, sep: string): string
  {
    if |parts| == 0 then ""
    else if |parts| == 1 then parts[0]
    else parts[0] + sep + Join(parts[1..], sep)
  }

  /** `s` cut at every occurrence of `sep` (so "a..b" gives ["a", "", "b"]). */
  function Split(s: string, sep: char): (r: seq<string>)
    ensures |r| >= 1
    decreases |s|
  {
    if |s| == 0 then [""]
    else if s[0] == sep then [""] + Split(s[1..], sep)
    else
      var rest := Split(s[1..], sep);
      [[s[0]] + rest[0]] + rest[1..]
  }

  /** A piece that does not contain the separator survives a split unchanged,
      whatever follows the next separator. */
  lemma {:induction false} SplitPiece(p: string, sep: char, tail: string)
    requires sep !in p
    ensures Split(p, sep) == [p]
    ensures Split(p + [sep] + tail, sep) == [p] + Split(tail, sep)
    decreases |p|
  {
    if |p| == 0 {
      assert p + [sep] + tail == [sep] + tail;
      assert ([sep] + tail)[1..] == tail;
    } else {
      SplitPiece(p[1..], sep, tail);
      assert (p + [sep] + tail)[1..] == p[1..] + [sep] + tail;
      assert [p[0]] + p[1..] == p;
    }
  }

  /** Splitting undoes joining when no part contains the separator. */
  lemma {:induction false} SplitJoin(parts: seq<string>, sep: char)
    requires |parts| >= 1
    requires forall k :: 0 <= k < |parts| ==> sep !in parts[k]
    ensures Split(Join(parts, [sep]), sep) == parts
    decreases |parts|
  {
    if |parts| == 1 {
      SplitPiece(parts[0], sep, "");
    } else {
      SplitJoin(parts[1..], sep);
      SplitPiece(parts[0], sep, Join(parts[1..], [sep]));
      assert [parts[0]] + parts[1..] == parts;
    }
  }

  /** The body of a C# string literal as `SymbolDisplay.FormatLiteral` writes
      it (with quotes, escaping non-printable characters): backslash, double
      quote and the characters with a short escape are written as two
      characters, the remaining control characters and the line and
      paragraph separators as `\uXXXX`, everything else as itself. */
  function Escape(s: string): string
  {
    if |s| == 0 then ""
    else EscapeChar(s[0]) + Escape(s[1..])
  }

  /** The letter of a short escape sequence, for the characters that have one. */
  function ShortEscape(c: char): Option<char> {
    if c == '\\' then Some('\\')
    else if c == '"' then Some('"')
    else if c == '\0' then Some('0')
    else if c == '\U{7}' then Some('a')
    else if c == '\U{8}' then Some('b')
    else if c == '\U{C}' then Some('f')
    else if c == '\n' then Some('n')
    else if c == '\r' then Some('r')
    else if c == '\t' then Some('t')
    else if c == '\U{B}' then Some('v')
    else None
  }

  /** The character a short escape letter stands for. */
  function ShortUnescape(e: char): Option<char> {
    if e == '\\' then Some('\\')
    else if e == '"' then Some('"')
    else if e == '0' then Some('\0')
    else if e == 'a' then Some('\U{7}')
    else if e == 'b' then Some('\U{8}')
    else if e == 'f' then Some('\U{C}')
    else if e == 'n' then Some('\n')
    else if e == 'r' then Some('\r')
    else if e == 't' then Some('\t')
    else if e == 'v' then Some('\U{B}')
    else None
  }

  /** The characters of Unicode categories Control, LineSeparator and
      ParagraphSeparator, which are written as `\uXXXX`. */
  predicate NeedsUnicodeEscape(c: char) {
    var n := c as int;
    n < 0x20 || (0x7F <= n && n <= 0x9F) || n == 0x2028 || n == 0x2029
  }

  function HexDigit(d: int): char
    requires 0 <= d < 16
  {
    if d < 10 then ('0' as int + d) as char else ('a' as int + d - 10) as char
  }

  function HexValue(c: char): Option<int> {
    if '0' <= c <= '9' then Some(c as int - '0' as int)
    else if 'a' <= c <= 'f' then Some(c as int - 'a' as int + 10)
    else if 'A' <= c <= 'F' then Some(c as int - 'A' as int + 10)
    else None
  }

  /** `n` as four lower-case hexadecimal digits (`ToString("x4")`). */
  function Hex4(n: int): (r: string)
    requires 0 <= n < 0x10000
    ensures |r| == 4
  {
    var low := n % 0x1000;
    var byte := low % 0x100;
    [HexDigit(n / 0x1000), HexDigit(low / 0x100), HexDigit(byte / 0x10), HexDigit(byte % 0x10)]
  }

  function Hex4Value(h: string): Option<int>
    requires |h| == 4
  {
    match (HexValue(h[0]), HexValue(h[1]), HexValue(h[2]), HexValue(h[3]))
    case (Some(a), Some(b), Some(c), Some(d)) => Some(a * 0x1000 + b * 0x100 + c * 0x10 + d)
    case _ => None
  }

  function EscapeChar(c: char): string
  {
    match ShortEscape(c)
    case Some(e) => ['\\', e]
    case None => if NeedsUnicodeEscape(c) then "\\u" + Hex4(c as int) else [c]
  }

  /** Reads back the body of a literal: plain characters, short escapes and
      `\uXXXX` escapes of scalar values; `None` on a dangling or unknown
      escape. */
  function Unescape(s: string): Option<string>
    decreases |s|
  {
    if |s| == 0 then Some("")
    else if s[0] != '\\' then Prepend(s[0], Unescape(s[1..]))
    else if |s| == 1 then None
    else if s[1] == 'u' then
      if |s| < 6 then None
      else match Hex4Value(s[2..6])
        case None => None
        case Some(v) =>
          if 0xD800 <= v < 0xE000 then None
          else Prepend(v as char, Unescape(s[6..]))
    else
      match ShortUnescape(s[1])
      case None => None
      case Some(d) => Prepend(d, Unescape(s[2..]))
  }

  function Prepend(c: char, rest: Option<string>): Option<string> {
    match rest
    case None => None
    case Some(r) => Some([c] + r)
  }

  lemma HexDigitValue(d: int)
    requires 0 <= d < 16
    ensures HexValue(HexDigit(d)) == Some(d)
  {
  }

  /** The four digits read back as the number they were written from. */
  lemma Hex4RoundTrip(n: int)
    requires 0 <= n < 0x10000
    ensures Hex4Value(Hex4(n)) == Some(n)
  {
    var low := n % 0x1000;
    var byte := low % 0x100;
    var h := Hex4(n);
    HexDigitValue(n / 0x1000);
    HexDigitValue(low / 0x100);
    HexDigitValue(byte / 0x10);
    HexDigitValue(byte % 0x10);
    assert n == n / 0x1000 * 0x1000 + low;
    assert low == low / 0x100 * 0x100 + byte;
    assert byte == byte / 0x10 * 0x10 + byte % 0x10;
  }

  /** Reading back one escaped character and what follows it. */
  lemma UnescapeChar(c: char, rest: string)
    ensures Unescape(EscapeChar(c) + rest) == Prepend(c, Unescape(rest))
  {
    var t := EscapeChar(c) + rest;
    match ShortEscape(c)
    case Some(e) =>
      assert t[0] == '\\' && t[1] == e && t[2..] == rest;
      assert ShortUnescape(e) == Some(c);
    case None =>
      if NeedsUnicodeEscape(c) {
        Hex4RoundTrip(c as int);
        assert t[0] == '\\' && t[1] == 'u' && t[2..6] == Hex4(c as int) && t[6..] == rest;
        assert (c as int) as char == c;
      } else {
        assert t[0] == c && t[1..] == rest;
      }
  }

  /** Round trip: reading back an escaped string gives the string. */
  lemma {:induction false} UnescapeEscape(s: string)
    ensures Unescape(Escape(s)) == Some(s)
    decreases |s|
  {
    if |s| > 0 {
      UnescapeEscape(s[1..]);
      UnescapeChar(s[0], Escape(s[1..]));
      assert [s[0]] + s[1..] == s;
    }
  }
}
