/** Go's `%q` verb applied to a string (`strconv.Quote`), and a reader for
    the quoted form that shows the quoting loses nothing. */
module Quoting {
  import opened Results

  /** The lower-case hexadecimal digit for `n`. */
  function HexDigit(n: nat): (c: char)
    requires n < 16
    ensures ('0' <= c <= '9') || ('a' <= c <= 'f')
  {
    if n < 10 then ('0' as int + n) as char else ('a' as int + n - 10) as char
  }

  /** The value of a hexadecimal digit of either case. */
  function HexValue(c: char): (r: Option<nat>)
    ensures r.Some? ==> r.value < 16
  {
    if '0' <= c <= '9' then Some(c as int - '0' as int)
    else if 'a' <= c <= 'f' then Some(c as int - 'a' as int + 10)
    else if 'A' <= c <= 'F' then Some(c as int - 'A' as int + 10)
    else None
  }

  lemma HexDigitValue(n: nat)
    requires n < 16
    ensures HexValue(HexDigit(n)) == Some(n)
  {
  }

  /** The one-letter escapes `strconv.Quote` uses, from the letter to the
      character it stands for. */
  function LetterEscape(letter: char): Option<char>
  {
    match letter
    case 'a' => Some(7 as char)
    case 'b' => Some(8 as char)
    case 'f' => Some(12 as char)
    case 'n' => Some(10 as char)
    case 'r' => Some(13 as char)
    case 't' => Some(9 as char)
    case 'v' => Some(11 as char)
    case '"' => Some('"')
    case '\\' => Some('\\')
    case _ => None
  }

  /** How `strconv.Quote` writes one ASCII character between the quotes:
      the quote and the backslash get a backslash, the seven controls with a
      letter escape get that, the other controls and DEL become `\xHH`, and
      every other character stands for itself. */
  function EscapeChar(c: char): (r: string)
    ensures 1 <= |r| <= 4
    ensures r[0] != '"'
  {
    if c == '"' then ['\\', '"']
    else if c == '\\' then ['\\', '\\']
    else if c as int == 7 then ['\\', 'a']
    else if c as int == 8 then ['\\', 'b']
    else if c as int == 12 then ['\\', 'f']
    else if c as int == 10 then ['\\', 'n']
    else if c as int == 13 then ['\\', 'r']
    else if c as int == 9 then ['\\', 't']
    else if c as int == 11 then ['\\', 'v']
    else if c as int < 0x20 || c as int == 0x7F then ['\\', 'x', HexDigit(c as int / 16), HexDigit(c as int % 16)]
    else [c]
  }

  function Escape(s: string): string
  {
    if s == [] then [] else EscapeChar(s[0]) + Escape(s[1..])
  }

  /** `fmt.Sprintf("%q", s)`. */
  function Quote(s: string): string
  {
    "\"" + Escape(s) + "\""
  }

  /** A character that `%q` copies unchanged. */
  predicate IsPlain(c: char)
  {
    c != '"' && c != '\\' && 0x20 <= c as int && c as int != 0x7F
  }

  /** A string of plain characters is quoted by wrapping it in double quotes. */
  lemma {:induction false} QuotePlain(s: string)
    requires forall k :: 0 <= k < |s| ==> IsPlain(s[k])
    ensures Quote(s) == "\"" + s + "\""
  {
    EscapePlain(s);
  }

  lemma {:induction false} EscapePlain(s: string)
    requires forall k :: 0 <= k < |s| ==> IsPlain(s[k])
    ensures Escape(s) == s
  {
    if s != [] {
      EscapePlain(s[1..]);
      assert s == [s[0]] + s[1..];
    }
  }

  function Prepend(c: char, o: Option<(string, string)>): Option<(string, string)>
  {
    match o
    case None => None
    case Some((text, rest)) => Some(([c] + text, rest))
  }

  /** Reads the text of a quoted string whose opening quote has already been
      consumed, up to its closing quote: the decoded text and what follows
      the closing quote, or `None` when `s` holds no well-formed ending. */
  function ReadQuoted(s: string): (r: Option<(string, string)>)
    ensures r.Some? ==> |r.value.1| < |s|
    decreases |s|
  {
    if s == [] then None
    else if s[0] == '"' then Some(([], s[1..]))
    else if s[0] != '\\' then Prepend(s[0], ReadQuoted(s[1..]))
    else if |s| >= 2 && LetterEscape(s[1]).Some? then Prepend(LetterEscape(s[1]).value, ReadQuoted(s[2..]))
    else if |s| >= 4 && s[1] == 'x' && HexValue(s[2]).Some? && HexValue(s[3]).Some? then
      Prepend((16 * HexValue(s[2]).value + HexValue(s[3]).value) as char, ReadQuoted(s[4..]))
    else None
  }

  /** Reading an escaped character gives the character back. */
  lemma ReadEscapeChar(c: char, t: string)
    ensures ReadQuoted(EscapeChar(c) + t) == Prepend(c, ReadQuoted(t))
  {
    var e := EscapeChar(c);
    if |e| == 4 {
      ReadHexEscape(c, t);
    } else if |e| == 2 {
      ReadLetterEscape(c, t);
    } else {
      ReadPlainEscape(c, t);
    }
  }

  lemma ReadPlainEscape(c: char, t: string)
    requires |EscapeChar(c)| == 1
    ensures ReadQuoted(EscapeChar(c) + t) == Prepend(c, ReadQuoted(t))
  {
    var s := EscapeChar(c) + t;
    assert EscapeChar(c) == [c];
    assert s[0] == c && c != '"' && c != '\\';
    assert s[1..] == t;
  }

  lemma ReadLetterEscape(c: char, t: string)
    requires |EscapeChar(c)| == 2
    ensures ReadQuoted(EscapeChar(c) + t) == Prepend(c, ReadQuoted(t))
  {
    var s := EscapeChar(c) + t;
    assert s[0] == '\\' && LetterEscape(s[1]) == Some(c);
    assert s[2..] == t;
  }

  lemma ReadHexEscape(c: char, t: string)
    requires |EscapeChar(c)| == 4
    ensures ReadQuoted(EscapeChar(c) + t) == Prepend(c, ReadQuoted(t))
  {
    var s := EscapeChar(c) + t;
    var hi, lo := c as int / 16, c as int % 16;
    assert EscapeChar(c) == ['\\', 'x', HexDigit(hi), HexDigit(lo)];
    HexDigitValue(hi);
    HexDigitValue(lo);
    assert s[0] == '\\' && s[1] == 'x' && s[2] == HexDigit(hi) && s[3] == HexDigit(lo);
    assert LetterEscape(s[1]).None?;
    assert s[4..] == t;
    assert (16 * hi + lo) as char == c;
  }

  /** Reading back what `%q` wrote gives the original string and the rest. */
  lemma {:induction false} ReadQuotedEscape(x: string, rest: string)
    ensures ReadQuoted(Escape(x) + "\"" + rest) == Some((x, rest))
    decreases |x|
  {
    if x == [] {
      assert Escape(x) + "\"" + rest == "\"" + rest;
    } else {
      ReadQuotedEscape(x[1..], rest);
      assert Escape(x) + "\"" + rest == EscapeChar(x[0]) + (Escape(x[1..]) + "\"" + rest);
      ReadEscapeChar(x[0], Escape(x[1..]) + "\"" + rest);
      assert [x[0]] + x[1..] == x;
    }
  }

  /** `%q` is injective: the quoted form determines the string. */
  lemma QuoteRoundTrip(x: string)
    ensures |Quote(x)| >= 2 && Quote(x)[0] == '"'
    ensures ReadQuoted(Quote(x)[1..]) == Some((x, ""))
  {
    assert Quote(x)[1..] == Escape(x) + "\"" + "";
    ReadQuotedEscape(x, "");
  }
}
