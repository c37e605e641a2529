// Percent-encoding of a path argument, on octets (sections 2.1 and 2.3 of RFC 3986; used by
// oto_mcp/custom_ops.py through `quote(safe="")` and `unquote`).

module Percent {

  // A text as its UTF-8 octets, one per character.
  predicate Octets(s: string) {
    forall k | 0 <= k < |s| :: s[k] as int < 256
  }

  predicate Unreserved(c: char) {
    'a' <= c <= 'z' || 'A' <= c <= 'Z' || '0' <= c <= '9' || c == '-' || c == '.' || c == '_' || c == '~'
  }

  function HexDigit(n: nat): char
    requires n < 16
  {
    if n < 10 then ('0' as int + n) as char else ('A' as int + n - 10) as char
  }

  predicate IsHex(c: char) {
    '0' <= c <= '9' || 'A' <= c <= 'F' || 'a' <= c <= 'f'
  }

  function HexValue(c: char): (n: nat)
    requires IsHex(c)
    ensures n < 16
  {
    if '0' <= c <= '9' then c as int - '0' as int
    else if 'A' <= c <= 'F' then c as int - 'A' as int + 10
    else c as int - 'a' as int + 10
  }

  function QuoteOctet(c: char): string
    requires c as int < 256
  {
    if Unreserved(c) then [c] else ['%', HexDigit(c as int / 16), HexDigit(c as int % 16)]
  }

  function Quote(s: string): string
    requires Octets(s)
  {
    if s == [] then [] else QuoteOctet(s[0]) + Quote(s[1..])
  }

  // An escape is `%` and two hexadecimal digits; anything else stands for itself.
  predicate StartsEscape(s: string) {
    |s| >= 3 && s[0] == '%' && IsHex(s[1]) && IsHex(s[2])
  }

  function Unquote(s: string): string {
    if s == [] then []
    else if StartsEscape(s) then [(16 * HexValue(s[1]) + HexValue(s[2])) as char] + Unquote(s[3..])
    else [s[0]] + Unquote(s[1..])
  }

  lemma HexRoundTrip(n: nat)
    requires n < 16
    ensures IsHex(HexDigit(n)) && HexValue(HexDigit(n)) == n
  {
  }

  lemma UnquoteOneOctet(c: char, rest: string)
    requires c as int < 256
    ensures Unquote(QuoteOctet(c) + rest) == [c] + Unquote(rest)
  {
    var s := QuoteOctet(c) + rest;
    if Unreserved(c) {
      assert s[1..] == rest && !StartsEscape(s);
    } else {
      HexRoundTrip(c as int / 16);
      HexRoundTrip(c as int % 16);
      assert s[3..] == rest && StartsEscape(s);
    }
  }

  lemma QuoteParts(s: string)
    requires Octets(s)
    ensures Quote([]) == [] && (s != [] ==> Quote(s) == QuoteOctet(s[0]) + Quote(s[1..]))
  {
  }

  /** What is quoted, whatever follows, unquotes to the text itself. */
  lemma {:induction false} UnquoteAfterQuote(s: string, rest: string)
    requires Octets(s)
    ensures Unquote(Quote(s) + rest) == s + Unquote(rest)
  {
    hide Quote, Unquote, QuoteOctet;
    QuoteParts(s);
    if s == [] {
      assert Quote(s) + rest == rest && s + Unquote(rest) == Unquote(rest);
    } else {
      UnquoteAfterQuote(s[1..], rest);
      UnquoteOneOctet(s[0], Quote(s[1..]) + rest);
      assert Quote(s) + rest == QuoteOctet(s[0]) + (Quote(s[1..]) + rest);
      assert s + Unquote(rest) == [s[0]] + (s[1..] + Unquote(rest));
    }
  }

  // The characters a quoted text is made of.
  predicate Safe(c: char) {
    Unreserved(c) || c == '%'
  }

  /** A quoted text has no separator and no brace, is empty only for the empty text, and is
      `.` or `..` only for these. */
  lemma {:induction false} QuoteIsSafe(s: string)
    requires Octets(s)
    ensures forall k | 0 <= k < |Quote(s)| :: Safe(Quote(s)[k])
    ensures |Quote(s)| >= |s|
    ensures |Quote(s)| == |s| ==> Quote(s) == s
  {
    if s != [] {
      QuoteIsSafe(s[1..]);
      assert forall n: nat | n < 16 :: Unreserved(HexDigit(n));
    }
  }

  lemma UnquotePlain(c: char, rest: string)
    requires c != '%'
    ensures Unquote([c] + rest) == [c] + Unquote(rest)
  {
    assert ([c] + rest)[1..] == rest;
  }

  /** What an octet is quoted as: itself for letters, digits and `- . _ ~`, else `%` and its two
      hexadecimal digits in capitals. */
  lemma QuoteOctetIs(c: char)
    requires c as int < 256
    ensures
      var digits := "0123456789ABCDEF";
      if 'A' <= c <= 'Z' || 'a' <= c <= 'z' || '0' <= c <= '9' || c in {'-', '.', '_', '~'} then Quote([c]) == [c]
      else Quote([c]) == ['%', digits[c as int / 16], digits[c as int % 16]]
  {
    assert [c][1..] == [] && Quote([]) == [];
    assert Quote([c]) == QuoteOctet(c) + [] == QuoteOctet(c);
    HexDigitIs(c as int / 16);
    HexDigitIs(c as int % 16);
  }

  lemma HexDigitIs(n: nat)
    requires n < 16
    ensures HexDigit(n) == "0123456789ABCDEF"[n]
  {
  }
}
