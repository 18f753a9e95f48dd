/**
 * The pieces of Go's `strings`, `strconv` and `fmt` packages the generator
 * relies on: joining, splitting on commas, `%q` quoting and `%d` rendering.
 * Each comes with its inverse so that the renderings built from them can be
 * shown to lose no information.
 */
module Strings {
  import opened Wrappers

  /** Go's strings.HasPrefix. */
  predicate HasPrefix(s: string, prefix: string) {
    |prefix| <= |s| && s[..|prefix|] == prefix
  }

  /** Consumes the literal `lit` at the front of `s`, giving what follows it. */
  function Expect(lit: string, s: string): (r: Option<string>)
    ensures r.Some? ==> |r.value| == |s| - |lit|
  {
    if HasPrefix(s, lit) then Some(s[|lit|..]) else None
  }

  lemma ExpectLiteral(lit: string, rest: string)
    ensures Expect(lit, lit + rest) == Some(rest)
  {
    assert (lit + rest)[..|lit|] == lit;
    assert (lit + rest)[|lit|..] == rest;
  }

  /** Concatenation regrouped to the right. */
  lemma Reassociate3<T>(a: seq<T>, b: seq<T>, c: seq<T>)
    ensures a + b + c == a + (b + c)
  {
  }

  lemma Reassociate4(a: string, b: string, c: string, d: string)
    ensures a + b + c + d == a + (b + (c + d))
  {
  }

  lemma Reassociate8(a: string, b: string, c: string, d: string, e: string, f: string, g: string, h: string)
    ensures a + b + c + d + e + f + g + h == a + (b + (c + (d + (e + (f + (g + h))))))
  {
  }

  /** Go's strings.Join: `parts` with `sep` between neighbours. */
  function Join(parts: seq<string>, sep: string): string {
    if |parts| == 0 then ""
    else if |parts| == 1 then parts[0]
    else parts[0] + sep + Join(parts[1..], sep)
  }

  /** Every part occurs, whole and contiguous, inside the joined text. */
  lemma {:induction false} JoinContains(parts: seq<string>, sep: string, k: nat)
    returns (before: string, after: string)
    requires k < |parts|
    ensures Join(parts, sep) == before + parts[k] + after
  {
    if |parts| == 1 {
      before, after := "", "";
    } else if k == 0 {
      before, after := "", sep + Join(parts[1..], sep);
    } else {
      var b, a := JoinContains(parts[1..], sep, k - 1);
      before, after := parts[0] + sep + b, a;
    }
  }

  function CommaCount(s: string): nat {
    if |s| == 0 then 0 else (if s[0] == ',' then 1 else 0) + CommaCount(s[1..])
  }

  /**
   * Go's strings.Split(s, ","): the comma-free segments between the commas,
   * always one more segment than there are commas.
   */
  function SplitCommas(s: string): (parts: seq<string>)
    ensures |parts| == CommaCount(s) + 1
    ensures forall i :: 0 <= i < |parts| ==> ',' !in parts[i]
    ensures Join(parts, ",") == s
  {
    if |s| == 0 then [""]
    else
      var rest := SplitCommas(s[1..]);
      if s[0] == ',' then
        assert s == "," + s[1..];
        [""] + rest
      else
        var first := [s[0]] + rest[0];
        assert ',' !in first;
        assert Join([first] + rest[1..], ",") == s by {
          if |rest| > 1 {
            assert Join(rest, ",") == rest[0] + "," + Join(rest[1..], ",");
            assert ([first] + rest[1..])[1..] == rest[1..];
          }
          assert s == [s[0]] + s[1..];
        }
        [first] + rest[1..]
  }

  lemma SplitWithoutComma(s: string)
    requires ',' !in s
    ensures SplitCommas(s) == [s]
  {
    var parts := SplitCommas(s);
    assert CommaCount(s) == 0 by { CommaFree(s); }
    assert |parts| == 1;
  }

  lemma {:induction false} CommaFree(s: string)
    requires ',' !in s
    ensures CommaCount(s) == 0
  {
    if |s| > 0 {
      assert ',' !in s[1..] by { assert forall i :: 0 <= i < |s[1..]| ==> s[1..][i] == s[i + 1]; }
      CommaFree(s[1..]);
    }
  }

  /** Splitting at the first comma: the comma-free text before it is the first segment. */
  lemma {:induction false} SplitAtFirstComma(a: string, b: string)
    requires ',' !in a
    ensures SplitCommas(a + "," + b) == [a] + SplitCommas(b)
  {
    var s := a + "," + b;
    if |a| == 0 {
      assert s == "," + b;
      assert s[1..] == b;
    } else {
      assert s[1..] == a[1..] + "," + b;
      assert ',' !in a[1..] by { assert forall i :: 0 <= i < |a[1..]| ==> a[1..][i] == a[i + 1]; }
      SplitAtFirstComma(a[1..], b);
      assert [s[0]] + a[1..] == a;
    }
  }

  // ---------------------------------------------------------------------
  // Go's %q verb (strconv.Quote) for the characters the model distinguishes.

  function HexDigit(d: nat): char
    requires d < 16
  {
    if d < 10 then ('0' as int + d) as char else ('a' as int + d - 10) as char
  }

  function HexValue(c: char): Option<nat> {
    if '0' <= c <= '9' then Some(c as int - '0' as int)
    else if 'a' <= c <= 'f' then Some(c as int - 'a' as int + 10)
    else None
  }

  /** The letter of the one-letter escape `\x` Go uses for `c`, if any. */
  function ShortEscape(c: char): Option<char> {
    if c == '"' then Some('"')
    else if c == '\\' then Some('\\')
    else if c as int == 7 then Some('a')
    else if c as int == 8 then Some('b')
    else if c as int == 12 then Some('f')
    else if c == '\n' then Some('n')
    else if c == '\r' then Some('r')
    else if c == '\t' then Some('t')
    else if c as int == 11 then Some('v')
    else None
  }

  /** The character a one-letter escape `\e` stands for. */
  function ShortUnescape(e: char): Option<char> {
    if e == '"' then Some('"')
    else if e == '\\' then Some('\\')
    else if e == 'a' then Some(7 as char)
    else if e == 'b' then Some(8 as char)
    else if e == 'f' then Some(12 as char)
    else if e == 'n' then Some('\n')
    else if e == 'r' then Some('\r')
    else if e == 't' then Some('\t')
    else if e == 'v' then Some(11 as char)
    else None
  }

  /** A control character without a one-letter escape, written as `\xNN`. */
  predicate NeedsHexEscape(c: char) {
    ShortEscape(c).None? && (c as int < 0x20 || c as int == 0x7f)
  }

  /** How one character is written between the quotes of a `%q` rendering. */
  function EscapeChar(c: char): (r: string)
    ensures 0 < |r| && r[0] != '"'
  {
    match ShortEscape(c)
    case Some(e) => ['\\', e]
    case None =>
      if NeedsHexEscape(c) then ['\\', 'x', HexDigit(c as int / 16), HexDigit(c as int % 16)]
      else [c]
  }

  function QuoteBody(s: string): string {
    if |s| == 0 then "" else EscapeChar(s[0]) + QuoteBody(s[1..])
  }

  /** Go's `%q` of a string: the escaped characters between double quotes. */
  function Quote(s: string): string {
    "\"" + QuoteBody(s) + "\""
  }

  /**
   * Reads one character of a quoted body: an escape sequence or a plain
   * character other than the closing quote; gives the character and the
   * number of input characters it used.
   */
  function DecodeChar(s: string): (r: Option<(char, nat)>)
    ensures r.Some? ==> 0 < r.value.1 <= |s|
  {
    if |s| == 0 || s[0] == '"' then None
    else if s[0] != '\\' then Some((s[0], 1))
    else if |s| < 2 then None
    else if s[1] == 'x' then
      if |s| < 4 then None
      else match (HexValue(s[2]), HexValue(s[3]))
        case (Some(hi), Some(lo)) => Some(((16 * hi + lo) as char, 4))
        case _ => None
    else match ShortUnescape(s[1])
      case Some(c) => Some((c, 2))
      case None => None
  }

  /**
   * Reads a quoted body up to its closing quote: the decoded text and what
   * follows the closing quote.
   */
  function UnquoteBody(s: string): (r: Option<(string, string)>)
    ensures r.Some? ==> |r.value.1| < |s|
    decreases |s|
  {
    if |s| == 0 then None
    else if s[0] == '"' then Some(("", s[1..]))
    else
      var (c, n) :- DecodeChar(s);
      var (body, rest) :- UnquoteBody(s[n..]);
      Some(([c] + body, rest))
  }

  /** Reads a `%q` rendering at the front of `s`: its text and what follows it. */
  function Unquote(s: string): (r: Option<(string, string)>)
    ensures r.Some? ==> |r.value.1| < |s|
  {
    if |s| == 0 || s[0] != '"' then None else UnquoteBody(s[1..])
  }

  /** Reads the literal `heading` followed by a `%q` rendering: the quoted text and what follows it. */
  function Labelled(heading: string, s: string): (r: Option<(string, string)>)
    ensures r.Some? ==> |r.value.1| < |s|
  {
    var a :- Expect(heading, s);
    Unquote(a)
  }

  lemma LabelledQuote(heading: string, text: string, rest: string)
    ensures Labelled(heading, heading + Quote(text) + rest) == Some((text, rest))
  {
    Reassociate3(heading, Quote(text), rest);
    ExpectLiteral(heading, Quote(text) + rest);
    UnquoteQuote(text, rest);
  }

  lemma HexRoundTrip(d: nat)
    requires d < 16
    ensures HexValue(HexDigit(d)) == Some(d)
  {
  }

  lemma DecodeEscapedChar(c: char, rest: string)
    ensures DecodeChar(EscapeChar(c) + rest) == Some((c, |EscapeChar(c)|))
  {
    var t := EscapeChar(c) + rest;
    if ShortEscape(c).None? && NeedsHexEscape(c) {
      var hi, lo := c as int / 16, c as int % 16;
      HexRoundTrip(hi);
      HexRoundTrip(lo);
      assert t[2] == HexDigit(hi) && t[3] == HexDigit(lo);
      assert (16 * hi + lo) as char == c;
    }
  }

  /** Decoding a quoted body gives back exactly the text that was escaped, and stops at its closing quote. */
  lemma {:induction false} UnquoteQuoteBody(s: string, rest: string)
    ensures UnquoteBody(QuoteBody(s) + "\"" + rest) == Some((s, rest))
  {
    var t := QuoteBody(s) + "\"" + rest;
    if |s| == 0 {
      assert t == "\"" + rest;
    } else {
      var e := EscapeChar(s[0]);
      assert t == e + (QuoteBody(s[1..]) + "\"" + rest);
      DecodeEscapedChar(s[0], QuoteBody(s[1..]) + "\"" + rest);
      assert t[|e|..] == QuoteBody(s[1..]) + "\"" + rest;
      UnquoteQuoteBody(s[1..], rest);
      assert [s[0]] + s[1..] == s;
    }
  }

  /** `%q` loses nothing: reading a quoted rendering gives back the text and the input that follows it. */
  lemma UnquoteQuote(s: string, rest: string)
    ensures Unquote(Quote(s) + rest) == Some((s, rest))
  {
    var t := Quote(s) + rest;
    assert t[1..] == QuoteBody(s) + "\"" + rest;
    UnquoteQuoteBody(s, rest);
  }

  // ---------------------------------------------------------------------
  // Go's %d verb for int and the matching reader.

  predicate IsDigit(c: char) { '0' <= c <= '9' }

  function NatDigits(n: nat): (r: string)
    ensures 0 < |r| && forall i :: 0 <= i < |r| ==> IsDigit(r[i])
  {
    var d := ('0' as int + n % 10) as char;
    if n < 10 then [d] else NatDigits(n / 10) + [d]
  }

  /** Go's `%d` of an int: an optional minus sign, then the decimal digits. */
  function Decimal(n: int): string {
    if n < 0 then "-" + NatDigits(-n) else NatDigits(n)
  }

  /** Length of the run of digits at the front of `s`. */
  function DigitRun(s: string): (k: nat)
    ensures k <= |s| && (forall i :: 0 <= i < k ==> IsDigit(s[i])) && (k < |s| ==> !IsDigit(s[k]))
  {
    if |s| == 0 || !IsDigit(s[0]) then 0 else 1 + DigitRun(s[1..])
  }

  function DigitsValue(ds: string): nat
    requires forall i :: 0 <= i < |ds| ==> IsDigit(ds[i])
  {
    if |ds| == 0 then 0
    else
      var last := ds[|ds| - 1];
      assert IsDigit(last);
      10 * DigitsValue(ds[..|ds| - 1]) + (last as int - '0' as int)
  }

  /** Reads a decimal integer at the front of `s`: its value and what follows its digits. */
  function ParseDecimal(s: string): (r: Option<(int, string)>)
    ensures r.Some? ==> |r.value.1| < |s|
  {
    var negative := 0 < |s| && s[0] == '-';
    var t := if negative then s[1..] else s;
    var k := DigitRun(t);
    if k == 0 then None
    else
      var v: int := DigitsValue(t[..k]);
      var value := if negative then -v else v;
      Some((value, t[k..]))
  }

  lemma {:induction false} NatDigitsValue(n: nat)
    ensures DigitsValue(NatDigits(n)) == n
  {
    var ds := NatDigits(n);
    if n >= 10 {
      NatDigitsValue(n / 10);
      assert ds[..|ds| - 1] == NatDigits(n / 10);
    }
  }

  lemma {:induction false} DigitRunOfDigits(ds: string, rest: string)
    requires forall i :: 0 <= i < |ds| ==> IsDigit(ds[i])
    requires |rest| == 0 || !IsDigit(rest[0])
    ensures DigitRun(ds + rest) == |ds|
  {
    if |ds| > 0 {
      assert (ds + rest)[1..] == ds[1..] + rest;
      assert IsDigit((ds + rest)[0]);
      forall i | 0 <= i < |ds[1..]|
        ensures IsDigit(ds[1..][i])
      {
        assert ds[1..][i] == ds[i + 1];
      }
      DigitRunOfDigits(ds[1..], rest);
    } else {
      assert ds + rest == rest;
    }
  }

  /** Reading the digits of `m` back, up to a non-digit, gives `m`. */
  lemma ReadNatDigits(m: nat, rest: string)
    requires |rest| == 0 || !IsDigit(rest[0])
    ensures var t := NatDigits(m) + rest;
      DigitRun(t) == |NatDigits(m)| && DigitsValue(t[..DigitRun(t)]) == m && t[DigitRun(t)..] == rest
  {
    var ds := NatDigits(m);
    var t := ds + rest;
    DigitRunOfDigits(ds, rest);
    assert t[..|ds|] == ds;
    assert t[|ds|..] == rest;
    NatDigitsValue(m);
  }

  /** `%d` loses nothing: reading a rendered int back, up to a non-digit, gives the int. */
  lemma ParseDecimalOfDecimal(n: int, rest: string)
    requires |rest| == 0 || !IsDigit(rest[0])
    ensures ParseDecimal(Decimal(n) + rest) == Some((n, rest))
  {
    var m: nat := if n < 0 then -n else n;
    var t := NatDigits(m) + rest;
    ReadNatDigits(m, rest);
    if n < 0 {
      var s := "-" + NatDigits(m) + rest;
      assert s[1..] == t;
      assert s[0] == '-';
    } else {
      assert Decimal(n) + rest == t;
      assert IsDigit(t[0]);
    }
  }
}
