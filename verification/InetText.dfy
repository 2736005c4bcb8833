/** The texts of Internet addresses: what is printed, what is parsed, and the proof that
    what is printed is read back. */
module InetText {
  import opened Common

  const NS_IN6ADDRSZ := 16
  const NS_INADDRSZ := 4

  // ------------------------------------------------------------------
  // Digits

  const DIGITS := "0123456789abcdef"

  function Digit(d: nat): (c: char)
    requires d < 16
  {
    DIGITS[d]
  }

  /** "%x" */
  function Hex(n: nat): (s: string)
    ensures s != []
    decreases n
  {
    if n < 16 then [Digit(n)] else Hex(n / 16) + [Digit(n % 16)]
  }

  /** "%u" */
  function Decimal(n: nat): (s: string)
    ensures s != []
    decreases n
  {
    if n < 10 then [Digit(n)] else Decimal(n / 10) + [Digit(n % 10)]
  }

  /** c_tolower */
  function ToLower(c: char): char {
    if 'A' <= c <= 'Z' then (c as int + 32) as char else c
  }

  /** strchr (xdigits, ch) - xdigits, or -1. */
  function HexValue(c: char): (v: int)
    ensures -1 <= v < 16
  {
    if '0' <= c <= '9' then c as int - '0' as int
    else if 'a' <= c <= 'f' then c as int - 'a' as int + 10
    else -1
  }

  lemma DigitValue(d: nat)
    requires d < 16
    ensures HexValue(Digit(d)) == d && ToLower(Digit(d)) == Digit(d)
    ensures d < 10 ==> '0' <= Digit(d) <= '9' && Digit(d) as int - '0' as int == d
    ensures Digit(d) != ':' && Digit(d) != '.' && Digit(d) != '\0'
  {
  }

  // ------------------------------------------------------------------
  // IPv4

  /** "%u.%u.%u.%u" */
  function Dotted(b: seq<Byte>): string
    requires |b| == NS_INADDRSZ
  {
    Decimal(b[0]) + "." + Decimal(b[1]) + "." + Decimal(b[2]) + "." + Decimal(b[3])
  }

  function Snd(v: seq<Byte>): Byte
    requires v != []
  {
    v[|v| - 1]
  }

  /** The loop of inet_pton4 on the rest of the text: `v` holds the octets so far, the
      last one under construction. */
  function Parse4From(s: string, v: seq<Byte>, sawDigit: bool, octets: nat): (r: Option<seq<Byte>>)
    requires |v| == octets + if sawDigit then 0 else 1
    requires 0 < |v| && octets <= 4 && (octets == 4 ==> sawDigit)
    ensures r.Some? ==> |r.value| == NS_INADDRSZ
    decreases |s|
  {
    if s == [] || s[0] == '\0' then if octets < 4 then None else Some(v)
    else if '0' <= s[0] <= '9' then
      var new_ := Snd(v) * 10 + (s[0] as int - '0' as int);
      if sawDigit && Snd(v) == 0 then None
      else if new_ > 255 then None
      else if !sawDigit && octets + 1 > 4 then None
      else Parse4From(s[1..], v[..|v| - 1] + [new_], true, if sawDigit then octets else octets + 1)
    else if s[0] == '.' && sawDigit then
      if octets == 4 then None else Parse4From(s[1..], v + [0], false, octets)
    else None
  }

  /** inet_pton4 */
  function Parse4(s: string): (r: Option<seq<Byte>>)
    ensures r.Some? ==> |r.value| == NS_INADDRSZ
  {
    Parse4From(s, [0], false, 0)
  }

  /** Reading one digit. */
  lemma ReadDigit4(d: nat, rest: string, v: seq<Byte>, last: Byte, saw: bool, octets: nat)
    requires d < 10 && last * 10 + d <= 255 && (saw ==> last != 0)
    requires |v| + 1 == octets + (if saw then 0 else 1) && octets <= 4 && (octets == 4 ==> saw)
    ensures Parse4From([Digit(d)] + rest, v + [last], saw, octets) ==
            Parse4From(rest, v + [last * 10 + d], true, if saw then octets else octets + 1)
  {
    DigitValue(d);
    assert ([Digit(d)] + rest)[1..] == rest;
    assert (v + [last])[..|v|] == v;
  }

  /** Reading one printed octet. */
  lemma {:induction false} ReadDecimal(n: Byte, rest: string, v: seq<Byte>, octets: nat)
    requires octets < 4 && |v| == octets
    ensures Parse4From(Decimal(n) + rest, v + [0], false, octets) == Parse4From(rest, v + [n], true, octets + 1)
    decreases n
  {
    hide Parse4From, Digit;
    if n < 10 {
      ReadDigit4(n, rest, v, 0, false, octets);
    } else {
      var tail := [Digit(n % 10)] + rest;
      ReadDecimal(n / 10, tail, v, octets);
      ReadDigit4(n % 10, rest, v, n / 10, true, octets + 1);
      assert Decimal(n) + rest == Decimal(n / 10) + tail;
    }
  }

  /** Reading one printed octet and the dot after it. */
  lemma ReadOctet(n: Byte, rest: string, v: seq<Byte>, octets: nat)
    requires octets < 3 && |v| == octets
    ensures Parse4From(Decimal(n) + ("." + rest), v + [0], false, octets) ==
            Parse4From(rest, (v + [n]) + [0], false, octets + 1)
  {
    ReadDecimal(n, "." + rest, v, octets);
    assert ("." + rest)[1..] == rest;
  }

  /** Every IPv4 address is read back from its text. */
  lemma RoundTrip4(b: seq<Byte>)
    requires |b| == NS_INADDRSZ
    ensures Parse4(Dotted(b)) == Some(b)
  {
    hide Parse4From, Decimal;
    var t3 := Decimal(b[3]);
    var t2 := Decimal(b[2]) + ("." + t3);
    var t1 := Decimal(b[1]) + ("." + t2);
    assert Dotted(b) == Decimal(b[0]) + ("." + t1);
    ReadOctet(b[0], t1, b[..0], 0);
    assert b[..0] + [b[0]] == b[..1] && b[..0] + [0 as Byte] == [0];
    ReadOctet(b[1], t2, b[..1], 1);
    assert b[..1] + [b[1]] == b[..2];
    ReadOctet(b[2], t3, b[..2], 2);
    assert b[..2] + [b[2]] == b[..3];
    ReadLastOctet(b[3], b[..3]);
    assert b[..3] + [b[3]] == b;
  }

  lemma ReadLastOctet(n: Byte, v: seq<Byte>)
    requires |v| == 3
    ensures Parse4From(Decimal(n), v + [0], false, 3) == Some(v + [n])
  {
    ReadDecimal(n, [], v, 3);
    assert Decimal(n) + [] == Decimal(n);
  }

  // ------------------------------------------------------------------
  // IPv6: the text

  type Address = b: seq<Byte> | |b| == NS_IN6ADDRSZ witness seq(NS_IN6ADDRSZ, _ => 0)

  function WordAt(b: Address, i: nat): (w: nat)
    requires i < 8
    ensures w < 0x10000
  {
    var hi: nat, lo: nat := b[2 * i], b[2 * i + 1];
    hi * 256 + lo
  }

  /** A run of zero words to be written as "::"; base is -1 when there is none. */
  datatype Run = Run(base: int, len: nat)

  ghost predicate ZeroRun(b: Address, base: int, len: nat) {
    0 <= base && base + len <= 8 && forall k :: base <= k < base + len ==> WordAt(b, k) == 0
  }

  /** The run that is compressed: the first among the longest, and never a single word
      (sections 4.2.2 and 4.2.3 of RFC 5952). */
  ghost predicate IsBestRun(b: Address, r: Run) {
    if r.base == -1 then forall base, len: nat :: ZeroRun(b, base, len) ==> len < 2
    else
      && 2 <= r.len && ZeroRun(b, r.base, r.len)
      && forall base, len: nat :: ZeroRun(b, base, len) ==> len < r.len || (len == r.len && r.base <= base)
  }

  predicate InRun(r: Run, i: int) {
    r.base != -1 && r.base <= i < r.base + r.len
  }

  /** The last four bytes are printed as an IPv4 address. */
  predicate EmbedsIpv4(b: Address, r: Run, i: nat) {
    i == 6 && r.base == 0 && (r.len == 6 || (r.len == 5 && WordAt(b, 5) == 0xffff))
  }

  /** What the formatting loop still writes from word i on. */
  function TextFrom(b: Address, r: Run, i: nat): (s: string)
    requires i <= 8
    decreases 8 - i, 1
  {
    if i == 8 then if r.base != -1 && r.base + r.len == 8 then ":" else ""
    else if InRun(r, i) then (if i == r.base then ":" else "") + TextFrom(b, r, i + 1)
    else (if i != 0 then ":" else "") + WordText(b, r, i)
  }

  /** The same without the colon before word i. */
  function WordText(b: Address, r: Run, i: nat): (s: string)
    requires i < 8
    decreases 8 - i, 0
  {
    if EmbedsIpv4(b, r, i) then Dotted(b[12..16]) else Hex(WordAt(b, i)) + TextFrom(b, r, i + 1)
  }

  lemma TextInRun(b: Address, r: Run, i: nat)
    requires i < 8 && InRun(r, i)
    ensures TextFrom(b, r, i) == (if i == r.base then ":" else "") + TextFrom(b, r, i + 1)
  {
  }

  lemma TextOfWord(b: Address, r: Run, i: nat)
    requires i < 8 && !InRun(r, i)
    ensures TextFrom(b, r, i) == (if i != 0 then ":" else "") + WordText(b, r, i)
  {
  }

  lemma WordInHex(b: Address, r: Run, i: nat)
    requires i < 8 && !EmbedsIpv4(b, r, i)
    ensures WordText(b, r, i) == Hex(WordAt(b, i)) + TextFrom(b, r, i + 1)
  {
  }

  lemma TextEnd(b: Address, r: Run)
    ensures TextFrom(b, r, 8) == if r.base != -1 && r.base + r.len == 8 then ":" else ""
  {
  }

  ghost predicate NoNul(s: string) {
    forall k :: 0 <= k < |s| ==> s[k] != '\0'
  }

  lemma {:induction false} DecimalNoNul(n: nat)
    ensures NoNul(Decimal(n))
  {
    DigitValue(n % 10);
    if n < 10 {
    } else {
      DecimalNoNul(n / 10);
    }
  }

  lemma DottedNoNul(b: seq<Byte>)
    requires |b| == NS_INADDRSZ
    ensures NoNul(Dotted(b))
  {
    hide Decimal;
    DecimalNoNul(b[0]); DecimalNoNul(b[1]); DecimalNoNul(b[2]); DecimalNoNul(b[3]);
  }

  // ------------------------------------------------------------------
  // IPv6: the parser

  function Zeros(n: nat): seq<Byte> {
    seq(n, _ => 0)
  }

  /** After the loop of inet_pton6. */
  function Finish6(out: seq<Byte>, colon: int, sawXdigit: bool, val: nat): (r: Option<seq<Byte>>)
    requires |out| <= NS_IN6ADDRSZ && -1 <= colon <= |out| && val < 0x10000
    ensures r.Some? ==> |r.value| == NS_IN6ADDRSZ
  {
    if sawXdigit && |out| + 2 > NS_IN6ADDRSZ then None
    else
      var all := if sawXdigit then out + [val / 256, val % 256] else out;
      if colon != -1 then
        if |all| == NS_IN6ADDRSZ then None
        else Some(all[..colon] + Zeros(NS_IN6ADDRSZ - |all|) + all[colon..])
      else if |all| != NS_IN6ADDRSZ then None
      else Some(all)
  }

  /** The loop of inet_pton6 on the rest of the text; `tok` is the text from the last colon
      on, and `colon` the number of bytes stored when "::" was met. */
  function Parse6From(s: string, tok: string, out: seq<Byte>, colon: int, sawXdigit: bool,
      val: nat): (r: Option<seq<Byte>>)
    requires |out| <= NS_IN6ADDRSZ && -1 <= colon <= |out| && val < 0x10000
    ensures r.Some? ==> |r.value| == NS_IN6ADDRSZ
    decreases |s|
  {
    if s == [] || s[0] == '\0' then Finish6(out, colon, sawXdigit, val)
    else
      var ch := ToLower(s[0]);
      var rest := s[1..];
      if HexValue(ch) >= 0 then
        var new_ := val * 16 + HexValue(ch);
        if new_ > 0xffff then None else Parse6From(rest, tok, out, colon, true, new_)
      else if ch == ':' then
        if !sawXdigit then
          if colon != -1 then None else Parse6From(rest, rest, out, |out|, false, val)
        else if rest == [] || rest[0] == '\0' then None
        else if |out| + 2 > NS_IN6ADDRSZ then None
        else Parse6From(rest, rest, out + [val / 256, val % 256], colon, false, 0)
      else if ch == '.' && |out| + NS_INADDRSZ <= NS_IN6ADDRSZ && Parse4(tok).Some? then
        Finish6(out + Parse4(tok).value, colon, false, val)
      else None
  }

  function CharAt(s: string, i: nat): char {
    if i < |s| then s[i] else '\0'
  }

  /** inet_pton6 */
  function Parse6(s: string): Option<seq<Byte>> {
    if CharAt(s, 0) == ':' then
      if CharAt(s, 1) != ':' then None else Parse6From(s[1..], s[1..], [], -1, false, 0)
    else Parse6From(s, s, [], -1, false, 0)
  }

  // ------------------------------------------------------------------
  // Reading back what was printed

  lemma ReadDigit6(d: nat, rest: string, tok: string, out: seq<Byte>, colon: int, saw: bool, val: nat)
    requires d < 16 && val * 16 + d <= 0xffff && |out| <= NS_IN6ADDRSZ && -1 <= colon <= |out|
    ensures Parse6From([Digit(d)] + rest, tok, out, colon, saw, val) ==
            Parse6From(rest, tok, out, colon, true, val * 16 + d)
  {
    DigitValue(d);
    assert ([Digit(d)] + rest)[1..] == rest;
  }

  lemma {:induction false} ReadHex(n: nat, rest: string, tok: string, out: seq<Byte>, colon: int, saw: bool)
    requires n < 0x10000 && |out| <= NS_IN6ADDRSZ && -1 <= colon <= |out|
    ensures Parse6From(Hex(n) + rest, tok, out, colon, saw, 0) == Parse6From(rest, tok, out, colon, true, n)
    decreases n
  {
    hide Parse6From, Digit;
    if n < 16 {
      ReadDigit6(n, rest, tok, out, colon, saw, 0);
    } else {
      var tail := [Digit(n % 16)] + rest;
      ReadHex(n / 16, tail, tok, out, colon, saw);
      ReadDigit6(n % 16, rest, tok, out, colon, true, n / 16);
      assert Hex(n) + rest == Hex(n / 16) + tail;
    }
  }

  /** The digits of an octet read as hexadecimal, on the way to the dot. */
  lemma {:induction false} ReadDecimalAsHex(n: nat, rest: string, tok: string, out: seq<Byte>, colon: int, saw: bool)
    returns (v: nat)
    requires n < 256 && |out| <= NS_IN6ADDRSZ && -1 <= colon <= |out|
    ensures v < 0x1000 && (n < 10 ==> v < 16) && (n < 100 ==> v < 256)
    ensures Parse6From(Decimal(n) + rest, tok, out, colon, saw, 0) == Parse6From(rest, tok, out, colon, true, v)
    decreases n
  {
    hide Parse6From, Digit;
    if n < 10 {
      v := n;
      ReadDigit6(n, rest, tok, out, colon, saw, 0);
    } else {
      var tail := [Digit(n % 10)] + rest;
      var u := ReadDecimalAsHex(n / 10, tail, tok, out, colon, saw);
      v := u * 16 + n % 10;
      ReadDigit6(n % 10, rest, tok, out, colon, true, u);
      assert Decimal(n) + rest == Decimal(n / 10) + tail;
    }
  }

  /** A dotted tail that is the current token completes the address. */
  lemma ReadDotted(d: seq<Byte>, out: seq<Byte>, colon: int)
    requires |d| == NS_INADDRSZ && |out| + NS_INADDRSZ <= NS_IN6ADDRSZ && -1 <= colon <= |out|
    ensures exists val: nat :: val < 0x10000 &&
              Parse6From(Dotted(d), Dotted(d), out, colon, false, 0) == Finish6(out + d, colon, false, val)
  {
    var rest := "." + Decimal(d[1]) + "." + Decimal(d[2]) + "." + Decimal(d[3]);
    assert Dotted(d) == Decimal(d[0]) + rest;
    var v := ReadDecimalAsHex(d[0], rest, Dotted(d), out, colon, false);
    RoundTrip4(d);
    assert rest[0] == '.';
  }

  /** A run the printer may leave out. */
  ghost predicate Omissible(b: Address, r: Run) {
    r.base == -1 || (r.len >= 1 && ZeroRun(b, r.base, r.len))
  }

  /** The bytes stored when the words before i have been read. */
  ghost function Stored(b: Address, r: Run, i: nat): (out: seq<Byte>)
    requires i <= 8 && Omissible(b, r)
    ensures |out| <= 2 * i
  {
    if r.base == -1 || i <= r.base then b[..2 * i]
    else if i < r.base + r.len then b[..2 * r.base]
    else b[..2 * r.base] + b[2 * (r.base + r.len)..2 * i]
  }

  /** Where the parser remembers "::" then. */
  ghost function ColonAt(r: Run, i: nat): int {
    if r.base != -1 && i >= r.base + r.len then 2 * r.base else -1
  }

  lemma StoredNext(b: Address, r: Run, i: nat)
    requires i < 8 && Omissible(b, r) && !InRun(r, i)
    ensures WordAt(b, i) / 256 == b[2 * i] && WordAt(b, i) % 256 == b[2 * i + 1]
    ensures Stored(b, r, i) + [b[2 * i], b[2 * i + 1]] == Stored(b, r, i + 1)
    ensures ColonAt(r, i) <= |Stored(b, r, i)|
    ensures r.base != -1 && i == r.base + r.len ==> Stored(b, r, i) == Stored(b, r, r.base)
    ensures i + 1 == r.base ==> ColonAt(r, i) == -1
    ensures !InRun(r, i + 1) && (r.base == -1 || i + 1 != r.base + r.len) ==> ColonAt(r, i) == ColonAt(r, i + 1)
  {
  }

  lemma ZeroBytes(b: Address, base: int, len: nat)
    requires ZeroRun(b, base, len)
    ensures b[2 * base..2 * (base + len)] == Zeros(2 * len)
  {
    var zeros := b[2 * base..2 * (base + len)];
    forall j | 0 <= j < 2 * len ensures zeros[j] == 0 {
      var k := base + j / 2;
      assert WordAt(b, k) == 0 && (2 * base + j == 2 * k || 2 * base + j == 2 * k + 1);
    }
  }

  /** Re-inserting the zeros gives the whole address. */
  lemma Complete(b: Address, r: Run, val: nat)
    requires Omissible(b, r) && val < 0x10000
    ensures |Stored(b, r, 8)| <= NS_IN6ADDRSZ && ColonAt(r, 8) <= |Stored(b, r, 8)|
    ensures Finish6(Stored(b, r, 8), ColonAt(r, 8), false, val) == Some(b)
  {
    if r.base != -1 {
      ZeroBytes(b, r.base, r.len);
      var all := Stored(b, r, 8);
      assert b == b[..2 * r.base] + b[2 * r.base..2 * (r.base + r.len)] + b[2 * (r.base + r.len)..];
      assert all[..2 * r.base] == b[..2 * r.base] && all[2 * r.base..] == b[2 * (r.base + r.len)..];
    } else {
      assert b[..16] == b;
    }
  }

  /** Reading the text of word i, right after a colon or at the start. */
  lemma {:induction false} ReadWord(b: Address, r: Run, i: nat)
    requires i < 8 && Omissible(b, r) && !InRun(r, i)
    ensures ColonAt(r, i) <= |Stored(b, r, i)|
    ensures var text := WordText(b, r, i);
            Parse6From(text, text, Stored(b, r, i), ColonAt(r, i), false, 0) == Some(b)
    decreases 8 - i, 0
  {
    hide Parse6From, Stored, Dotted, Hex, WordAt, TextFrom;
    StoredNext(b, r, i);
    if EmbedsIpv4(b, r, i) {
      ReadTail(b, r);
    } else {
      var text := Hex(WordAt(b, i)) + TextFrom(b, r, i + 1);
      ReadHex(WordAt(b, i), TextFrom(b, r, i + 1), text, Stored(b, r, i), ColonAt(r, i), false);
      ReadAfterWord(b, r, i + 1, text);
    }
  }

  /** Reading an embedded IPv4 address. */
  lemma ReadTail(b: Address, r: Run)
    requires Omissible(b, r) && EmbedsIpv4(b, r, 6)
    ensures ColonAt(r, 6) <= |Stored(b, r, 6)|
    ensures Parse6From(Dotted(b[12..16]), Dotted(b[12..16]), Stored(b, r, 6), ColonAt(r, 6), false, 0) == Some(b)
  {
    hide Parse6From, Finish6, Stored, Dotted;
    TailStored(b, r);
    ReadDotted(b[12..16], Stored(b, r, 6), ColonAt(r, 6));
    var val: nat :| val < 0x10000
        && Parse6From(Dotted(b[12..16]), Dotted(b[12..16]), Stored(b, r, 6), ColonAt(r, 6), false, 0)
                                     == Finish6(Stored(b, r, 8), ColonAt(r, 8), false, val);
    Complete(b, r, val);
  }

  lemma TailStored(b: Address, r: Run)
    requires Omissible(b, r) && EmbedsIpv4(b, r, 6)
    ensures Stored(b, r, 6) + b[12..16] == Stored(b, r, 8)
    ensures 0 == ColonAt(r, 6) == ColonAt(r, 8) <= |Stored(b, r, 6)| <= 12
  {
  }

  /** A colon after a word: the word is stored. */
  lemma PushColon(rest: string, tok: string, out: seq<Byte>, colon: int, val: nat)
    requires |out| + 2 <= NS_IN6ADDRSZ && -1 <= colon <= |out| && val < 0x10000
    requires rest != [] && rest[0] != '\0'
    ensures Parse6From(":" + rest, tok, out, colon, true, val) ==
            Parse6From(rest, rest, out + [val / 256, val % 256], colon, false, 0)
  {
    assert (":" + rest)[1..] == rest;
  }

  /** A second colon: the place of the zeros is remembered. */
  lemma MarkColon(rest: string, tok: string, out: seq<Byte>)
    requires |out| <= NS_IN6ADDRSZ
    ensures Parse6From(":" + rest, tok, out, -1, false, 0) == Parse6From(rest, rest, out, |out|, false, 0)
  {
    assert (":" + rest)[1..] == rest;
  }

  lemma {:induction false} HexStart(n: nat)
    ensures Hex(n)[0] != ':' && Hex(n)[0] != '\0'
  {
    if n < 16 { DigitValue(n); } else { HexStart(n / 16); }
  }

  lemma {:induction false} DecimalStart(n: nat)
    ensures Decimal(n)[0] != ':' && Decimal(n)[0] != '\0'
  {
    if n < 10 { DigitValue(n); } else { DecimalStart(n / 10); }
  }

  /** No word's text begins like the end of the text, or with a colon. */
  lemma WordTextStart(b: Address, r: Run, i: nat)
    requires i < 8
    ensures var text := WordText(b, r, i);
            text != [] && text[0] != '\0' && text[0] != ':'
  {
    HexStart(WordAt(b, i));
    DecimalStart(b[12]);
    assert Dotted(b[12..16])[0] == Decimal(b[12])[0];
  }

  /** The text from the run on begins with its colon. */
  lemma {:induction false} RunText(b: Address, r: Run, i: nat)
    requires r.base != -1 && Omissible(b, r) && r.base < i <= r.base + r.len
    ensures TextFrom(b, r, i) == TextFrom(b, r, r.base + r.len)
    decreases r.base + r.len - i
  {
    if i == r.base + r.len {
    } else {
      RunText(b, r, i + 1);
    }
  }

  /** The text ends after word 7: its value is stored. */
  lemma ReadEnd(b: Address, r: Run, tok: string)
    requires Omissible(b, r) && !InRun(r, 7)
    ensures ColonAt(r, 7) <= |Stored(b, r, 7)|
    ensures Parse6From("", tok, Stored(b, r, 7), ColonAt(r, 7), true, WordAt(b, 7)) == Some(b)
  {
    StoredNext(b, r, 7);
    Complete(b, r, 0);
  }

  /** Reading on after word i - 1, whose value is still pending. */
  lemma {:induction false} ReadAfterWord(b: Address, r: Run, i: nat, tok: string)
    requires 1 <= i <= 8 && Omissible(b, r) && !InRun(r, i - 1)
    ensures ColonAt(r, i - 1) <= |Stored(b, r, i - 1)|
    ensures Parse6From(TextFrom(b, r, i), tok, Stored(b, r, i - 1), ColonAt(r, i - 1), true, WordAt(b, i - 1)) ==
            Some(b)
    decreases 8 - i, 1
  {
    hide Parse6From, TextFrom, WordText, WordAt;
    StoredNext(b, r, i - 1);
    var out, colon, val := Stored(b, r, i - 1), ColonAt(r, i - 1), WordAt(b, i - 1);
    if i == 8 {
      TextEnd(b, r);
      ReadEnd(b, r, tok);
    } else if InRun(r, i) {
      var rest := TextFrom(b, r, i + 1);
      TextInRun(b, r, i);
      RunText(b, r, i + 1);
      RunEndText(b, r);
      PushColon(rest, tok, out, colon, val);
      ReadAfterRun(b, r, rest);
    } else {
      var text := WordText(b, r, i);
      TextOfWord(b, r, i);
      WordTextStart(b, r, i);
      PushColon(text, tok, out, colon, val);
      ReadWord(b, r, i);
    }
  }

  lemma AtEnd(out: seq<Byte>, colon: int)
    requires |out| <= NS_IN6ADDRSZ && -1 <= colon <= |out|
    ensures Parse6From("", "", out, colon, false, 0) == Finish6(out, colon, false, 0)
  {
  }

  lemma RunEndText(b: Address, r: Run)
    requires r.base != -1 && Omissible(b, r)
    ensures var e := r.base + r.len;
            TextFrom(b, r, e) != [] && TextFrom(b, r, e)[0] == ':'
  {
  }

  /** Reading on after the first colon of the run. */
  lemma {:induction false} ReadAfterRun(b: Address, r: Run, tok: string)
    requires r.base != -1 && Omissible(b, r)
    ensures Parse6From(TextFrom(b, r, r.base + r.len), tok, Stored(b, r, r.base), -1, false, 0) == Some(b)
    decreases 8 - (r.base + r.len), 1
  {
    hide Parse6From, TextFrom, WordText, WordAt;
    var e := r.base + r.len;
    var out := Stored(b, r, r.base);
    if e == 8 {
      TextEnd(b, r);
      assert TextFrom(b, r, e) == ":" + "";
      MarkColon("", tok, out);
      assert Stored(b, r, 8) == out;
      AtEnd(out, |out|);
      Complete(b, r, 0);
    } else {
      var text := WordText(b, r, e);
      TextOfWord(b, r, e);
      MarkColon(text, tok, out);
      assert Stored(b, r, e) == out;
      ReadWord(b, r, e);
    }
  }

  /** Every IPv6 address is read back from its text, whichever zeros were left out and
      whether or not its tail was printed as an IPv4 address. */
  lemma RoundTrip6(b: Address, r: Run)
    requires Omissible(b, r)
    ensures Parse6(TextFrom(b, r, 0)) == Some(b)
  {
    var text := TextFrom(b, r, 0);
    if InRun(r, 0) {
      RunText(b, r, 1);
      RunEndText(b, r);
      var rest := TextFrom(b, r, r.base + r.len);
      assert text == ":" + rest && text[1..] == rest;
      ReadAfterRun(b, r, rest);
      assert Stored(b, r, 0) == [];
    } else {
      WordTextStart(b, r, 0);
      assert text == "" + WordText(b, r, 0) == WordText(b, r, 0);
      ReadWord(b, r, 0);
      assert Stored(b, r, 0) == [] && ColonAt(r, 0) == -1;
    }
  }

  /** What inet_ntop6 prints, inet_pton6 reads back. */
  lemma PrintedReadBack6(b: Address, r: Run)
    requires IsBestRun(b, r)
    ensures Parse6(TextFrom(b, r, 0)) == Some(b)
  {
    RoundTrip6(b, r);
  }

  // ------------------------------------------------------------------
  // inet_pton4 accepts nothing but the printed form

  /** The text up to its NUL. */
  function CText(s: string): string {
    if s == [] || s[0] == '\0' then [] else [s[0]] + CText(s[1..])
  }

  /** The printed form of the octets read so far; the last one only once a digit of it
      was seen. */
  ghost function Printed(v: seq<Byte>, sawDigit: bool): string
    requires v != []
  {
    (if |v| == 1 then "" else Printed(v[..|v| - 1], true) + ".") + if sawDigit then Decimal(Snd(v)) else ""
  }

  lemma PrintedDotted(v: seq<Byte>)
    requires |v| == NS_INADDRSZ
    ensures Printed(v, true) == Dotted(v)
  {
    assert v[..3][..2][..1] == [v[0]];
    assert Printed(v[..3][..2][..1], true) == Decimal(v[0]);
    assert Printed(v[..3][..2], true) == Decimal(v[0]) + "." + Decimal(v[1]);
    assert Printed(v[..3], true) == Decimal(v[0]) + "." + Decimal(v[1]) + "." + Decimal(v[2]);
  }

  lemma PrintedDigit(v: seq<Byte>, sawDigit: bool, c: char)
    requires v != [] && '0' <= c <= '9'
    requires if sawDigit then Snd(v) != 0 else Snd(v) == 0
    requires Snd(v) * 10 + (c as int - '0' as int) <= 255
    ensures Printed(v[..|v| - 1] + [Snd(v) * 10 + (c as int - '0' as int)], true) == Printed(v, sawDigit) + [c]
  {
    hide Printed, Decimal;
    var last: nat := Snd(v);
    var d: nat := c as int - '0' as int;
    var w := v[..|v| - 1] + [last * 10 + d];
    assert w[..|w| - 1] == v[..|v| - 1] && Snd(w) == last * 10 + d;
    DecimalDigit(last, d, c);
    PrintedLast(v, sawDigit);
    PrintedLast(w, true);
  }

  lemma DecimalDigit(n: nat, d: nat, c: char)
    requires '0' <= c <= '9' && d == c as int - '0' as int
    ensures Decimal(n * 10 + d) == (if n != 0 then Decimal(n) else "") + [c]
  {
    assert Digit(d) == c;
    assert (n * 10 + d) / 10 == n && (n * 10 + d) % 10 == d;
  }

  lemma PrintedLast(v: seq<Byte>, sawDigit: bool)
    requires v != []
    ensures Printed(v, sawDigit) ==
            (if |v| == 1 then "" else Printed(v[..|v| - 1], true) + ".") + if sawDigit then Decimal(Snd(v)) else ""
  {
  }

  lemma PrintedDot(v: seq<Byte>)
    requires v != []
    ensures Printed(v + [0], false) == Printed(v, true) + "."
  {
    assert (v + [0])[..|v|] == v;
  }

  lemma {:induction false} Parse4Printed(s: string, v: seq<Byte>, sawDigit: bool, octets: nat)
    requires |v| == octets + if sawDigit then 0 else 1
    requires 0 < |v| && octets <= 4 && (octets == 4 ==> sawDigit) && (!sawDigit ==> Snd(v) == 0)
    requires Parse4From(s, v, sawDigit, octets).Some?
    ensures Printed(v, sawDigit) + CText(s) == Dotted(Parse4From(s, v, sawDigit, octets).value)
    decreases |s|
  {
    hide Printed, Dotted, Decimal;
    if s == [] || s[0] == '\0' {
      PrintedDotted(v);
    } else if '0' <= s[0] <= '9' {
      var new_ := Snd(v) * 10 + (s[0] as int - '0' as int);
      PrintedDigit(v, sawDigit, s[0]);
      Parse4Printed(s[1..], v[..|v| - 1] + [new_], true, if sawDigit then octets else octets + 1);
      assert Printed(v, sawDigit) + ([s[0]] + CText(s[1..])) == Printed(v, sawDigit) + [s[0]] + CText(s[1..]);
    } else {
      PrintedDot(v);
      Parse4Printed(s[1..], v + [0], false, octets);
      assert Printed(v, true) + ("." + CText(s[1..])) == Printed(v, true) + "." + CText(s[1..]);
    }
  }

  lemma {:induction false} CTextParse(s: string, v: seq<Byte>, sawDigit: bool, octets: nat)
    requires |v| == octets + if sawDigit then 0 else 1
    requires 0 < |v| && octets <= 4 && (octets == 4 ==> sawDigit)
    ensures Parse4From(s, v, sawDigit, octets) == Parse4From(CText(s), v, sawDigit, octets)
    decreases |s|
  {
    if s != [] && s[0] != '\0' {
      assert CText(s)[1..] == CText(s[1..]);
      if '0' <= s[0] <= '9' {
        var new_ := Snd(v) * 10 + (s[0] as int - '0' as int);
        if new_ <= 255 && (sawDigit || octets < 4) {
          CTextParse(s[1..], v[..|v| - 1] + [new_], true, if sawDigit then octets else octets + 1);
        }
      } else if s[0] == '.' && sawDigit && octets < 4 {
        CTextParse(s[1..], v + [0], false, octets);
      }
    }
  }

  /** inet_pton4 is the exact inverse of inet_ntop4: a text is accepted if and only if it
      is the printed form of the address it yields. */
  lemma Parse4Exact(s: string, b: seq<Byte>)
    requires |b| == NS_INADDRSZ
    ensures Parse4(s) == Some(b) <==> CText(s) == Dotted(b)
  {
    if Parse4(s) == Some(b) {
      Parse4Printed(s, [0], false, 0);
      assert Printed([0], false) == "";
    }
    if CText(s) == Dotted(b) {
      CTextParse(s, [0], false, 0);
      RoundTrip4(b);
    }
  }

  // ------------------------------------------------------------------
  // The lengths that size the buffers

  lemma HexNext(n: nat)
    ensures |Hex(n)| == if n < 16 then 1 else |Hex(n / 16)| + 1
  {
  }

  lemma HexLength(n: nat)
    requires n < 0x10000
    ensures |Hex(n)| <= 4
  {
    hide Hex;
    var n1 := n / 16;
    var n2 := n1 / 16;
    assert n1 < 0x1000 && n2 < 0x100 && n2 / 16 < 16;
    HexNext(n);
    HexNext(n1);
    HexNext(n2);
    HexNext(n2 / 16);
  }

  lemma DecimalNext(n: nat)
    ensures |Decimal(n)| == if n < 10 then 1 else |Decimal(n / 10)| + 1
  {
  }

  lemma DecimalLength(n: Byte)
    ensures |Decimal(n)| <= 3
  {
    hide Decimal;
    var n1: nat := n / 10;
    assert n1 < 100 && n1 / 10 < 10;
    DecimalNext(n);
    DecimalNext(n1);
    DecimalNext(n1 / 10);
  }

  const DOTTED_SIZE := 16
  const TEXT_SIZE := 46

  lemma DottedLength(b: seq<Byte>)
    requires |b| == NS_INADDRSZ
    ensures |Dotted(b)| < DOTTED_SIZE
  {
    DecimalLength(b[0]); DecimalLength(b[1]); DecimalLength(b[2]); DecimalLength(b[3]);
  }

  lemma {:induction false} TextLength(b: Address, r: Run, i: nat)
    requires i <= 8
    ensures |TextFrom(b, r, i)| + (if i == 0 then 1 else 0) <= 5 * (8 - i) + 6
    decreases 8 - i
  {
    hide Dotted, Hex;
    if i == 8 {
    } else {
      TextLength(b, r, i + 1);
      DottedLength(b[12..16]);
      HexLength(WordAt(b, i));
    }
  }
}
