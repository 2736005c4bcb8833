/** Which texts stand for an IPv6 address, and what the printed one looks like. */
module InetGrammar {
  import opened Common
  import opened InetText

  // ------------------------------------------------------------------
  // Groups

  predicate IsHex(c: char) {
    '0' <= c <= '9' || 'a' <= c <= 'f' || 'A' <= c <= 'F'
  }

  /** The value of a hexadecimal digit, in either case. */
  function HexDigit(c: char): (d: nat)
    requires IsHex(c)
    ensures d < 16
  {
    if c <= '9' then c as int - '0' as int
    else if 'a' <= c then c as int - 'a' as int + 10
    else c as int - 'A' as int + 10
  }

  predicate AllHex(s: string) {
    forall k: nat :: k < |s| ==> IsHex(s[k])
  }

  /** The value of a string of hexadecimal digits after `acc`. */
  function HexNumeral(s: string, acc: nat): nat
    requires AllHex(s)
  {
    if s == [] then acc else HexNumeral(s[1..], 16 * acc + HexDigit(s[0]))
  }

  /** One or more digits, zeros in front included, with a value of at most 16 bits. */
  predicate IsGroup(s: string) {
    s != [] && AllHex(s) && HexNumeral(s, 0) <= 0xffff
  }

  /** Groups, of which the last may be an IPv4 address instead. */
  predicate AreParts(ps: seq<string>) {
    if ps == [] then true
    else if |ps| == 1 then IsGroup(ps[0]) || Parse4(ps[0]).Some?
    else IsGroup(ps[0]) && AreParts(ps[1..])
  }

  predicate AreGroups(ps: seq<string>) {
    forall k: nat :: k < |ps| ==> IsGroup(ps[k])
  }

  /** With colons between. */
  function Join(ps: seq<string>): string {
    if ps == [] then "" else if |ps| == 1 then ps[0] else ps[0] + ":" + Join(ps[1..])
  }

  function PartBytes(p: string): seq<Byte>
    requires IsGroup(p) || Parse4(p).Some?
  {
    if IsGroup(p) then var n := HexNumeral(p, 0); [n / 256, n % 256] else Parse4(p).value
  }

  function BytesOf(ps: seq<string>): seq<Byte>
    requires AreParts(ps)
  {
    if ps == [] then [] else PartBytes(ps[0]) + BytesOf(ps[1..])
  }

  lemma {:induction false} GroupsAreParts(ps: seq<string>)
    requires AreGroups(ps)
    ensures AreParts(ps) && |BytesOf(ps)| == 2 * |ps|
  {
    if ps == [] {
    } else {
      GroupsAreParts(ps[1..]);
    }
  }

  /** What is still to be read, at the beginning of a part: parts, or groups, "::" and parts
      (without the first colon if nothing stands before it). */
  datatype Rest = Plain(parts: seq<string>) | Gap(before: seq<string>, after: seq<string>)

  predicate IsRest(f: Rest) {
    match f
    case Plain(ps) => AreParts(ps)
    case Gap(before, after) => AreGroups(before) && AreParts(after)
  }

  function RestText(f: Rest): string {
    match f
    case Plain(ps) => Join(ps)
    case Gap(before, after) => (if before == [] then "" else Join(before) + ":") + ":" + Join(after)
  }

  /** The whole address, if `out` came before: zeros take the place of "::", which stands for
      one word at least. */
  function WholeAddress(f: Rest, out: seq<Byte>, colon: int): Option<seq<Byte>>
    requires IsRest(f) && -1 <= colon <= |out|
  {
    match f
    case Plain(ps) =>
      var all := out + BytesOf(ps);
      if colon == -1 then if |all| == 16 then Some(all) else None
      else if |all| < 16 then Some(all[..colon] + Zeros(16 - |all|) + all[colon..]) else None
    case Gap(before, after) =>
      GroupsAreParts(before);
      var b, a := out + BytesOf(before), BytesOf(after);
      if colon == -1 && |b| + |a| < 16 then Some(b + Zeros(16 - |b| - |a|) + a) else None
  }

  // ------------------------------------------------------------------
  // Reading a group

  lemma DigitRead(c: char)
    ensures IsHex(c) <==> HexValue(ToLower(c)) >= 0
    ensures IsHex(c) ==> HexValue(ToLower(c)) == HexDigit(c)
    ensures ToLower(c) == ':' <==> c == ':'
    ensures ToLower(c) == '.' <==> c == '.'
    ensures IsHex(c) ==> c != '\0' && c != ':' && c != '.'
  {
  }

  lemma {:induction false} NumeralGrows(s: string, acc: nat)
    requires AllHex(s)
    ensures acc <= HexNumeral(s, acc)
  {
    if s == [] {
    } else {
      NumeralGrows(s[1..], 16 * acc + HexDigit(s[0]));
    }
  }

  /** One turn of the loop of inet_pton6. */
  lemma Turn(c: char, rest: string, tok: string, out: seq<Byte>, colon: int, saw: bool, val: nat)
    requires |out| <= 16 && -1 <= colon <= |out| && val < 0x10000 && c != '\0'
    ensures var r := Parse6From([c] + rest, tok, out, colon, saw, val);
            r == if IsHex(c) then
                   if 16 * val + HexDigit(c) > 0xffff then None
                   else Parse6From(rest, tok, out, colon, true, 16 * val + HexDigit(c))
                 else if c == ':' then
                   if !saw then if colon != -1 then None else Parse6From(rest, rest, out, |out|, false, val)
                   else if rest == [] || rest[0] == '\0' || |out| > 14 then None
                   else Parse6From(rest, rest, out + [val / 256, val % 256], colon, false, 0)
                 else if c == '.' && |out| <= 12 && Parse4(tok).Some? then
                   Finish6(out + Parse4(tok).value, colon, false, val)
                 else None
  {
    DigitRead(c);
    assert ([c] + rest)[1..] == rest;
  }

  lemma {:induction false} DigitsRead(d: string, rest: string, tok: string, out: seq<Byte>, colon: int, saw: bool,
                                      val: nat)
    requires AllHex(d) && |out| <= 16 && -1 <= colon <= |out| && val < 0x10000
    ensures Parse6From(d + rest, tok, out, colon, saw, val) ==
            if HexNumeral(d, val) > 0xffff then None
            else Parse6From(rest, tok, out, colon, saw || d != [], HexNumeral(d, val))
    decreases |d|
  {
    hide Parse6From;
    if d == [] {
      assert d + rest == rest;
    } else {
      assert d + rest == [d[0]] + (d[1..] + rest);
      Turn(d[0], d[1..] + rest, tok, out, colon, saw, val);
      var next := 16 * val + HexDigit(d[0]);
      if next <= 0xffff {
        DigitsRead(d[1..], rest, tok, out, colon, true, next);
      } else {
        NumeralGrows(d[1..], next);
      }
    }
  }

  lemma JoinMore(g: string, ps: seq<string>)
    requires ps != []
    ensures Join([g] + ps) == g + ":" + Join(ps)
  {
    assert ([g] + ps)[1..] == ps;
  }

  lemma PartsMore(g: string, ps: seq<string>)
    requires IsGroup(g) && AreParts(ps)
    ensures AreParts([g] + ps)
    ensures BytesOf([g] + ps) == [HexNumeral(g, 0) / 256, HexNumeral(g, 0) % 256] + BytesOf(ps)
  {
    assert ([g] + ps)[1..] == ps;
  }

  /** A group at the end of the text. */
  lemma GroupEnds(g: string, tok: string, out: seq<Byte>, colon: int)
    requires IsGroup(g) && |out| <= 16 && -1 <= colon <= |out|
    ensures Parse6From(g, tok, out, colon, false, 0) == Finish6(out, colon, true, HexNumeral(g, 0))
  {
    DigitsRead(g, "", tok, out, colon, false, 0);
    assert g + "" == g;
  }

  /** A group and the colon behind it. */
  lemma GroupGoesOn(g: string, rest: string, out: seq<Byte>, colon: int)
    requires IsGroup(g) && |out| <= 16 && -1 <= colon <= |out|
    ensures var s := g + ":" + rest;
            Parse6From(s, s, out, colon, false, 0) ==
              if rest == [] || rest[0] == '\0' || |out| > 14 then None
              else Parse6From(rest, rest, out + [HexNumeral(g, 0) / 256, HexNumeral(g, 0) % 256], colon, false, 0)
  {
    hide Parse6From;
    var s := g + ":" + rest;
    assert s == g + ([':'] + rest);
    DigitsRead(g, [':'] + rest, s, out, colon, false, 0);
    Turn(':', rest, s, out, colon, true, HexNumeral(g, 0));
  }

  /** An IPv4 address at the end of the text. */
  lemma QuadEnds(s: string, out: seq<Byte>, colon: int)
    requires NoNul(s) && Parse4(s).Some? && |out| <= 16 && -1 <= colon <= |out|
    ensures Parse6From(s, s, out, colon, false, 0) ==
            if |out| > 12 then None else Finish6(out + Parse4(s).value, colon, false, 0)
    ensures s != [] && IsHex(s[0]) && !IsGroup(s)
  {
    hide Parse6From, Decimal, Dotted;
    var b := Parse4(s).value;
    Parse4Exact(s, b);
    WholeText(s);
    var rest := "." + Decimal(b[1]) + "." + Decimal(b[2]) + "." + Decimal(b[3]);
    DottedParts(b);
    var v := ReadDecimalAsHex(b[0], rest, s, out, colon, false);
    assert rest[0] == '.' && rest == ['.'] + rest[1..];
    Turn('.', rest[1..], s, out, colon, true, v);
    DecimalDigits(b[0]);
    assert s[|Decimal(b[0])|] == '.';
  }

  lemma DottedParts(b: seq<Byte>)
    requires |b| == NS_INADDRSZ
    ensures Dotted(b) == Decimal(b[0]) + ("." + Decimal(b[1]) + "." + Decimal(b[2]) + "." + Decimal(b[3]))
  {
  }

  lemma {:induction false} WholeText(s: string)
    requires NoNul(s)
    ensures CText(s) == s
  {
    if s == [] {
    } else {
      assert s[0] != '\0';
      assert NoNul(s[1..]) by { forall k | 0 <= k < |s[1..]| ensures s[1..][k] != '\0' { assert s[1..][k] ==
          s[k + 1]; } }
      WholeText(s[1..]);
    }
  }

  lemma {:induction false} DecimalDigits(n: nat)
    ensures forall k: nat :: k < |Decimal(n)| ==> '0' <= Decimal(n)[k] <= '9'
  {
    DigitValue(n % 10);
    if n < 10 {
    } else {
      DecimalDigits(n / 10);
    }
  }

  // ------------------------------------------------------------------
  // Texts and addresses

  lemma Suffix(a: string, rest: string)
    requires NoNul(a + rest)
    ensures NoNul(rest) && (rest != [] ==> rest[0] != '\0')
  {
    forall k | 0 <= k < |rest| ensures rest[k] != '\0' {
      assert rest[k] == (a + rest)[|a| + k];
    }
  }

  /** Such a text is read as the address it stands for, or rejected if there is none. */
  lemma {:induction false} RestRead(f: Rest, out: seq<Byte>, colon: int)
    requires IsRest(f) && NoNul(RestText(f)) && |out| <= 16 && -1 <= colon <= |out|
    ensures Parse6From(RestText(f), RestText(f), out, colon, false, 0) == WholeAddress(f, out, colon)
    decreases |RestText(f)|
  {
    hide Parse6From, NoNul, WholeAddress, Finish6, BytesOf, Parse4;
    var s := RestText(f);
    match f
    case Plain(ps) =>
      if ps == [] {
        AtEnd(out, colon);
        NoParts(out, colon);
      } else if |ps| > 1 {
        assert ps == [ps[0]] + ps[1..];
        MoreParts(ps[0], ps[1..], out, colon);
        Suffix(ps[0] + ":", Join(ps[1..]));
        PartsStart(ps[1..]);
        if |out| <= 14 { RestRead(Plain(ps[1..]), out + FirstBytes(ps[0]), colon); }
        GroupGoesOn(ps[0], Join(ps[1..]), out, colon);
      } else if IsGroup(ps[0]) {
        GroupEnds(ps[0], ps[0], out, colon);
        LastPart(ps, out, colon);
      } else {
        QuadEnds(ps[0], out, colon);
        LastPart(ps, out, colon);
      }
    case Gap(before, after) =>
      if before == [] {
        assert s == [':'] + Join(after);
        Turn(':', Join(after), s, out, colon, false, 0);
        Suffix(":", Join(after));
        if colon == -1 { RestRead(Plain(after), out, |out|); }
        GapFirst(after, out, colon);
      } else {
        var f' := Gap(before[1..], after);
        assert before == [before[0]] + before[1..];
        MoreGroups(before[0], f', out, colon);
        GroupGoesOn(before[0], RestText(f'), out, colon);
        Suffix(before[0] + ":", RestText(f'));
        if |out| <= 14 { RestRead(f', out + FirstBytes(before[0]), colon); }
      }
  }

  function FirstBytes(g: string): seq<Byte>
    requires IsGroup(g)
  {
    [HexNumeral(g, 0) / 256, HexNumeral(g, 0) % 256]
  }

  lemma PartsStart(ps: seq<string>)
    requires AreParts(ps) && ps != []
    ensures Join(ps) != [] && |BytesOf(ps)| >= 2
  {
  }

  lemma NoParts(out: seq<Byte>, colon: int)
    requires |out| <= 16 && -1 <= colon <= |out|
    ensures WholeAddress(Plain([]), out, colon) == Finish6(out, colon, false, 0)
  {
    assert out + BytesOf([]) == out;
  }

  lemma LastPart(ps: seq<string>, out: seq<Byte>, colon: int)
    requires |ps| == 1 && AreParts(ps) && |out| <= 16 && -1 <= colon <= |out|
    ensures WholeAddress(Plain(ps), out, colon) ==
            if IsGroup(ps[0]) then Finish6(out, colon, true, HexNumeral(ps[0], 0))
            else if |out| > 12 then None else Finish6(out + Parse4(ps[0]).value, colon, false, 0)
  {
    hide Parse4, HexNumeral, AllHex;
    assert BytesOf(ps[1..]) == [];
    assert BytesOf(ps) == PartBytes(ps[0]);
  }

  lemma MoreParts(g: string, ps: seq<string>, out: seq<Byte>, colon: int)
    requires IsGroup(g) && AreParts(ps) && ps != [] && |out| <= 16 && -1 <= colon <= |out|
    ensures var f := Plain([g] + ps);
            && IsRest(f) && RestText(f) == g + ":" + RestText(Plain(ps))
            && WholeAddress(f, out, colon) ==
                 if |out| <= 14 then WholeAddress(Plain(ps), out + FirstBytes(g), colon) else None
  {
    JoinMore(g, ps);
    PartsMore(g, ps);
    hide Parse4, HexNumeral, AllHex;
    PartsStart(ps);
    assert out + (FirstBytes(g) + BytesOf(ps)) == out + FirstBytes(g) + BytesOf(ps);
  }

  lemma MoreGroups(g: string, f: Rest, out: seq<Byte>, colon: int)
    requires IsGroup(g) && f.Gap? && IsRest(f) && |out| <= 16 && -1 <= colon <= |out|
    ensures var f' := Gap([g] + f.before, f.after);
            && IsRest(f') && RestText(f') == g + ":" + RestText(f)
            && WholeAddress(f', out, colon) ==
                 if |out| <= 14 then WholeAddress(f, out + FirstBytes(g), colon) else None
  {
    var before := [g] + f.before;
    assert AreGroups(before);
    GroupsAreParts(f.before);
    GroupsAreParts(before);
    PartsMore(g, f.before);
    if f.before != [] { JoinMore(g, f.before); }
    assert out + (FirstBytes(g) + BytesOf(f.before)) == out + FirstBytes(g) + BytesOf(f.before);
  }

  lemma GapFirst(after: seq<string>, out: seq<Byte>, colon: int)
    requires AreParts(after) && |out| <= 16 && -1 <= colon <= |out|
    ensures WholeAddress(Gap([], after), out, colon) ==
            if colon == -1 then WholeAddress(Plain(after), out, |out|) else None
  {
    var all := out + BytesOf(after);
    assert all[..|out|] == out && all[|out|..] == BytesOf(after);
    assert out + BytesOf([]) == out;
  }

  /** Nothing else is accepted. */
  lemma {:induction false} RestFound(s: string, out: seq<Byte>, colon: int) returns (f: Rest)
    requires NoNul(s) && |out| <= 16 && -1 <= colon <= |out|
    requires Parse6From(s, s, out, colon, false, 0).Some?
    ensures IsRest(f) && RestText(f) == s
    decreases |s|
  {
    hide Parse6From, NoNul;
    var n := HexPrefix(s);
    var d, e := s[..n], s[n..];
    assert s == d + e;
    DigitsRead(d, e, s, out, colon, false, 0);
    Suffix(d, e);
    if e == [] {
      f := Plain(if d == [] then [] else [d]);
    } else {
      assert e == [e[0]] + e[1..];
      Suffix(d + [e[0]], e[1..]);
      assert s == d + [e[0]] + e[1..];
      Turn(e[0], e[1..], s, out, colon, d != [], HexNumeral(d, 0));
      if e[0] == '.' {
        f := Plain([s]);
      } else if d == [] {
        f := RestFound(e[1..], out, |out|);
        RestRead(f, out, |out|);
        f := Gap([], f.parts);
      } else {
        var out' := out + FirstBytes(d);
        f := RestFound(e[1..], out', colon);
        if f.Plain? {
          MoreParts(d, f.parts, out, colon);
          f := Plain([d] + f.parts);
        } else {
          MoreGroups(d, f, out, colon);
          f := Gap([d] + f.before, f.after);
        }
      }
    }
  }

  /** How many hexadecimal digits the text begins with. */
  function HexPrefix(s: string): (n: nat)
    ensures n <= |s| && AllHex(s[..n]) && (n < |s| ==> !IsHex(s[n]))
  {
    if s == [] || !IsHex(s[0]) then 0
    else
      var n := HexPrefix(s[1..]) + 1;
      assert forall k: nat :: k < n ==> s[..n][k] == if k == 0 then s[0] else s[1..][..n - 1][k - 1];
      n
  }

  /** A whole text: parts, or groups, "::" and parts, where "::" stands for one word at
      least. */
  function FullText(f: Rest): string {
    if f.Plain? then Join(f.parts) else Join(f.before) + "::" + Join(f.after)
  }

  /** The text is one of an IPv6 address, and b is that address. */
  ghost predicate Denotes(s: string, b: seq<Byte>) {
    exists f: Rest :: IsRest(f) && s == FullText(f) && WholeAddress(f, [], -1) == Some(b)
  }

  lemma {:induction false} CutText(s: string, tok: string, out: seq<Byte>, colon: int, saw: bool, val: nat)
    requires |out| <= 16 && -1 <= colon <= |out| && val < 0x10000
    ensures Parse6From(s, tok, out, colon, saw, val) == Parse6From(CText(s), CText(tok), out, colon, saw, val)
    decreases |s|
  {
    hide Parse6From, Finish6, Parse4;
    if s == [] || s[0] == '\0' {
      AtNul(s, tok, CText(tok), out, colon, saw, val);
    } else {
      var c, rest := s[0], s[1..];
      assert s == [c] + rest && CText(s) == [c] + CText(rest);
      Turn(c, rest, tok, out, colon, saw, val);
      Turn(c, CText(rest), CText(tok), out, colon, saw, val);
      CutQuad(tok);
      if IsHex(c) {
        if 16 * val + HexDigit(c) <= 0xffff { CutText(rest, tok, out, colon, true, 16 * val + HexDigit(c)); }
      } else if c == ':' {
        if !saw { CutText(rest, rest, out, |out|, false, val); }
        else if |out| <= 14 { CutText(rest, rest, out + [val / 256, val % 256], colon, false, 0); }
      }
    }
  }

  lemma AtNul(s: string, tok: string, tok': string, out: seq<Byte>, colon: int, saw: bool, val: nat)
    requires s == [] || s[0] == '\0'
    requires |out| <= 16 && -1 <= colon <= |out| && val < 0x10000
    ensures Parse6From(s, tok, out, colon, saw, val) == Parse6From([], tok', out, colon, saw, val)
  {
  }

  lemma CutQuad(tok: string)
    ensures Parse4(tok) == Parse4(CText(tok))
  {
    CTextParse(tok, [0], false, 0);
  }

  lemma {:induction false} CutNoNul(s: string)
    ensures NoNul(CText(s))
    ensures CText(CText(s)) == CText(s)
  {
    if s == [] || s[0] == '\0' {
    } else {
      CutNoNul(s[1..]);
    }
  }

  /** inet_pton6 reads a text up to its NUL. */
  lemma CutParse(s: string)
    ensures Parse6(s) == Parse6(CText(s))
  {
    hide Parse6From;
    var t := CText(s);
    if s != [] && s[0] != '\0' {
      assert t == [s[0]] + CText(s[1..]);
      CutText(s, s, [], -1, false, 0);
      CutText(s[1..], s[1..], [], -1, false, 0);
      CutNoNul(s);
      assert t[1..] == CText(s[1..]);
    } else {
      CutText(s, s, [], -1, false, 0);
    }
  }

  /** inet_pton6 accepts a text if and only if it is one of an IPv6 address, and stores that
      address. */
  lemma Parse6Exact(s: string, b: seq<Byte>)
    ensures Parse6(s) == Some(b) <==> Denotes(CText(s), b)
  {
    CutParse(s);
    CutNoNul(s);
    var t := CText(s);
    if Parse6(t) == Some(b) {
      var f := TextFound(t);
      TextRead(f);
    }
    if Denotes(t, b) {
      var f: Rest :| IsRest(f) && t == FullText(f) && WholeAddress(f, [], -1) == Some(b);
      TextRead(f);
    }
  }

  lemma TextRead(f: Rest)
    requires IsRest(f) && NoNul(FullText(f))
    ensures Parse6(FullText(f)) == WholeAddress(f, [], -1)
  {
    hide Parse6From, WholeAddress;
    var s := FullText(f);
    if f.Gap? && f.before == [] {
      assert s == ":" + RestText(f) && s[1..] == RestText(f) && s[1] == ':';
      Suffix(":", RestText(f));
    } else {
      if f.Gap? {
        var more := "::" + Join(f.after);
        assert s == RestText(f) && s == Join(f.before) + more;
        FirstChar(f.before, more);
      } else {
        FirstChar(f.parts, "");
        assert Join(f.parts) + "" == s;
      }
    }
    RestRead(f, [], -1);
  }

  /** No part begins with a colon. */
  lemma FirstChar(ps: seq<string>, more: string)
    requires AreParts(ps) || AreGroups(ps)
    requires NoNul(Join(ps) + more) && (ps == [] ==> more == [])
    ensures CharAt(Join(ps) + more, 0) != ':'
  {
    if ps != [] {
      var p := ps[0];
      if IsGroup(p) {
        assert IsHex(p[0]);
      } else {
        assert |ps| == 1 && Join(ps) == p;
        forall k | 0 <= k < |p| ensures p[k] != '\0' { assert p[k] == (Join(ps) + more)[k]; }
        QuadEnds(p, [], -1);
      }
      assert (Join(ps) + more)[0] == p[0];
    }
  }

  lemma TextFound(s: string) returns (f: Rest)
    requires NoNul(s) && Parse6(s).Some?
    ensures IsRest(f) && FullText(f) == s
  {
    hide Parse6From, IsRest;
    if CharAt(s, 0) == ':' {
      assert s == ":" + s[1..];
      Suffix(":", s[1..]);
      f := RestFound(s[1..], [], -1);
      StartsWithGap(f);
    } else {
      f := RestFound(s, [], -1);
    }
  }

  lemma StartsWithGap(f: Rest)
    requires IsRest(f) && NoNul(RestText(f)) && CharAt(RestText(f), 0) == ':'
    ensures f.Gap? && f.before == []
  {
    if f.Plain? {
      assert Join(f.parts) + "" == RestText(f);
      FirstChar(f.parts, "");
    }
  }

  // ------------------------------------------------------------------
  // Capital letters

  /** The same character, or a hexadecimal letter in the other case. */
  predicate SameButCase(c: char, d: char) {
    || c == d
    || ('a' <= c <= 'f' && d as int == c as int - 32)
    || ('A' <= c <= 'F' && d as int == c as int + 32)
  }

  predicate Cased(s: string, t: string) {
    |s| == |t| && forall k: nat :: k < |s| ==> SameButCase(s[k], t[k])
  }

  lemma CasedTail(s: string, t: string)
    requires Cased(s, t) && s != []
    ensures SameButCase(s[0], t[0]) && Cased(s[1..], t[1..]) && s == [s[0]] + s[1..] && t == [t[0]] + t[1..]
  {
    forall k: nat | k < |s[1..]| ensures SameButCase(s[1..][k], t[1..][k]) {
      assert s[1..][k] == s[k + 1] && t[1..][k] == t[k + 1];
    }
  }

  lemma DigitCase(c: char, d: char)
    requires SameButCase(c, d)
    ensures IsHex(c) <==> IsHex(d)
    ensures IsHex(c) ==> HexDigit(c) == HexDigit(d)
    ensures c != d ==> IsHex(c) && !('0' <= c <= '9') && !('0' <= d <= '9') && c != '.' && d != '.'
    ensures c != d ==> c != '\0' && d != '\0'
  {
  }

  lemma {:induction false} QuadCase(s: string, t: string, v: seq<Byte>, saw: bool, octets: nat)
    requires Cased(s, t)
    requires |v| == octets + if saw then 0 else 1
    requires 0 < |v| && octets <= 4 && (octets == 4 ==> saw)
    ensures Parse4From(s, v, saw, octets) == Parse4From(t, v, saw, octets)
    decreases |s|
  {
    if s != [] {
      CasedTail(s, t);
      DigitCase(s[0], t[0]);
      if '0' <= s[0] <= '9' {
        var new_ := Snd(v) * 10 + (s[0] as int - '0' as int);
        if new_ <= 255 && (saw || octets < 4) {
          QuadCase(s[1..], t[1..], v[..|v| - 1] + [new_], true, if saw then octets else octets + 1);
        }
      } else if s[0] == '.' && saw && octets < 4 {
        QuadCase(s[1..], t[1..], v + [0], false, octets);
      }
    }
  }

  lemma {:induction false} LoopCase(s: string, t: string, tok: string, tok': string, out: seq<Byte>, colon: int,
                                    saw: bool, val: nat)
    requires Cased(s, t) && Cased(tok, tok') && |out| <= 16 && -1 <= colon <= |out| && val < 0x10000
    ensures Parse6From(s, tok, out, colon, saw, val) == Parse6From(t, tok', out, colon, saw, val)
    decreases |s|
  {
    hide Parse6From, Cased, Finish6, Parse4;
    CasedParts(s, t);
    if s == [] {
      AtNul(s, tok, tok', out, colon, saw, val);
    } else {
      var c, d, rest, rest' := s[0], t[0], s[1..], t[1..];
      CasedTail(s, t);
      CasedParts(rest, rest');
      DigitCase(c, d);
      QuadSame(tok, tok');
      if c == '\0' {
        AtNul(s, tok, tok', out, colon, saw, val);
        AtNul(t, tok', tok', out, colon, saw, val);
      } else {
        Turn(c, rest, tok, out, colon, saw, val);
        Turn(d, rest', tok', out, colon, saw, val);
        if IsHex(c) {
          if 16 * val + HexDigit(c) <= 0xffff { LoopCase(rest, rest', tok, tok', out, colon, true,
              16 * val + HexDigit(c)); }
        } else if c == ':' {
          if !saw { LoopCase(rest, rest', rest, rest', out, |out|, false, val); }
          else if |out| <= 14 { LoopCase(rest, rest', rest, rest', out + [val / 256, val % 256], colon, false, 0); }
        }
      }
    }
  }

  lemma QuadSame(tok: string, tok': string)
    requires Cased(tok, tok')
    ensures Parse4(tok) == Parse4(tok')
  {
    QuadCase(tok, tok', [0], false, 0);
  }

  lemma CasedParts(s: string, t: string)
    requires Cased(s, t)
    ensures s == [] <==> t == []
    ensures s != [] ==> (s[0] == '\0' <==> t[0] == '\0') && (s[0] == ':' <==> t[0] == ':')
  {
    if s != [] { DigitCase(s[0], t[0]); }
  }

  /** The case of hexadecimal letters makes no difference, accepted or not. */
  lemma CaseBlind(s: string, t: string)
    requires Cased(s, t)
    ensures Parse6(s) == Parse6(t)
  {
    hide Parse6From, Cased;
    CasedParts(s, t);
    LoopCase(s, t, s, t, [], -1, false, 0);
    if s != [] {
      CasedTail(s, t);
      CasedParts(s[1..], t[1..]);
      LoopCase(s[1..], t[1..], s[1..], t[1..], [], -1, false, 0);
    }
  }

  // ------------------------------------------------------------------
  // The printed text

  lemma {:induction false} NumeralAppend(s: string, c: char, acc: nat)
    requires AllHex(s) && IsHex(c)
    ensures AllHex(s + [c]) && HexNumeral(s + [c], acc) == 16 * HexNumeral(s, acc) + HexDigit(c)
  {
    if s == [] {
      assert (s + [c])[1..] == [];
    } else {
      assert (s + [c])[1..] == s[1..] + [c];
      NumeralAppend(s[1..], c, 16 * acc + HexDigit(s[0]));
    }
  }

  /** "%x" writes the number in small letters, without zeros in front. */
  lemma {:induction false} HexPlain(n: nat)
    ensures var s := Hex(n);
            && AllHex(s) && HexNumeral(s, 0) == n
            && (forall k: nat :: k < |s| ==> s[k] < 'A' || 'F' < s[k])
            && (s[0] == '0' ==> |s| == 1)
    decreases n
  {
    hide Digit, HexDigit;
    PlainDigit(n % 16);
    if n < 16 {
      NumeralAppend([], Digit(n), 0);
      assert [] + [Digit(n)] == Hex(n);
    } else {
      HexPlain(n / 16);
      NumeralAppend(Hex(n / 16), Digit(n % 16), 0);
      if n / 16 < 16 { PlainDigit(n / 16); }
    }
  }

  lemma PlainDigit(d: nat)
    requires d < 16
    ensures IsHex(Digit(d)) && HexDigit(Digit(d)) == d
    ensures (Digit(d) < 'A' || 'F' < Digit(d)) && (Digit(d) == '0' <==> d == 0)
  {
  }

  /** The value of a string of decimal digits after `acc`. */
  function DecimalNumeral(s: string, acc: nat): nat
    requires forall k: nat :: k < |s| ==> '0' <= s[k] <= '9'
  {
    if s == [] then acc else DecimalNumeral(s[1..], 10 * acc + (s[0] as int - '0' as int))
  }

  lemma {:induction false} DecimalAppend(s: string, c: char, acc: nat)
    requires '0' <= c <= '9' && forall k: nat :: k < |s| ==> '0' <= s[k] <= '9'
    ensures DecimalNumeral(s + [c], acc) == 10 * DecimalNumeral(s, acc) + (c as int - '0' as int)
  {
    if s == [] {
      assert (s + [c])[1..] == [];
    } else {
      assert (s + [c])[1..] == s[1..] + [c];
      DecimalAppend(s[1..], c, 10 * acc + (s[0] as int - '0' as int));
    }
  }

  /** "%u" writes the number without zeros in front. */
  lemma {:induction false} DecimalPlain(n: nat)
    ensures var s := Decimal(n);
            && (forall k: nat :: k < |s| ==> '0' <= s[k] <= '9')
            && DecimalNumeral(s, 0) == n && (s[0] == '0' ==> |s| == 1)
    decreases n
  {
    DigitValue(n % 10);
    if n < 10 {
      DecimalAppend([], Digit(n), 0);
      assert [] + [Digit(n)] == Decimal(n);
    } else {
      DecimalPlain(n / 10);
      DecimalAppend(Decimal(n / 10), Digit(n % 10), 0);
      if n / 10 < 10 { PlainDigit(n / 10); }
    }
  }

  /** The words from i to j in hexadecimal. */
  function HexWords(b: Address, i: nat, j: nat): (ws: seq<string>)
    requires i <= j <= 8
    ensures |ws| == j - i
    decreases j - i
  {
    if i == j then []
    else
      var hi: nat, lo: nat := b[2 * i], b[2 * i + 1];
      [Hex(hi * 256 + lo)] + HexWords(b, i + 1, j)
  }

  /** The first bytes are zero. */
  predicate ZerosUpTo(b: Address, n: nat)
    requires n <= 16
  {
    forall k: nat :: k < n ==> b[k] == 0
  }

  /** The last four bytes are printed as an IPv4 address just in the addresses ::a.b.c.d
      where a and b are not both zero, and ::ffff:a.b.c.d. */
  lemma TailPrinted(b: Address, r: Run)
    requires IsBestRun(b, r)
    ensures ZerosUpTo(b, 12) && !(b[12] == 0 && b[13] == 0) ==> r == Run(0, 6) && EmbedsIpv4(b, r, 6)
    ensures ZerosUpTo(b, 10) && b[10] == b[11] == 255 ==> r == Run(0, 5) && EmbedsIpv4(b, r, 6)
    ensures EmbedsIpv4(b, r, 6) ==>
              || (ZerosUpTo(b, 12) && !(b[12] == 0 && b[13] == 0))
              || (ZerosUpTo(b, 10) && b[10] == b[11] == 255)
  {
    WordsZero(b);
    if ZerosUpTo(b, 12) && !(b[12] == 0 && b[13] == 0) {
      assert ZeroRun(b, 0, 6) && WordAt(b, 6) != 0;
    }
    if ZerosUpTo(b, 10) && b[10] == b[11] == 255 {
      assert ZeroRun(b, 0, 5) && WordAt(b, 5) != 0;
    }
    if EmbedsIpv4(b, r, 6) {
      forall k: nat | k < 2 * r.len ensures b[k] == 0 { assert WordAt(b, k / 2) == 0; }
      assert r.len == 6 && b[12] == 0 && b[13] == 0 ==> ZeroRun(b, 0, 7);
    }
  }

  lemma WordsZero(b: Address)
    ensures forall k: nat :: k < 8 ==> (WordAt(b, k) == 0 <==> b[2 * k] == 0 && b[2 * k + 1] == 0)
  {
  }

  lemma WordsMore(b: Address, i: nat, j: nat)
    requires i < j <= 8
    ensures Join(HexWords(b, i, j)) ==
            Hex(WordAt(b, i)) + if i + 1 == j then "" else ":" + Join(HexWords(b, i + 1, j))
  {
    hide Hex;
    if i + 1 == j { assert HexWords(b, j, j) == []; }
  }

  /** The words behind the run. */
  lemma {:induction false} WordsBehind(b: Address, r: Run, i: nat)
    requires i < 8 && (r.base == -1 || r.base + r.len <= i) && !EmbedsIpv4(b, r, 6)
    ensures WordText(b, r, i) == Join(HexWords(b, i, 8))
    decreases 8 - i
  {
    hide Hex, TextFrom, WordText, Join, HexWords;
    WordsMore(b, i, 8);
    WordInHex(b, r, i);
    if i == 7 {
      TextEnd(b, r);
    } else {
      TextOfWord(b, r, i + 1);
      WordsBehind(b, r, i + 1);
    }
  }

  /** From the second colon of the run on. */
  lemma RunBehind(b: Address, r: Run)
    requires r.base != -1 && Omissible(b, r) && !EmbedsIpv4(b, r, 6)
    ensures TextFrom(b, r, r.base + r.len) == ":" + Join(HexWords(b, r.base + r.len, 8))
  {
    var e := r.base + r.len;
    if e == 8 {
      TextEnd(b, r);
      assert HexWords(b, 8, 8) == [];
    } else {
      TextOfWord(b, r, e);
      WordsBehind(b, r, e);
    }
  }

  /** The words before the run, and all that follows. */
  lemma {:induction false} WordsBefore(b: Address, r: Run, i: nat)
    requires r.base != -1 && i < r.base && Omissible(b, r)
    ensures WordText(b, r, i) == Join(HexWords(b, i, r.base)) + ":" + TextFrom(b, r, r.base + r.len)
    decreases r.base - i
  {
    hide Hex, TextFrom, WordText, Join, HexWords;
    WordsMore(b, i, r.base);
    WordInHex(b, r, i);
    var w, rest := Hex(WordAt(b, i)), TextFrom(b, r, r.base + r.len);
    if i + 1 == r.base {
      TextInRun(b, r, r.base);
      RunText(b, r, r.base + 1);
    } else {
      TextOfWord(b, r, i + 1);
      WordsBefore(b, r, i + 1);
      assert w + (":" + (Join(HexWords(b, i + 1, r.base)) + ":" + rest))
          == w + ":" + Join(HexWords(b, i + 1, r.base)) + ":" + rest;
    }
  }

  /** What inet_ntop6 prints, on the bytes of the address. */
  lemma PrintedForm(b: Address, r: Run)
    requires IsBestRun(b, r)
    ensures TextFrom(b, r, 0) ==
            if ZerosUpTo(b, 12) && !(b[12] == 0 && b[13] == 0) then "::" + Dotted(b[12..16])
            else if ZerosUpTo(b, 10) && b[10] == b[11] == 255 then "::ffff:" + Dotted(b[12..16])
            else if r.base == -1 then Join(HexWords(b, 0, 8))
            else Join(HexWords(b, 0, r.base)) + "::" + Join(HexWords(b, r.base + r.len, 8))
  {
    hide TextFrom, WordText, Dotted, IsBestRun, ZerosUpTo, EmbedsIpv4, HexWords, Join;
    BestOmissible(b, r);
    TailPrinted(b, r);
    if EmbedsIpv4(b, r, 6) {
      TailText(b, r);
    } else if r.base == -1 {
      TextOfWord(b, r, 0);
      WordsBehind(b, r, 0);
    } else {
      RunBehind(b, r);
      if r.base == 0 {
        TextInRun(b, r, 0);
        RunText(b, r, 1);
        NoWords(b);
      } else {
        TextOfWord(b, r, 0);
        WordsBefore(b, r, 0);
      }
    }
  }

  lemma NoWords(b: Address)
    ensures Join(HexWords(b, 0, 0)) == ""
  {
  }

  lemma BestOmissible(b: Address, r: Run)
    requires IsBestRun(b, r)
    ensures Omissible(b, r)
  {
  }

  lemma TailText(b: Address, r: Run)
    requires Omissible(b, r) && EmbedsIpv4(b, r, 6)
    ensures TextFrom(b, r, 0) == (if r.len == 6 then "::" else "::ffff:") + Dotted(b[12..16])
  {
    hide Dotted, TextFrom, WordText, Hex;
    TextInRun(b, r, 0);
    RunText(b, r, 1);
    TailWord(b, r);
    TextOfWord(b, r, 6);
    if r.len == 5 {
      TextOfWord(b, r, 5);
      WordInHex(b, r, 5);
      AllOnes();
    }
  }

  lemma TailWord(b: Address, r: Run)
    requires EmbedsIpv4(b, r, 6)
    ensures WordText(b, r, 6) == Dotted(b[12..16])
  {
  }

  lemma AllOnes()
    ensures Hex(0xffff) == "ffff"
  {
    assert Hex(0xf) == "f" && Hex(0xff) == Hex(0xf) + "f" && Hex(0xfff) == Hex(0xff) + "f";
    assert Hex(0xffff) == Hex(0xfff) + "f";
  }
}
