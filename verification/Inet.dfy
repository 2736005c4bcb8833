/** inet_ntop and inet_pton: the routines that write the text of an address into a buffer
    and read it back. */
module Inet {
  import opened Common
  import opened InetText
  import opened InetGrammar

  /** Writes the characters of text at tp. */
  method Copy(tmp: array<char>, tp: nat, text: string) returns (end: nat)
    requires tp + |text| <= tmp.Length
    modifies tmp
    ensures end == tp + |text| && tmp[..end] == old(tmp[..tp]) + text
    ensures forall k :: end <= k < tmp.Length ==> tmp[k] == old(tmp[k])
  {
    end := tp;
    var k := 0;
    while k < |text|
      invariant k <= |text| && end == tp + k
      invariant tmp[..end] == old(tmp[..tp]) + text[..k]
      invariant forall j :: end <= j < tmp.Length ==> tmp[j] == old(tmp[j])
    {
      tmp[end] := text[k];
      end, k := end + 1, k + 1;
    }
    assert text[..k] == text;
  }

  /** Writes text at tp, as sprintf does (its NUL included). */
  method Put(tmp: array<char>, tp: nat, text: string) returns (end: nat)
    requires tp + |text| < tmp.Length
    modifies tmp
    ensures end == tp + |text|
    ensures tmp[..end] == old(tmp[..tp]) + text && tmp[end] == '\0'
    ensures forall k :: end < k < tmp.Length ==> tmp[k] == old(tmp[k])
  {
    end := Copy(tmp, tp, text);
    tmp[end] := '\0';
  }

  /** inet_ntop4, writing at dst + at, where the caller has `size` bytes. A text as long as
      size itself passes the test; if the buffer ends there, strcpy writes its NUL one byte
      behind the end, and `overrun` says so. */
  method InetNtop4(src: seq<Byte>, dst: array<char>, at: nat, size: nat) returns (ok: bool, overrun: bool)
    requires |src| == NS_INADDRSZ && at + size <= dst.Length
    modifies dst
    ensures ok == (|Dotted(src)| <= size)
    ensures ok ==> dst[..at + |Dotted(src)|] == old(dst[..at]) + Dotted(src)
    ensures overrun <==> ok && at + |Dotted(src)| == dst.Length
    ensures ok && !overrun ==> dst[at + |Dotted(src)|] == '\0'
    ensures at + size == dst.Length ==> (overrun <==> |Dotted(src)| == size)
    ensures !ok ==> dst[..] == old(dst[..])
  {
    hide Dotted;
    var tmp := new char[DOTTED_SIZE];
    DottedLength(src);
    var len := Put(tmp, 0, Dotted(src));
    assert tmp[..0] == [];
    if len > size { return false, false; }
    var end := Copy(dst, at, tmp[..len]);
    if end == dst.Length { return true, true; }
    dst[end] := '\0';
    return true, false;
  }

  /** Best among the runs that end by word `limit`. */
  ghost predicate BestUpTo(b: Address, r: Run, limit: nat) {
    if r.base == -1 then forall base, len: nat :: ZeroRun(b, base, len) && base + len <= limit ==> len == 0
    else
      && 1 <= r.len && ZeroRun(b, r.base, r.len) && r.base + r.len <= limit
      && forall base, len: nat :: ZeroRun(b, base, len) && base + len <= limit
                                  ==> len < r.len || (len == r.len && r.base <= base)
  }

  /** `cur` is the longest run of zeros that ends just before word i. */
  ghost predicate CurrentRun(b: Address, cur: Run, i: nat) {
    if cur.base == -1 then i == 0 || (i <= 8 && WordAt(b, i - 1) != 0)
    else
      && 1 <= cur.len && ZeroRun(b, cur.base, cur.len) && cur.base + cur.len == i
      && (cur.base == 0 || WordAt(b, cur.base - 1) != 0)
  }

  function Better(best: Run, cur: Run): Run {
    if cur.base != -1 && (best.base == -1 || cur.len > best.len) then cur else best
  }

  /** A run that ends by i and after the current one has begun lies within it. */
  lemma WithinCurrent(b: Address, cur: Run, i: nat, base: int, len: nat)
    requires CurrentRun(b, cur, i) && ZeroRun(b, base, len) && base + len <= i
    ensures cur.base == -1 && i > 0 && base + len == i ==> len == 0
    ensures cur.base != -1 && base + len > cur.base && len > 0 ==> cur.base <= base
  {
  }

  /** Closing the current run. */
  lemma CloseRun(b: Address, best: Run, cur: Run, i: nat)
    requires i <= 8 && CurrentRun(b, cur, i)
    requires BestUpTo(b, best, if cur.base == -1 then i else cur.base)
    ensures BestUpTo(b, Better(best, cur), i)
  {
    if cur.base != -1 {
      forall base, len: nat | ZeroRun(b, base, len) && base + len <= i && len > 0
        ensures base + len <= cur.base || cur.base <= base
      {
        WithinCurrent(b, cur, i, base, len);
      }
    }
  }

  /** The first loop of inet_ntop6: the run of zero words to compress. */
  method FindBest(src: Address, words: array<nat>) returns (best: Run)
    requires words.Length == 8
    modifies words
    ensures IsBestRun(src, best)
    ensures forall k :: 0 <= k < 8 ==> words[k] == WordAt(src, k)
  {
    hide CurrentRun, BestUpTo, IsBestRun;
    var i := 0;
    while i < NS_IN6ADDRSZ
      invariant i % 2 == 0 && i <= 16
      invariant forall k :: 0 <= k < i / 2 ==> words[k] == WordAt(src, k)
    {
      var hi: nat, lo: nat := src[i], src[i + 1];
      words[i / 2] := hi * 256 + lo;
      i := i + 2;
    }
    best := Run(-1, 0);
    var cur := Run(-1, 0);
    NoRunYet(src);
    i := 0;
    while i < 8
      modifies {}
      invariant i <= 8 && -1 <= cur.base
      invariant CurrentRun(src, cur, i)
      invariant BestUpTo(src, best, if cur.base == -1 then i else cur.base)
    {
      if words[i] == 0 {
        ExtendRun(src, cur, i);
        if cur.base == -1 { cur := Run(i, 1); } else { cur := cur.(len := cur.len + 1); }
      } else {
        CloseRun(src, best, cur, i);
        NoRunEnds(src, Better(best, cur), i);
        if cur.base != -1 {
          if best.base == -1 || cur.len > best.len { best := cur; }
          cur := cur.(base := -1);
        }
        AfterWord(src, cur, i);
      }
      i := i + 1;
    }
    CloseRun(src, best, cur, 8);
    if cur.base != -1 {
      if best.base == -1 || cur.len > best.len { best := cur; }
    }
    BestOverall(src, best);
    if best.base != -1 && best.len < 2 { best := best.(base := -1); }
  }

  lemma NoRunYet(b: Address)
    ensures CurrentRun(b, Run(-1, 0), 0) && BestUpTo(b, Run(-1, 0), 0)
  {
  }

  lemma ExtendRun(b: Address, cur: Run, i: nat)
    requires i < 8 && WordAt(b, i) == 0 && CurrentRun(b, cur, i)
    ensures CurrentRun(b, if cur.base == -1 then Run(i, 1) else cur.(len := cur.len + 1), i + 1)
  {
  }

  lemma AfterWord(b: Address, cur: Run, i: nat)
    requires i < 8 && WordAt(b, i) != 0 && cur.base == -1
    ensures CurrentRun(b, cur, i + 1)
  {
  }

  /** A single word is not worth compressing. */
  lemma BestOverall(b: Address, r: Run)
    requires BestUpTo(b, r, 8)
    ensures IsBestRun(b, if r.base != -1 && r.len < 2 then r.(base := -1) else r)
  {
  }

  /** A word that is not zero ends no run. */
  lemma NoRunEnds(b: Address, r: Run, i: nat)
    requires i < 8 && WordAt(b, i) != 0 && BestUpTo(b, r, i)
    ensures BestUpTo(b, r, i + 1)
  {
    forall base, len: nat | ZeroRun(b, base, len) && base + len <= i + 1 && len > 0
      ensures base + len <= i
    {
    }
  }

  /** strlen (tmp + at) */
  method StrLen(tmp: array<char>, at: nat, ghost text: string) returns (len: nat)
    requires at + |text| < tmp.Length && NoNul(text)
    requires tmp[at..at + |text|] == text && tmp[at + |text|] == '\0'
    ensures len == |text|
  {
    len := 0;
    while tmp[at + len] != '\0'
      invariant len <= |text|
      decreases |text| - len
    {
      assert tmp[at + len] == tmp[at..at + |text|][len] || len == |text|;
      len := len + 1;
    }
  }

  /** *tp++ = ':' */
  method PutColon(tmp: array<char>, tp: nat, ghost rest: string, ghost whole: string) returns (end: nat)
    requires tp < tmp.Length && tmp[..tp] + (":" + rest) == whole
    modifies tmp
    ensures end == tp + 1 && tmp[..end] + rest == whole
  {
    tmp[tp] := ':';
    end := tp + 1;
    assert tmp[..end] == old(tmp[..tp]) + ":";
  }

  /** The formatting loop of inet_ntop6. */
  method Format(src: Address, best: Run, words: array<nat>, tmp: array<char>) returns (tp: nat)
    requires words.Length == 8 && forall k :: 0 <= k < 8 ==> words[k] == WordAt(src, k)
    requires tmp.Length == TEXT_SIZE
    modifies tmp
    ensures tp < TEXT_SIZE && tmp[..tp] == TextFrom(src, best, 0)
  {
    hide TextFrom, WordText, Dotted, Hex, EmbedsIpv4;
    TextLength(src, best, 0);
    tp := 0;
    var i := 0;
    ghost var whole := TextFrom(src, best, 0);
    ghost var rest := whole;
    while i < 8
      invariant i <= 8 && tp < TEXT_SIZE
      invariant rest == TextFrom(src, best, i)
      invariant tmp[..tp] + rest == whole
    {
      assert |tmp[..tp] + rest| == tp + |rest|;
      if best.base != -1 && i >= best.base && i < best.base + best.len {
        TextInRun(src, best, i);
        rest := TextFrom(src, best, i + 1);
        if i == best.base { tp := PutColon(tmp, tp, rest, whole); }
        i := i + 1;
      } else {
        TextOfWord(src, best, i);
        if i != 0 { tp := PutColon(tmp, tp, WordText(src, best, i), whole); }
        var embedded := IsEmbedded(src, best, i, words);
        if embedded {
          tp := FormatTail(src, best, tmp, tp);
          rest := "";
          break;
        }
        tp := FormatWord(src, best, i, words[i], tmp, tp, whole);
        i, rest := i + 1, TextFrom(src, best, i + 1);
      }
    }
    TextEnd(src, best);
    if best.base != -1 && best.base + best.len == 8 { tp := PutColon(tmp, tp, "", whole); }
    assert tmp[..tp] + "" == tmp[..tp];
  }

  /** sprintf (tp, "%x", word) */
  method FormatWord(src: Address, best: Run, i: nat, word: nat, tmp: array<char>, tp: nat, ghost whole: string)
    returns (end: nat)
    requires i < 8 && word == WordAt(src, i) && !EmbedsIpv4(src, best, i)
    requires tp <= tmp.Length == TEXT_SIZE && |whole| < TEXT_SIZE && tmp[..tp] + WordText(src, best, i) == whole
    modifies tmp
    ensures end < TEXT_SIZE && tmp[..end] + TextFrom(src, best, i + 1) == whole
  {
    hide TextFrom, WordText, Hex, WordAt, EmbedsIpv4;
    WordInHex(src, best, i);
    assert |tmp[..tp] + WordText(src, best, i)| == tp + |WordText(src, best, i)|;
    end := Put(tmp, tp, Hex(word));
    assert old(tmp[..tp]) + (Hex(word) + TextFrom(src, best, i + 1)) == tmp[..end] + TextFrom(src, best, i + 1);
  }

  /** Is this address an encapsulated IPv4? */
  method IsEmbedded(src: Address, best: Run, i: nat, words: array<nat>) returns (yes: bool)
    requires words.Length == 8 && forall k :: 0 <= k < 8 ==> words[k] == WordAt(src, k)
    ensures yes == EmbedsIpv4(src, best, i)
    ensures yes ==> i == 6 && best.base == 0 && best.len < 8
  {
    yes := i == 6 && best.base == 0 && (best.len == 6 || (best.len == 5 && words[5] == 0xffff));
  }

  /** The embedded IPv4 address: the size passed on is always large enough. */
  method FormatTail(src: Address, best: Run, tmp: array<char>, tp: nat) returns (end: nat)
    requires tmp.Length == TEXT_SIZE && EmbedsIpv4(src, best, 6)
    requires tp + |WordText(src, best, 6)| < TEXT_SIZE
    modifies tmp
    ensures end < TEXT_SIZE && tmp[..end] == old(tmp[..tp]) + WordText(src, best, 6)
  {
    hide Dotted;
    DottedLength(src[12..16]);
    DottedNoNul(src[12..16]);
    var fits, overrun := InetNtop4(src[12..16], tmp, tp, TEXT_SIZE - tp);
    var len := StrLen(tmp, tp, Dotted(src[12..16]));
    end := tp + len;
  }

  /** inet_ntop6: the compressed text and its NUL, or nothing when they do not fit; the
      local buffer of TEXT_SIZE bytes is never overrun. */
  method InetNtop6(src: Address, dst: array<char>, size: nat) returns (ok: bool, ghost best: Run)
    requires size <= dst.Length
    modifies dst
    ensures IsBestRun(src, best)
    ensures ok == (|TextFrom(src, best, 0)| + 1 <= size)
    ensures ok ==> |TextFrom(src, best, 0)| < dst.Length
                   && dst[..|TextFrom(src, best, 0)|] == TextFrom(src, best, 0) && dst[|TextFrom(src, best, 0)|] == '\0'
    ensures !ok ==> dst[..] == old(dst[..])
  {
    hide TextFrom, IsBestRun;
    var words := new nat[8];
    var run := FindBest(src, words);
    best := run;
    var tmp := new char[TEXT_SIZE];
    var tp := Format(src, run, words, tmp);
    tmp[tp] := '\0';
    tp := tp + 1;
    if tp > size { return false, best; }
    var _ := Put(dst, 0, tmp[..tp - 1]);
    assert dst[..0] == [];
    return true, best;
  }

  /** One turn of the loop of inet_pton4. */
  lemma Parse4Turn(s: string, v: seq<Byte>, sawDigit: bool, octets: nat)
    requires |v| == octets + if sawDigit then 0 else 1
    requires 0 < |v| && octets <= 4 && (octets == 4 ==> sawDigit)
    ensures s == [] || s[0] == '\0' ==> Parse4From(s, v, sawDigit, octets) == if octets < 4 then None else Some(v)
    ensures s != [] && '0' <= s[0] <= '9' ==>
      var new_ := Snd(v) * 10 + (s[0] as int - '0' as int);
      Parse4From(s, v, sawDigit, octets) ==
        if (sawDigit && Snd(v) == 0) || new_ > 255 || (!sawDigit && octets == 4) then None
        else Parse4From(s[1..], v[..|v| - 1] + [new_], true, if sawDigit then octets else octets + 1)
    ensures s != [] && s[0] == '.' && sawDigit ==>
      Parse4From(s, v, sawDigit, octets) == if octets == 4 then None else Parse4From(s[1..], v + [0], false, octets)
    ensures s != [] && s[0] != '\0' && !('0' <= s[0] <= '9') && !(s[0] == '.' && sawDigit) ==>
      Parse4From(s, v, sawDigit, octets).None?
  {
  }

  lemma Parse4Start(s: string)
    ensures Parse4(s) == Parse4From(s, [0], false, 0)
  {
  }

  /** inet_pton4, storing at dst + at. */
  method InetPton4(src: string, dst: array<Byte>, at: nat) returns (ok: bool)
    requires at + NS_INADDRSZ <= dst.Length
    modifies dst
    ensures ok == Parse4(src).Some?
    ensures ok ==> dst[at..at + NS_INADDRSZ] == Parse4(src).value
    ensures forall k :: 0 <= k < dst.Length && (ok ==> k < at || at + NS_INADDRSZ <= k) ==> dst[k] == old(dst[k])
  {
    hide Parse4From, Parse4;
    Parse4Start(src);
    var tmp := new Byte[NS_INADDRSZ];
    var sawDigit, octets, i, tp := false, 0, 0, 0;
    tmp[0] := 0;
    assert tmp[..1] == [0] && src[0..] == src;
    while CharAt(src, i) != '\0'
      modifies tmp
      invariant i <= |src| && tp < NS_INADDRSZ && octets <= 4 && (octets == 4 ==> sawDigit)
      invariant tp + 1 == octets + if sawDigit then 0 else 1
      invariant !sawDigit ==> tmp[tp] == 0
      invariant Parse4(src) == Parse4From(src[i..], tmp[..tp + 1], sawDigit, octets)
      decreases |src| - i
    {
      Parse4Turn(src[i..], tmp[..tp + 1], sawDigit, octets);
      var ch := src[i];
      i := i + 1;
      assert src[i - 1..][1..] == src[i..];
      if '0' <= ch <= '9' {
        var last: nat := tmp[tp];
        var new_ := last * 10 + (ch as int - '0' as int);
        if sawDigit && tmp[tp] == 0 { return false; }
        if new_ > 255 { return false; }
        ghost var before := tmp[..tp + 1];
        tmp[tp] := new_;
        assert tmp[..tp + 1] == before[..tp] + [new_];
        if !sawDigit {
          octets := octets + 1;
          if octets > 4 { return false; }
          sawDigit := true;
        }
      } else if ch == '.' && sawDigit {
        if octets == 4 { return false; }
        ghost var before := tmp[..tp + 1];
        tp := tp + 1;
        tmp[tp] := 0;
        assert tmp[..tp + 1] == before + [0];
        sawDigit := false;
      } else {
        return false;
      }
    }
    Parse4Turn(src[i..], tmp[..tp + 1], sawDigit, octets);
    if octets < 4 { return false; }
    assert tmp[..4] == tmp[..];
    forall k | 0 <= k < NS_INADDRSZ { dst[at + k] := tmp[k]; }
    assert dst[at..at + NS_INADDRSZ] == tmp[..];
    return true;
  }

  /** The overlapping shift at the end of inet_pton6: the n bytes from colon on move to the
      end of tmp, and zeros take their place. */
  method ShiftToEnd(tmp: array<Byte>, colon: nat, tp: nat)
    requires tmp.Length == NS_IN6ADDRSZ && colon <= tp < NS_IN6ADDRSZ
    requires forall k :: tp <= k < NS_IN6ADDRSZ ==> tmp[k] == 0
    modifies tmp
    ensures tmp[..] == old(tmp[..colon]) + Zeros(NS_IN6ADDRSZ - tp) + old(tmp[colon..tp])
  {
    hide Moved;
    ghost var before := tmp[..];
    NothingMoved(before, tp);
    var n := tp - colon;
    var i := 1;
    while i <= n
      invariant 1 <= i <= n + 1 && Moved(before, tmp[..], tp, i)
    {
      ghost var now := tmp[..];
      MovedStep(before, now, tp, i);
      tmp[NS_IN6ADDRSZ - i] := tmp[colon + n - i];
      tmp[colon + n - i] := 0;
      assert tmp[..] == now[NS_IN6ADDRSZ - i := now[tp - i]][tp - i := 0];
      i := i + 1;
    }
    Shifted(before, tmp[..], colon, tp);
    assert before[..colon] == old(tmp[..colon]) && before[colon..tp] == old(tmp[colon..tp]);
  }

  /** All but i - 1 of the bytes before tp are in their place, and these are at the end. */
  ghost predicate Moved(before: seq<Byte>, now: seq<Byte>, tp: nat, i: nat) {
    && |before| == |now| == NS_IN6ADDRSZ && tp < NS_IN6ADDRSZ && 1 <= i <= tp + 1
    && (forall k :: 0 <= k <= tp - i ==> now[k] == before[k])
    && (forall k :: tp - i < k <= NS_IN6ADDRSZ - i ==> now[k] == 0)
    && (forall k :: NS_IN6ADDRSZ - i < k < NS_IN6ADDRSZ ==> now[k] == before[k - (NS_IN6ADDRSZ - tp)])
  }

  lemma NothingMoved(before: seq<Byte>, tp: nat)
    requires |before| == NS_IN6ADDRSZ && tp < NS_IN6ADDRSZ
    requires forall k :: tp <= k < NS_IN6ADDRSZ ==> before[k] == 0
    ensures Moved(before, before, tp, 1)
  {
  }

  lemma MovedStep(before: seq<Byte>, now: seq<Byte>, tp: nat, i: nat)
    requires Moved(before, now, tp, i) && i <= tp
    ensures Moved(before, now[NS_IN6ADDRSZ - i := now[tp - i]][tp - i := 0], tp, i + 1)
  {
  }

  lemma Shifted(before: seq<Byte>, after: seq<Byte>, colon: nat, tp: nat)
    requires colon <= tp && Moved(before, after, tp, tp - colon + 1)
    ensures after == before[..colon] + Zeros(NS_IN6ADDRSZ - tp) + before[colon..tp]
  {
  }

  /** The two bytes of a word, stored by inet_pton6 at tp. */
  method StoreWord(tmp: array<Byte>, tp: nat, val: nat)
    requires tp + 2 <= tmp.Length && val < 0x10000
    modifies tmp
    ensures tmp[..tp + 2] == old(tmp[..tp]) + [val / 256, val % 256]
    ensures forall k :: tp + 2 <= k < tmp.Length ==> tmp[k] == old(tmp[k])
  {
    tmp[tp] := val / 256;
    tmp[tp + 1] := val % 256;
  }

  /** The loop of inet_pton6, from the text at `start`. */
  method Scan6(src: string, start: nat, tmp: array<Byte>)
    returns (ok: bool, tp: nat, colon: int, sawXdigit: bool, val: nat)
    requires start <= |src| && tmp.Length == NS_IN6ADDRSZ && tmp[..] == Zeros(NS_IN6ADDRSZ)
    modifies tmp
    ensures tp <= NS_IN6ADDRSZ && -1 <= colon <= tp && (ok ==> val < 0x10000)
    ensures ok ==> forall k :: tp <= k < NS_IN6ADDRSZ ==> tmp[k] == 0
    ensures Parse6From(src[start..], src[start..], [], -1, false, 0) ==
            if ok then Finish6(tmp[..tp], colon, sawXdigit, val) else None
  {
    hide Parse4, Finish6;
    tp, colon, sawXdigit, val := 0, -1, false, 0;
    var i: nat, tok: nat := start, start;
    while ToLower(CharAt(src, i)) != '\0'
      invariant start <= i <= |src| && tok <= |src| && tp <= NS_IN6ADDRSZ && -1 <= colon <= tp && val < 0x10000
      invariant forall k :: tp <= k < NS_IN6ADDRSZ ==> tmp[k] == 0
      invariant Parse6From(src[start..], src[start..], [], -1, false, 0)
             == Parse6From(src[i..], src[tok..], tmp[..tp], colon, sawXdigit, val)
      decreases |src| - i
    {
      var ch := ToLower(src[i]);
      i := i + 1;
      assert src[i - 1..][1..] == src[i..];
      var digit := HexValue(ch);
      if digit != -1 {
        if val * 16 + digit > 0xffff { return false, tp, colon, sawXdigit, val; }
        val, sawXdigit := val * 16 + digit, true;
        continue;
      }
      if ch == ':' {
        tok := i;
        if !sawXdigit {
          if colon != -1 { return false, tp, colon, sawXdigit, val; }
          colon := tp;
          continue;
        } else if CharAt(src, i) == '\0' {
          return false, tp, colon, sawXdigit, val;
        }
        if tp + 2 > NS_IN6ADDRSZ { return false, tp, colon, sawXdigit, val; }
        StoreWord(tmp, tp, val);
        tp, sawXdigit, val := tp + 2, false, 0;
        continue;
      }
      if ch == '.' && tp + NS_INADDRSZ <= NS_IN6ADDRSZ {
        ghost var before := tmp[..tp];
        var dotted := InetPton4(src[tok..], tmp, tp);
        if dotted {
          assert tmp[..tp + NS_INADDRSZ] == before + Parse4(src[tok..]).value;
          tp, sawXdigit := tp + NS_INADDRSZ, false;
          return true, tp, colon, sawXdigit, val;
        }
        assert tmp[..tp] == before;
      }
      return false, tp, colon, sawXdigit, val;
    }
    return true, tp, colon, sawXdigit, val;
  }

  /** inet_pton6: a text is accepted if and only if it is one of an address, which is then
      stored; dst is not touched otherwise. */
  method InetPton6(src: string, dst: array<Byte>) returns (ok: bool)
    requires dst.Length == NS_IN6ADDRSZ
    modifies dst
    ensures if ok then Denotes(CText(src), dst[..])
            else dst[..] == old(dst[..]) && forall b: seq<Byte> :: !Denotes(CText(src), b)
  {
    hide Parse6From, Finish6, Denotes;
    forall b: seq<Byte> ensures Parse6(src) == Some(b) <==> Denotes(CText(src), b) { Parse6Exact(src, b); }
    var tmp := new Byte[NS_IN6ADDRSZ](_ => 0);
    var start := 0;
    if CharAt(src, 0) == ':' {
      start := start + 1;
      if CharAt(src, 1) != ':' { return false; }
    }
    assert src[0..] == src;
    var scanned, tp, colon, sawXdigit, val := Scan6(src, start, tmp);
    ghost var read := if scanned then Finish6(tmp[..tp], colon, sawXdigit, val) else None;
    assert Parse6(src) == read;
    if !scanned { return false; }
    ok := FinishIn(tmp, tp, colon, sawXdigit, val);
    if ok {
      forall k | 0 <= k < NS_IN6ADDRSZ { dst[k] := tmp[k]; }
      assert dst[..] == tmp[..];
    }
    assert ok == read.Some? && (ok ==> dst[..] == read.value);
  }

  /** The end of inet_pton6: the pending word, and the expansion of "::". */
  method FinishIn(tmp: array<Byte>, tp0: nat, colon: int, sawXdigit: bool, val: nat) returns (ok: bool)
    requires tmp.Length == NS_IN6ADDRSZ && tp0 <= NS_IN6ADDRSZ && -1 <= colon <= tp0 && val < 0x10000
    requires forall k :: tp0 <= k < NS_IN6ADDRSZ ==> tmp[k] == 0
    modifies tmp
    ensures ok == Finish6(old(tmp[..tp0]), colon, sawXdigit, val).Some?
    ensures ok ==> tmp[..] == Finish6(old(tmp[..tp0]), colon, sawXdigit, val).value
  {
    var tp := tp0;
    if sawXdigit {
      if tp + 2 > NS_IN6ADDRSZ { return false; }
      StoreWord(tmp, tp, val);
      tp := tp + 2;
    }
    if colon != -1 {
      if tp == NS_IN6ADDRSZ { return false; }
      assert tmp[..tp][..colon] == tmp[..colon] && tmp[..tp][colon..] == tmp[colon..tp];
      ShiftToEnd(tmp, colon, tp);
      tp := NS_IN6ADDRSZ;
    }
    if tp != NS_IN6ADDRSZ { return false; }
    assert tmp[..tp] == tmp[..];
    return true;
  }
}
