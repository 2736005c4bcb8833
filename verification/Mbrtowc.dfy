/** Restartable decoding of UTF-8: mbrtowc on top of a decoder that cannot be restarted. */
module Mbrtowc {
  import opened Common

  // ------------------------------------------------------------------
  // UTF-8 (RFC 3629)

  type Scalar = c: int | 0 <= c < 0xd800 || 0xe000 <= c < 0x11_0000 witness 0

  /** Section 3 of RFC 3629: how a character is encoded. */
  function Encode(c: Scalar): (s: seq<Byte>)
    ensures 1 <= |s| <= 4
  {
    if c < 0x80 then [c]
    else if c < 0x800 then [0xc0 + c / 64, 0x80 + c % 64]
    else if c < 0x1_0000 then [0xe0 + c / 4096, 0x80 + c / 64 % 64, 0x80 + c % 64]
    else [0xf0 + c / 262144, 0x80 + c / 4096 % 64, 0x80 + c / 64 % 64, 0x80 + c % 64]
  }

  predicate Tail(b: Byte) {
    0x80 <= b < 0xc0
  }

  /** The second bytes that may follow a first byte of a three-byte or four-byte form. */
  predicate Second(b: Byte, b2: Byte) {
    Tail(b2) && (b == 0xe0 ==> 0xa0 <= b2) && (b == 0xed ==> b2 < 0xa0) && (b == 0xf0 ==> 0x90 <= b2)
        && (b == 0xf4 ==> b2 < 0x90)
  }

  function Value2(b: int, b2: int): int { (b - 0xc0) * 64 + (b2 - 0x80) }
  function Value3(b: int, b2: int, b3: int): int { (b - 0xe0) * 4096 + (b2 - 0x80) * 64 + (b3 - 0x80) }
  function Value4(b: int, b2: int, b3: int, b4: int): int {
    (b - 0xf0) * 262144 + (b2 - 0x80) * 4096 + (b3 - 0x80) * 64 + (b4 - 0x80)
  }

  /** mbtowc: the first character of p, by the grammar of section 4 of RFC 3629, and how
      many bytes it takes. */
  function MbToWc(p: seq<Byte>): (r: Option<(Scalar, nat)>)
    ensures r.Some? ==> 1 <= r.value.1 <= 4 && r.value.1 <= |p| && (r.value.0 == 0 ==> r.value.1 == 1)
  {
    if |p| >= 1 && p[0] < 0x80 then Some((p[0], 1))
    else if |p| >= 2 && 0xc2 <= p[0] < 0xe0 && Tail(p[1]) then
      Some((Value2(p[0], p[1]), 2))
    else if |p| >= 3 && 0xe0 <= p[0] < 0xf0 && Second(p[0], p[1]) && Tail(p[2]) then
      Some((Value3(p[0], p[1], p[2]), 3))
    else if |p| >= 4 && 0xf0 <= p[0] <= 0xf4 && Second(p[0], p[1]) && Tail(p[2]) && Tail(p[3]) then
      Some((Value4(p[0], p[1], p[2], p[3]), 4))
    else None
  }

  /** What the grammar accepts is an encoding. */
  lemma Decoded(p: seq<Byte>)
    requires MbToWc(p).Some?
    ensures var (c, len) := MbToWc(p).value; Encode(c) == p[..len]
  {
    var (c, len) := MbToWc(p).value;
    if len == 2 {
      Decoded2(p[0], p[1]);
    } else if len == 3 {
      Decoded3(p[0], p[1], p[2]);
    } else if len == 4 {
      Decoded4(p[0], p[1], p[2], p[3]);
    }
  }

  lemma Decoded2(b: Byte, b2: Byte)
    requires 0xc2 <= b < 0xe0 && Tail(b2)
    ensures Encode(Value2(b, b2)) == [b, b2]
  {
    Digits(b as int - 0xc0, b2 as int - 0x80, 0);
  }

  lemma Decoded3(b: Byte, b2: Byte, b3: Byte)
    requires 0xe0 <= b < 0xf0 && Second(b, b2) && Tail(b3)
    ensures var v := Value3(b, b2, b3); (0x800 <= v < 0xd800 || 0xe000 <= v < 0x1_0000) && Encode(v) == [b, b2, b3]
  {
    Range3(b, b2, b3);
    Digits(b as int - 0xe0, b2 as int - 0x80, b3 as int - 0x80);
  }

  lemma Range3(b: Byte, b2: Byte, b3: Byte)
    requires 0xe0 <= b < 0xf0 && Second(b, b2) && Tail(b3)
    ensures var v := Value3(b, b2, b3); 0x800 <= v < 0xd800 || 0xe000 <= v < 0x1_0000
  {
  }

  lemma Decoded4(b: Byte, b2: Byte, b3: Byte, b4: Byte)
    requires 0xf0 <= b <= 0xf4 && Second(b, b2) && Tail(b3) && Tail(b4)
    ensures var v := Value4(b, b2, b3, b4); 0x1_0000 <= v < 0x11_0000 && Encode(v) == [b, b2, b3, b4]
  {
    hide Encode;
    Range4(b, b2, b3, b4);
    Spell4(Value4(b, b2, b3, b4), b, b2, b3, b4) by {
      Digits4(b as int - 0xf0, b2 as int - 0x80, b3 as int - 0x80, b4 as int - 0x80);
    }
  }

  lemma Spell4(v: Scalar, b: Byte, b2: Byte, b3: Byte, b4: Byte)
    requires 0x1_0000 <= v && v / 262144 == b as int - 0xf0
    requires v / 4096 % 64 == b2 as int - 0x80 && v / 64 % 64 == b3 as int - 0x80 && v % 64 == b4 as int - 0x80
    ensures Encode(v) == [b, b2, b3, b4]
  {
  }

  lemma Range4(b: Byte, b2: Byte, b3: Byte, b4: Byte)
    requires 0xf0 <= b <= 0xf4 && Second(b, b2) && Tail(b3) && Tail(b4)
    ensures 0x1_0000 <= Value4(b, b2, b3, b4) < 0x11_0000
  {
  }

  /** Division by a power of 64 drops the lower digits. */
  lemma Carry(q: nat, r: nat)
    requires r < 64
    ensures (q * 64 + r) / 64 == q && (q * 64 + r) % 64 == r
  {
  }

  lemma Carry2(q: nat, r: nat)
    requires r < 4096
    ensures (q * 4096 + r) / 4096 == q
  {
  }

  lemma Carry3(q: nat, r: nat)
    requires r < 262144
    ensures (q * 262144 + r) / 262144 == q
  {
  }

  lemma Digits(a: nat, b: nat, c: nat)
    requires b < 64 && c < 64
    ensures (a * 64 + b) / 64 == a && (a * 64 + b) % 64 == b
    ensures var v := a * 4096 + b * 64 + c;
            v / 4096 == a && v / 64 == a * 64 + b && v % 64 == c
  {
    Carry(a, b);
    Carry2(a, b * 64 + c);
    assert a * 4096 + b * 64 + c == (a * 64 + b) * 64 + c;
    Carry(a * 64 + b, c);
  }

  lemma Digits4(a: nat, b: nat, c: nat, d: nat)
    requires b < 64 && c < 64 && d < 64
    ensures var v := a * 262144 + b * 4096 + c * 64 + d;
            && v / 262144 == a && v / 4096 == a * 64 + b && v / 64 == a * 4096 + b * 64 + c
            && v / 4096 % 64 == b && v / 64 % 64 == c && v % 64 == d
  {
    var v := a * 262144 + b * 4096 + c * 64 + d;
    Carry3(a, b * 4096 + c * 64 + d);
    assert v == (a * 64 + b) * 4096 + (c * 64 + d);
    Carry2(a * 64 + b, c * 64 + d);
    assert v == (a * 4096 + b * 64 + c) * 64 + d;
    Carry(a * 4096 + b * 64 + c, d);
    Carry(a, b);
    assert a * 4096 + b * 64 + c == (a * 64 + b) * 64 + c;
    Carry(a * 64 + b, c);
  }

  /** Every encoding is accepted. */
  lemma Encoded(c: Scalar, p: seq<Byte>)
    requires Encode(c) <= p
    ensures MbToWc(p) == Some((c, |Encode(c)|))
  {
    var e := Encode(c);
    assert forall k :: 0 <= k < |e| ==> p[k] == e[k];
    if c < 0x80 {
    } else if c < 0x800 {
      assert Value2(p[0], p[1]) == c;
    } else if c < 0x1_0000 {
      Sixtyfourths(c);
      assert Value3(p[0], p[1], p[2]) == c;
      assert Second(p[0], p[1]);
    } else {
      Sixtyfourths(c);
      assert Value4(p[0], p[1], p[2], p[3]) == c;
      assert Second(p[0], p[1]);
    }
  }

  lemma Division(c: nat) returns (q: nat, r: nat)
    ensures c == q * 64 + r && r < 64
  {
    q, r := c / 64, c % 64;
  }

  lemma Sixtyfourths(c: nat)
    ensures c == c / 4096 * 4096 + c / 64 % 64 * 64 + c % 64
    ensures c == c / 262144 * 262144 + c / 4096 % 64 * 4096 + c / 64 % 64 * 64 + c % 64
  {
    var q, d := Division(c);
    var q2, e := Division(q);
    var q3, f := Division(q2);
    Digits4(q3, f, e, d);
  }

  /** What mbtowc returns. */
  function MbToWcResult(p: seq<Byte>): int {
    match MbToWc(p)
    case None => -1
    case Some((c, len)) => if c == 0 then 0 else len
  }

  /** The beginning of some encoding, not yet the whole of it. */
  ghost predicate Unfinished(p: seq<Byte>) {
    exists c: Scalar :: p < Encode(c)
  }

  /** x ^ 0x80 */
  function FlipTop(b: Byte): Byte {
    if b >= 0x80 then b - 0x80 else b + 0x80
  }

  /** The UTF-8 case of mbrtowc, for p that mbtowc rejected. */
  predicate Incomplete(p: seq<Byte>)
    requires 1 <= |p| <= 3
  {
    var c, m := p[0], |p|;
    if c >= 0xc2 then
      if c < 0xe0 then m == 1
      else if c < 0xf0 then
        m == 1 || (m == 2 && FlipTop(p[1]) < 0x40 && (c >= 0xe1 || p[1] >= 0xa0) && (c != 0xed || p[1] < 0xa0))
      else if c <= 0xf4 then
        m == 1
        || (FlipTop(p[1]) < 0x40 && (c >= 0xf1 || p[1] >= 0x90) && (c < 0xf4 || (c == 0xf4 && p[1] < 0x90))
            && (m == 2 || FlipTop(p[2]) < 0x40))
      else false
    else false
  }

  /** Bytes that complete an incomplete character. */
  ghost function Rest(p: seq<Byte>): seq<Byte>
    requires 1 <= |p| <= 3
  {
    var second: seq<Byte> := if |p| > 1 then []
        else [if p[0] == 0xe0 then 0xa0 else if p[0] == 0xf0 then 0x90 else 0x80];
    if p[0] < 0xe0 then second
    else if p[0] < 0xf0 then second + [0x80]
    else second + if |p| == 3 then [0x80] else [0x80, 0x80]
  }

  /** The tests on the bytes tell exactly whether they begin some encoding. */
  lemma IncompleteExact(p: seq<Byte>)
    requires 1 <= |p| <= 3 && MbToWc(p).None?
    ensures Incomplete(p) <==> Unfinished(p)
  {
    if Incomplete(p) {
      var q := p + Rest(p);
      assert MbToWc(q).Some? && MbToWc(q).value.1 == |q|;
      Decoded(q);
      assert q[..|q|] == q;
      assert p < Encode(MbToWc(q).value.0);
    }
    if Unfinished(p) {
      var c: Scalar :| p < Encode(c);
      var e := Encode(c);
      Encoded(c, e);
      assert forall k :: 0 <= k < |p| ==> p[k] == e[k];
    }
  }

  /** A character stays the same character whatever follows it. */
  lemma CharacterStays(p: seq<Byte>, q: seq<Byte>)
    ensures MbToWc(p).Some? ==> MbToWc(p + q) == MbToWc(p)
  {
  }

  /** No encoding is a proper prefix of another. */
  lemma UnfinishedHasNone(p: seq<Byte>)
    requires Unfinished(p)
    ensures MbToWc(p).None?
  {
    var c: Scalar :| p < Encode(c);
    var e := Encode(c);
    Encoded(c, e);
    assert p + e[|p|..] == e;
    CharacterStays(p, e[|p|..]);
  }

  /** What begins with a character, or may yet, is a character already or unfinished. */
  lemma PrefixOfCharacter(p: seq<Byte>, q: seq<Byte>)
    requires MbToWc(p + q).Some?
    ensures MbToWc(p).Some? || Unfinished(p)
  {
    var (c, len) := MbToWc(p + q).value;
    Decoded(p + q);
    if len <= |p| {
      assert (p + q)[..len] == p[..len];
      Encoded(c, p);
    } else {
      assert (p + q)[..len][..|p|] == p;
      assert p < Encode(c);
    }
  }

  lemma PrefixOfUnfinished(p: seq<Byte>, q: seq<Byte>)
    requires Unfinished(p + q)
    ensures Unfinished(p)
  {
    var d: Scalar :| p + q < Encode(d);
    assert p < Encode(d);
  }

  // ------------------------------------------------------------------
  // mbrtowc

  /** An mbstate_t: its first byte counts the bytes carried over, which follow it. */
  class MbState {
    const pstate: array<Byte>

    ghost function Carried(): seq<Byte>
      requires pstate.Length == 4 && pstate[0] <= 3
      reads pstate
    {
      pstate[1..1 + pstate[0]]
    }

    /** What is carried over begins some encoding. The initial state carries nothing. */
    ghost predicate Valid()
      reads pstate
    {
      pstate.Length == 4 && pstate[0] <= 3 && (pstate[0] == 0 || Unfinished(Carried()))
    }

    constructor ()
      ensures Valid() && Carried() == [] && fresh(pstate)
    {
      pstate := new Byte[4](_ => 0);
    }

    /** The bytes mbtowc is shown: those carried over and enough of the input to make four;
        without any carried over, the whole input. */
    method Gather(s: seq<Byte>) returns (p: seq<Byte>)
      requires Valid() && s != []
      ensures p == Carried() + if pstate[0] == 0 || |s| <= 4 - pstate[0] then s else s[..4 - pstate[0]]
    {
      hide Unfinished;
      var nstate := pstate[0];
      if nstate == 0 { return s; }
      ghost var carried := Carried();
      assert carried[0] == pstate[1] && (nstate > 1 ==> carried[1] == pstate[2])
          && (nstate > 2 ==> carried[2] == pstate[3]);
      var buf := new Byte[4];
      if nstate == 3 { buf[2] := pstate[3]; }
      if nstate >= 2 { buf[1] := pstate[2]; }
      buf[0] := pstate[1];
      var m: nat := nstate;
      buf[m] := s[0];
      m := m + 1;
      if |s| >= 2 && m < 4 {
        buf[m] := s[1];
        m := m + 1;
        if |s| >= 3 && m < 4 {
          buf[m] := s[2];
          m := m + 1;
        }
      }
      p := buf[..m];
      Together(carried, s, p);
      WholeInput(s);
    }

    /** The bytes of the input are added to those carried over. */
    method CarryOver(s: seq<Byte>)
      requires pstate.Length == 4 && pstate[0] <= 3 && 1 <= |s| && pstate[0] + |s| <= 3
      modifies pstate
      ensures pstate[0] == old(pstate[0]) + |s| && Carried() == old(Carried()) + s
    {
      var nstate := pstate[0];
      var k, m: nat := nstate, nstate + |s|;
      k := k + 1;
      pstate[k] := s[0];
      if k < m {
        k := k + 1;
        pstate[k] := s[1];
        if k < m {
          k := k + 1;
          pstate[k] := s[2];
        }
      }
      if k != m { assert false; }
      pstate[0] := m;
      Together(old(Carried()), s, Carried());
      WholeInput(s);
    }

    /** mbrtowc, for a locale that uses UTF-8: -2 when all the bytes so far are unfinished,
        -1 when they begin no encoding, and otherwise the next character and how many
        bytes of the input it took, or 0 for a null character. A state that is none of
        its own makes any input an error. None of the three calls of abort is reached, one
        of them in CarryOver. */
    method MbRToWc(s: seq<Byte>) returns (ret: int, wc: Scalar)
      requires pstate.Length == 4 && (pstate[0] <= 3 ==> Valid())
      modifies pstate
      ensures old(pstate[0]) > 3 ==> ret == (if s == [] then -2 else -1) && pstate[..] == old(pstate[..])
      ensures old(pstate[0]) <= 3 ==> var all := old(Carried()) + s;
        if s == [] then ret == -2 && Valid() && Carried() == old(Carried())
        else if MbToWc(all).Some? then
          && wc == MbToWc(all).value.0 && Valid() && Carried() == []
          && ret == (if wc == 0 then 0 else MbToWc(all).value.1 - |old(Carried())|)
          && (wc == 0 ==> old(Carried()) == []) && |old(Carried())| < MbToWc(all).value.1
        else if Unfinished(all) then ret == -2 && Valid() && Carried() == all
        else ret == -1
    {
      wc := 0;
      if |s| == 0 { return -2, wc; }
      var nstate := pstate[0];
      if nstate > 3 { return -1, wc; }
      var p := Gather(s);
      var m := |p|;
      var res := MbToWcResult(p);
      Shown(Carried(), p, Carried() + s);
      if res >= 0 {
        wc := MbToWc(p).value.0;
        if (wc == 0) != (res == 0) { assert false; }
        if nstate >= (if res > 0 then res else 1) { assert false; }
        pstate[0] := 0;
        return res - nstate, wc;
      }
      if m >= 4 { return -1, wc; }
      if !Incomplete(p) { return -1, wc; }
      CarryOver(s);
      ret := -2;
    }
  }

  /** At most three bytes carried over, and then at most three of the input. */
  lemma Together(carried: seq<Byte>, s: seq<Byte>, p: seq<Byte>)
    requires |carried| <= 3 && |carried| <= |p| <= |carried| + |s| && |p| <= |carried| + 3
    requires (|carried| > 0 ==> p[0] == carried[0]) && (|carried| > 1 ==> p[1] == carried[1])
    requires |carried| > 2 ==> p[2] == carried[2]
    requires |p| > |carried| ==> p[|carried|] == s[0]
    requires |p| > |carried| + 1 ==> p[|carried| + 1] == s[1]
    requires |p| > |carried| + 2 ==> p[|carried| + 2] == s[2]
    ensures p == carried + s[..|p| - |carried|]
  {
  }

  lemma WholeInput(s: seq<Byte>)
    ensures s[..|s|] == s
  {
  }

  /** Four bytes are enough to tell, and a character that is found ends in the new bytes. */
  lemma Shown(carried: seq<Byte>, p: seq<Byte>, all: seq<Byte>)
    requires |carried| <= 3 && carried < p <= all && (|p| >= 4 || p == all)
    requires carried == [] || Unfinished(carried)
    ensures MbToWc(p) == MbToWc(all)
    ensures MbToWc(p).Some? ==> |carried| < MbToWc(p).value.1 && (MbToWc(p).value.0 == 0 ==> carried == [])
    ensures |p| >= 4 && MbToWc(p).None? ==> !Unfinished(all)
    ensures |p| < 4 && MbToWc(p).None? ==> (Incomplete(p) <==> Unfinished(all))
  {
    if |p| < 4 && MbToWc(p).None? { IncompleteExact(p); }
    if carried != [] { UnfinishedHasNone(carried); }
  }

  // ------------------------------------------------------------------
  // Streams

  /** How decoding ends: with what is left over, or at bytes that begin no encoding. */
  datatype Stop = AtEnd(rest: seq<Byte>) | AtError

  datatype Text = Text(chars: seq<Scalar>, stop: Stop)

  /** The characters of a stream, up to the first error. */
  ghost function Decode(s: seq<Byte>): Text {
    if MbToWc(s).Some? then
      var (c, len) := MbToWc(s).value;
      var t := Decode(s[len..]);
      Text([c] + t.chars, t.stop)
    else if s == [] || Unfinished(s) then Text([], AtEnd(s))
    else Text([], AtError)
  }

  function EncodeAll(chars: seq<Scalar>): seq<Byte> {
    if chars == [] then [] else Encode(chars[0]) + EncodeAll(chars[1..])
  }

  lemma NothingYet()
    ensures MbToWc([]).None?
  {
  }

  /** Decoding undoes encoding, of any text. */
  lemma {:induction false} DecodeEncoded(chars: seq<Scalar>, rest: seq<Byte>)
    requires rest == [] || Unfinished(rest)
    ensures Decode(EncodeAll(chars) + rest) == Text(chars, AtEnd(rest))
  {
    hide MbToWc, Encode;
    if chars == [] {
      assert EncodeAll(chars) + rest == rest;
      if rest != [] { UnfinishedHasNone(rest); } else { NothingYet(); }
    } else {
      var e, more := Encode(chars[0]), EncodeAll(chars[1..]) + rest;
      var s := EncodeAll(chars) + rest;
      assert s == e + more;
      Encoded(chars[0], s);
      assert s[|e|..] == more;
      DecodeEncoded(chars[1..], rest);
    }
  }

  /** What is decoded is the text that the stream encodes. */
  lemma {:induction false} DecodeMeaning(s: seq<Byte>)
    ensures Decode(s).stop.AtEnd? ==> s == EncodeAll(Decode(s).chars) + Decode(s).stop.rest
    ensures Decode(s).stop.AtError? ==> exists bad: seq<Byte> ::
      s == EncodeAll(Decode(s).chars) + bad && bad != [] && MbToWc(bad).None? && !Unfinished(bad)
  {
    hide MbToWc, Encode, Unfinished;
    if MbToWc(s).Some? {
      var (c, len) := MbToWc(s).value;
      Decoded(s);
      var t := Decode(s[len..]);
      DecodeMeaning(s[len..]);
      assert Decode(s).chars[1..] == t.chars;
      if t.stop.AtError? {
        var bad: seq<Byte> :| s[len..] == EncodeAll(t.chars) + bad && bad != [] && MbToWc(bad).None?
            && !Unfinished(bad);
        assert s == s[..len] + s[len..] == EncodeAll(Decode(s).chars) + bad;
      } else {
        assert s == s[..len] + s[len..] == EncodeAll(Decode(s).chars) + t.stop.rest;
      }
    } else if s == [] || Unfinished(s) {
    } else {
      assert s == EncodeAll([]) + s;
    }
  }

  /** Decoding a stream in two parts: what the first leaves over is carried to the second. */
  lemma {:induction false} DecodeAppend(a: seq<Byte>, b: seq<Byte>)
    ensures var first := Decode(a);
            Decode(a + b) == if first.stop.AtError? then first
                             else
                               var second := Decode(first.stop.rest + b);
                               Text(first.chars + second.chars, second.stop)
    decreases |a|
  {
    if MbToWc(a).Some? {
      var (_, len) := MbToWc(a).value;
      CharacterStays(a, b);
      assert (a + b)[len..] == a[len..] + b;
      DecodeAppend(a[len..], b);
    } else if a != [] && !Unfinished(a) {
      if MbToWc(a + b).Some? { PrefixOfCharacter(a, b); assert false; }
      if Unfinished(a + b) { PrefixOfUnfinished(a, b); assert false; }
    }
  }

  function Concat(chunks: seq<seq<Byte>>): seq<Byte> {
    if chunks == [] then [] else Concat(chunks[..|chunks| - 1]) + chunks[|chunks| - 1]
  }

  lemma ConcatSplit(chunks: seq<seq<Byte>>, i: nat)
    requires i < |chunks|
    ensures Concat(chunks[..i + 1]) == Concat(chunks[..i]) + chunks[i]
  {
    assert chunks[..i + 1][..i] == chunks[..i];
  }

  /** What follows an error does not matter. */
  lemma {:induction false} ConcatError(chunks: seq<seq<Byte>>, i: nat)
    requires i <= |chunks| && Decode(Concat(chunks[..i])).stop.AtError?
    ensures Decode(Concat(chunks)) == Decode(Concat(chunks[..i]))
    decreases |chunks| - i
  {
    if i < |chunks| {
      ConcatSplit(chunks, i);
      DecodeAppend(Concat(chunks[..i]), chunks[i]);
      ConcatError(chunks, i + 1);
    } else {
      assert chunks[..i] == chunks;
    }
  }

  /** The effect of one call on what has been decoded so far. */
  lemma OneCall(done: seq<Byte>, chars: seq<Scalar>, carried: seq<Byte>, input: seq<Byte>)
    requires Decode(done) == Text(chars, AtEnd(carried)) && input != []
    requires carried == [] || Unfinished(carried)
    ensures var all := carried + input;
      if MbToWc(all).Some? then
        var (c, len) := MbToWc(all).value;
        |carried| < len ==> Decode(done + input[..len - |carried|]) == Text(chars + [c], AtEnd([]))
      else Decode(done + input) == Text(chars, if Unfinished(all) then AtEnd(all) else AtError)
  {
    hide MbToWc, Encode, Decode, Unfinished;
    var all := carried + input;
    if MbToWc(all).Some? {
      var (c, len) := MbToWc(all).value;
      if |carried| < len {
        var used := input[..len - |carried|];
        assert carried + used == all[..len];
        DecodeAppend(done, used);
        OneCharacter(all);
      }
    } else {
      DecodeAppend(done, input);
      Stuck(all);
      assert chars + [] == chars;
    }
  }

  lemma OneCharacter(all: seq<Byte>)
    requires MbToWc(all).Some?
    ensures var (c, len) := MbToWc(all).value; Decode(all[..len]) == Text([c], AtEnd([]))
  {
    hide MbToWc, Encode, Decode;
    var (c, len) := MbToWc(all).value;
    Decoded(all);
    DecodeEncoded([c], []);
    assert EncodeAll([c]) + [] == Encode(c);
  }

  lemma Stuck(all: seq<Byte>)
    requires all != [] && MbToWc(all).None?
    ensures Decode(all) == Text([], if Unfinished(all) then AtEnd(all) else AtError)
  {
  }

  lemma CutAt(done: seq<Byte>, chunk: seq<Byte>, k: nat)
    requires k <= |chunk|
    ensures done + chunk[..k] + chunk[k..] == done + chunk
    ensures k == 0 ==> done + chunk[..k] == done
    ensures k == |chunk| ==> chunk[..k] == chunk
  {
  }

  lemma CutTwice(done: seq<Byte>, chunk: seq<Byte>, k: nat, used: nat)
    requires k + used <= |chunk|
    ensures done + chunk[..k] + chunk[k..][..used] == done + chunk[..k + used]
  {
  }

  /** One chunk, handed over to as many calls as it takes. */
  method DecodeChunk(state: MbState, chunk: seq<Byte>, before: seq<Scalar>, ghost done: seq<Byte>)
    returns (chars: seq<Scalar>, failed: bool)
    requires state.Valid() && Decode(done) == Text(before, AtEnd(state.Carried()))
    modifies state.pstate
    ensures !failed ==> state.Valid()
    ensures Decode(done + chunk) == Text(chars, if failed then AtError else AtEnd(state.Carried()))
  {
    hide Decode, MbToWc;
    chars, failed := before, false;
    var k := 0;
    CutAt(done, chunk, 0);
    while k < |chunk|
      invariant k <= |chunk| && state.Valid()
      invariant Decode(done + chunk[..k]) == Text(chars, AtEnd(state.Carried()))
    {
      ghost var carried, input := state.Carried(), chunk[k..];
      OneCall(done + chunk[..k], chars, carried, input);
      CutAt(done, chunk, k);
      var ret, wc := state.MbRToWc(chunk[k..]);
      if ret == -1 { return chars, true; }
      if ret == -2 { return chars, false; }
      var used := if ret > 0 then ret else 1;
      CutTwice(done, chunk, k, used);
      chars, k := chars + [wc], k + used;
    }
    CutAt(done, chunk, k);
  }

  /** A caller that hands over a stream in chunks, each to as many calls as it takes, gets
      the text of the stream, however it was cut. */
  method DecodeChunks(chunks: seq<seq<Byte>>) returns (chars: seq<Scalar>, failed: bool, left: seq<Byte>)
    ensures Decode(Concat(chunks)) == Text(chars, if failed then AtError else AtEnd(left))
  {
    var state := new MbState();
    chars, failed, left := [], false, [];
    var i := 0;
    assert chunks[..0] == [];
    while i < |chunks|
      invariant i <= |chunks| && state.Valid() && fresh(state.pstate) && left == state.Carried()
      invariant Decode(Concat(chunks[..i])) == Text(chars, AtEnd(left))
    {
      ConcatSplit(chunks, i);
      chars, failed := DecodeChunk(state, chunks[i], chars, Concat(chunks[..i]));
      if failed {
        ConcatError(chunks, i + 1);
        return chars, true, left;
      }
      left := state.pstate[1..1 + state.pstate[0]];
      i := i + 1;
    }
    assert chunks[..i] == chunks;
  }
}
