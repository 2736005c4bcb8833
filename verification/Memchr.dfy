/** Searching a buffer for a byte, a longword at a time. */
module Memchr {
  import opened Common

  /** sizeof (longword) */
  const WORD := 8

  /** The longword at index i of a buffer, on either kind of machine. */
  function Load(mem: seq<bv8>, i: nat, bigEndian: bool): bv64
    requires i + WORD <= |mem|
  {
    if bigEndian then
      Word(mem[i + 7], mem[i + 6], mem[i + 5], mem[i + 4], mem[i + 3], mem[i + 2], mem[i + 1], mem[i])
    else
      Word(mem[i], mem[i + 1], mem[i + 2], mem[i + 3], mem[i + 4], mem[i + 5], mem[i + 6], mem[i + 7])
  }

  function Xor(x: bv64, y: bv64): bv64 {
    x ^ y
  }

  /** A byte below the other bytes of a longword. */
  function Join(b: bv8, rest: bv64): bv64 {
    (b as bv64) | (rest << 8)
  }

  /** Eight bytes, the least significant first. */
  function Word(b0: bv8, b1: bv8, b2: bv8, b3: bv8, b4: bv8, b5: bv8, b6: bv8, b7: bv8): bv64 {
    Join(b0, Join(b1, Join(b2, Join(b3, Join(b4, Join(b5, Join(b6, Join(b7, 0))))))))
  }

  /** The test of the longword loop. */
  predicate ZeroTest(x: bv64, repeatedOne: bv64) {
    ((x - repeatedOne) & !x) & (repeatedOne << 7) != 0
  }

  const ONES: bv64 := 0x0101_0101_0101_0101

  /** Despite the borrows between bytes, the test tells exactly whether some byte is zero. */
  lemma ZeroTestExact(b0: bv8, b1: bv8, b2: bv8, b3: bv8, b4: bv8, b5: bv8, b6: bv8, b7: bv8)
    ensures ZeroTest(Word(b0, b1, b2, b3, b4, b5, b6, b7), ONES) <==>
            b0 == 0 || b1 == 0 || b2 == 0 || b3 == 0 || b4 == 0 || b5 == 0 || b6 == 0 || b7 == 0
  {
  }

  lemma XorWord(b0: bv8, b1: bv8, b2: bv8, b3: bv8, b4: bv8, b5: bv8, b6: bv8, b7: bv8, c: bv8)
    ensures Xor(Word(b0, b1, b2, b3, b4, b5, b6, b7), Word(c, c, c, c, c, c, c, c)) ==
            Word(b0 ^ c, b1 ^ c, b2 ^ c, b3 ^ c, b4 ^ c, b5 ^ c, b6 ^ c, b7 ^ c)
  {
    XorZeroWord();
    hide Join, Xor;
    var b, d := Join(b7, 0), Join(c, 0);
    XorJoin(b7, c, 0, 0);
    XorJoin(b6, c, b, d); b, d := Join(b6, b), Join(c, d);
    XorJoin(b5, c, b, d); b, d := Join(b5, b), Join(c, d);
    XorJoin(b4, c, b, d); b, d := Join(b4, b), Join(c, d);
    XorJoin(b3, c, b, d); b, d := Join(b3, b), Join(c, d);
    XorJoin(b2, c, b, d); b, d := Join(b2, b), Join(c, d);
    XorJoin(b1, c, b, d); b, d := Join(b1, b), Join(c, d);
    XorJoin(b0, c, b, d);
  }

  lemma XorZeroWord()
    ensures Xor(0, 0) == 0
  {
  }

  lemma XorJoin(b: bv8, c: bv8, x: bv64, y: bv64)
    ensures Xor(Join(b, x), Join(c, y)) == Join(b ^ c, Xor(x, y))
  {
  }

  lemma XorZero(b: bv8, c: bv8)
    ensures b ^ c == 0 <==> b == c
  {
  }

  /** After exclusive or with c in every byte, the test finds the bytes that are c. */
  lemma RepeatedTest(b0: bv8, b1: bv8, b2: bv8, b3: bv8, b4: bv8, b5: bv8, b6: bv8, b7: bv8, c: bv8)
    ensures ZeroTest(Xor(Word(b0, b1, b2, b3, b4, b5, b6, b7), Word(c, c, c, c, c, c, c, c)), ONES) <==>
            b0 == c || b1 == c || b2 == c || b3 == c || b4 == c || b5 == c || b6 == c || b7 == c
  {
    hide Word, ZeroTest, Xor;
    XorWord(b0, b1, b2, b3, b4, b5, b6, b7, c);
    ZeroTestExact(b0 ^ c, b1 ^ c, b2 ^ c, b3 ^ c, b4 ^ c, b5 ^ c, b6 ^ c, b7 ^ c);
    XorZero(b0, c); XorZero(b1, c); XorZero(b2, c); XorZero(b3, c);
    XorZero(b4, c); XorZero(b5, c); XorZero(b6, c); XorZero(b7, c);
  }

  /** The same for the longword at an index of a buffer, on either kind of machine. */
  lemma WordTest(mem: seq<bv8>, i: nat, bigEndian: bool, c: bv8)
    requires i + WORD <= |mem|
    ensures ZeroTest(Xor(Load(mem, i, bigEndian), Word(c, c, c, c, c, c, c, c)), ONES) <==>
            exists j :: i <= j < i + WORD && mem[j] == c
  {
    hide Word, ZeroTest, Xor;
    if bigEndian {
      RepeatedTest(mem[i + 7], mem[i + 6], mem[i + 5], mem[i + 4], mem[i + 3], mem[i + 2], mem[i + 1], mem[i], c);
    } else {
      RepeatedTest(mem[i], mem[i + 1], mem[i + 2], mem[i + 3], mem[i + 4], mem[i + 5], mem[i + 6], mem[i + 7], c);
    }
  }

  /** The auxiliary longwords: 1 in every byte, and c in every byte. */
  method Repeated(c: bv8) returns (repeatedOne: bv64, repeatedC: bv64)
    ensures repeatedOne == ONES && repeatedC == Word(c, c, c, c, c, c, c, c)
  {
    repeatedOne := 0x0101_0101;
    repeatedC := (c as bv64) | ((c as bv64) << 8);
    repeatedC := repeatedC | (repeatedC << 16);
    repeatedOne := repeatedOne | (repeatedOne << 31 << 1);
    repeatedC := repeatedC | (repeatedC << 31 << 1);
  }

  /** memchr, on a buffer at any address: the first of its n bytes that is c, converted to
      unsigned char, or none. */
  method MemChr(mem: seq<bv8>, address: nat, cIn: int, n: nat, bigEndian: bool) returns (r: Option<nat>)
    requires n <= |mem|
    ensures var c := (cIn % 256) as bv8;
      match r
      case Some(k) => k < n && mem[k] == c && forall j :: 0 <= j < k ==> mem[j] != c
      case None => forall j :: 0 <= j < n ==> mem[j] != c
  {
    hide Word, ZeroTest, Load, Xor;
    var c := (cIn % 256) as bv8;
    var left: nat, p: nat := n, 0;
    while left > 0 && (address + p) % WORD != 0
      invariant p + left == n
      invariant forall j :: 0 <= j < p ==> mem[j] != c
    {
      if mem[p] == c { return Some(p); }
      left, p := left - 1, p + 1;
    }
    var repeatedOne, repeatedC := Repeated(c);
    while left >= WORD
      invariant p + left == n
      invariant forall j :: 0 <= j < p ==> mem[j] != c
    {
      WordTest(mem, p, bigEndian, c);
      if ZeroTest(Xor(Load(mem, p, bigEndian), repeatedC), repeatedOne) { break; }
      p, left := p + WORD, left - WORD;
    }
    while left > 0
      invariant p + left == n
      invariant forall j :: 0 <= j < p ==> mem[j] != c
    {
      if mem[p] == c { return Some(p); }
      left, p := left - 1, p + 1;
    }
    return None;
  }
}
