/** parse_dup_op: reading the bounds of a repetition and building its tree. */
module RegexInterval {
  import opened Common
  import opened RegexTree
  import opened RegexWalk
  import opened RegexGroups
  import opened RegexCompile
  import opened RegexRepeat

  datatype Kind =
    | CharacterKind | OpenDupNum | CloseDupNum | DupAsterisk | DupPlus | DupQuestion | EndOfPattern | OtherKind

  /** A token of the pattern, with the byte it was read from. */
  datatype PatternToken = PatternToken(kind: Kind, c: Byte)

  datatype Error = NoError | BadBraces | MissingBrace | TooBig

  const COMMA: Byte := 44
  const DIGIT_0: Byte := 48
  const DIGIT_9: Byte := 57

  function TokenAt(ts: seq<PatternToken>, pos: nat): PatternToken {
    if pos < |ts| then ts[pos] else PatternToken(EndOfPattern, 0)
  }

  predicate IsComma(tok: PatternToken) {
    tok.kind.CharacterKind? && tok.c == COMMA
  }

  predicate IsDigit(tok: PatternToken) {
    tok.kind.CharacterKind? && DIGIT_0 <= tok.c <= DIGIT_9
  }

  function Min(a: int, b: int): int {
    if a < b then a else b
  }

  /** One step of fetch_number. */
  function NextNumber(num: int, tok: PatternToken): int {
    if !IsDigit(tok) || num == ERROR then ERROR
    else if num == MISSING then tok.c - DIGIT_0
    else Min(RE_DUP_MAX + 1, num * 10 + tok.c - DIGIT_0)
  }

  /** fetch_number: the number, and where the token that ended it stands. */
  function Number(ts: seq<PatternToken>, pos: nat, num: int): (r: (int, nat))
    decreases |ts| - pos
  {
    if TokenAt(ts, pos).kind.EndOfPattern? then (ERROR, pos)
    else if ts[pos].kind.CloseDupNum? || ts[pos].c == COMMA then (num, pos)
    else Number(ts, pos + 1, NextNumber(num, ts[pos]))
  }

  datatype Operator = Bounds(lo: int, hi: int, stop: nat) | Literal | Bad(err: Error)

  /** The bounds in {m,n}, or why there are none.  `ordinary` is RE_INVALID_INTERVAL_ORD. */
  function ReadInterval(ts: seq<PatternToken>, pos: nat, ordinary: bool): Operator {
    var (num, i) := Number(ts, pos, MISSING);
    if num == MISSING && !IsComma(TokenAt(ts, i)) then Bad(BadBraces)
    else
      var start := if num == MISSING then 0 else num;
      var (end, j) :=
        if start == ERROR then (0, i)
        else if TokenAt(ts, i).kind.CloseDupNum? then (start, i)
        else if IsComma(TokenAt(ts, i)) then Number(ts, i + 1, MISSING)
        else (ERROR, i);
      if start == ERROR || end == ERROR then
        if ordinary then Literal
        else Bad(if TokenAt(ts, j).kind.EndOfPattern? then MissingBrace else BadBraces)
      else if (end != MISSING && start > end) || !TokenAt(ts, j).kind.CloseDupNum? then Bad(BadBraces)
      else if RE_DUP_MAX < (if end == MISSING then start else end) then Bad(TooBig)
      else Bounds(start, end, j)
  }

  /** What a repetition operator asks for.  `pos` is just after the operator token. */
  function ReadOperator(ts: seq<PatternToken>, pos: nat, op: Kind, ordinary: bool): Operator {
    if op.OpenDupNum? then ReadInterval(ts, pos, ordinary)
    else Bounds(if op.DupPlus? then 1 else 0, if op.DupQuestion? then 1 else MISSING, if pos > 0 then pos - 1 else 0)
  }

  // ------------------------------------------------------------------
  // What the digits mean

  /** The value of a string of decimal digits after `acc`. */
  function Value(ds: seq<nat>, acc: nat): nat {
    if ds == [] then acc else Value(ds[1..], acc * 10 + ds[0])
  }

  lemma {:induction false} ValueGrows(ds: seq<nat>, a: nat, b: nat)
    requires a <= b
    ensures a <= Value(ds, a) <= Value(ds, b)
  {
    if ds == [] {
    } else {
      ValueGrows(ds[1..], a * 10 + ds[0], b * 10 + ds[0]);
    }
  }

  /** The tokens from pos spell the digits ds and then something else. */
  ghost predicate Spells(ts: seq<PatternToken>, pos: nat, ds: seq<nat>) {
    && pos + |ds| < |ts|
    && forall k: nat :: k < |ds| ==> ds[k] <= 9 && ts[pos + k] == PatternToken(CharacterKind, DIGIT_0 + ds[k])
  }

  /** A numeral is read as its value, capped at RE_DUP_MAX + 1 however long it is. */
  lemma {:induction false} NumberIsValue(ts: seq<PatternToken>, pos: nat, ds: seq<nat>, num: int)
    requires Spells(ts, pos, ds)
    requires ts[pos + |ds|].kind.CloseDupNum? || IsComma(ts[pos + |ds|])
    requires num == MISSING || 0 <= num <= RE_DUP_MAX + 1
    ensures Number(ts, pos, num).1 == pos + |ds|
    ensures Number(ts, pos, num).0 ==
            if num == MISSING && ds == [] then MISSING
            else Min(RE_DUP_MAX + 1, Value(ds, if num == MISSING then 0 else num))
    decreases |ds|
  {
    if ds == [] {
    } else {
      var acc := if num == MISSING then 0 else num;
      var next := NextNumber(num, ts[pos]);
      assert ts[pos] == PatternToken(CharacterKind, DIGIT_0 + ds[0]);
      assert next == Min(RE_DUP_MAX + 1, acc * 10 + ds[0]);
      forall k: nat | k < |ds[1..]|
        ensures ds[1..][k] <= 9 && ts[pos + 1 + k] == PatternToken(CharacterKind, DIGIT_0 + ds[1..][k])
      {
        assert ds[1..][k] == ds[k + 1] && ts[pos + 1 + k] == ts[pos + (k + 1)];
      }
      NumberIsValue(ts, pos + 1, ds[1..], next);
      ValueGrows(ds[1..], next, acc * 10 + ds[0]);
    }
  }

  /** {m,n} is accepted with exactly those bounds if and only if m <= n <= RE_DUP_MAX;
      a bound that is too large is reported before a reversed pair. */
  lemma IntervalExact(ts: seq<PatternToken>, pos: nat, ms: seq<nat>, ns: seq<nat>, ordinary: bool)
    requires ms != [] && ns != []
    requires Spells(ts, pos, ms) && IsComma(ts[pos + |ms|])
    requires Spells(ts, pos + |ms| + 1, ns) && ts[pos + |ms| + 1 + |ns|].kind.CloseDupNum?
    ensures var m, n := Value(ms, 0), Value(ns, 0);
            ReadInterval(ts, pos, ordinary) ==
              if n > RE_DUP_MAX then Bad(TooBig)
              else if m > n then Bad(BadBraces)
              else Bounds(m, n, pos + |ms| + 1 + |ns|)
  {
    NumberIsValue(ts, pos, ms, MISSING);
    NumberIsValue(ts, pos + |ms| + 1, ns, MISSING);
  }

  /** {m} means {m,m}, {m,} has no upper bound, and {,n} starts from zero. */
  lemma IntervalShorthands(ts: seq<PatternToken>, pos: nat, ms: seq<nat>, ordinary: bool)
    requires ms != []
    ensures var m := Value(ms, 0);
            Spells(ts, pos, ms) && ts[pos + |ms|].kind.CloseDupNum? ==>
              ReadInterval(ts, pos, ordinary) == if m > RE_DUP_MAX then Bad(TooBig) else Bounds(m, m, pos + |ms|)
    ensures var m := Value(ms, 0);
            Spells(ts, pos, ms) && IsComma(ts[pos + |ms|]) && TokenAt(ts, pos + |ms| + 1).kind.CloseDupNum? ==>
              ReadInterval(ts, pos, ordinary) ==
                if m > RE_DUP_MAX then Bad(TooBig) else Bounds(m, MISSING, pos + |ms| + 1)
    ensures var n := Value(ms, 0);
            IsComma(TokenAt(ts, pos)) && Spells(ts, pos + 1, ms) && ts[pos + 1 + |ms|].kind.CloseDupNum? ==>
              ReadInterval(ts, pos, ordinary) ==
                if n > RE_DUP_MAX then Bad(TooBig) else Bounds(0, n, pos + 1 + |ms|)
  {
    if Spells(ts, pos, ms) && (ts[pos + |ms|].kind.CloseDupNum? || IsComma(ts[pos + |ms|])) {
      NumberIsValue(ts, pos, ms, MISSING);
      if TokenAt(ts, pos + |ms| + 1).kind.CloseDupNum? {
        NumberIsValue(ts, pos + |ms| + 1, [], MISSING);
      }
    }
    if IsComma(TokenAt(ts, pos)) && Spells(ts, pos + 1, ms) && ts[pos + 1 + |ms|].kind.CloseDupNum? {
      NumberIsValue(ts, pos, [], MISSING);
      NumberIsValue(ts, pos + 1, ms, MISSING);
    }
  }

  /** fetch_number stops here. */
  predicate Stops(tok: PatternToken) {
    tok.kind.EndOfPattern? || tok.kind.CloseDupNum? || tok.c == COMMA
  }

  /** The token at i is the first one from pos on that can end a number. */
  ghost predicate FirstStop(ts: seq<PatternToken>, pos: nat, i: nat) {
    pos <= i && Stops(TokenAt(ts, i)) && forall k: nat :: pos <= k < i ==> !Stops(TokenAt(ts, k))
  }

  ghost predicate AllDigits(ts: seq<PatternToken>, pos: nat, i: nat) {
    forall k: nat :: pos <= k < i ==> IsDigit(TokenAt(ts, k))
  }

  /** fetch_number stops at the first token that can end a number.  Nothing before it, and
      it is no number; digits alone, and they are one; anything else, or the end of the
      pattern, and it fails. */
  lemma NumberExact(ts: seq<PatternToken>, pos: nat)
    ensures var (num, i) := Number(ts, pos, MISSING);
            && FirstStop(ts, pos, i)
            && (num == MISSING <==> i == pos && !TokenAt(ts, i).kind.EndOfPattern?)
            && (num >= 0 <==> i > pos && !TokenAt(ts, i).kind.EndOfPattern?
                              && AllDigits(ts, pos, i))
            && (num < 0 ==> num == MISSING || num == ERROR)
  {
    NumberStops(ts, pos, MISSING);
  }

  lemma {:induction false} NumberStops(ts: seq<PatternToken>, pos: nat, num: int)
    requires num == ERROR || num == MISSING || 0 <= num
    ensures var (n, i) := Number(ts, pos, num);
            && FirstStop(ts, pos, i)
            && (n == MISSING <==> num == MISSING && i == pos && !TokenAt(ts, i).kind.EndOfPattern?)
            && (n >= 0 <==> (i > pos || num >= 0) && num != ERROR && !TokenAt(ts, i).kind.EndOfPattern?
                            && AllDigits(ts, pos, i))
            && (n < 0 ==> n == MISSING || n == ERROR)
    decreases |ts| - pos
  {
    if Stops(TokenAt(ts, pos)) {
    } else {
      NumberStops(ts, pos + 1, NextNumber(num, ts[pos]));
      assert TokenAt(ts, pos) == ts[pos];
    }
  }

  /** The bounds as they are written: '{m}', or '{m,n}' where either number may be left out. */
  datatype Written = Once(ms: seq<nat>) | Pair(ms: seq<nat>, ns: seq<nat>)

  ghost predicate WrittenAt(ts: seq<PatternToken>, pos: nat, f: Written, stop: nat) {
    match f
    case Once(ms) =>
      ms != [] && Spells(ts, pos, ms) && stop == pos + |ms| && ts[stop].kind.CloseDupNum?
    case Pair(ms, ns) =>
      && Spells(ts, pos, ms) && IsComma(ts[pos + |ms|])
      && Spells(ts, pos + |ms| + 1, ns) && stop == pos + |ms| + 1 + |ns| && ts[stop].kind.CloseDupNum?
  }

  function LowerBound(f: Written): nat {
    Value(f.ms, 0)
  }

  function UpperBound(f: Written): int {
    if f.Once? then Value(f.ms, 0) else if f.ns == [] then MISSING else Value(f.ns, 0)
  }

  /** What is written decides. */
  lemma WrittenRead(ts: seq<PatternToken>, pos: nat, f: Written, stop: nat, ordinary: bool)
    requires WrittenAt(ts, pos, f, stop)
    ensures var lo, hi := LowerBound(f), UpperBound(f);
            ReadInterval(ts, pos, ordinary) ==
              if RE_DUP_MAX < (if hi == MISSING then lo else hi) then Bad(TooBig)
              else if hi != MISSING && lo > hi then Bad(BadBraces)
              else Bounds(lo, hi, stop)
  {
    NumberIsValue(ts, pos, f.ms, MISSING);
    if f.Pair? { NumberIsValue(ts, pos + |f.ms| + 1, f.ns, MISSING); }
  }

  /** Digits up to a token that can end a number spell something. */
  lemma {:induction false} DigitsSpell(ts: seq<PatternToken>, pos: nat, stop: nat) returns (ds: seq<nat>)
    requires pos <= stop < |ts| && AllDigits(ts, pos, stop)
    ensures |ds| == stop - pos && Spells(ts, pos, ds)
    decreases stop - pos
  {
    if pos == stop {
      ds := [];
    } else {
      var rest := DigitsSpell(ts, pos + 1, stop);
      var tok := TokenAt(ts, pos);
      assert IsDigit(tok);
      ds := [tok.c - DIGIT_0] + rest;
      forall k: nat | k < |ds|
        ensures ds[k] <= 9 && ts[pos + k] == PatternToken(CharacterKind, DIGIT_0 + ds[k])
      {
        if k > 0 { assert ds[k] == rest[k - 1] && ts[pos + k] == ts[pos + 1 + (k - 1)]; }
      }
    }
  }

  /** Nothing else is taken for an interval. */
  lemma ReadWritten(ts: seq<PatternToken>, pos: nat, ordinary: bool) returns (f: Written, stop: nat)
    requires ReadInterval(ts, pos, ordinary).Bounds? || ReadInterval(ts, pos, ordinary) == Bad(TooBig)
    ensures WrittenAt(ts, pos, f, stop)
  {
    var (num, i) := Number(ts, pos, MISSING);
    NumberExact(ts, pos);
    ghost var j := Number(ts, i + 1, MISSING).1;
    NumberExact(ts, i + 1);
    hide Number, Spells;
    var ms := DigitsSpell(ts, pos, i);
    if TokenAt(ts, i).kind.CloseDupNum? {
      f, stop := Once(ms), i;
    } else {
      var ns := DigitsSpell(ts, i + 1, j);
      f, stop := Pair(ms, ns), j;
    }
  }

  /** An interval is read with certain bounds if and only if it is written with them, in
      order and not above RE_DUP_MAX. */
  lemma IntervalWritten(ts: seq<PatternToken>, pos: nat, ordinary: bool, lo: nat, hi: int, stop: nat)
    ensures ReadInterval(ts, pos, ordinary) == Bounds(lo, hi, stop) <==>
            && (exists f: Written :: WrittenAt(ts, pos, f, stop) && LowerBound(f) == lo && UpperBound(f) == hi)
            && (hi == MISSING || lo <= hi) && lo <= RE_DUP_MAX && hi <= RE_DUP_MAX
  {
    if ReadInterval(ts, pos, ordinary) == Bounds(lo, hi, stop) {
      var f, end := ReadWritten(ts, pos, ordinary);
      WrittenRead(ts, pos, f, end, ordinary);
    }
    forall f: Written | WrittenAt(ts, pos, f, stop) && LowerBound(f) == lo && UpperBound(f) == hi
      ensures ReadInterval(ts, pos, ordinary) ==
              if RE_DUP_MAX < (if hi == MISSING then lo else hi) then Bad(TooBig)
              else if hi != MISSING && lo > hi then Bad(BadBraces)
              else Bounds(lo, hi, stop)
    {
      WrittenRead(ts, pos, f, stop, ordinary);
    }
  }

  /** What goes wrong otherwise.  A number that is not one, or that the pattern does not
      end, makes '{' an ordinary character where the syntax says so.  '{}' and a third
      number are errors in every syntax. */
  lemma IntervalBroken(ts: seq<PatternToken>, pos: nat, ordinary: bool, i: nat, j: nat)
    requires FirstStop(ts, pos, i)
    ensures var r := ReadInterval(ts, pos, ordinary);
            && (TokenAt(ts, pos).kind.CloseDupNum? ==> r == Bad(BadBraces))
            && (TokenAt(ts, i).kind.EndOfPattern? ==> r == if ordinary then Literal else Bad(MissingBrace))
            && (!TokenAt(ts, i).kind.EndOfPattern? && !AllDigits(ts, pos, i) ==>
                  r == if ordinary then Literal else Bad(BadBraces))
    ensures AllDigits(ts, pos, i) && IsComma(TokenAt(ts, i)) && FirstStop(ts, i + 1, j) ==>
              var r := ReadInterval(ts, pos, ordinary);
              && (TokenAt(ts, j).kind.EndOfPattern? ==> r == if ordinary then Literal else Bad(MissingBrace))
              && (!TokenAt(ts, j).kind.EndOfPattern? && !AllDigits(ts, i + 1, j) ==>
                    r == if ordinary then Literal else Bad(BadBraces))
              && (!TokenAt(ts, j).kind.EndOfPattern? && AllDigits(ts, i + 1, j) && !TokenAt(ts, j).kind.CloseDupNum? ==>
                    r == Bad(BadBraces))
  {
    NumberExact(ts, pos);
    OneStop(ts, pos, i, Number(ts, pos, MISSING).1);
    if FirstStop(ts, i + 1, j) {
      NumberExact(ts, i + 1);
      OneStop(ts, i + 1, j, Number(ts, i + 1, MISSING).1);
    }
  }

  lemma OneStop(ts: seq<PatternToken>, pos: nat, i: nat, j: nat)
    requires FirstStop(ts, pos, i) && FirstStop(ts, pos, j)
    ensures i == j
  {
    if i < j {
      assert false;
    } else if j < i {
      assert false;
    }
  }

  /** The bounds read are always usable. */
  lemma BoundsOrdered(ts: seq<PatternToken>, pos: nat, op: Kind, ordinary: bool)
    ensures var r := ReadOperator(ts, pos, op, ordinary);
            r.Bounds? ==> 0 <= r.lo <= RE_DUP_MAX && (r.hi == MISSING || r.lo <= r.hi <= RE_DUP_MAX)
  {
    if op.OpenDupNum? {
      NumberRange(ts, pos, MISSING);
      var (num, i) := Number(ts, pos, MISSING);
      NumberRange(ts, i + 1, MISSING);
    }
  }

  lemma {:induction false} NumberRange(ts: seq<PatternToken>, pos: nat, num: int)
    requires num == ERROR || num == MISSING || 0 <= num
    ensures var n := Number(ts, pos, num).0; n == ERROR || n == MISSING || 0 <= n
    decreases |ts| - pos
  {
    if TokenAt(ts, pos).kind.EndOfPattern? {
    } else {
      NumberRange(ts, pos + 1, NextNumber(num, ts[pos]));
    }
  }

  // ------------------------------------------------------------------
  // The parser's methods

  /** re_string_t, already cut into tokens. */
  class ReString {
    const tokens: seq<PatternToken>
    var cur: nat

    /** fetch_token */
    method FetchToken() returns (token: PatternToken)
      modifies this
      ensures token == TokenAt(tokens, old(cur))
      ensures cur == if old(cur) < |tokens| then old(cur) + 1 else old(cur)
    {
      token := TokenAt(tokens, cur);
      if cur < |tokens| { cur := cur + 1; }
    }

    /** fetch_number */
    method FetchNumber() returns (num: int, token: PatternToken)
      modifies this
      ensures var (n, stop) := Number(tokens, old(cur), MISSING);
              num == n && token == TokenAt(tokens, stop) && cur == if stop < |tokens| then stop + 1 else stop
      ensures !token.kind.EndOfPattern? ==> cur > 0
    {
      num := MISSING;
      ghost var start := cur;
      while true
        invariant Number(tokens, cur, num) == Number(tokens, start, MISSING)
        decreases |tokens| - cur
      {
        token := FetchToken();
        assert cur == 0 ==> token.kind.EndOfPattern?;
        if token.kind.EndOfPattern? {
          return ERROR, token;
        }
        if token.kind.CloseDupNum? || token.c == COMMA {
          return;
        }
        num := if !token.kind.CharacterKind? || token.c < DIGIT_0 || DIGIT_9 < token.c || num == ERROR then ERROR
               else if num == MISSING then token.c - DIGIT_0
               else Min(RE_DUP_MAX + 1, num * 10 + token.c - DIGIT_0);
      }
    }

    /** The bounds of a repetition. */
    method FetchOperator(op: PatternToken, ordinary: bool) returns (r: Operator)
      requires 0 < cur <= |tokens|
      modifies this
      ensures r == ReadOperator(tokens, old(cur), op.kind, ordinary)
      ensures r.Bounds? ==> cur == if r.stop < |tokens| then r.stop + 1 else r.stop
      ensures r.Literal? ==> cur == old(cur)
    {
      if !op.kind.OpenDupNum? {
        return Bounds(if op.kind.DupPlus? then 1 else 0, if op.kind.DupQuestion? then 1 else MISSING, cur - 1);
      }
      var startIdx := cur;
      var end := 0;
      var start, token := FetchNumber();
      if start == MISSING {
        if token.kind.CharacterKind? && token.c == COMMA {
          start := 0;
        } else {
          return Bad(BadBraces);
        }
      }
      if start != ERROR {
        if token.kind.CloseDupNum? {
          end := start;
        } else if token.kind.CharacterKind? && token.c == COMMA {
          end, token := FetchNumber();
        } else {
          end := ERROR;
        }
      }
      if start == ERROR || end == ERROR {
        if !ordinary {
          return Bad(if token.kind.EndOfPattern? then MissingBrace else BadBraces);
        }
        cur := startIdx;
        return Literal;
      }
      if (end != MISSING && start > end) || !token.kind.CloseDupNum? {
        return Bad(BadBraces);
      }
      if RE_DUP_MAX < (if end == MISSING then start else end) {
        return Bad(TooBig);
      }
      ghost var (num, i) := Number(tokens, old(cur), MISSING);
      return Bounds(start, end, cur - 1);
    }
  }

  /** A tree r made from t stands in the storage; its groups are t's, in the same chains. */
  ghost predicate Built(h: Heap, h': Heap, tree: Ptr, r: Tree, t: Tree) {
    && Stands(h', tree, r) && ChainsWithin(r, t)
    && (t.Bin? ==> AppendedTo(h, h', t.id)) && (t.Nil? ==> h' == h)
  }

  /** w is made of `least` words of t or more. */
  ghost predicate Iterated(t: Tree, w: Word, least: nat) {
    exists k: nat :: least <= k && InPower(t, w, k)
  }

  /** What the bounds of '+', '?' and '*' mean. */
  lemma ShorthandWords(r: Tree, t: Tree)
    ensures IsRepeat(r, t, 1, MISSING) ==> forall w: Word :: InLang(r, w) <==> Iterated(t, w, 1)
    ensures IsRepeat(r, t, 0, 1) ==> forall w: Word :: InLang(r, w) <==> w == [] || InLang(t, w)
    ensures IsRepeat(r, t, 0, MISSING) ==> forall w: Word :: InLang(r, w) <==> Iterated(t, w, 0)
  {
    forall w: Word
      ensures Repeats(t, w, 0, 1) <==> w == [] || InLang(t, w)
    {
      OptionWords(t, w);
    }
  }

  lemma OptionWords(t: Tree, w: Word)
    ensures Repeats(t, w, 0, 1) <==> w == [] || InLang(t, w)
  {
    PowerOne(t, w);
    assert InPower(t, w, 0) <==> w == [];
    if Repeats(t, w, 0, 1) {
      var k: nat :| k <= 1 && InPower(t, w, k);
      assert k == 0 || k == 1;
    }
  }

  /** parse_dup_op: on success the new tree's language is the union of the powers of the
      operand's; a malformed interval is an error, or an ordinary '{' where the syntax
      says so, and leaves the tree alone. */
  method ParseDupOp(dfa: ReDfa, elem: Ptr, regexp: ReString, op: PatternToken, ordinary: bool, ghost t: Tree)
    returns (tree: Ptr, token: PatternToken, err: Error, ghost r: Tree)
    requires Stands(dfa.tree, elem, t) && 0 < regexp.cur <= |regexp.tokens|
    modifies dfa`tree, regexp
    ensures op.kind.DupPlus? ==> forall w: Word :: InLang(r, w) <==> Iterated(t, w, 1)
    ensures op.kind.DupQuestion? ==> forall w: Word :: InLang(r, w) <==> w == [] || InLang(t, w)
    ensures !op.kind.DupPlus? && !op.kind.DupQuestion? && !op.kind.OpenDupNum? ==>
              forall w: Word :: InLang(r, w) <==> Iterated(t, w, 0)
    ensures !op.kind.OpenDupNum? ==>
              && err == NoError && Built(old(dfa.tree), dfa.tree, tree, r, t)
              && token == TokenAt(regexp.tokens, old(regexp.cur))
              && regexp.cur == Min(old(regexp.cur) + 1, |regexp.tokens|)
    ensures op.kind.OpenDupNum? ==>
              match ReadInterval(regexp.tokens, old(regexp.cur), ordinary) {
                case Bounds(lo, hi, stop) =>
                  && err == NoError && 0 <= lo && IsRepeat(r, t, lo, hi)
                  && Built(old(dfa.tree), dfa.tree, tree, r, t)
                  && (lo == 0 && hi == 0 ==> dfa.tree == old(dfa.tree))
                  && token == TokenAt(regexp.tokens, stop + 1) && regexp.cur == Min(stop + 2, |regexp.tokens|)
                case Literal =>
                  && err == NoError && dfa.tree == old(dfa.tree) && tree == elem && r == t
                  && token == op.(kind := CharacterKind) && regexp.cur == old(regexp.cur)
                case Bad(e) =>
                  && err == e && dfa.tree == old(dfa.tree) && tree == NULL
              }
  {
    hide IsRepeat, ChainsWithin, Stands;
    BoundsOrdered(regexp.tokens, regexp.cur, op.kind, ordinary);
    var bounds := regexp.FetchOperator(op, ordinary);
    token, err, r := op, NoError, t;
    match bounds {
      case Bad(e) =>
        return NULL, token, e, Nil;
      case Literal =>
        return elem, op.(kind := CharacterKind), NoError, t;
      case Bounds(lo, hi, stop) =>
        token := regexp.FetchToken();
        tree, r := Repeat(dfa, elem, lo, hi, t);
        ShorthandWords(r, t);
    }
  }
}
