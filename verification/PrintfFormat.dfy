/** What a printf format means: its directives, the types of its arguments, and which
    formats are rejected. */
module PrintfFormat {
  import opened Common

  // ------------------------------------------------------------------
  // Sizes

  const SIZE_MAX := 0xffff_ffff_ffff_ffff
  const ARG_NONE := SIZE_MAX

  type Size = n: nat | n <= SIZE_MAX

  /** xsum and xtimes: arithmetic that saturates. */
  function Xsum(a: nat, b: nat): Size { if a + b <= SIZE_MAX then a + b else SIZE_MAX }
  function Xtimes(a: nat, b: nat): Size { if a * b <= SIZE_MAX then a * b else SIZE_MAX }

  // ------------------------------------------------------------------
  // Lexical elements of a format

  /** The character at an index; a format ends with its NUL. */
  function At(s: string, i: nat): char {
    if i < |s| then s[i] else '\0'
  }

  predicate IsDigit(c: char) {
    '0' <= c <= '9'
  }

  function DigitValue(c: char): nat
    requires IsDigit(c)
  {
    c as int - '0' as int
  }

  function DigitsEnd(s: string, i: nat): (j: nat)
    ensures i <= j && (i <= |s| ==> j <= |s|)
    ensures forall k :: i <= k < j ==> IsDigit(At(s, k))
    ensures !IsDigit(At(s, j))
    decreases |s| - i
  {
    if IsDigit(At(s, i)) then DigitsEnd(s, i + 1) else i
  }

  /** The number written from i to j, as the loops compute it. */
  function Number(s: string, i: nat, j: nat): Size
    requires i <= j && forall k :: i <= k < j ==> IsDigit(At(s, k))
    decreases j
  {
    if i == j then 0 else Xsum(Xtimes(Number(s, i, j - 1), 10), DigitValue(At(s, j - 1)))
  }

  ghost function DecimalValue(s: string, i: nat, j: nat): nat
    requires i <= j && forall k :: i <= k < j ==> IsDigit(At(s, k))
    decreases j
  {
    if i == j then 0 else DecimalValue(s, i, j - 1) * 10 + DigitValue(At(s, j - 1))
  }

  /** Saturating at every step gives the saturated value. */
  lemma {:induction false} NumberSaturates(s: string, i: nat, j: nat)
    requires i <= j && forall k :: i <= k < j ==> IsDigit(At(s, k))
    ensures Number(s, i, j) == if DecimalValue(s, i, j) <= SIZE_MAX then DecimalValue(s, i, j) else SIZE_MAX
  {
    if i == j {
    } else {
      NumberSaturates(s, i, j - 1);
    }
  }

  /** "n$": the argument n, counted from 0. */
  datatype Position = NoPosition | BadPosition | Position(index: Size, next: nat)

  function PositionAt(s: string, i: nat): (p: Position)
    ensures p.Position? ==> i < p.next && p.index < ARG_NONE && (i <= |s| ==> p.next <= |s|) && At(s, p.next - 1) == '$'
  {
    var j := DigitsEnd(s, i);
    if i < j && At(s, j) == '$' then
      var n := Number(s, i, j);
      if n == 0 || n == SIZE_MAX then BadPosition else Position(n - 1, j + 1)
    else NoPosition
  }

  datatype Flag = FLAG_GROUP | FLAG_LEFT | FLAG_SHOWSIGN | FLAG_SPACE | FLAG_ALT | FLAG_ZERO | FLAG_LOCALIZED

  function FlagOf(c: char): Option<Flag> {
    if c == '\'' then Some(FLAG_GROUP)
    else if c == '-' then Some(FLAG_LEFT)
    else if c == '+' then Some(FLAG_SHOWSIGN)
    else if c == ' ' then Some(FLAG_SPACE)
    else if c == '#' then Some(FLAG_ALT)
    else if c == '0' then Some(FLAG_ZERO)
    else if c == 'I' then Some(FLAG_LOCALIZED)
    else None
  }

  function FlagsEnd(s: string, i: nat): (j: nat)
    ensures i <= j && (i <= |s| ==> j <= |s|)
    decreases |s| - i
  {
    if FlagOf(At(s, i)).Some? then FlagsEnd(s, i + 1) else i
  }

  function FlagsIn(s: string, i: nat, j: nat): set<Flag>
    requires i <= j
    decreases j
  {
    if i == j then {} else
      FlagsIn(s, i, j - 1) + if FlagOf(At(s, j - 1)).Some? then {FlagOf(At(s, j - 1)).value} else {}
  }

  /** flags |= bit, for a power of two. */
  function OrBit(flags: nat, bit: nat): nat
    requires bit > 0
  {
    if flags / bit % 2 == 0 then flags + bit else flags
  }

  /** The effect of a size specifier, where long, intmax_t, size_t and ptrdiff_t are of one
      size and int is smaller. */
  function AddSize(flags: nat, c: char): Option<nat> {
    if c == 'h' then Some(OrBit(flags, if flags % 2 == 0 then 1 else 2))
    else if c == 'L' then Some(OrBit(flags, 4))
    else if c == 'l' || c == 'j' || c == 'z' || c == 'Z' || c == 't' then Some(flags + 8)
    else None
  }

  function SizesEnd(s: string, i: nat): (j: nat)
    ensures i <= j && (i <= |s| ==> j <= |s|)
    decreases |s| - i
  {
    if AddSize(0, At(s, i)).Some? then SizesEnd(s, i + 1) else i
  }

  function SizeFlags(s: string, i: nat, j: nat): nat
    requires i <= j
    decreases j
  {
    if i == j then 0 else
      var flags := SizeFlags(s, i, j - 1);
      match AddSize(flags, At(s, j - 1)) case Some(f) => f case None => flags
  }

  datatype ArgType =
    | TYPE_NONE | TYPE_SCHAR | TYPE_UCHAR | TYPE_SHORT | TYPE_USHORT | TYPE_INT | TYPE_UINT
    | TYPE_LONGINT | TYPE_ULONGINT | TYPE_LONGLONGINT | TYPE_ULONGLONGINT | TYPE_DOUBLE | TYPE_LONGDOUBLE
    | TYPE_CHAR | TYPE_WIDE_CHAR | TYPE_STRING | TYPE_WIDE_STRING | TYPE_POINTER
    | TYPE_COUNT_SCHAR_POINTER | TYPE_COUNT_SHORT_POINTER | TYPE_COUNT_INT_POINTER
    | TYPE_COUNT_LONGINT_POINTER | TYPE_COUNT_LONGLONGINT_POINTER

  /** The width that size flags stand for. */
  datatype Width = Longest | Long | Shortest | Short | Plain

  function WidthOf(flags: nat): Width {
    if flags >= 16 || flags / 4 % 2 == 1 then Longest
    else if flags >= 8 then Long
    else if flags / 2 % 2 == 1 then Shortest
    else if flags % 2 == 1 then Short
    else Plain
  }

  /** The type of argument that a conversion takes; TYPE_NONE for "%%". */
  function TypeOf(c: char, flags: nat): Option<ArgType> {
    var w := WidthOf(flags);
    if c == 'd' || c == 'i' then
      Some(match w case Longest => TYPE_LONGLONGINT case Long => TYPE_LONGINT case Shortest => TYPE_SCHAR
                   case Short => TYPE_SHORT case Plain => TYPE_INT)
    else if c == 'o' || c == 'u' || c == 'x' || c == 'X' then
      Some(match w case Longest => TYPE_ULONGLONGINT case Long => TYPE_ULONGINT case Shortest => TYPE_UCHAR
                   case Short => TYPE_USHORT case Plain => TYPE_UINT)
    else if c == 'f' || c == 'F' || c == 'e' || c == 'E' || c == 'g' || c == 'G' || c == 'a' || c == 'A' then
      Some(if w == Longest then TYPE_LONGDOUBLE else TYPE_DOUBLE)
    else if c == 'c' then Some(if flags >= 8 then TYPE_WIDE_CHAR else TYPE_CHAR)
    else if c == 'C' then Some(TYPE_WIDE_CHAR)
    else if c == 's' then Some(if flags >= 8 then TYPE_WIDE_STRING else TYPE_STRING)
    else if c == 'S' then Some(TYPE_WIDE_STRING)
    else if c == 'p' then Some(TYPE_POINTER)
    else if c == 'n' then
      Some(match w case Longest => TYPE_COUNT_LONGLONGINT_POINTER case Long => TYPE_COUNT_LONGINT_POINTER
                   case Shortest => TYPE_COUNT_SCHAR_POINTER case Short => TYPE_COUNT_SHORT_POINTER
                   case Plain => TYPE_COUNT_INT_POINTER)
    else if c == '%' then Some(TYPE_NONE)
    else None
  }

  function Conversion(c: char): char {
    if c == 'C' then 'c' else if c == 'S' then 's' else c
  }

  // ------------------------------------------------------------------
  // The table of argument types

  /** The table once position n is in it. */
  function Padded(table: seq<ArgType>, n: nat): (t: seq<ArgType>)
    ensures |t| > n && |t| >= |table|
  {
    if n < |table| then table else table + seq(n + 1 - |table|, _ => TYPE_NONE)
  }

  /** Argument n is to have a type; none when it already has another. */
  function Registered(table: seq<ArgType>, n: nat, t: ArgType): (r: Option<seq<ArgType>>) {
    var padded := Padded(table, n);
    if padded[n] == TYPE_NONE then Some(padded[n := t])
    else if padded[n] == t then Some(padded)
    else None
  }

  // ------------------------------------------------------------------
  // One directive

  /** A null pointer into the format. */
  const NULL := -1

  datatype Directive = Directive(
    dirStart: nat, dirEnd: nat, flags: set<Flag>,
    widthStart: int, widthEnd: int, widthArgIndex: Size,
    precisionStart: int, precisionEnd: int, precisionArgIndex: Size,
    conversion: char, argIndex: Size)

  /** Where the parser stands: in the format, among the unnumbered arguments, and with the
      table so far. */
  datatype State = State(cp: nat, argPosn: Size, table: seq<ArgType>)

  /** An argument is consumed: the one whose position was given, or else the next one. */
  function Consume(st: State, index: Size, t: ArgType): (r: Option<(Size, State)>)
    ensures r.Some? ==> r.value.0 < ARG_NONE && r.value.1.cp == st.cp
  {
    var n := if index == ARG_NONE then st.argPosn else index;
    if n == ARG_NONE then None else
      match Registered(st.table, n, t)
      case None => None
      case Some(table) => Some((n, State(st.cp, if index == ARG_NONE then st.argPosn + 1 else st.argPosn, table)))
  }

  /** A width or a precision: where it starts and ends, and which argument gives it. */
  datatype Field = Field(start: int, end: int, argIndex: Size)

  /** The argument that '*' stands for, at cp just after the '*'. */
  function Star(s: string, st: State, start: nat): (r: Option<(Field, State)>)
    ensures r.Some? ==> r.value.0.start == start && r.value.0.end == st.cp && r.value.0.argIndex < ARG_NONE
    ensures r.Some? ==> st.cp <= r.value.1.cp && (st.cp <= |s| ==> r.value.1.cp <= |s|)
  {
    match PositionAt(s, st.cp)
    case BadPosition => None
    case NoPosition =>
      (match Consume(st, ARG_NONE, TYPE_INT)
       case None => None
       case Some((n, after)) => Some((Field(start, st.cp, n), after)))
    case Position(index, next) =>
      (match Consume(st.(cp := next), index, TYPE_INT)
       case None => None
       case Some((n, after)) => Some((Field(start, st.cp, n), after)))
  }

  function WidthAt(s: string, st: State): (r: Option<(Field, State)>)
    ensures r.Some? ==> st.cp <= r.value.1.cp && (st.cp <= |s| ==> r.value.1.cp <= |s|)
  {
    if At(s, st.cp) == '*' then Star(s, st.(cp := st.cp + 1), st.cp)
    else if IsDigit(At(s, st.cp)) then
      var end := DigitsEnd(s, st.cp);
      Some((Field(st.cp, end, ARG_NONE), st.(cp := end)))
    else Some((Field(NULL, NULL, ARG_NONE), st))
  }

  function PrecisionAt(s: string, st: State): (r: Option<(Field, State)>)
    ensures r.Some? ==> st.cp <= r.value.1.cp && (st.cp <= |s| ==> r.value.1.cp <= |s|)
  {
    if At(s, st.cp) != '.' then Some((Field(NULL, NULL, ARG_NONE), st))
    else if At(s, st.cp + 1) == '*' then Star(s, st.(cp := st.cp + 2), st.cp)
    else
      var end := DigitsEnd(s, st.cp + 1);
      Some((Field(st.cp, end, ARG_NONE), st.(cp := end)))
  }

  /** The position at the start of a directive. */
  function LeadAt(s: string, i: nat): (r: Option<(Size, nat)>)
    ensures r.Some? ==> i <= r.value.1 && (i <= |s| ==> r.value.1 <= |s|)
  {
    match PositionAt(s, i)
    case BadPosition => None
    case NoPosition => Some((ARG_NONE, i))
    case Position(index, next) => Some((index, next))
  }

  /** A directive and the type of its argument. */
  datatype Item = Item(dir: Directive, argType: ArgType)

  /** The end of a directive: size specifiers, the conversion, and its argument. */
  function ConversionAt(s: string, st: State, lead: Size): (r: Option<(char, Size, ArgType, State)>)
    ensures r.Some? ==> st.cp < r.value.3.cp && (st.cp <= |s| ==> r.value.3.cp <= |s|)
    ensures r.Some? ==> (r.value.2 == TYPE_NONE <==> r.value.1 == ARG_NONE)
  {
    var j := SizesEnd(s, st.cp);
    var c := At(s, j);
    match TypeOf(c, SizeFlags(s, st.cp, j))
    case None => None
    case Some(t) =>
      if t == TYPE_NONE then Some((c, ARG_NONE, t, st.(cp := j + 1)))
      else
        match Consume(st.(cp := j + 1), lead, t)
        case None => None
        case Some((n, after)) => Some((Conversion(c), n, t, after))
  }

  /** The directive whose '%' is just before cp. */
  function DirectiveAt(s: string, st: State): (r: Option<(Item, State)>)
    requires 0 < st.cp <= |s|
    ensures r.Some? ==> st.cp < r.value.1.cp <= |s|
    ensures r.Some? ==> r.value.0.dir.dirStart == st.cp - 1 && r.value.0.dir.dirEnd == r.value.1.cp
  {
    match LeadAt(s, st.cp)
    case None => None
    case Some((lead, i)) =>
      var j := FlagsEnd(s, i);
      match WidthAt(s, st.(cp := j))
      case None => None
      case Some((width, st1)) =>
        match PrecisionAt(s, st1)
        case None => None
        case Some((precision, st2)) =>
          match ConversionAt(s, st2, lead)
          case None => None
          case Some((c, n, t, st3)) =>
            Some((Item(Directive(st.cp - 1, st3.cp, FlagsIn(s, i, j),
                                 width.start, width.end, width.argIndex,
                                 precision.start, precision.end, precision.argIndex, c, n), t), st3))
  }

  // ------------------------------------------------------------------
  // The whole format

  /** printf_parse from a state on: the directives, the final table, and the end of the
      format. */
  datatype Parsed = Parsed(items: seq<Item>, table: seq<ArgType>, end: nat)

  function ParseFrom(s: string, st: State): (r: Option<Parsed>)
    requires st.cp <= |s|
    decreases |s| - st.cp
  {
    var c := At(s, st.cp);
    if c == '\0' then Some(Parsed([], st.table, st.cp))
    else if c != '%' then ParseFrom(s, st.(cp := st.cp + 1))
    else
      match DirectiveAt(s, st.(cp := st.cp + 1))
      case None => None
      case Some((item, after)) =>
        match ParseFrom(s, after)
        case None => None
        case Some(p) => Some(p.(items := [item] + p.items))
  }

  // ------------------------------------------------------------------
  // What a successful parse promises

  /** The end of a format. */
  function FormatEnd(s: string, i: nat): (e: nat)
    requires i <= |s|
    ensures i <= e <= |s| && At(s, e) == '\0'
    ensures forall k :: i <= k < e ==> s[k] != '\0'
    decreases |s| - i
  {
    if At(s, i) == '\0' then i else FormatEnd(s, i + 1)
  }

  /** No '%' from i to j, and no NUL either. */
  ghost predicate Literal(s: string, i: nat, j: nat) {
    i <= j <= |s| && forall k :: i <= k < j ==> s[k] != '%' && s[k] != '\0'
  }

  /** From i on, the directives follow each other, each starts at a '%', and what is between
      them and after the last is literal text. */
  ghost predicate Laid(s: string, items: seq<Item>, i: nat, end: nat)
    decreases |items|
  {
    if items == [] then Literal(s, i, end)
    else
      && Literal(s, i, items[0].dir.dirStart) && At(s, items[0].dir.dirStart) == '%'
      && items[0].dir.dirStart < items[0].dir.dirEnd
      && Laid(s, items[1..], items[0].dir.dirEnd, end)
  }

  lemma {:induction false} ParsedLaid(s: string, st: State)
    requires st.cp <= |s| && ParseFrom(s, st).Some?
    ensures var p := ParseFrom(s, st).value; p.end <= |s| && At(s, p.end) == '\0' && Laid(s, p.items, st.cp, p.end)
    decreases |s| - st.cp
  {
    var c := At(s, st.cp);
    if c == '\0' {
    } else if c != '%' {
      ParsedLaid(s, st.(cp := st.cp + 1));
      LaidBefore(s, ParseFrom(s, st).value.items, st.cp, ParseFrom(s, st).value.end);
    } else {
      var (item, after) := DirectiveAt(s, st.(cp := st.cp + 1)).value;
      ParsedLaid(s, after);
    }
  }

  lemma LaidBefore(s: string, items: seq<Item>, i: nat, end: nat)
    requires i < |s| && s[i] != '%' && s[i] != '\0' && Laid(s, items, i + 1, end)
    ensures Laid(s, items, i, end)
  {
  }

  /** Laid directives, pairwise: each ends before any later one begins. */
  lemma {:induction false} LaidOrdered(s: string, items: seq<Item>, i: nat, end: nat, j: nat, k: nat)
    requires Laid(s, items, i, end) && j < |items|
    ensures i <= items[j].dir.dirStart < items[j].dir.dirEnd <= end
    ensures j < k < |items| ==> items[j].dir.dirEnd <= items[k].dir.dirStart
    decreases |items|
  {
    if j == 0 {
      LaidEnds(s, items[1..], items[0].dir.dirEnd, end);
      if 0 < k < |items| { LaidOrdered(s, items[1..], items[0].dir.dirEnd, end, k - 1, k); }
    } else {
      LaidOrdered(s, items[1..], items[0].dir.dirEnd, end, j - 1, if k == 0 then 0 else k - 1);
    }
  }

  lemma {:induction false} LaidEnds(s: string, items: seq<Item>, i: nat, end: nat)
    requires Laid(s, items, i, end)
    ensures i <= end
  {
    if items == [] {
    } else {
      LaidEnds(s, items[1..], items[0].dir.dirEnd, end);
    }
  }

  /** A use of an argument: a position and the type it must have. */
  datatype Use = Use(index: Size, t: ArgType)

  /** The arguments a directive uses: for its width, its precision and its value, in the
      order in which they are consumed. */
  function UsesOf(item: Item): seq<Use> {
    (if item.dir.widthArgIndex != ARG_NONE then [Use(item.dir.widthArgIndex, TYPE_INT)] else [])
    + (if item.dir.precisionArgIndex != ARG_NONE then [Use(item.dir.precisionArgIndex, TYPE_INT)] else [])
    + (if item.dir.argIndex != ARG_NONE then [Use(item.dir.argIndex, item.argType)] else [])
  }

  function UsesIn(items: seq<Item>): seq<Use> {
    if items == [] then [] else UsesOf(items[0]) + UsesIn(items[1..])
  }

  /** The table after registering uses in turn. */
  function RegisterAll(table: seq<ArgType>, uses: seq<Use>): Option<seq<ArgType>>
    decreases |uses|
  {
    if uses == [] then Some(table)
    else match Registered(table, uses[0].index, uses[0].t)
         case None => None
         case Some(t) => RegisterAll(t, uses[1..])
  }

  /** A table is exactly what some uses ask for: every use is in it with its type, and every
      typed position, as well as its last one, is used. */
  ghost predicate Fits(table: seq<ArgType>, uses: seq<Use>) {
    && (forall u :: u in uses ==> u.index < |table| && table[u.index] == u.t && u.t != TYPE_NONE)
    && (forall n: Size :: n < |table| && table[n] != TYPE_NONE ==> Use(n, table[n]) in uses)
    && (table != [] ==> table[|table| - 1] != TYPE_NONE)
    && |table| <= SIZE_MAX
  }

  lemma RegisterFits(table: seq<ArgType>, uses: seq<Use>, u: Use)
    requires Fits(table, uses) && u.index < ARG_NONE && u.t != TYPE_NONE
    ensures Registered(table, u.index, u.t).Some? ==> Fits(Registered(table, u.index, u.t).value, uses + [u])
    ensures Registered(table, u.index, u.t).None? <==> exists v :: v in uses && v.index == u.index && v.t != u.t
  {
    var padded := Padded(table, u.index);
    PaddedEntries(table, u.index);
    if Registered(table, u.index, u.t).None? {
      assert Use(u.index, padded[u.index]) in uses;
    } else {
      FitsWith(table, uses, u, padded[u.index := u.t]);
    }
  }

  lemma PaddedIs(table: seq<ArgType>, n: nat, t: seq<ArgType>)
    requires |t| == if n < |table| then |table| else n + 1
    requires forall k :: 0 <= k < |t| ==> t[k] == if k < |table| then table[k] else TYPE_NONE
    ensures t == Padded(table, n)
  {
  }

  lemma RegisteredIs(table: seq<ArgType>, n: nat, t: ArgType)
    ensures Registered(table, n, t) ==
            if Padded(table, n)[n] == TYPE_NONE || Padded(table, n)[n] == t then Some(Padded(table, n)[n := t])
                else None
  {
    var padded := Padded(table, n);
    assert padded[n] == t ==> padded[n := t] == padded;
  }

  lemma PaddedEntries(table: seq<ArgType>, n: nat)
    ensures forall k :: 0 <= k < |Padded(table, n)| ==>
            Padded(table, n)[k] == if k < |table| then table[k] else TYPE_NONE
    ensures |Padded(table, n)| == |table| || |Padded(table, n)| == n + 1
  {
  }

  /** A table that differs from one that fits in the position registered. */
  lemma FitsWith(table: seq<ArgType>, uses: seq<Use>, u: Use, t: seq<ArgType>)
    requires Fits(table, uses) && u.index < ARG_NONE && u.t != TYPE_NONE
    requires |t| == (if |table| <= u.index then u.index + 1 else |table|)
    requires forall k :: 0 <= k < |t| ==>
      t[k] == if k == u.index then u.t else if k < |table| then table[k] else TYPE_NONE
    requires u.index < |table| ==> table[u.index] == TYPE_NONE || table[u.index] == u.t
    ensures Fits(t, uses + [u])
  {
  }

  lemma {:induction false} RegisterAllAppend(table: seq<ArgType>, uses: seq<Use>, more: seq<Use>)
    ensures RegisterAll(table, uses + more) ==
            match RegisterAll(table, uses) case None => None case Some(t) => RegisterAll(t, more)
    decreases |uses|
  {
    if uses == [] {
      assert uses + more == more;
    } else {
      assert (uses + more)[1..] == uses[1..] + more;
      match Registered(table, uses[0].index, uses[0].t) {
        case None =>
        case Some(t) => RegisterAllAppend(t, uses[1..], more);
      }
    }
  }

  ghost predicate Proper(uses: seq<Use>) {
    forall u :: u in uses ==> u.index < ARG_NONE && u.t != TYPE_NONE
  }

  /** Registering uses gives the table they ask for. */
  lemma {:induction false} RegisterAllFits(table: seq<ArgType>, before: seq<Use>, uses: seq<Use>)
    requires Fits(table, before) && Proper(uses) && RegisterAll(table, uses).Some?
    ensures Fits(RegisterAll(table, uses).value, before + uses)
    decreases |uses|
  {
    hide Fits, Registered;
    if uses == [] {
      assert before + uses == before;
    } else {
      assert uses[0] in uses;
      RegisterFits(table, before, uses[0]);
      assert before + uses == before + [uses[0]] + uses[1..];
      RegisterAllFits(Registered(table, uses[0].index, uses[0].t).value, before + [uses[0]], uses[1..]);
    }
  }

  /** Uses in the order in which unnumbered arguments are consumed. */
  ghost predicate InOrder(uses: seq<Use>, from: nat) {
    forall k :: 0 <= k < |uses| ==> uses[k].index == from + k
  }

  /** No character from i on is a '$'. */
  ghost predicate NoDollar(s: string, i: nat) {
    forall k :: i <= k < |s| ==> s[k] != '$'
  }

  /** What one part of a directive consumed: its uses are registered, and without a '$' they
      are the next arguments in order. */
  ghost predicate Consumed(s: string, st: State, after: State, uses: seq<Use>) {
    && RegisterAll(st.table, uses) == Some(after.table) && Proper(uses)
    && (NoDollar(s, st.cp) ==> InOrder(uses, st.argPosn) && after.argPosn == st.argPosn + |uses|)
  }

  lemma ConsumeOne(s: string, st: State, index: Size, t: ArgType, from: State)
    requires Consume(st, index, t).Some? && t != TYPE_NONE && from.table == st.table && from.argPosn == st.argPosn
    requires NoDollar(s, from.cp) ==> index == ARG_NONE
    ensures Consumed(s, from, Consume(st, index, t).value.1, [Use(Consume(st, index, t).value.0, t)])
  {
    var (n, after) := Consume(st, index, t).value;
    assert RegisterAll(after.table, []) == Some(after.table);
    assert [Use(n, t)][1..] == [];
  }

  lemma ConsumeThen(s: string, a: State, b: State, cp: nat, c: State, uses: seq<Use>, more: seq<Use>)
    requires Consumed(s, a, b, uses) && Consumed(s, b.(cp := cp), c, more) && a.cp <= cp
    ensures Consumed(s, a, c, uses + more)
  {
    RegisterAllAppend(a.table, uses, more);
  }

  lemma ConsumeNone(s: string, st: State, cp: nat)
    ensures Consumed(s, st, st.(cp := cp), [])
  {
  }

  function UseOfField(f: Field): seq<Use> {
    if f.argIndex != ARG_NONE then [Use(f.argIndex, TYPE_INT)] else []
  }

  lemma StarConsumes(s: string, st: State, start: nat, from: State)
    requires st.cp <= |s| && Star(s, st, start).Some? && from.table == st.table && from.argPosn == st.argPosn
            && from.cp <= st.cp
    ensures Consumed(s, from, Star(s, st, start).value.1, UseOfField(Star(s, st, start).value.0))
  {
    hide Consume, Consumed;
    match PositionAt(s, st.cp) {
      case NoPosition => ConsumeOne(s, st, ARG_NONE, TYPE_INT, from);
      case Position(index, next) => ConsumeOne(s, st.(cp := next), index, TYPE_INT, from);
    }
  }

  lemma WidthConsumes(s: string, st: State)
    requires st.cp <= |s| && WidthAt(s, st).Some?
    ensures Consumed(s, st, WidthAt(s, st).value.1, UseOfField(WidthAt(s, st).value.0))
  {
    hide Star, Consumed;
    if At(s, st.cp) == '*' {
      StarConsumes(s, st.(cp := st.cp + 1), st.cp, st);
    } else {
      ConsumeNone(s, st, WidthAt(s, st).value.1.cp);
    }
  }

  lemma PrecisionConsumes(s: string, st: State)
    requires st.cp <= |s| && PrecisionAt(s, st).Some?
    ensures Consumed(s, st, PrecisionAt(s, st).value.1, UseOfField(PrecisionAt(s, st).value.0))
  {
    hide Star, Consumed;
    if At(s, st.cp) == '.' && At(s, st.cp + 1) == '*' {
      StarConsumes(s, st.(cp := st.cp + 2), st.cp, st);
    } else {
      ConsumeNone(s, st, PrecisionAt(s, st).value.1.cp);
    }
  }

  lemma ConversionConsumes(s: string, st: State, lead: Size, cp: nat)
    requires ConversionAt(s, st, lead).Some? && (NoDollar(s, cp) ==> lead == ARG_NONE)
    ensures var (_, n, t, after) := ConversionAt(s, st, lead).value;
            Consumed(s, st.(cp := cp), after, if n != ARG_NONE then [Use(n, t)] else [])
  {
    hide Consume, Consumed, TypeOf, SizesEnd, SizeFlags;
    var j := SizesEnd(s, st.cp);
    var t := TypeOf(At(s, j), SizeFlags(s, st.cp, j)).value;
    if t == TYPE_NONE {
      ConsumeNone(s, st.(cp := cp), j + 1);
    } else {
      ConsumeOne(s, st.(cp := j + 1), lead, t, st.(cp := cp));
    }
  }

  lemma LeadNone(s: string, i: nat)
    requires i <= |s| && LeadAt(s, i).Some? && NoDollar(s, i)
    ensures LeadAt(s, i).value.0 == ARG_NONE
  {
  }

  lemma DirectiveConsumes(s: string, st: State)
    requires 0 < st.cp <= |s| && DirectiveAt(s, st).Some?
    ensures Consumed(s, st, DirectiveAt(s, st).value.1, UsesOf(DirectiveAt(s, st).value.0))
  {
    hide Consumed, LeadAt, WidthAt, PrecisionAt, ConversionAt, FlagsIn;
    var (item, after) := DirectiveAt(s, st).value;
    var (lead, i) := LeadAt(s, st.cp).value;
    if NoDollar(s, st.cp) { LeadNone(s, st.cp); }
    var st0 := st.(cp := FlagsEnd(s, i));
    var (width, st1) := WidthAt(s, st0).value;
    var (precision, st2) := PrecisionAt(s, st1).value;
    ConsumeNone(s, st, st0.cp);
    WidthConsumes(s, st0);
    ConsumeThen(s, st, st0, st0.cp, st1, [], UseOfField(width));
    PrecisionConsumes(s, st1);
    ConsumeThen(s, st, st1, st1.cp, st2, [] + UseOfField(width), UseOfField(precision));
    ConversionConsumes(s, st2, lead, st.cp);
    var (c, n, t, st3) := ConversionAt(s, st2, lead).value;
    ConsumeThen(s, st, st2, st.cp, st3, [] + UseOfField(width) + UseOfField(precision),
        if n != ARG_NONE then [Use(n, t)] else []);
    assert [] + UseOfField(width) + UseOfField(precision) + (if n != ARG_NONE then [Use(n, t)] else []) == UsesOf(item);
  }

  /** The final table registers the uses of all directives; and without a '$', they use the
      arguments one after the other. */
  lemma {:induction false} ParsedUses(s: string, st: State)
    requires st.cp <= |s| && ParseFrom(s, st).Some?
    ensures var p := ParseFrom(s, st).value;
            && RegisterAll(st.table, UsesIn(p.items)) == Some(p.table) && Proper(UsesIn(p.items))
            && (NoDollar(s, st.cp) ==> InOrder(UsesIn(p.items), st.argPosn))
    decreases |s| - st.cp
  {
    hide DirectiveAt, UsesOf, RegisterAll, Proper, InOrder, Consumed;
    var c := At(s, st.cp);
    if c == '\0' {
      UsesNone(st);
    } else if c != '%' {
      ParsedUses(s, st.(cp := st.cp + 1));
      NoDollarLater(s, st.cp, st.cp + 1);
    } else {
      var start := st.(cp := st.cp + 1);
      var (item, after) := DirectiveAt(s, start).value;
      DirectiveConsumes(s, start);
      ParsedUses(s, after);
      NoDollarLater(s, st.cp, start.cp);
      NoDollarLater(s, start.cp, after.cp);
      var p := ParseFrom(s, after).value;
      UsesNext(s, start, after, UsesOf(item), UsesIn(p.items), p.table);
      assert ([item] + p.items)[1..] == p.items;
    }
  }

  lemma UsesNone(st: State)
    ensures RegisterAll(st.table, []) == Some(st.table) && Proper([]) && InOrder([], st.argPosn)
  {
  }

  lemma NoDollarLater(s: string, i: nat, j: nat)
    requires i <= j
    ensures NoDollar(s, i) ==> NoDollar(s, j)
  {
  }

  /** The uses of a directive, and then those of the rest of the format. */
  lemma UsesNext(s: string, st: State, after: State, uses: seq<Use>, more: seq<Use>, table: seq<ArgType>)
    requires Consumed(s, st, after, uses)
    requires RegisterAll(after.table, more) == Some(table) && Proper(more)
    ensures RegisterAll(st.table, uses + more) == Some(table) && Proper(uses + more)
    ensures NoDollar(s, st.cp) && InOrder(more, after.argPosn) ==> InOrder(uses + more, st.argPosn)
  {
    RegisterAllAppend(st.table, uses, more);
  }

  /** printf_parse */
  function Parse(s: string): Option<Parsed> {
    ParseFrom(s, State(0, 0, []))
  }

  /** A successful parse: the directives lie in order with only literal text around them, up
      to the end of the format; and the table holds exactly the arguments they use, each
      with the type of all its uses. */
  lemma ParsedWell(s: string)
    requires Parse(s).Some?
    ensures var p := Parse(s).value;
            Laid(s, p.items, 0, p.end) && p.end <= |s| && At(s, p.end) == '\0' && Fits(p.table, UsesIn(p.items))
  {
    hide ParseFrom, Laid, Fits, RegisterAll, Proper, UsesIn;
    ParsedLaid(s, State(0, 0, []));
    ParsedUses(s, State(0, 0, []));
    var uses := UsesIn(Parse(s).value.items);
    NothingFits();
    RegisterAllFits([], [], uses);
    assert [] + uses == uses;
  }

  lemma NothingFits()
    ensures Fits([], [])
  {
  }

  ghost predicate AllTyped(table: seq<ArgType>) {
    forall n :: 0 <= n < |table| ==> table[n] != TYPE_NONE
  }

  /** A format without numbered arguments leaves no gap. */
  lemma UnnumberedFetchable(s: string)
    requires Parse(s).Some? && NoDollar(s, 0)
    ensures AllTyped(Parse(s).value.table) && |Parse(s).value.table| == |UsesIn(Parse(s).value.items)|
  {
    hide Fits, InOrder, AllTyped, UsesIn, ParseFrom;
    ParsedWell(s);
    ParsedUses(s, State(0, 0, []));
    OrderedFull(Parse(s).value.table, UsesIn(Parse(s).value.items));
  }

  lemma OrderedFull(table: seq<ArgType>, uses: seq<Use>)
    requires Fits(table, uses) && InOrder(uses, 0)
    ensures AllTyped(table) && |table| == |uses|
  {
    forall n | 0 <= n < |uses| ensures n < |table| && table[n] == uses[n].t && uses[n].t != TYPE_NONE {
      assert uses[n] in uses;
    }
    if uses != [] { assert uses[|uses| - 1] in uses; }
    if table != [] {
      var last := |table| - 1;
      assert Use(last, table[last]) in uses;
      var k :| 0 <= k < |uses| && uses[k] == Use(last, table[last]);
      assert k == last;
    }
  }

  // ------------------------------------------------------------------
  // Which formats are rejected

  /** What a part of the format asks for, told from its text alone: a type, for the argument
      with the position written there, or for the next one. */
  datatype Slot = Slot(position: Size, t: ArgType)

  /** The slots of a stretch of text and where it ends. */
  type Slots = Option<(seq<Slot>, nat)>

  function StarSlots(s: string, i: nat): Slots {
    match PositionAt(s, i)
    case BadPosition => None
    case NoPosition => Some(([Slot(ARG_NONE, TYPE_INT)], i))
    case Position(index, next) => Some(([Slot(index, TYPE_INT)], next))
  }

  function WidthSlots(s: string, i: nat): Slots {
    if At(s, i) == '*' then StarSlots(s, i + 1)
    else if IsDigit(At(s, i)) then Some(([], DigitsEnd(s, i)))
    else Some(([], i))
  }

  function PrecisionSlots(s: string, i: nat): Slots {
    if At(s, i) != '.' then Some(([], i))
    else if At(s, i + 1) == '*' then StarSlots(s, i + 2)
    else Some(([], DigitsEnd(s, i + 1)))
  }

  /** The conversion, known or not, behind its size specifiers. */
  function ConversionSlots(s: string, i: nat, lead: Size): (r: Slots)
    ensures r.Some? ==> i < r.value.1 && (i <= |s| ==> r.value.1 <= |s|)
  {
    var j := SizesEnd(s, i);
    match TypeOf(At(s, j), SizeFlags(s, i, j))
    case None => None
    case Some(t) => Some((if t == TYPE_NONE then [] else [Slot(lead, t)], j + 1))
  }

  /** One stretch of text and then another. */
  function Joined(a: Slots, b: Slots): Slots {
    if a.None? || b.None? then None else Some((a.value.0 + b.value.0, b.value.1))
  }

  function EndOf(a: Slots, i: nat): nat {
    if a.None? then i else a.value.1
  }

  /** The directive whose '%' is just before i. */
  function DirectiveSlots(s: string, i: nat): Slots {
    match LeadAt(s, i)
    case None => None
    case Some((lead, i0)) =>
      var width := WidthSlots(s, FlagsEnd(s, i0));
      var precision := PrecisionSlots(s, EndOf(width, i0));
      Joined(Joined(width, precision), ConversionSlots(s, EndOf(precision, i0), lead))
  }

  lemma DirectiveSlotsEnd(s: string, i: nat)
    requires i <= |s| && DirectiveSlots(s, i).Some?
    ensures i < DirectiveSlots(s, i).value.1 <= |s|
  {
    hide LeadAt, WidthSlots, PrecisionSlots, ConversionSlots, FlagsEnd;
    var (lead, i0) := LeadAt(s, i).value;
    var j := FlagsEnd(s, i0);
    WidthSlotsEnd(s, j);
    PrecisionSlotsEnd(s, EndOf(WidthSlots(s, j), i0));
  }

  lemma StarSlotsEnd(s: string, i: nat)
    requires i <= |s| && StarSlots(s, i).Some?
    ensures i <= StarSlots(s, i).value.1 <= |s|
  {
    hide Number, DigitsEnd;
  }

  lemma WidthSlotsEnd(s: string, i: nat)
    requires i <= |s| && WidthSlots(s, i).Some?
    ensures i <= WidthSlots(s, i).value.1 <= |s|
  {
    hide StarSlots;
    if At(s, i) == '*' { StarSlotsEnd(s, i + 1); }
  }

  lemma PrecisionSlotsEnd(s: string, i: nat)
    requires i <= |s| && PrecisionSlots(s, i).Some?
    ensures i <= PrecisionSlots(s, i).value.1 <= |s|
  {
    hide StarSlots;
    if At(s, i) == '.' && At(s, i + 1) == '*' { StarSlotsEnd(s, i + 2); }
  }

  /** The slots of all directives; none if a position is bad or a conversion unknown. */
  function FormatSlots(s: string, i: nat): Option<seq<Slot>>
    requires i <= |s|
    decreases |s| - i
  {
    hide DirectiveSlots;
    if At(s, i) == '\0' then Some([])
    else if At(s, i) != '%' then FormatSlots(s, i + 1)
    else
      match DirectiveSlots(s, i + 1)
      case None => None
      case Some((slots, next)) =>
        DirectiveSlotsEnd(s, i + 1);
        match FormatSlots(s, next)
        case None => None
        case Some(more) => Some(slots + more)
  }

  /** A type wanted of an argument. */
  datatype Demand = Demand(index: nat, t: ArgType)

  /** The slots without a position take the arguments from `next` on, one after the other. */
  function Demands(slots: seq<Slot>, next: nat): seq<Demand> {
    if slots == [] then []
    else if slots[0].position == ARG_NONE then [Demand(next, slots[0].t)] + Demands(slots[1..], next + 1)
    else [Demand(slots[0].position, slots[0].t)] + Demands(slots[1..], next)
  }

  /** Two types are wanted of one argument, or an argument that no size can number. */
  ghost predicate Unsound(ds: seq<Demand>) {
    exists d, e :: d in ds && e in ds && Clash(d, e)
  }

  ghost predicate Clash(d: Demand, e: Demand) {
    d.index >= ARG_NONE || (d.index == e.index && d.t != e.t)
  }

  /** Consuming the arguments of slots in turn. */
  function ConsumeAll(st: State, slots: seq<Slot>): Option<State>
    decreases |slots|
  {
    if slots == [] then Some(st)
    else match Consume(st, slots[0].position, slots[0].t)
         case None => None
         case Some((_, after)) => ConsumeAll(after, slots[1..])
  }

  /** The state once a stretch of text has been read. */
  function Past(st: State, a: Slots): Option<State> {
    match a
    case None => None
    case Some((slots, next)) =>
      match ConsumeAll(st, slots)
      case None => None
      case Some(after) => Some(after.(cp := next))
  }

  lemma {:induction false} ConsumeAllAppend(st: State, a: seq<Slot>, b: seq<Slot>)
    ensures ConsumeAll(st, a + b) ==
            match ConsumeAll(st, a) case None => None case Some(after) => ConsumeAll(after, b)
    decreases |a|
  {
    hide Consume;
    if a == [] {
      assert a + b == b;
    } else {
      assert (a + b)[1..] == a[1..] + b;
      match Consume(st, a[0].position, a[0].t) {
        case None =>
        case Some((_, after)) => ConsumeAllAppend(after, a[1..], b);
      }
    }
  }

  /** Only the cursor depends on the cursor. */
  lemma {:induction false} ConsumeAllMoved(st: State, cp: nat, slots: seq<Slot>)
    ensures ConsumeAll(st.(cp := cp), slots) ==
            match ConsumeAll(st, slots) case None => None case Some(after) => Some(after.(cp := cp))
    decreases |slots|
  {
    if slots == [] {
      assert ConsumeAll(st, slots) == Some(st);
    } else {
      ConsumeMoved(st, cp, slots[0].position, slots[0].t);
      hide Consume;
      match Consume(st, slots[0].position, slots[0].t) {
        case None =>
        case Some((_, after)) => ConsumeAllMoved(after, cp, slots[1..]);
      }
    }
  }

  lemma ConsumeMoved(st: State, cp: nat, index: Size, t: ArgType)
    ensures Consume(st.(cp := cp), index, t) ==
            match Consume(st, index, t) case None => None case Some((n, after)) => Some((n, after.(cp := cp)))
    ensures Consume(st, index, t).Some? ==> Consume(st, index, t).value.1.cp == st.cp
  {
  }

  lemma ConsumeAllOne(st: State, slot: Slot)
    ensures ConsumeAll(st, [slot]) ==
            match Consume(st, slot.position, slot.t) case None => None case Some((_, after)) => Some(after)
  {
    assert [slot][1..] == [];
  }

  /** Reading two stretches one after the other. */
  lemma PastJoined(st: State, a: Slots, b: Slots)
    ensures Past(st, Joined(a, b)) ==
            match Past(st, a) case None => None case Some(after) => Past(after, b)
  {
    hide ConsumeAll;
    if a.Some? && b.Some? {
      ConsumeAllAppend(st, a.value.0, b.value.0);
      match ConsumeAll(st, a.value.0) {
        case None =>
        case Some(after) => ConsumeAllMoved(after, a.value.1, b.value.0);
      }
    }
  }

  /** The state after a part of a directive. */
  function After<T>(r: Option<(T, State)>): Option<State> {
    if r.None? then None else Some(r.value.1)
  }

  lemma PastStar(s: string, st: State, cp: nat, start: nat)
    ensures After(Star(s, st.(cp := cp), start)) == Past(st, StarSlots(s, cp))
  {
    hide Consume, ConsumeAll;
    match PositionAt(s, cp) {
      case BadPosition =>
      case NoPosition =>
        ConsumeAllOne(st, Slot(ARG_NONE, TYPE_INT));
        ConsumeMoved(st, cp, ARG_NONE, TYPE_INT);
      case Position(index, next) =>
        ConsumeAllOne(st, Slot(index, TYPE_INT));
        ConsumeMoved(st, next, index, TYPE_INT);
    }
  }

  lemma PastNothing(st: State, i: nat)
    ensures Past(st, Some(([], i))) == Some(st.(cp := i))
  {
  }

  lemma PastWidth(s: string, st: State)
    ensures After(WidthAt(s, st)) == Past(st, WidthSlots(s, st.cp))
  {
    hide Star, StarSlots, Past;
    if At(s, st.cp) == '*' {
      PastStar(s, st, st.cp + 1, st.cp);
    } else {
      PastNothing(st, if IsDigit(At(s, st.cp)) then DigitsEnd(s, st.cp) else st.cp);
    }
  }

  lemma PastPrecision(s: string, st: State)
    ensures After(PrecisionAt(s, st)) == Past(st, PrecisionSlots(s, st.cp))
  {
    hide Star, StarSlots, Past;
    if At(s, st.cp) == '.' && At(s, st.cp + 1) == '*' {
      PastStar(s, st, st.cp + 2, st.cp);
    } else {
      PastNothing(st, if At(s, st.cp) == '.' then DigitsEnd(s, st.cp + 1) else st.cp);
    }
  }

  lemma PastConversion(s: string, st: State, lead: Size)
    ensures Past(st, ConversionSlots(s, st.cp, lead)) ==
            match ConversionAt(s, st, lead) case None => None case Some((_, _, _, after)) => Some(after)
  {
    hide Consume, ConsumeAll, TypeOf;
    var j := SizesEnd(s, st.cp);
    match TypeOf(At(s, j), SizeFlags(s, st.cp, j)) {
      case None =>
      case Some(t) =>
        PastNothing(st, j + 1);
        ConsumeAllOne(st, Slot(lead, t));
        ConsumeMoved(st, j + 1, lead, t);
    }
  }

  lemma PastDirective(s: string, st: State)
    requires 0 < st.cp <= |s|
    ensures After(DirectiveAt(s, st)) == Past(st, DirectiveSlots(s, st.cp))
  {
    hide LeadAt, WidthAt, PrecisionAt, ConversionAt, WidthSlots, PrecisionSlots, ConversionSlots, Joined, Past;
    match LeadAt(s, st.cp) {
      case None => PastLost(st);
      case Some((lead, i)) =>
        var st0 := st.(cp := FlagsEnd(s, i));
        var width := WidthSlots(s, st0.cp);
        var precision := PrecisionSlots(s, EndOf(width, i));
        PastJoined(st, Joined(width, precision), ConversionSlots(s, EndOf(precision, i), lead));
        PastJoined(st, width, precision);
        PastMoved(st, st0.cp, width);
        PastWidth(s, st0);
        if WidthAt(s, st0).Some? {
          var st1 := WidthAt(s, st0).value.1;
          PastCursor(st, width);
          PastPrecision(s, st1);
          if PrecisionAt(s, st1).Some? {
            var st2 := PrecisionAt(s, st1).value.1;
            PastCursor(st1, precision);
            PastConversion(s, st2, lead);
          }
        }
    }
  }

  lemma PastLost(st: State)
    ensures Past(st, None) == None
  {
  }

  lemma PastMoved(st: State, cp: nat, a: Slots)
    ensures Past(st.(cp := cp), a) == Past(st, a)
  {
    hide ConsumeAll;
    if a.Some? { ConsumeAllMoved(st, cp, a.value.0); }
  }

  lemma PastCursor(st: State, a: Slots)
    requires Past(st, a).Some?
    ensures a.Some? && Past(st, a).value.cp == a.value.1
  {
  }

  /** From any state on, parsing fails if the text does or an argument cannot be consumed. */
  lemma {:induction false} ParseConsumes(s: string, st: State)
    requires st.cp <= |s|
    ensures ParseFrom(s, st).None? <==>
            FormatSlots(s, st.cp).None? || ConsumeAll(st, FormatSlots(s, st.cp).value).None?
    decreases |s| - st.cp
  {
    hide DirectiveAt, DirectiveSlots, ConsumeAll;
    if At(s, st.cp) == '\0' {
      ConsumeNothing(st);
    } else if At(s, st.cp) != '%' {
      ParseConsumes(s, st.(cp := st.cp + 1));
      if FormatSlots(s, st.cp + 1).Some? { ConsumeAllMoved(st, st.cp + 1, FormatSlots(s, st.cp + 1).value); }
    } else {
      var start := st.(cp := st.cp + 1);
      PastDirective(s, start);
      if DirectiveSlots(s, start.cp).Some? {
        var (slots, next) := DirectiveSlots(s, start.cp).value;
        DirectiveSlotsEnd(s, start.cp);
        ConsumeAllMoved(st, start.cp, slots);
        if DirectiveAt(s, start).Some? { ParseConsumes(s, DirectiveAt(s, start).value.1); }
        if FormatSlots(s, next).Some? {
          var more := FormatSlots(s, next).value;
          ConsumeAllAppend(st, slots, more);
          if ConsumeAll(st, slots).Some? { ConsumeAllMoved(ConsumeAll(st, slots).value, next, more); }
        }
      }
    }
  }

  lemma ConsumeNothing(st: State)
    ensures ConsumeAll(st, []) == Some(st)
  {
  }

  /** The table is what has been demanded so far. */
  ghost predicate Records(table: seq<ArgType>, ds: seq<Demand>) {
    && (forall d :: d in ds ==> d.index < |table| && d.index < ARG_NONE && table[d.index] == d.t && d.t != TYPE_NONE)
    && (forall n: nat :: n < |table| && table[n] != TYPE_NONE ==> Demand(n, table[n]) in ds)
  }

  lemma RegisterRecords(table: seq<ArgType>, ds: seq<Demand>, d: Demand)
    requires Records(table, ds) && d.index < ARG_NONE && d.t != TYPE_NONE
    ensures Registered(table, d.index, d.t).Some? ==> Records(Registered(table, d.index, d.t).value, ds + [d])
    ensures Registered(table, d.index, d.t).None? ==> exists e :: e in ds && Clash(d, e)
  {
    var padded := Padded(table, d.index);
    if Registered(table, d.index, d.t).None? {
      assert Demand(d.index, padded[d.index]) in ds && Clash(d, Demand(d.index, padded[d.index]));
    }
  }

  lemma RecordsSound(table: seq<ArgType>, ds: seq<Demand>)
    requires Records(table, ds)
    ensures !Unsound(ds)
  {
  }

  lemma UnsoundLater(ds: seq<Demand>, more: seq<Demand>)
    requires Unsound(ds)
    ensures Unsound(ds + more)
  {
    var d, e :| d in ds && e in ds && Clash(d, e);
    assert d in ds + more && e in ds + more;
  }

  lemma {:induction false} ConsumeAllExact(st: State, ds: seq<Demand>, slots: seq<Slot>)
    requires Records(st.table, ds) && forall x :: x in slots ==> x.t != TYPE_NONE
    ensures ConsumeAll(st, slots).None? <==> Unsound(ds + Demands(slots, st.argPosn))
    decreases |slots|
  {
    hide Records, Registered, Unsound;
    if slots == [] {
      assert ds + Demands(slots, st.argPosn) == ds;
      RecordsSound(st.table, ds);
    } else {
      var x := slots[0];
      var n := if x.position == ARG_NONE then st.argPosn else x.position;
      var d := Demand(n, x.t);
      var next := if x.position == ARG_NONE then st.argPosn + 1 else st.argPosn;
      assert x in slots;
      assert ds + Demands(slots, st.argPosn) == (ds + [d]) + Demands(slots[1..], next);
      if n == ARG_NONE {
        UnsoundNow(ds, d, d);
        UnsoundLater(ds + [d], Demands(slots[1..], next));
      } else {
        RegisterRecords(st.table, ds, d);
        match Registered(st.table, n, x.t) {
          case None =>
            var e :| e in ds && Clash(d, e);
            UnsoundNow(ds, d, e);
            UnsoundLater(ds + [d], Demands(slots[1..], next));
          case Some(table) => ConsumeAllExact(State(st.cp, next, table), ds + [d], slots[1..]);
        }
      }
    }
  }

  lemma UnsoundNow(ds: seq<Demand>, d: Demand, e: Demand)
    requires (e in ds || e == d) && Clash(d, e)
    ensures Unsound(ds + [d])
  {
    assert d in ds + [d] && e in ds + [d];
  }

  lemma {:induction false} SlotsTyped(s: string, i: nat)
    requires i <= |s| && FormatSlots(s, i).Some?
    ensures forall x :: x in FormatSlots(s, i).value ==> x.t != TYPE_NONE
    decreases |s| - i
  {
    if At(s, i) == '\0' {
    } else if At(s, i) != '%' {
      SlotsTyped(s, i + 1);
    } else {
      DirectiveSlotsTyped(s, i + 1);
      DirectiveSlotsEnd(s, i + 1);
      hide DirectiveSlots;
      SlotsTyped(s, DirectiveSlots(s, i + 1).value.1);
    }
  }

  lemma DirectiveSlotsTyped(s: string, i: nat)
    requires DirectiveSlots(s, i).Some?
    ensures forall x :: x in DirectiveSlots(s, i).value.0 ==> x.t != TYPE_NONE
  {
    hide PositionAt, TypeOf, SizeFlags;
  }

  /** A format is rejected if and only if one of its directives has a bad position or an
      unknown conversion, or the directives want two types of one argument, or more
      arguments than a size can number. */
  lemma RejectedExactly(s: string)
    ensures Parse(s).None? <==> FormatSlots(s, 0).None? || Unsound(Demands(FormatSlots(s, 0).value, 0))
  {
    hide ParseFrom, FormatSlots, Unsound, Demands;
    var st := State(0, 0, []);
    ParseConsumes(s, st);
    if FormatSlots(s, 0).Some? {
      var slots := FormatSlots(s, 0).value;
      SlotsTyped(s, 0);
      ConsumeAllExact(st, [], slots);
      assert [] + Demands(slots, 0) == Demands(slots, 0);
    }
  }

  // ------------------------------------------------------------------
  // The text of a directive

  lemma WidthText(s: string, st: State)
    requires st.cp <= |s| && WidthAt(s, st).Some?
    ensures var (f, after) := WidthAt(s, st).value;
      if f.start == NULL then f.end == NULL && f.argIndex == ARG_NONE
      else
        && f.start == st.cp < f.end <= after.cp
        && if f.argIndex != ARG_NONE then At(s, f.start) == '*' && f.end == f.start + 1
           else forall k :: f.start <= k < f.end ==> IsDigit(At(s, k))
  {
    hide Consume, PositionAt;
  }

  lemma PrecisionText(s: string, st: State)
    requires st.cp <= |s| && PrecisionAt(s, st).Some?
    ensures var (f, after) := PrecisionAt(s, st).value;
      if f.start == NULL then f.end == NULL && f.argIndex == ARG_NONE
      else
        && f.start == st.cp < f.end <= after.cp && At(s, f.start) == '.'
        && if f.argIndex != ARG_NONE then At(s, f.start + 1) == '*' && f.end == f.start + 2
           else forall k :: f.start < k < f.end ==> IsDigit(At(s, k))
  {
    hide Consume, PositionAt;
  }

  /** The pointers of a directive delimit what they should: within its text, the width comes
      before the precision; each is a '*' when an argument gives it and digits otherwise;
      and the last character is the conversion. */
  lemma DirectiveText(s: string, st: State)
    requires 0 < st.cp <= |s| && DirectiveAt(s, st).Some?
    ensures var d := DirectiveAt(s, st).value.0.dir;
      && (d.widthStart != NULL ==>
           && d.dirStart < d.widthStart < d.widthEnd < d.dirEnd
           && if d.widthArgIndex != ARG_NONE then At(s, d.widthStart) == '*' && d.widthEnd == d.widthStart + 1
              else forall k :: d.widthStart <= k < d.widthEnd ==> IsDigit(At(s, k)))
      && (d.precisionStart != NULL ==>
           && d.dirStart < d.precisionStart < d.precisionEnd < d.dirEnd && At(s, d.precisionStart) == '.'
           && if d.precisionArgIndex != ARG_NONE then At(s, d.precisionStart + 1) == '*'
               && d.precisionEnd == d.precisionStart + 2
              else forall k :: d.precisionStart < k < d.precisionEnd ==> IsDigit(At(s, k)))
      && (d.widthStart != NULL && d.precisionStart != NULL ==> d.widthEnd <= d.precisionStart)
      && (d.conversion == Conversion(At(s, d.dirEnd - 1)) && TypeOf(At(s, d.dirEnd - 1), 0).Some?)
  {
    hide WidthAt, PrecisionAt, ConversionAt, FlagsIn, FlagsEnd;
    var (lead, i) := LeadAt(s, st.cp).value;
    var st0 := st.(cp := FlagsEnd(s, i));
    WidthText(s, st0);
    var (width, st1) := WidthAt(s, st0).value;
    PrecisionText(s, st1);
    var (precision, st2) := PrecisionAt(s, st1).value;
    ConversionText(s, st2, lead);
  }

  lemma ConversionText(s: string, st: State, lead: Size)
    requires st.cp <= |s| && ConversionAt(s, st, lead).Some?
    ensures var (c, _, _, after) := ConversionAt(s, st, lead).value;
            c == Conversion(At(s, after.cp - 1)) && TypeOf(At(s, after.cp - 1), 0).Some?
  {
    hide Consume, SizeFlags, SizesEnd;
  }
}
