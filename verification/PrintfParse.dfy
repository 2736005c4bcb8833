/** printf_parse and printf_fetchargs: parsing a format into directives and a table of
    argument types, and fetching the arguments by that table. */
module PrintfParse {
  import opened Common
  import opened PrintfFormat
  import opened PrintfText

  datatype Status = Success | Invalid | OutOfMemory

  const N_DIRECT_ALLOC_ARGUMENTS := 7
  const N_DIRECT_ALLOC_DIRECTIVES := 7
  const SIZEOF_ARGUMENT := 32
  const SIZEOF_DIRECTIVE := 88

  /** The types in an `arguments` structure. */
  class Arguments {
    var count: Size
    var arg: array<ArgType>

    ghost predicate Valid()
      reads this, arg
    {
      count <= arg.Length <= SIZE_MAX && 0 < arg.Length
    }

    ghost function Table(): seq<ArgType>
      reads this, arg
      requires count <= arg.Length
    {
      arg[..count]
    }

    constructor ()
      ensures Valid() && Table() == [] && fresh(arg)
    {
      count := 0;
      arg := new ArgType[N_DIRECT_ALLOC_ARGUMENTS](_ => TYPE_NONE);
    }

    /** Room for position n; there is none only when the memory needed overflows a size. */
    method Reserve(n: Size) returns (ok: bool)
      requires Valid() && n < SIZE_MAX
      modifies this
      ensures Valid() && Table() == old(Table()) && (arg == old(arg) || fresh(arg))
      ensures ok ==> n < arg.Length
      ensures !ok ==> 2 * SIZEOF_ARGUMENT * (n + 1) >= SIZE_MAX
    {
      if n >= arg.Length {
        var capacity := Xtimes(arg.Length, 2);
        if capacity <= n { capacity := Xsum(n, 1); }
        var memorySize := Xtimes(capacity, SIZEOF_ARGUMENT);
        if memorySize == SIZE_MAX { return false; }
        var memory := new ArgType[capacity](_ => TYPE_NONE);
        var i := 0;
        while i < count
          invariant i <= count && memory[..i] == arg[..i]
          modifies memory
        {
          memory[i] := arg[i];
          i := i + 1;
        }
        arg := memory;
      }
      return true;
    }

    /** The table is extended to position n. */
    method Pad(n: Size)
      requires Valid() && n < arg.Length
      modifies this`count, arg
      ensures Valid() && Table() == Padded(old(Table()), n)
    {
      ghost var before := Table();
      while count <= n
        invariant |before| <= count <= arg.Length && (count <= n + 1 || count == |before|)
        invariant forall k :: 0 <= k < count ==> arg[k] == if k < |before| then before[k] else TYPE_NONE
      {
        arg[count] := TYPE_NONE;
        count := count + 1;
      }
      PaddedIs(before, n, Table());
    }

    /** REGISTER_ARG */
    method RegisterArg(n: Size, t: ArgType) returns (status: Status)
      requires Valid() && n < SIZE_MAX
      modifies this, arg
      ensures Valid() && (arg == old(arg) || fresh(arg))
      ensures status == OutOfMemory ==> 2 * SIZEOF_ARGUMENT * (n + 1) >= SIZE_MAX
      ensures status == Invalid ==> Registered(old(Table()), n, t).None?
      ensures status == Success ==> Registered(old(Table()), n, t) == Some(Table())
    {
      hide Padded, Registered;
      var ok := Reserve(n);
      if !ok { return OutOfMemory; }
      ghost var before := Table();
      Pad(n);
      RegisteredIs(before, n, t);
      if arg[n] == TYPE_NONE { arg[n] := t; }
      else if arg[n] != t { return Invalid; }
      assert Table() == Padded(before, n)[n := t];
      return Success;
    }
  }

  /** The digits of a number, and the number; `next` is just after the last digit. */
  method ReadNumber(s: string, i: nat) returns (n: Size, next: nat)
    ensures next == DigitsEnd(s, i) && n == Number(s, i, next)
  {
    n, next := 0, i;
    while IsDigit(At(s, next))
      invariant i <= next && (forall k :: i <= k < next ==> IsDigit(At(s, k)))
      invariant DigitsEnd(s, next) == DigitsEnd(s, i) && n == Number(s, i, next)
      decreases |s| - next
    {
      n := Xsum(Xtimes(n, 10), DigitValue(At(s, next)));
      next := next + 1;
    }
  }

  method SkipDigits(s: string, i: nat) returns (next: nat)
    ensures next == DigitsEnd(s, i)
  {
    next := i;
    while IsDigit(At(s, next))
      invariant i <= next && DigitsEnd(s, next) == DigitsEnd(s, i)
      decreases |s| - next
    {
      next := next + 1;
    }
  }

  /** The test for a positional argument: ARG_NONE when there is no "n$". */
  method ReadPosition(s: string, i: nat) returns (ok: bool, index: Size, next: nat)
    ensures match PositionAt(s, i)
            case NoPosition => ok && index == ARG_NONE && next == i
            case BadPosition => !ok
            case Position(n, after) => ok && index == n && next == after
  {
    index, next := ARG_NONE, i;
    if IsDigit(At(s, i)) {
      var np := SkipDigits(s, i);
      if At(s, np) == '$' {
        var n, end := ReadNumber(s, i);
        if n == 0 { return false, index, next; }
        if n == SIZE_MAX { return false, index, next; }
        index, next := n - 1, end + 1;
      }
    }
    return true, index, next;
  }

  method ReadFlags(s: string, i: nat) returns (flags: set<Flag>, next: nat)
    ensures next == FlagsEnd(s, i) && flags == FlagsIn(s, i, next)
  {
    flags, next := {}, i;
    while true
      invariant i <= next && FlagsEnd(s, next) == FlagsEnd(s, i) && flags == FlagsIn(s, i, next)
      decreases |s| - next
    {
      if At(s, next) == '\'' { flags := flags + {FLAG_GROUP}; }
      else if At(s, next) == '-' { flags := flags + {FLAG_LEFT}; }
      else if At(s, next) == '+' { flags := flags + {FLAG_SHOWSIGN}; }
      else if At(s, next) == ' ' { flags := flags + {FLAG_SPACE}; }
      else if At(s, next) == '#' { flags := flags + {FLAG_ALT}; }
      else if At(s, next) == '0' { flags := flags + {FLAG_ZERO}; }
      else if At(s, next) == 'I' { flags := flags + {FLAG_LOCALIZED}; }
      else { break; }
      next := next + 1;
    }
  }

  method ReadSizes(s: string, i: nat) returns (flags: nat, next: nat)
    ensures next == SizesEnd(s, i) && flags == SizeFlags(s, i, next)
  {
    flags, next := 0, i;
    while true
      invariant i <= next && SizesEnd(s, next) == SizesEnd(s, i) && flags == SizeFlags(s, i, next)
      decreases |s| - next
    {
      if At(s, next) == 'h' { flags := OrBit(flags, if flags % 2 == 0 then 1 else 2); }
      else if At(s, next) == 'L' { flags := OrBit(flags, 4); }
      else if At(s, next) == 'l' { flags := flags + 8; }
      else if At(s, next) == 'j' { flags := flags + 8; }
      else if At(s, next) == 'z' || At(s, next) == 'Z' { flags := flags + 8; }
      else if At(s, next) == 't' { flags := flags + 8; }
      else { break; }
      next := next + 1;
    }
  }

  /** Some "n$" in the format gives this position. */
  ghost predicate Given(s: string, index: Size) {
    exists i: nat :: PositionAt(s, i).Position? && PositionAt(s, i).index == index
  }

  /** Memory for the format can overflow a size: it is itself that long, or it numbers an
      argument that high. */
  ghost predicate Oversized(s: string) {
    || 2 * SIZEOF_DIRECTIVE * (|s| + 1) >= SIZE_MAX
    || exists n: Size :: Given(s, n) && 2 * SIZEOF_ARGUMENT * (n + 1) >= SIZE_MAX
  }

  /** What the parser keeps in local variables: the cursor, the number of unnumbered
      arguments, and the largest width and precision. */
  class Parser {
    const format: string
    const a: Arguments
    var cp: nat
    var argPosn: Size
    var maxWidthLength: nat
    var maxPrecisionLength: nat

    constructor (format: string, a: Arguments)
      ensures this.format == format && this.a == a && cp == 0 && argPosn == 0
      ensures maxWidthLength == 0 && maxPrecisionLength == 0
    {
      this.format, this.a, cp, argPosn := format, a, 0, 0;
      maxWidthLength, maxPrecisionLength := 0, 0;
    }

    ghost predicate Valid()
      reads this, a, a.arg
    {
      argPosn <= cp <= |format| && a.Valid()
    }

    ghost function Now(): State
      reads this, a, a.arg
      requires Valid()
    {
      State(cp, argPosn, a.Table())
    }

    /** The argument of the directive that is being read: the one whose position was given,
        or the next one; its type goes into the table. */
    method ConsumeArg(position: Size, t: ArgType) returns (status: Status, n: Size)
      requires Valid() && if position == ARG_NONE then argPosn < cp else Given(format, position)
      modifies this`argPosn, a, a.arg
      ensures a.arg == old(a.arg) || fresh(a.arg)
      ensures status == Invalid ==> Consume(old(Now()), position, t).None?
      ensures status == OutOfMemory ==> Oversized(format)
      ensures status == Success ==> Valid() && Consume(old(Now()), position, t) == Some((n, Now()))
    {
      n := position;
      if n == ARG_NONE {
        n := argPosn;
        if n == ARG_NONE { return Invalid, n; }
        argPosn := argPosn + 1;
      }
      status := a.RegisterArg(n, t);
    }

    /** The argument of a '*' just before the cursor. */
    method ReadStar(start: nat) returns (status: Status, f: Field)
      requires Valid() && argPosn < cp
      modifies this`cp, this`argPosn, a, a.arg
      ensures a.arg == old(a.arg) || fresh(a.arg)
      ensures status == Invalid ==> Star(format, old(Now()), start).None?
      ensures status == OutOfMemory ==> Oversized(format)
      ensures status == Success ==> Valid() && Star(format, old(Now()), start) == Some((f, Now()))
    {
      f := Field(start, cp, ARG_NONE);
      var ok, position, next := ReadPosition(format, cp);
      if !ok { return Invalid, f; }
      if position != ARG_NONE { assert Given(format, position); }
      cp := next;
      var n;
      status, n := ConsumeArg(position, TYPE_INT);
      f := f.(argIndex := n);
    }

    method ReadWidth() returns (status: Status, f: Field)
      requires Valid()
      modifies this`cp, this`argPosn, this`maxWidthLength, a, a.arg
      ensures a.arg == old(a.arg) || fresh(a.arg)
      ensures status == Invalid ==> WidthAt(format, old(Now())).None?
      ensures status == OutOfMemory ==> Oversized(format)
      ensures status == Success ==> Valid() && WidthAt(format, old(Now())) == Some((f, Now()))
      ensures status == Success ==> maxWidthLength == Max(old(maxWidthLength), f.end - f.start)
    {
      hide Star, DigitsEnd;
      f, status := Field(NULL, NULL, ARG_NONE), Success;
      if At(format, cp) == '*' {
        cp := cp + 1;
        if maxWidthLength < 1 { maxWidthLength := 1; }
        status, f := ReadStar(cp - 1);
      } else if IsDigit(At(format, cp)) {
        var start := cp;
        cp := SkipDigits(format, cp);
        f := Field(start, cp, ARG_NONE);
        var widthLength := f.end - f.start;
        if maxWidthLength < widthLength { maxWidthLength := widthLength; }
      }
    }

    method ReadPrecision() returns (status: Status, f: Field)
      requires Valid()
      modifies this`cp, this`argPosn, this`maxPrecisionLength, a, a.arg
      ensures a.arg == old(a.arg) || fresh(a.arg)
      ensures status == Invalid ==> PrecisionAt(format, old(Now())).None?
      ensures status == OutOfMemory ==> Oversized(format)
      ensures status == Success ==> Valid() && PrecisionAt(format, old(Now())) == Some((f, Now()))
      ensures status == Success ==> maxPrecisionLength == Max(old(maxPrecisionLength), f.end - f.start)
    {
      hide Star, DigitsEnd;
      f, status := Field(NULL, NULL, ARG_NONE), Success;
      if At(format, cp) == '.' {
        cp := cp + 1;
        if At(format, cp) == '*' {
          cp := cp + 1;
          if maxPrecisionLength < 2 { maxPrecisionLength := 2; }
          status, f := ReadStar(cp - 2);
        } else {
          var start := cp - 1;
          cp := SkipDigits(format, cp);
          f := Field(start, cp, ARG_NONE);
          var precisionLength := f.end - f.start;
          if maxPrecisionLength < precisionLength { maxPrecisionLength := precisionLength; }
        }
      }
    }

    method ReadConversion(lead: Size) returns (status: Status, c: char, n: Size, ghost t: ArgType)
      requires Valid() && (lead == ARG_NONE || Given(format, lead))
      modifies this`cp, this`argPosn, a, a.arg
      ensures a.arg == old(a.arg) || fresh(a.arg)
      ensures status == Invalid ==> ConversionAt(format, old(Now()), lead).None?
      ensures status == OutOfMemory ==> Oversized(format)
      ensures status == Success ==> Valid() && ConversionAt(format, old(Now()), lead) == Some((c, n, t, Now()))
    {
      hide TypeOf;
      ghost var before := Now();
      var flags, next := ReadSizes(format, cp);
      c, n, t := At(format, next), ARG_NONE, TYPE_NONE;
      var known := TypeOf(c, flags);
      if known.None? { return Invalid, c, n, t; }
      ConversionInside(format, next, flags);
      cp := next + 1;
      if known.value != TYPE_NONE {
        status, n := ConsumeArg(lead, known.value);
        c, t := Conversion(c), known.value;
        return status, c, n, t;
      }
      return Success, c, n, t;
    }

    /** One directive, whose '%' is just before the cursor. */
    method ReadDirective() returns (status: Status, dp: Directive, ghost item: Item)
      requires Valid() && 0 < cp
      modifies this, a, a.arg
      ensures a.arg == old(a.arg) || fresh(a.arg)
      ensures status == Invalid ==> DirectiveAt(format, old(Now())).None?
      ensures status == OutOfMemory ==> Oversized(format)
      ensures status == Success ==> Valid() && DirectiveAt(format, old(Now())) == Some((item, Now())) && dp == item.dir
      ensures status == Success ==> maxWidthLength == Max(old(maxWidthLength), dp.widthEnd - dp.widthStart)
      ensures status == Success ==>
              maxPrecisionLength == Max(old(maxPrecisionLength), dp.precisionEnd - dp.precisionStart)
    {
      hide WidthAt, PrecisionAt, ConversionAt, Max, Oversized, PositionAt, FlagsEnd, FlagsIn, Arguments.Valid,
          Arguments.Table;
      dp := NO_DIRECTIVE.(dirStart := cp - 1);
      item := Item(dp, TYPE_NONE);
      ghost var st := Now();
      var ok, lead, next := ReadPosition(format, cp);
      if !ok { return Invalid, dp, item; }
      if lead != ARG_NONE { assert Given(format, lead); }
      var flags;
      flags, cp := ReadFlags(format, next);
      ghost var st0 := Now();
      assert st0 == st.(cp := cp);
      var width;
      status, width := ReadWidth();
      if status != Success { return status, dp, item; }
      ghost var st1 := Now();
      var precision;
      status, precision := ReadPrecision();
      if status != Success { return status, dp, item; }
      ghost var st2 := Now();
      var c, n;
      ghost var t;
      status, c, n, t := ReadConversion(lead);
      if status != Success { return status, dp, item; }
      dp := Directive(dp.dirStart, cp, flags, width.start, width.end, width.argIndex,
                      precision.start, precision.end, precision.argIndex, c, n);
      item := Item(dp, t);
    }
  }

  const NO_DIRECTIVE := Directive(0, 0, {}, NULL, NULL, ARG_NONE, NULL, NULL, ARG_NONE, '\0', ARG_NONE)

  function Max(a: int, b: int): int { if a < b then b else a }

  /** The NUL is no conversion. */
  lemma ConversionInside(s: string, i: nat, flags: nat)
    requires TypeOf(At(s, i), flags).Some?
    ensures i < |s|
  {
  }

  /** The directives of a format; there is always room for one entry after the last. */
  class Directives {
    var count: nat
    var dir: array<Directive>
    var maxWidthLength: nat
    var maxPrecisionLength: nat

    ghost predicate Valid()
      reads this
    {
      count < dir.Length <= SIZE_MAX
    }

    constructor ()
      ensures Valid() && count == 0 && fresh(dir)
    {
      count, maxWidthLength, maxPrecisionLength := 0, 0, 0;
      dir := new Directive[N_DIRECT_ALLOC_DIRECTIVES](_ => NO_DIRECTIVE);
    }

    method Append(dp: Directive) returns (ok: bool)
      requires Valid()
      modifies this`count, this`dir, dir
      ensures (dir == old(dir) || fresh(dir)) && (ok ==> Valid())
      ensures ok ==> dir[..count] == old(dir[..count]) + [dp]
      ensures !ok ==> 2 * SIZEOF_DIRECTIVE * (old(count) + 1) >= SIZE_MAX
    {
      dir[count] := dp;
      count := count + 1;
      ghost var all := dir[..count];
      assert all == old(dir[..count]) + [dp];
      if count >= dir.Length {
        var capacity := Xtimes(dir.Length, 2);
        var memorySize := Xtimes(capacity, SIZEOF_DIRECTIVE);
        if memorySize == SIZE_MAX { return false; }
        var memory := new Directive[capacity](_ => NO_DIRECTIVE);
        var i := 0;
        while i < count
          invariant i <= count && memory[..i] == all[..i]
          modifies memory
        {
          memory[i] := dir[i];
          i := i + 1;
        }
        assert memory[..count] == all[..count] == all;
        dir := memory;
      }
      return true;
    }

    /** The last entry, which records the end of the format. */
    method Finish(end: nat, maxWidth: nat, maxPrecision: nat)
      requires Valid()
      modifies this`maxWidthLength, this`maxPrecisionLength, dir
      ensures Valid() && dir[count].dirStart == end && forall k :: 0 <= k < count ==> dir[k] == old(dir[..count])[k]
      ensures maxWidthLength == maxWidth && maxPrecisionLength == maxPrecision
    {
      dir[count] := NO_DIRECTIVE.(dirStart := end);
      maxWidthLength, maxPrecisionLength := maxWidth, maxPrecision;
    }
  }

  /** The longest width and precision, by which a caller sizes its buffers. */
  function LongestWidth(items: seq<Item>): nat {
    if items == [] then 0 else
      Max(LongestWidth(items[..|items| - 1]), items[|items| - 1].dir.widthEnd - items[|items| - 1].dir.widthStart)
  }

  function LongestPrecision(items: seq<Item>): nat {
    if items == [] then 0 else
      Max(LongestPrecision(items[..|items| - 1]),
          items[|items| - 1].dir.precisionEnd - items[|items| - 1].dir.precisionStart)
  }

  lemma {:induction false} LongestCovers(items: seq<Item>, k: nat)
    requires k < |items|
    ensures items[k].dir.widthEnd - items[k].dir.widthStart <= LongestWidth(items)
    ensures items[k].dir.precisionEnd - items[k].dir.precisionStart <= LongestPrecision(items)
  {
    if k == |items| - 1 {
    } else {
      LongestCovers(items[..|items| - 1], k);
    }
  }

  /** And some directive is as wide as that, if any has a width; so for the precision. */
  lemma {:induction false} LongestReached(items: seq<Item>)
    ensures LongestWidth(items) > 0 ==>
              exists k: nat :: k < |items| && items[k].dir.widthEnd - items[k].dir.widthStart == LongestWidth(items)
    ensures LongestPrecision(items) > 0 ==>
              exists k: nat :: k < |items|
                && items[k].dir.precisionEnd - items[k].dir.precisionStart == LongestPrecision(items)
  {
    if items == [] {
    } else {
      LongestReached(items[..|items| - 1]);
    }
  }

  /** The directives found so far and the state reached make up the whole parse. */
  ghost predicate SoFar(s: string, items: seq<Item>, st: State)
    requires st.cp <= |s|
  {
    Parse(s) == match ParseFrom(s, st) case None => None case Some(p) => Some(p.(items := items + p.items))
  }

  lemma StepLiteral(s: string, items: seq<Item>, st: State)
    requires st.cp < |s| && s[st.cp] != '%' && s[st.cp] != '\0' && SoFar(s, items, st)
    ensures SoFar(s, items, st.(cp := st.cp + 1))
  {
  }

  lemma StepDirective(s: string, items: seq<Item>, st: State)
    requires st.cp < |s| && s[st.cp] == '%' && SoFar(s, items, st)
    ensures match DirectiveAt(s, st.(cp := st.cp + 1))
            case None => Parse(s).None?
            case Some((item, after)) => SoFar(s, items + [item], after)
  {
    hide DirectiveAt, Parse;
    match DirectiveAt(s, st.(cp := st.cp + 1))
    case None =>
    case Some((item, after)) =>
      match ParseFrom(s, after)
      case None =>
      case Some(p) => assert items + ([item] + p.items) == items + [item] + p.items;
  }

  lemma StepEnd(s: string, items: seq<Item>, st: State)
    requires st.cp <= |s| && At(s, st.cp) == '\0' && SoFar(s, items, st)
    ensures Parse(s) == Some(Parsed(items, st.table, st.cp))
  {
    assert items + [] == items;
  }

  /** A turn of the loop at a '%': one more directive. */
  method ParseOne(p: Parser, d: Directives) returns (status: Status, ghost item: Item)
    requires p.Valid() && 0 < p.cp && d.Valid() && d.count < p.cp
    modifies p, p.a, p.a.arg, d`count, d`dir, d.dir
    ensures p.a.arg == old(p.a.arg) || fresh(p.a.arg)
    ensures d.dir == old(d.dir) || fresh(d.dir)
    ensures status == Invalid ==> DirectiveAt(p.format, old(p.Now())).None?
    ensures status == OutOfMemory ==> Oversized(p.format)
    ensures status == Success ==> p.Valid() && d.Valid() && DirectiveAt(p.format, old(p.Now())) == Some((item, p.Now()))
    ensures status == Success ==> d.dir[..d.count] == old(d.dir[..d.count]) + [item.dir]
    ensures status == Success ==>
            p.maxWidthLength == Max(old(p.maxWidthLength), item.dir.widthEnd - item.dir.widthStart)
    ensures status == Success ==>
            p.maxPrecisionLength == Max(old(p.maxPrecisionLength), item.dir.precisionEnd - item.dir.precisionStart)
  {
    hide DirectiveAt, Max;
    var dp;
    status, dp, item := p.ReadDirective();
    if status != Success { return; }
    var ok := d.Append(dp);
    if !ok { status := OutOfMemory; }
  }

  /** printf_parse: the format's directives, each as it is written, and its table of types, or
      an error exactly when the format is not composed of directives that agree on their
      arguments. Memory runs out only where its size would overflow. */
  method PrintfParse(format: string) returns (status: Status, d: Directives, a: Arguments, ghost items: seq<Item>)
    ensures status == Success ==>
            a.Valid() && d.Valid() && Parse(format) == Some(Parsed(items, a.Table(), d.dir[d.count].dirStart))
    ensures status == Success ==> d.count == |items| && forall k :: 0 <= k < d.count ==> d.dir[k] == items[k].dir
    ensures status == Success ==>
            d.maxWidthLength == LongestWidth(items) && d.maxPrecisionLength == LongestPrecision(items)
    ensures status == Success ==> Acceptable(format) && Written(format, 0, items, 0)
    ensures status == Invalid ==> !Acceptable(format) && Parse(format).None?
    ensures status == OutOfMemory ==> Oversized(format)
  {
    hide Acceptable, Written, DirectiveAt, Parse, SoFar, Oversized, LongestWidth, LongestPrecision, DirsOf, Max,
        Arguments.Valid,
        Arguments.Table;
    ParsedText(format);
    d := new Directives();
    a := new Arguments();
    var p := new Parser(format, a);
    items := [];
    assert p.Now() == State(0, 0, []);
    StartSoFar(format);
    NoneYet();
    while At(format, p.cp) != '\0'
      invariant p.Valid() && p.format == format && p.a == a && d.Valid() && d.count == |items| <= p.cp
      invariant fresh(d) && fresh(d.dir) && fresh(a) && fresh(a.arg) && fresh(p)
      invariant SoFar(format, items, p.Now())
      invariant d.dir[..d.count] == DirsOf(items)
      invariant p.maxWidthLength == LongestWidth(items) && p.maxPrecisionLength == LongestPrecision(items)
      decreases |format| - p.cp
    {
      var c := At(format, p.cp);
      ghost var st := p.Now();
      p.cp := p.cp + 1;
      assert p.Now() == st.(cp := st.cp + 1);
      if c == '%' {
        StepDirective(format, items, st);
        ghost var item;
        status, item := ParseOne(p, d);
        if status != Success { return status, d, a, items; }
        LongestNext(items, item);
        items := items + [item];
      } else {
        StepLiteral(format, items, st);
      }
    }
    StepEnd(format, items, p.Now());
    DirsAre(items);
    d.Finish(p.cp, p.maxWidthLength, p.maxPrecisionLength);
    status := Success;
  }

  ghost function DirsOf(items: seq<Item>): seq<Directive> {
    seq(|items|, k requires 0 <= k < |items| => items[k].dir)
  }

  lemma StartSoFar(s: string)
    ensures SoFar(s, [], State(0, 0, []))
  {
    hide ParseFrom;
    match Parse(s)
    case None =>
    case Some(p) => assert [] + p.items == p.items;
  }

  lemma DirsAre(items: seq<Item>)
    ensures |DirsOf(items)| == |items| && forall k :: 0 <= k < |items| ==> DirsOf(items)[k] == items[k].dir
  {
  }

  lemma NoneYet()
    ensures LongestWidth([]) == 0 && LongestPrecision([]) == 0 && DirsOf([]) == []
  {
  }

  lemma LongestNext(items: seq<Item>, item: Item)
    ensures LongestWidth(items + [item]) == Max(LongestWidth(items), item.dir.widthEnd - item.dir.widthStart)
    ensures LongestPrecision(items + [item]) ==
            Max(LongestPrecision(items), item.dir.precisionEnd - item.dir.precisionStart)
    ensures DirsOf(items + [item]) == DirsOf(items) + [item.dir]
  {
    assert (items + [item])[..|items|] == items;
  }

  // ------------------------------------------------------------------
  // Fetching

  /** A fetched argument; a null pointer for a string is replaced by the text "(NULL)". */
  datatype Value = Unset | Fetched(v: int) | NullString

  /** v, stored in a type of so many values that begin at lo. */
  function Cut(v: int, lo: int, size: nat): (c: int)
    requires size > 0
    ensures lo <= c < lo + size
  {
    (v - lo) % size + lo
  }

  /** Characters and shorts are passed as ints, and cut when they are stored. */
  function ValueOf(t: ArgType, v: int): Value {
    match t
    case TYPE_SCHAR => Fetched(Cut(v, -0x80, 0x100))
    case TYPE_UCHAR => Fetched(Cut(v, 0, 0x100))
    case TYPE_SHORT => Fetched(Cut(v, -0x8000, 0x1_0000))
    case TYPE_USHORT => Fetched(Cut(v, 0, 0x1_0000))
    case TYPE_STRING => if v == 0 then NullString else Fetched(v)
    case TYPE_WIDE_STRING => if v == 0 then NullString else Fetched(v)
    case _ => Fetched(v)
  }

  /** What is stored differs from what was passed by a multiple of the type's size, and only
      where that does not hold it; and only null strings are replaced. */
  lemma ValueMeaning(t: ArgType, v: int)
    ensures var r := ValueOf(t, v);
            && (r == NullString <==> v == 0 && (t == TYPE_STRING || t == TYPE_WIDE_STRING))
            && (r.Fetched? ==>
                  && (t == TYPE_SCHAR ==> -0x80 <= r.v < 0x80 && (r.v - v) % 0x100 == 0)
                  && (t == TYPE_UCHAR ==> 0 <= r.v < 0x100 && (r.v - v) % 0x100 == 0)
                  && (t == TYPE_SHORT ==> -0x8000 <= r.v < 0x8000 && (r.v - v) % 0x1_0000 == 0)
                  && (t == TYPE_USHORT ==> 0 <= r.v < 0x1_0000 && (r.v - v) % 0x1_0000 == 0)
                  && (t !in {TYPE_SCHAR, TYPE_UCHAR, TYPE_SHORT, TYPE_USHORT} ==> r.v == v))
  {
    CutByte(v);
    CutByte(v + 0x80);
    CutShort(v);
    CutShort(v + 0x8000);
  }

  lemma CutByte(x: int)
    ensures (x % 0x100 - x) % 0x100 == 0
  {
  }

  lemma CutShort(x: int)
    ensures (x % 0x1_0000 - x) % 0x1_0000 == 0
  {
  }

  /** printf_fetchargs: the arguments, in order, each taken by its type. It fails at the
      first position without a type. */
  method FetchArgs(args: seq<int>, a: Arguments) returns (ok: bool, value: array<Value>)
    requires a.Valid() && |args| >= a.count
    ensures value.Length == a.count
    ensures ok <==> AllTyped(a.Table())
    ensures ok ==> forall i :: 0 <= i < a.count ==> value[i] == ValueOf(a.Table()[i], args[i])
    ensures !ok ==> exists stop :: (0 <= stop < a.count && a.Table()[stop] == TYPE_NONE
      && forall i :: 0 <= i < stop ==> a.Table()[i] != TYPE_NONE && value[i] == ValueOf(a.Table()[i], args[i]))
  {
    value := new Value[a.count](_ => Unset);
    var i := 0;
    while i < a.count
      invariant i <= a.count
      invariant forall k :: 0 <= k < i ==> a.Table()[k] != TYPE_NONE && value[k] == ValueOf(a.Table()[k], args[k])
    {
      if a.arg[i] == TYPE_NONE {
        assert a.Table()[i] == TYPE_NONE;
        return false, value;
      }
      value[i] := ValueOf(a.arg[i], args[i]);
      i := i + 1;
    }
    return true, value;
  }

  /** A parsed format's arguments can be fetched just when its directives use every position
      of the table. */
  method ParseAndFetch(format: string, args: seq<int>) returns (status: Status, ok: bool, ghost items: seq<Item>)
    requires Parse(format).Some? ==> |args| >= |Parse(format).value.table|
    ensures status == Success ==> Parse(format).Some? && items == Parse(format).value.items
    ensures status == Success ==>
      (ok <==> AllUsed(UsesIn(items), |Parse(format).value.table|))
    ensures status == Success && NoDollar(format, 0) ==> ok
  {
    var d, a;
    status, d, a, items := PrintfParse(format);
    ok := false;
    if status == Success {
      var value;
      ok, value := FetchArgs(args, a);
      UsedIffFetchable(format);
      if NoDollar(format, 0) { UnnumberedFetchable(format); }
    }
  }

  ghost predicate Used(uses: seq<Use>, n: nat) {
    exists u :: u in uses && u.index == n
  }

  /** Some use has every position below `count`. */
  ghost predicate AllUsed(uses: seq<Use>, count: nat) {
    forall n: nat :: n < count ==> Used(uses, n)
  }

  lemma UsedIffFetchable(s: string)
    requires Parse(s).Some?
    ensures var p := Parse(s).value;
            AllTyped(p.table) <==> AllUsed(UsesIn(p.items), |p.table|)
  {
    hide Parse, UsesIn;
    ParsedWell(s);
    var p := Parse(s).value;
    var uses := UsesIn(p.items);
    if AllTyped(p.table) {
      forall n: nat | n < |p.table| ensures Used(uses, n) {
        assert Use(n, p.table[n]) in uses;
      }
    } else {
      var n: nat :| n < |p.table| && p.table[n] == TYPE_NONE;
      assert !Used(uses, n);
    }
  }
}
