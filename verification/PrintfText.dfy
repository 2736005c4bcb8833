/** Directives as they are written, and what each part of their text means. */
module PrintfText {
  import opened Common
  import opened PrintfFormat

  // ------------------------------------------------------------------
  // The parts of a directive

  /** A width or a precision: digits, or '*' with the position of its argument or without. */
  datatype Amount = Absent | Digits(ds: string) | Starred(lead: Option<string>)

  /** "%", the digits of a position and '$', flags, a width, a precision behind a '.', size
      specifiers, and a conversion. */
  datatype Form = Form(lead: Option<string>, flags: string, width: Amount, precision: Amount, size: string,
                       conversion: char)

  function LeadText(lead: Option<string>): string {
    if lead.Some? then lead.value + "$" else ""
  }

  function AmountText(a: Amount): string {
    match a
    case Absent => ""
    case Digits(ds) => ds
    case Starred(lead) => "*" + LeadText(lead)
  }

  function DotText(a: Amount): string {
    if a.Absent? then "" else "." + AmountText(a)
  }

  function FormText(f: Form): string {
    "%" + (LeadText(f.lead) + (f.flags + (AmountText(f.width) + (DotText(f.precision) + (f.size + [f.conversion])))))
  }

  predicate AllDigits(ds: string) {
    forall k: nat :: k < |ds| ==> '0' <= ds[k] <= '9'
  }

  function Numeral(ds: string): nat
    requires AllDigits(ds)
  {
    if ds == [] then 0 else 10 * Numeral(ds[..|ds| - 1]) + (ds[|ds| - 1] as int - '0' as int)
  }

  /** Arguments are numbered from 1, and a size holds the number and one more. */
  predicate IsPosition(lead: Option<string>) {
    lead.Some? ==> lead.value != [] && AllDigits(lead.value) && 1 <= Numeral(lead.value) < SIZE_MAX
  }

  predicate IsFlag(c: char) {
    c == '\'' || c == '-' || c == '+' || c == ' ' || c == '#' || c == '0' || c == 'I'
  }

  /** A size specifier that stands for long: intmax_t, size_t and ptrdiff_t are that long. */
  predicate IsLong(c: char) {
    c == 'l' || c == 'j' || c == 'z' || c == 'Z' || c == 't'
  }

  predicate IsSize(c: char) {
    c == 'h' || c == 'L' || IsLong(c)
  }

  predicate IsConversion(c: char) {
    || c == 'd' || c == 'i' || c == 'o' || c == 'u' || c == 'x' || c == 'X'
    || c == 'f' || c == 'F' || c == 'e' || c == 'E' || c == 'g' || c == 'G' || c == 'a' || c == 'A'
    || c == 'c' || c == 'C' || c == 's' || c == 'S' || c == 'p' || c == 'n' || c == '%'
  }

  predicate IsAmount(a: Amount) {
    match a
    case Absent => true
    case Digits(ds) => AllDigits(ds)
    case Starred(lead) => IsPosition(lead)
  }

  /** A directive. A width in digits does not begin with a '0', which is a flag. */
  predicate IsForm(f: Form) {
    && IsPosition(f.lead)
    && (forall k: nat :: k < |f.flags| ==> IsFlag(f.flags[k]))
    && IsAmount(f.width) && (f.width.Digits? ==> f.width.ds != [] && f.width.ds[0] != '0')
    && IsAmount(f.precision)
    && (forall k: nat :: k < |f.size| ==> IsSize(f.size[k]))
    && IsConversion(f.conversion)
  }

  // ------------------------------------------------------------------
  // What they mean

  /** How many characters of s mean long. */
  function Longs(s: string): nat {
    if s == [] then 0 else Longs(s[..|s| - 1]) + if IsLong(s[|s| - 1]) then 1 else 0
  }

  function Shorts(s: string): nat {
    if s == [] then 0 else Shorts(s[..|s| - 1]) + if s[|s| - 1] == 'h' then 1 else 0
  }

  /** An 'L' or two that mean long go before one that does, and these before two 'h's. */
  function Sized(size: string, longest: ArgType, long: ArgType, shortest: ArgType, short: ArgType,
                 plain: ArgType): ArgType {
    if 'L' in size || Longs(size) >= 2 then longest
    else if Longs(size) == 1 then long
    else if Shorts(size) >= 2 then shortest
    else if Shorts(size) == 1 then short
    else plain
  }

  /** The type of the argument that a conversion takes. */
  function Wanted(size: string, c: char): ArgType
    requires IsConversion(c)
  {
    match c
    case 'd' => Sized(size, TYPE_LONGLONGINT, TYPE_LONGINT, TYPE_SCHAR, TYPE_SHORT, TYPE_INT)
    case 'i' => Sized(size, TYPE_LONGLONGINT, TYPE_LONGINT, TYPE_SCHAR, TYPE_SHORT, TYPE_INT)
    case 'n' => Sized(size, TYPE_COUNT_LONGLONGINT_POINTER, TYPE_COUNT_LONGINT_POINTER, TYPE_COUNT_SCHAR_POINTER,
                      TYPE_COUNT_SHORT_POINTER, TYPE_COUNT_INT_POINTER)
    case 'p' => TYPE_POINTER
    case 'C' => TYPE_WIDE_CHAR
    case 'S' => TYPE_WIDE_STRING
    case 'c' => if Longs(size) > 0 then TYPE_WIDE_CHAR else TYPE_CHAR
    case 's' => if Longs(size) > 0 then TYPE_WIDE_STRING else TYPE_STRING
    case '%' => TYPE_NONE
    case _ =>
      if c == 'o' || c == 'u' || c == 'x' || c == 'X' then
        Sized(size, TYPE_ULONGLONGINT, TYPE_ULONGINT, TYPE_UCHAR, TYPE_USHORT, TYPE_UINT)
      else if 'L' in size || Longs(size) >= 2 then TYPE_LONGDOUBLE
      else TYPE_DOUBLE
  }

  // ------------------------------------------------------------------
  // Text at a place

  /** t stands in s from i on. */
  predicate Here(s: string, i: nat, t: string) {
    i + |t| <= |s| && s[i..i + |t|] == t
  }

  lemma HereSplit(s: string, i: nat, a: string, b: string)
    ensures Here(s, i, a + b) <==> Here(s, i, a) && Here(s, i + |a|, b)
  {
    if i + |a| + |b| <= |s| {
      assert s[i..i + |a + b|] == s[i..i + |a|] + s[i + |a|..i + |a| + |b|];
      assert (a + b)[..|a|] == a && (a + b)[|a|..] == b;
      if Here(s, i, a + b) {
        assert s[i..i + |a + b|][..|a|] == s[i..i + |a|];
        assert s[i..i + |a + b|][|a|..] == s[i + |a|..i + |a| + |b|];
      }
    }
  }

  lemma HereAt(s: string, i: nat, t: string, k: nat)
    requires Here(s, i, t) && k < |t|
    ensures At(s, i + k) == t[k]
  {
    assert s[i..i + |t|][k] == s[i + k];
  }

  lemma {:induction false} DigitsHere(s: string, i: nat, ds: string)
    requires Here(s, i, ds) && AllDigits(ds) && !IsDigit(At(s, i + |ds|))
    ensures DigitsEnd(s, i) == i + |ds|
    decreases |ds|
  {
    if ds == [] {
    } else {
      HereAt(s, i, ds, 0);
      assert ds == [ds[0]] + ds[1..];
      HereSplit(s, i, [ds[0]], ds[1..]);
      DigitsHere(s, i + 1, ds[1..]);
    }
  }

  lemma {:induction false} DecimalHere(s: string, i: nat, ds: string)
    requires Here(s, i, ds) && AllDigits(ds)
    ensures forall k :: i <= k < i + |ds| ==> IsDigit(At(s, k))
    ensures DecimalValue(s, i, i + |ds|) == Numeral(ds)
    decreases |ds|
  {
    forall k | i <= k < i + |ds| ensures IsDigit(At(s, k)) { HereAt(s, i, ds, k - i); }
    if ds == [] {
    } else {
      var front, last := ds[..|ds| - 1], [ds[|ds| - 1]];
      assert ds == front + last;
      HereSplit(s, i, front, last);
      HereAt(s, i, ds, |ds| - 1);
      DecimalHere(s, i, front);
    }
  }

  /** A position that stands at i is read as such. */
  lemma PositionHere(s: string, i: nat, ds: string)
    requires Here(s, i, ds + "$") && IsPosition(Some(ds))
    ensures PositionAt(s, i) == Position(Numeral(ds) - 1, i + |ds| + 1)
  {
    hide Number, Numeral, DecimalValue, DigitsEnd, AllDigits, Here;
    HereSplit(s, i, ds, "$");
    HereAt(s, i + |ds|, "$", 0);
    DigitsHere(s, i, ds);
    DecimalHere(s, i, ds);
    NumberSaturates(s, i, i + |ds|);
  }

  /** And there is none else. */
  lemma PositionFound(s: string, i: nat) returns (ds: string)
    requires i <= |s| && PositionAt(s, i).Position?
    ensures IsPosition(Some(ds)) && Here(s, i, ds + "$") && PositionAt(s, i).next == i + |ds| + 1
  {
    var j := DigitsEnd(s, i);
    ds := s[i..j];
    forall k: nat | k < |ds| ensures '0' <= ds[k] <= '9' { assert ds[k] == At(s, i + k); }
    NumberSaturates(s, i, j);
    DecimalHere(s, i, ds);
    assert s[j..j + 1] == "$";
    HereSplit(s, i, ds, "$");
  }

  /** A character that is neither digit nor '$', with no '$' before it, rules a position out. */
  lemma NoPositionHere(s: string, i: nat, j: nat)
    requires i <= j && !IsDigit(At(s, j)) && At(s, j) != '$' && forall k: nat :: i <= k < j ==> At(s, k) != '$'
    ensures PositionAt(s, i) == NoPosition
  {
    DigitsStop(s, i, j);
  }

  lemma {:induction false} DigitsStop(s: string, i: nat, j: nat)
    requires i <= j && !IsDigit(At(s, j))
    ensures DigitsEnd(s, i) <= j
    decreases j - i
  {
    if i < j && IsDigit(At(s, i)) { DigitsStop(s, i + 1, j); }
  }

  // ------------------------------------------------------------------
  // Flags and sizes

  lemma FlagChars(c: char)
    ensures IsFlag(c) <==> FlagOf(c).Some?
    ensures IsSize(c) <==> AddSize(0, c).Some?
  {
  }

  lemma {:induction false} FlagsHere(s: string, i: nat, t: string)
    requires Here(s, i, t) && (forall k: nat :: k < |t| ==> IsFlag(t[k])) && !IsFlag(At(s, i + |t|))
    ensures FlagsEnd(s, i) == i + |t|
    decreases |t|
  {
    if t == [] {
      FlagChars(At(s, i));
    } else {
      HereAt(s, i, t, 0);
      FlagChars(t[0]);
      assert t == [t[0]] + t[1..];
      HereSplit(s, i, [t[0]], t[1..]);
      FlagsHere(s, i + 1, t[1..]);
    }
  }

  /** Which characters set which flags. */
  ghost predicate FlagsMean(flags: set<Flag>, t: string) {
    && (FLAG_GROUP in flags <==> '\'' in t)
    && (FLAG_LEFT in flags <==> '-' in t)
    && (FLAG_SHOWSIGN in flags <==> '+' in t)
    && (FLAG_SPACE in flags <==> ' ' in t)
    && (FLAG_ALT in flags <==> '#' in t)
    && (FLAG_ZERO in flags <==> '0' in t)
    && (FLAG_LOCALIZED in flags <==> 'I' in t)
  }

  lemma {:induction false} FlagsMeaning(s: string, i: nat, t: string)
    requires Here(s, i, t)
    ensures FlagsMean(FlagsIn(s, i, i + |t|), t)
    decreases |t|
  {
    if t == [] {
    } else {
      var front, last := t[..|t| - 1], [t[|t| - 1]];
      assert t == front + last;
      HereSplit(s, i, front, last);
      HereAt(s, i, t, |t| - 1);
      FlagsMeaning(s, i, front);
      FlagsMore(FlagsIn(s, i, i + |front|), front, t[|t| - 1]);
    }
  }

  lemma FlagsMore(flags: set<Flag>, t: string, c: char)
    requires FlagsMean(flags, t)
    ensures FlagsMean(flags + if FlagOf(c).Some? then {FlagOf(c).value} else {}, t + [c])
  {
  }

  lemma {:induction false} SizesHere(s: string, i: nat, t: string)
    requires Here(s, i, t) && (forall k: nat :: k < |t| ==> IsSize(t[k])) && !IsSize(At(s, i + |t|))
    ensures SizesEnd(s, i) == i + |t|
    decreases |t|
  {
    if t == [] {
      FlagChars(At(s, i));
    } else {
      HereAt(s, i, t, 0);
      FlagChars(t[0]);
      assert t == [t[0]] + t[1..];
      HereSplit(s, i, [t[0]], t[1..]);
      SizesHere(s, i + 1, t[1..]);
    }
  }

  /** The three low bits that size specifiers set. */
  ghost function LowBits(t: string): (r: nat)
    ensures r < 8
  {
    (if 'L' in t then 4 else 0) + (if Shorts(t) >= 2 then 2 else 0) + (if Shorts(t) >= 1 then 1 else 0)
  }

  ghost predicate SizesMean(flags: nat, t: string) {
    flags == 8 * Longs(t) + LowBits(t)
  }

  lemma {:induction false} SizesMeaning(s: string, i: nat, t: string)
    requires Here(s, i, t)
    ensures SizesMean(SizeFlags(s, i, i + |t|), t)
    decreases |t|
  {
    if t == [] {
    } else {
      var front, last := t[..|t| - 1], [t[|t| - 1]];
      assert t == front + last;
      HereSplit(s, i, front, last);
      HereAt(s, i, t, |t| - 1);
      SizesMeaning(s, i, front);
      SizesMore(SizeFlags(s, i, i + |front|), t);
    }
  }

  lemma SizesMore(flags: nat, t: string)
    requires t != [] && SizesMean(flags, t[..|t| - 1])
    ensures var c := t[|t| - 1];
            SizesMean(match AddSize(flags, c) case Some(f) => f case None => flags, t)
  {
    CountsLast(t);
    hide Longs, Shorts;
    Bits(Longs(t[..|t| - 1]), LowBits(t[..|t| - 1]));
  }

  lemma CountsLast(t: string)
    requires t != []
    ensures var front, c := t[..|t| - 1], t[|t| - 1];
            && Longs(t) == Longs(front) + (if IsLong(c) then 1 else 0)
            && Shorts(t) == Shorts(front) + (if c == 'h' then 1 else 0)
            && ('L' in t <==> 'L' in front || c == 'L')
  {
    assert t == t[..|t| - 1] + [t[|t| - 1]];
  }

  lemma Bits(q: nat, r: nat)
    requires r < 8
    ensures var n := 8 * q + r;
            && n / 8 == q && n / 4 % 2 == r / 4 && n / 2 % 2 == r / 2 % 2 && n % 2 == r % 2
  {
    Eight(q, r);
    Four(2 * q + r / 4, r % 4);
    Two(q, r / 4);
    Two(4 * q + r / 2, r % 2);
    Two(2 * q + r / 4, r / 2 % 2);
  }

  lemma Eight(x: nat, b: nat)
    requires b < 8
    ensures (8 * x + b) / 8 == x
  {
  }

  lemma Four(x: nat, b: nat)
    requires b < 4
    ensures (4 * x + b) / 4 == x
  {
  }

  lemma Two(x: nat, b: nat)
    requires b < 2
    ensures (2 * x + b) / 2 == x && (2 * x + b) % 2 == b
  {
  }

  lemma WidthMeaning(flags: nat, size: string)
    requires SizesMean(flags, size)
    ensures WidthOf(flags) ==
            if 'L' in size || Longs(size) >= 2 then Longest else if Longs(size) == 1 then Long
            else if Shorts(size) >= 2 then Shortest else if Shorts(size) == 1 then Short else Plain
    ensures flags >= 8 <==> Longs(size) > 0
  {
    hide Longs, Shorts;
    Bits(Longs(size), LowBits(size));
  }

  /** The table of argument types is the one written out above. */
  lemma TypeMeaning(c: char, flags: nat, size: string)
    requires SizesMean(flags, size)
    ensures TypeOf(c, flags) == if IsConversion(c) then Some(Wanted(size, c)) else None
  {
    hide Longs, Shorts, WidthOf, SizesMean;
    WidthMeaning(flags, size);
  }

  // ------------------------------------------------------------------
  // Where the parts stand

  ghost function FlagsAt(f: Form, i: nat): nat { i + 1 + |LeadText(f.lead)| }
  ghost function WidthStart(f: Form, i: nat): nat { FlagsAt(f, i) + |f.flags| }
  ghost function PrecisionStart(f: Form, i: nat): nat { WidthStart(f, i) + |AmountText(f.width)| }
  ghost function SizeStart(f: Form, i: nat): nat { PrecisionStart(f, i) + |DotText(f.precision)| }
  ghost function ConversionStart(f: Form, i: nat): nat { SizeStart(f, i) + |f.size| }

  /** A directive whose '%' is at i. */
  ghost predicate Stands(s: string, i: nat, f: Form) {
    IsForm(f) && Here(s, i, FormText(f))
  }

  lemma PartsHere(s: string, i: nat, f: Form)
    ensures Here(s, i, FormText(f)) <==>
            && Here(s, i, "%") && Here(s, i + 1, LeadText(f.lead)) && Here(s, FlagsAt(f, i), f.flags)
            && Here(s, WidthStart(f, i), AmountText(f.width)) && Here(s, PrecisionStart(f, i), DotText(f.precision))
            && Here(s, SizeStart(f, i), f.size) && Here(s, ConversionStart(f, i), [f.conversion])
    ensures |FormText(f)| == ConversionStart(f, i) + 1 - i
  {
    hide Here, LeadText, AmountText, DotText;
    var t5 := f.size + [f.conversion];
    var t4 := DotText(f.precision) + t5;
    var t3 := AmountText(f.width) + t4;
    var t2 := f.flags + t3;
    HereSplit(s, i, "%", LeadText(f.lead) + t2);
    HereSplit(s, i + 1, LeadText(f.lead), t2);
    HereSplit(s, FlagsAt(f, i), f.flags, t3);
    HereSplit(s, WidthStart(f, i), AmountText(f.width), t4);
    HereSplit(s, PrecisionStart(f, i), DotText(f.precision), t5);
    HereSplit(s, SizeStart(f, i), f.size, [f.conversion]);
  }

  /** An empty part takes no place. */
  lemma Places(f: Form, i: nat)
    ensures i < FlagsAt(f, i) <= WidthStart(f, i) <= PrecisionStart(f, i) <= SizeStart(f, i) <= ConversionStart(f, i)
    ensures f.lead.None? ==> FlagsAt(f, i) == i + 1
    ensures f.width.Absent? ==> WidthStart(f, i) == PrecisionStart(f, i)
    ensures f.precision.Absent? ==> PrecisionStart(f, i) == SizeStart(f, i)
    ensures f.size == [] ==> SizeStart(f, i) == ConversionStart(f, i)
  {
  }

  lemma ConversionChar(s: string, i: nat, f: Form)
    requires Stands(s, i, f)
    ensures At(s, ConversionStart(f, i)) == f.conversion && ConversionStart(f, i) < |s| && IsConversion(f.conversion)
  {
    hide FormText, LeadText, AmountText, DotText, FlagsAt, WidthStart, PrecisionStart, SizeStart, ConversionStart;
    PartsHere(s, i, f);
    HereAt(s, ConversionStart(f, i), [f.conversion], 0);
  }

  lemma SizeChar(s: string, i: nat, f: Form)
    requires Stands(s, i, f)
    ensures var c := At(s, SizeStart(f, i)); IsSize(c) || IsConversion(c)
  {
    hide FormText, LeadText, AmountText, DotText, FlagsAt, WidthStart, PrecisionStart, SizeStart, ConversionStart;
    hide Here, IsConversion, IsSize;
    PartsHere(s, i, f);
    Places(f, i);
    ConversionChar(s, i, f);
    if f.size != [] { HereAt(s, SizeStart(f, i), f.size, 0); }
  }

  lemma PrecisionChar(s: string, i: nat, f: Form)
    requires Stands(s, i, f)
    ensures var c := At(s, PrecisionStart(f, i)); if f.precision.Absent? then IsSize(c) || IsConversion(c) else c == '.'
  {
    hide FormText, LeadText, AmountText, FlagsAt, WidthStart, PrecisionStart, SizeStart, ConversionStart;
    hide Here, IsConversion, IsSize, IsForm;
    PartsHere(s, i, f);
    Places(f, i);
    SizeChar(s, i, f);
    if !f.precision.Absent? { HereAt(s, PrecisionStart(f, i), DotText(f.precision), 0); }
  }

  lemma WidthChar(s: string, i: nat, f: Form)
    requires Stands(s, i, f)
    ensures var c := At(s, WidthStart(f, i));
            match f.width
            case Absent => c == '.' || IsSize(c) || IsConversion(c)
            case Digits(_) => '1' <= c <= '9'
            case Starred(_) => c == '*'
  {
    hide FormText, LeadText, DotText, FlagsAt, WidthStart, PrecisionStart, SizeStart, ConversionStart;
    hide Here, IsConversion, IsSize;
    PartsHere(s, i, f);
    Places(f, i);
    PrecisionChar(s, i, f);
    if !f.width.Absent? { HereAt(s, WidthStart(f, i), AmountText(f.width), 0); }
    if f.width.Digits? { assert '0' <= f.width.ds[0] <= '9'; }
  }

  function IndexOf(lead: Option<string>): Size
    requires IsPosition(lead)
  {
    if lead.Some? then Numeral(lead.value) - 1 else ARG_NONE
  }

  /** The position in front. */
  lemma LeadRead(s: string, i: nat, f: Form)
    requires Stands(s, i, f)
    ensures LeadAt(s, i + 1) == Some((IndexOf(f.lead), FlagsAt(f, i)))
  {
    hide FormText, PositionAt, Here, AmountText, DotText, WidthStart, PrecisionStart, SizeStart, ConversionStart;
    PartsHere(s, i, f);
    if f.lead.Some? {
      PositionHere(s, i + 1, f.lead.value);
    } else {
      NoLead(s, i, f);
    }
  }

  lemma NoLead(s: string, i: nat, f: Form)
    requires Stands(s, i, f) && f.lead.None?
    ensures PositionAt(s, i + 1) == NoPosition
  {
    hide FormText, PositionAt, Here, DotText, LeadText, FlagsAt, SizeStart, ConversionStart;
    PartsHere(s, i, f);
    Places(f, i);
    WidthChar(s, i, f);
    PrecisionChar(s, i, f);
    var j := if f.width.Digits? then PrecisionStart(f, i) else WidthStart(f, i);
    forall k: nat | i + 1 <= k < j ensures At(s, k) != '$' {
      if k < WidthStart(f, i) {
        HereAt(s, FlagsAt(f, i), f.flags, k - FlagsAt(f, i));
      } else {
        HereAt(s, WidthStart(f, i), f.width.ds, k - WidthStart(f, i));
      }
    }
    NoPositionHere(s, i + 1, j);
  }

  lemma FlagsRead(s: string, i: nat, f: Form)
    requires Stands(s, i, f)
    ensures FlagsEnd(s, FlagsAt(f, i)) == WidthStart(f, i)
    ensures FlagsMean(FlagsIn(s, FlagsAt(f, i), WidthStart(f, i)), f.flags)
  {
    hide FormText, LeadText, AmountText, DotText, FlagsMean, Here, FlagsAt, PrecisionStart, SizeStart, ConversionStart;
    PartsHere(s, i, f);
    WidthChar(s, i, f);
    FlagsHere(s, FlagsAt(f, i), f.flags);
    FlagsMeaning(s, FlagsAt(f, i), f.flags);
  }

  /** The position behind a '*', read from there on. */
  lemma StarRead(s: string, i: nat, lead: Option<string>)
    requires IsPosition(lead) && Here(s, i, LeadText(lead))
    requires lead.None? ==> !IsDigit(At(s, i)) && At(s, i) != '$'
    ensures if lead.Some? then PositionAt(s, i) == Position(IndexOf(lead), i + |LeadText(lead)|)
            else PositionAt(s, i) == NoPosition
  {
    hide PositionAt;
    if lead.Some? { PositionHere(s, i, lead.value); } else { NoPositionHere(s, i, i); }
  }

  /** What an amount asks for. */
  function AmountSlots(a: Amount): seq<Slot>
    requires IsAmount(a)
  {
    if a.Starred? then [Slot(IndexOf(a.lead), TYPE_INT)] else []
  }

  lemma AmountsFit(f: Form)
    requires IsForm(f)
    ensures IsAmount(f.width) && IsAmount(f.precision) && IsPosition(f.lead)
  {
  }

  lemma StarSlotsRead(s: string, i: nat, lead: Option<string>)
    requires IsPosition(lead) && Here(s, i, LeadText(lead))
    requires lead.None? ==> !IsDigit(At(s, i)) && At(s, i) != '$'
    ensures StarSlots(s, i) == Some((AmountSlots(Starred(lead)), i + |LeadText(lead)|))
  {
    hide PositionAt, Here;
    StarRead(s, i, lead);
  }

  /** Where a '*' stands, and what follows it. */
  lemma WidthStar(s: string, i: nat, f: Form)
    requires Stands(s, i, f) && f.width.Starred?
    ensures At(s, WidthStart(f, i)) == '*' && Here(s, WidthStart(f, i) + 1, LeadText(f.width.lead))
    ensures PrecisionStart(f, i) == WidthStart(f, i) + 1 + |LeadText(f.width.lead)|
    ensures f.width.lead.None? ==> !IsDigit(At(s, WidthStart(f, i) + 1)) && At(s, WidthStart(f, i) + 1) != '$'
  {
    hide FormText, LeadText, AmountText, DotText, FlagsAt, WidthStart, SizeStart, ConversionStart, Here;
    PartsHere(s, i, f);
    WidthChar(s, i, f);
    PrecisionChar(s, i, f);
    StarText(f.width.lead);
    HereSplit(s, WidthStart(f, i), "*", LeadText(f.width.lead));
    LeadEmpty(f.width.lead);
  }

  lemma LeadEmpty(lead: Option<string>)
    ensures lead.None? ==> LeadText(lead) == ""
  {
  }

  lemma PrecisionStar(s: string, i: nat, f: Form)
    requires Stands(s, i, f) && f.precision.Starred?
    ensures At(s, PrecisionStart(f, i)) == '.' && At(s, PrecisionStart(f, i) + 1) == '*'
    ensures Here(s, PrecisionStart(f, i) + 2, LeadText(f.precision.lead))
    ensures SizeStart(f, i) == PrecisionStart(f, i) + 2 + |LeadText(f.precision.lead)|
    ensures f.precision.lead.None? ==>
      !IsDigit(At(s, PrecisionStart(f, i) + 2)) && At(s, PrecisionStart(f, i) + 2) != '$'
  {
    hide FormText, LeadText, AmountText, DotText, FlagsAt, WidthStart, PrecisionStart, ConversionStart, Here;
    PartsHere(s, i, f);
    PrecisionChar(s, i, f);
    SizeChar(s, i, f);
    StarText(f.precision.lead);
    HereSplit(s, PrecisionStart(f, i), ".*", LeadText(f.precision.lead));
    HereAt(s, PrecisionStart(f, i), ".*", 1);
    LeadEmpty(f.precision.lead);
  }

  lemma StarText(lead: Option<string>)
    ensures DotText(Starred(lead)) == ".*" + LeadText(lead) && AmountText(Starred(lead)) == "*" + LeadText(lead)
  {
  }

  /** Digits of a width and of a precision are read to their end. */
  lemma WidthDigits(s: string, i: nat, f: Form)
    requires Stands(s, i, f) && f.width.Digits?
    ensures IsDigit(At(s, WidthStart(f, i))) && DigitsEnd(s, WidthStart(f, i)) == PrecisionStart(f, i)
    ensures PrecisionStart(f, i) == WidthStart(f, i) + |f.width.ds|
  {
    hide FormText, LeadText, DotText, FlagsAt, WidthStart, SizeStart, ConversionStart, Here, DigitsEnd;
    PartsHere(s, i, f);
    WidthChar(s, i, f);
    PrecisionChar(s, i, f);
    DigitsHere(s, WidthStart(f, i), f.width.ds);
  }

  lemma PrecisionDigits(s: string, i: nat, f: Form)
    requires Stands(s, i, f) && f.precision.Digits?
    ensures At(s, PrecisionStart(f, i)) == '.' && At(s, PrecisionStart(f, i) + 1) != '*'
    ensures DigitsEnd(s, PrecisionStart(f, i) + 1) == SizeStart(f, i)
    ensures SizeStart(f, i) == PrecisionStart(f, i) + 1 + |f.precision.ds|
  {
    hide FormText, LeadText, FlagsAt, WidthStart, PrecisionStart, ConversionStart, Here, DigitsEnd;
    PartsHere(s, i, f);
    PrecisionChar(s, i, f);
    SizeChar(s, i, f);
    HereSplit(s, PrecisionStart(f, i), ".", f.precision.ds);
    DigitsHere(s, PrecisionStart(f, i) + 1, f.precision.ds);
    if f.precision.ds != [] { HereAt(s, PrecisionStart(f, i) + 1, f.precision.ds, 0); }
  }

  lemma WidthRead(s: string, i: nat, f: Form)
    requires Stands(s, i, f)
    ensures WidthSlots(s, WidthStart(f, i)) == Some((AmountSlots(f.width), PrecisionStart(f, i)))
  {
    hide StarSlots, DigitsEnd, FlagsAt, WidthStart, PrecisionStart, Here, FormText, LeadText;
    WidthChar(s, i, f);
    Places(f, i);
    match f.width
    case Absent =>
    case Digits(_) => WidthDigits(s, i, f);
    case Starred(lead) =>
      WidthStar(s, i, f);
      StarSlotsRead(s, WidthStart(f, i) + 1, lead);
  }

  lemma PrecisionRead(s: string, i: nat, f: Form)
    requires Stands(s, i, f)
    ensures PrecisionSlots(s, PrecisionStart(f, i)) == Some((AmountSlots(f.precision), SizeStart(f, i)))
  {
    hide StarSlots, DigitsEnd, PrecisionStart, SizeStart, Here, FormText;
    PrecisionChar(s, i, f);
    Places(f, i);
    match f.precision
    case Absent =>
    case Digits(_) => PrecisionDigits(s, i, f);
    case Starred(lead) =>
      PrecisionStar(s, i, f);
      StarSlotsRead(s, PrecisionStart(f, i) + 2, lead);
  }

  /** The size specifiers and the conversion. */
  lemma ConversionRead(s: string, i: nat, f: Form)
    requires Stands(s, i, f)
    ensures SizesEnd(s, SizeStart(f, i)) == ConversionStart(f, i) && At(s, ConversionStart(f, i)) == f.conversion
    ensures TypeOf(f.conversion, SizeFlags(s, SizeStart(f, i), ConversionStart(f, i))) ==
            Some(Wanted(f.size, f.conversion))
  {
    hide FormText, LeadText, AmountText, DotText, FlagsAt, WidthStart, PrecisionStart, SizeStart, Here;
    hide TypeOf, SizesMean;
    PartsHere(s, i, f);
    ConversionChar(s, i, f);
    SizesHere(s, SizeStart(f, i), f.size);
    SizesMeaning(s, SizeStart(f, i), f.size);
    TypeMeaning(f.conversion, SizeFlags(s, SizeStart(f, i), ConversionStart(f, i)), f.size);
  }

  /** What a directive asks for, in the order in which it is consumed. */
  function SlotsOf(f: Form): seq<Slot>
    requires IsForm(f)
  {
    AmountSlots(f.width) + AmountSlots(f.precision)
    + if f.conversion == '%' then [] else [Slot(IndexOf(f.lead), Wanted(f.size, f.conversion))]
  }

  /** A directive that stands in the format is read as such. */
  lemma FormRead(s: string, i: nat, f: Form)
    requires Stands(s, i, f)
    ensures DirectiveSlots(s, i + 1) == Some((SlotsOf(f), i + |FormText(f)|))
  {
    hide FormText, FlagsAt, WidthStart, PrecisionStart, SizeStart, ConversionStart, Here, LeadAt, WidthSlots;
    hide PrecisionSlots, TypeOf, SizeFlags, Wanted, IsForm, AmountSlots, IsAmount, LeadText, AmountText, DotText;
    hide FlagsEnd, FlagsIn, FlagsMean, SizesEnd;
    PartsHere(s, i, f);
    AmountsFit(f);
    LeadRead(s, i, f);
    FlagsRead(s, i, f);
    WidthRead(s, i, f);
    PrecisionRead(s, i, f);
    ConversionRead(s, i, f);
    WantedNothing(f);
  }

  lemma WantedNothing(f: Form)
    requires IsForm(f)
    ensures Wanted(f.size, f.conversion) == TYPE_NONE <==> f.conversion == '%'
  {
  }

  // ------------------------------------------------------------------
  // Nothing else is a directive

  lemma LeadFound(s: string, i: nat) returns (lead: Option<string>)
    requires i <= |s| && !PositionAt(s, i).BadPosition?
    ensures IsPosition(lead) && Here(s, i, LeadText(lead))
    ensures match PositionAt(s, i)
            case Position(_, next) => next == i + |LeadText(lead)|
            case _ => LeadText(lead) == ""
  {
    hide PositionAt;
    if PositionAt(s, i).Position? {
      var ds := PositionFound(s, i);
      lead := Some(ds);
    } else {
      lead := None;
    }
  }

  lemma DigitsFound(s: string, i: nat)
    requires i <= |s|
    ensures var j := DigitsEnd(s, i); AllDigits(s[i..j]) && Here(s, i, s[i..j])
  {
    var j := DigitsEnd(s, i);
    forall k: nat | k < j - i ensures '0' <= s[i..j][k] <= '9' { assert s[i..j][k] == At(s, i + k); }
  }

  lemma WidthFound(s: string, i: nat) returns (a: Amount)
    requires i <= |s| && WidthSlots(s, i).Some? && !IsFlag(At(s, i))
    ensures IsAmount(a) && (a.Digits? ==> a.ds != [] && a.ds[0] != '0')
    ensures Here(s, i, AmountText(a)) && WidthSlots(s, i).value.1 == i + |AmountText(a)|
  {
    hide PositionAt, DigitsEnd, Here, LeadText;
    if At(s, i) == '*' {
      a := StarFound(s, i);
    } else if IsDigit(At(s, i)) {
      DigitsFound(s, i);
      DigitsMove(s, i);
      a := Digits(s[i..DigitsEnd(s, i)]);
      assert a.ds[0] == s[i];
    } else {
      a := Absent;
      NothingHere(s, i);
    }
  }

  lemma NothingHere(s: string, i: nat)
    requires i <= |s|
    ensures Here(s, i, "")
  {
  }

  lemma StarFound(s: string, i: nat) returns (a: Amount)
    requires i < |s| && s[i] == '*' && StarSlots(s, i + 1).Some?
    ensures a.Starred? && IsAmount(a) && Here(s, i, AmountText(a))
    ensures StarSlots(s, i + 1).value.1 == i + |AmountText(a)|
  {
    hide PositionAt, Here, LeadText;
    var lead := LeadFound(s, i + 1);
    a := Starred(lead);
    OneHere(s, i);
    HereSplit(s, i, "*", LeadText(lead));
  }

  lemma DigitsMove(s: string, i: nat)
    requires IsDigit(At(s, i))
    ensures i < DigitsEnd(s, i)
  {
  }

  lemma PrecisionFound(s: string, i: nat) returns (a: Amount)
    requires i <= |s| && PrecisionSlots(s, i).Some?
    ensures IsAmount(a) && Here(s, i, DotText(a)) && PrecisionSlots(s, i).value.1 == i + |DotText(a)|
  {
    hide StarSlots, DigitsEnd, Here, AmountText;
    if At(s, i) != '.' {
      a := Absent;
      NothingHere(s, i);
    } else {
      OneHere(s, i);
      if At(s, i + 1) == '*' {
        a := StarFound(s, i + 1);
      } else {
        DigitsFound(s, i + 1);
        a := Digits(s[i + 1..DigitsEnd(s, i + 1)]);
        DigitsText(a.ds);
      }
      HereSplit(s, i, ".", AmountText(a));
    }
  }

  lemma DigitsText(ds: string)
    ensures AmountText(Digits(ds)) == ds
  {
  }

  lemma {:induction false} FlagsFound(s: string, i: nat)
    requires i <= |s|
    ensures var j := FlagsEnd(s, i);
            Here(s, i, s[i..j]) && (forall k: nat :: k < j - i ==> IsFlag(s[i..j][k])) && !IsFlag(At(s, j))
    decreases |s| - i
  {
    FlagChars(At(s, i));
    var j := FlagsEnd(s, i);
    if i < j {
      FlagsFound(s, i + 1);
      forall k: nat | k < j - i ensures IsFlag(s[i..j][k]) {
        if k > 0 { assert s[i..j][k] == s[i + 1..j][k - 1]; }
      }
    }
  }

  lemma {:induction false} SizesFound(s: string, i: nat)
    requires i <= |s|
    ensures var j := SizesEnd(s, i); Here(s, i, s[i..j]) && (forall k: nat :: k < j - i ==> IsSize(s[i..j][k]))
    decreases |s| - i
  {
    FlagChars(At(s, i));
    var j := SizesEnd(s, i);
    if i < j {
      SizesFound(s, i + 1);
      forall k: nat | k < j - i ensures IsSize(s[i..j][k]) {
        if k > 0 { assert s[i..j][k] == s[i + 1..j][k - 1]; }
      }
    }
  }

  lemma ConversionFound(s: string, i: nat, lead: Size)
    requires i <= |s| && ConversionSlots(s, i, lead).Some?
    ensures var j := SizesEnd(s, i); j < |s| && IsConversion(s[j]) && ConversionSlots(s, i, lead).value.1 == j + 1
  {
    hide SizeFlags, SizesEnd;
    var j := SizesEnd(s, i);
    SizesFound(s, i);
    SizesMeaning(s, i, s[i..j]);
    TypeMeaning(At(s, j), SizeFlags(s, i, j), s[i..j]);
  }

  /** Whatever is read as a directive is written as one. */
  lemma FormFound(s: string, i: nat) returns (f: Form)
    requires i < |s| && s[i] == '%' && DirectiveSlots(s, i + 1).Some?
    ensures Stands(s, i, f)
  {
    hide LeadAt, WidthSlots, PrecisionSlots, ConversionSlots, FormText, Here, FlagsEnd, SizesEnd, IsAmount, IsPosition,
        LeadText, AmountText, DotText;
    var (index, i0) := LeadAt(s, i + 1).value;
    var lead := LeadRest(s, i + 1);
    var j := FlagsEnd(s, i0);
    FlagsFound(s, i0);
    var width := WidthFound(s, j);
    var k := WidthSlots(s, j).value.1;
    WidthSlotsEnd(s, j);
    var precision := PrecisionFound(s, k);
    var l := PrecisionSlots(s, k).value.1;
    PrecisionSlotsEnd(s, k);
    SizesFound(s, l);
    ConversionFound(s, l, index);
    var m := SizesEnd(s, l);
    f := Form(lead, s[i0..j], width, precision, s[l..m], s[m]);
    OneHere(s, i);
    OneHere(s, m);
    PartsHere(s, i, f);
  }

  lemma OneHere(s: string, i: nat)
    requires i < |s|
    ensures Here(s, i, [s[i]])
  {
  }

  lemma LeadRest(s: string, i: nat) returns (lead: Option<string>)
    requires i <= |s| && LeadAt(s, i).Some?
    ensures IsPosition(lead) && Here(s, i, LeadText(lead)) && LeadAt(s, i).value.1 == i + |LeadText(lead)| <= |s|
  {
    hide PositionAt;
    lead := LeadFound(s, i);
  }

  // ------------------------------------------------------------------
  // Which formats are accepted

  /** From i on the format consists of the directives fs, one after the other, and of
      literal text. */
  ghost predicate Composed(s: string, i: nat, fs: seq<Form>)
    decreases |fs|
  {
    if fs == [] then exists e: nat :: Literal(s, i, e) && At(s, e) == '\0'
    else exists j: nat :: Literal(s, i, j) && Stands(s, j, fs[0]) && Composed(s, j + |FormText(fs[0])|, fs[1..])
  }

  ghost predicate AreForms(fs: seq<Form>) {
    forall k: nat :: k < |fs| ==> IsForm(fs[k])
  }

  ghost function AllSlots(fs: seq<Form>): seq<Slot>
    requires AreForms(fs)
  {
    if fs == [] then [] else SlotsOf(fs[0]) + AllSlots(fs[1..])
  }

  lemma {:induction false} ComposedForms(s: string, i: nat, fs: seq<Form>)
    requires Composed(s, i, fs)
    ensures AreForms(fs)
    decreases |fs|
  {
    if fs == [] {
    } else {
      var j: nat :| Literal(s, i, j) && Stands(s, j, fs[0]) && Composed(s, j + |FormText(fs[0])|, fs[1..]);
      ComposedForms(s, j + |FormText(fs[0])|, fs[1..]);
    }
  }

  lemma {:induction false} LiteralSkipped(s: string, i: nat, j: nat)
    requires Literal(s, i, j)
    ensures FormatSlots(s, i) == FormatSlots(s, j)
    decreases j - i
  {
    if i == j {
    } else {
      LiteralSkipped(s, i + 1, j);
    }
  }

  /** A format so composed is read so. */
  lemma {:induction false} ComposedRead(s: string, i: nat, fs: seq<Form>)
    requires Composed(s, i, fs) && i <= |s| && AreForms(fs)
    ensures FormatSlots(s, i) == Some(AllSlots(fs))
    decreases |fs|
  {
    hide FormText, SlotsOf, FormatSlots, DirectiveSlots, Stands, IsForm;
    if fs == [] {
      var e: nat :| Literal(s, i, e) && At(s, e) == '\0';
      LiteralSkipped(s, i, e);
      SlotsAtEnd(s, e);
    } else {
      var j: nat :| Literal(s, i, j) && Stands(s, j, fs[0]) && Composed(s, j + |FormText(fs[0])|, fs[1..]);
      LiteralSkipped(s, i, j);
      ComposedForms(s, j + |FormText(fs[0])|, fs[1..]);
      StandsPercent(s, j, fs[0]);
      ComposedRead(s, j + |FormText(fs[0])|, fs[1..]);
      FormRead(s, j, fs[0]);
      SlotsAtForm(s, j, SlotsOf(fs[0]), j + |FormText(fs[0])|);
    }
  }

  lemma StandsPercent(s: string, i: nat, f: Form)
    requires Stands(s, i, f)
    ensures IsForm(f) && i < |s| && s[i] == '%' && i + |FormText(f)| <= |s| && FormText(f) != []
  {
    HereAt(s, i, FormText(f), 0);
  }

  lemma SlotsAtEnd(s: string, i: nat)
    requires i <= |s| && At(s, i) == '\0'
    ensures FormatSlots(s, i) == Some([])
  {
  }

  lemma SlotsAtForm(s: string, i: nat, slots: seq<Slot>, next: nat)
    requires i < |s| && s[i] == '%' && DirectiveSlots(s, i + 1) == Some((slots, next)) && i < next <= |s|
    ensures FormatSlots(s, i) ==
            match FormatSlots(s, next) case None => None case Some(more) => Some(slots + more)
  {
    hide DirectiveSlots;
  }

  lemma NoSlotsAtForm(s: string, i: nat)
    requires i < |s| && s[i] == '%' && FormatSlots(s, i).Some?
    ensures DirectiveSlots(s, i + 1).Some?
  {
    hide DirectiveSlots;
  }

  /** And no other is. */
  lemma {:induction false} ComposedFound(s: string, i: nat) returns (fs: seq<Form>)
    requires i <= |s| && FormatSlots(s, i).Some?
    ensures Composed(s, i, fs)
    decreases |s| - i
  {
    hide FormText, SlotsOf, DirectiveSlots, Stands;
    if At(s, i) == '\0' {
      fs := [];
      assert Literal(s, i, i);
    } else if At(s, i) != '%' {
      fs := ComposedFound(s, i + 1);
      ComposedBefore(s, i, fs);
    } else {
      NoSlotsAtForm(s, i);
      var f := FormFound(s, i);
      FormRead(s, i, f);
      StandsPercent(s, i, f);
      SlotsAtForm(s, i, SlotsOf(f), i + |FormText(f)|);
      var rest := ComposedFound(s, i + |FormText(f)|);
      fs := [f] + rest;
      assert Literal(s, i, i) && fs[1..] == rest;
    }
  }

  lemma ComposedBefore(s: string, i: nat, fs: seq<Form>)
    requires i < |s| && s[i] != '%' && s[i] != '\0' && Composed(s, i + 1, fs)
    ensures Composed(s, i, fs)
  {
    hide FormText, Stands;
    if fs == [] {
      var e: nat :| Literal(s, i + 1, e) && At(s, e) == '\0';
      assert Literal(s, i, e);
    } else {
      var j: nat :| Literal(s, i + 1, j) && Stands(s, j, fs[0]) && Composed(s, j + |FormText(fs[0])|, fs[1..]);
      assert Literal(s, i, j);
    }
  }

  /** The format is composed of directives that want no two types of one argument, and no
      argument that a size cannot number. */
  ghost predicate Acceptable(s: string) {
    exists fs: seq<Form> :: AreForms(fs) && Composed(s, 0, fs) && !Unsound(Demands(AllSlots(fs), 0))
  }

  /** Just those formats are accepted. */
  lemma AcceptedExactly(s: string)
    ensures Parse(s).Some? <==> Acceptable(s)
  {
    hide Composed, Unsound, AllSlots, Demands, Parse, FormatSlots, AreForms;
    RejectedExactly(s);
    if Parse(s).Some? {
      var fs := ComposedFound(s, 0);
      ComposedForms(s, 0, fs);
      ComposedRead(s, 0, fs);
    }
    if Acceptable(s) {
      var fs: seq<Form> :| AreForms(fs) && Composed(s, 0, fs) && !Unsound(Demands(AllSlots(fs), 0));
      ComposedRead(s, 0, fs);
    }
  }

  // ------------------------------------------------------------------
  // What a parse says of each directive

  /** How many arguments an amount takes without a position. */
  function Unnumbered(a: Amount): nat {
    if a == Starred(None) then 1 else 0
  }

  function TakenBy(f: Form): nat {
    Unnumbered(f.width) + Unnumbered(f.precision) + if f.lead.None? && f.conversion != '%' then 1 else 0
  }

  /** The pointers delimit the amount, '.' included and positions left out; its argument is
      the one numbered, or the next one. */
  ghost predicate AmountMeans(a: Amount, at: nat, dot: nat, start: int, end: int, argIndex: Size, next: nat) {
    match a
    case Absent => start == end == NULL && argIndex == ARG_NONE
    case Digits(ds) => start == at && end == at + dot + |ds| && argIndex == ARG_NONE
    case Starred(lead) =>
      && start == at && end == at + dot + 1
      && argIndex == if lead.Some? && AllDigits(lead.value) then Numeral(lead.value) - 1 else next
  }

  /** The item is what the directive f at i means, when `next` is the next argument that has
      no position. */
  ghost predicate Means(item: Item, i: nat, f: Form, next: nat)
    requires IsForm(f)
  {
    && item.dir.dirStart == i && item.dir.dirEnd == i + |FormText(f)|
    && FlagsMean(item.dir.flags, f.flags)
    && AmountMeans(f.width, WidthStart(f, i), 0, item.dir.widthStart, item.dir.widthEnd, item.dir.widthArgIndex, next)
    && AmountMeans(f.precision, PrecisionStart(f, i), 1, item.dir.precisionStart, item.dir.precisionEnd,
                   item.dir.precisionArgIndex, next + Unnumbered(f.width))
    && item.dir.conversion == (if f.conversion == 'C' then 'c' else if f.conversion == 'S' then 's' else f.conversion)
    && item.argType == Wanted(f.size, f.conversion)
    && item.dir.argIndex ==
         if f.conversion == '%' then ARG_NONE
         else if f.lead.Some? then Numeral(f.lead.value) - 1
         else next + Unnumbered(f.width) + Unnumbered(f.precision)
  }

  lemma StarMeans(s: string, st: State, start: nat, lead: Option<string>)
    requires IsPosition(lead) && Here(s, st.cp, LeadText(lead))
    requires lead.None? ==> !IsDigit(At(s, st.cp)) && At(s, st.cp) != '$'
    requires Star(s, st, start).Some?
    ensures var (f, after) := Star(s, st, start).value;
            && f.start == start && f.end == st.cp
            && f.argIndex == (if lead.Some? then IndexOf(lead) else st.argPosn)
            && after.cp == st.cp + |LeadText(lead)|
            && after.argPosn == st.argPosn + if lead.None? then 1 else 0
  {
    hide PositionAt, Here, Registered;
    StarRead(s, st.cp, lead);
  }

  lemma StandsForm(s: string, i: nat, f: Form)
    requires Stands(s, i, f)
    ensures IsAmount(f.width) && IsAmount(f.precision) && IsPosition(f.lead)
    ensures forall c: char :: IsSize(c) || IsConversion(c) ==> c != '*' && c != '.' && !IsDigit(c)
  {
  }

  lemma WidthMeans(s: string, st: State, i: nat, f: Form)
    requires Stands(s, i, f) && st.cp == WidthStart(f, i) && WidthAt(s, st).Some?
    ensures var (w, after) := WidthAt(s, st).value;
            && AmountMeans(f.width, WidthStart(f, i), 0, w.start, w.end, w.argIndex, st.argPosn)
            && after.cp == PrecisionStart(f, i) && after.argPosn == st.argPosn + Unnumbered(f.width)
  {
    hide Star, DigitsEnd, FlagsAt, WidthStart, PrecisionStart, SizeStart, Here, FormText, LeadText, AmountText,
        IsConversion, IsSize, Stands;
    WidthChar(s, i, f);
    Places(f, i);
    StandsForm(s, i, f);
    match f.width
    case Absent =>
    case Digits(_) => WidthDigits(s, i, f);
    case Starred(lead) =>
      WidthStar(s, i, f);
      StarMeans(s, st.(cp := st.cp + 1), st.cp, lead);
  }

  lemma PrecisionMeans(s: string, st: State, i: nat, f: Form)
    requires Stands(s, i, f) && st.cp == PrecisionStart(f, i) && PrecisionAt(s, st).Some?
    ensures var (p, after) := PrecisionAt(s, st).value;
            && AmountMeans(f.precision, PrecisionStart(f, i), 1, p.start, p.end, p.argIndex, st.argPosn)
            && after.cp == SizeStart(f, i) && after.argPosn == st.argPosn + Unnumbered(f.precision)
  {
    hide Star, DigitsEnd, PrecisionStart, SizeStart, Here, FormText, LeadText;
    PrecisionChar(s, i, f);
    Places(f, i);
    match f.precision
    case Absent =>
    case Digits(_) => PrecisionDigits(s, i, f);
    case Starred(lead) =>
      PrecisionStar(s, i, f);
      StarMeans(s, st.(cp := st.cp + 2), st.cp, lead);
  }

  lemma ConversionMeans(s: string, st: State, i: nat, f: Form, lead: Size)
    requires Stands(s, i, f) && st.cp == SizeStart(f, i) && IsPosition(f.lead) && lead == IndexOf(f.lead)
    requires ConversionAt(s, st, lead).Some?
    ensures var (c, n, t, after) := ConversionAt(s, st, lead).value;
            && c == (if f.conversion == 'C' then 'c' else if f.conversion == 'S' then 's' else f.conversion)
            && IsConversion(f.conversion) && t == Wanted(f.size, f.conversion)
            && n == (if f.conversion == '%' then ARG_NONE else if f.lead.Some? then IndexOf(f.lead) else st.argPosn)
            && after.cp == i + |FormText(f)|
            && after.argPosn == st.argPosn + if f.lead.None? && f.conversion != '%' then 1 else 0
  {
    hide TypeOf, SizeFlags, SizesEnd, Registered, FormText, Here, Wanted, SizeStart, ConversionStart;
    PartsHere(s, i, f);
    ConversionRead(s, i, f);
    WantedNothing(f);
  }

  lemma DirectiveMeans(s: string, st: State, i: nat, f: Form)
    requires Stands(s, i, f) && IsForm(f) && st.cp == i + 1 && i < |s| && DirectiveAt(s, st).Some?
    ensures var (item, after) := DirectiveAt(s, st).value;
            Means(item, i, f, st.argPosn) && after.argPosn == st.argPosn + TakenBy(f)
  {
    hide LeadAt, WidthAt, PrecisionAt, ConversionAt, FlagsIn, FlagsEnd, FormText, Here, IsForm, Wanted, FlagsMean,
        AmountMeans, FlagsAt, WidthStart, PrecisionStart, SizeStart, Unnumbered, IsPosition;
    AmountsFit(f);
    LeadRead(s, i, f);
    FlagsRead(s, i, f);
    var st0 := st.(cp := WidthStart(f, i));
    WidthMeans(s, st0, i, f);
    var st1 := WidthAt(s, st0).value.1;
    PrecisionMeans(s, st1, i, f);
    var st2 := PrecisionAt(s, st1).value.1;
    ConversionMeans(s, st2, i, f, IndexOf(f.lead));
  }

  /** From i on: each item is what the directive at its place means, and what is between them
      is literal text. */
  ghost predicate Written(s: string, i: nat, items: seq<Item>, next: nat)
    decreases |items|
  {
    if items == [] then exists e: nat :: Literal(s, i, e) && At(s, e) == '\0'
    else
      && Literal(s, i, items[0].dir.dirStart)
      && exists f: Form ::
           && IsForm(f) && Stands(s, items[0].dir.dirStart, f)
           && Means(items[0], items[0].dir.dirStart, f, next)
           && Written(s, items[0].dir.dirEnd, items[1..], next + TakenBy(f))
  }

  lemma {:induction false} ParsedWritten(s: string, st: State)
    requires st.cp <= |s| && ParseFrom(s, st).Some?
    ensures Written(s, st.cp, ParseFrom(s, st).value.items, st.argPosn)
    decreases |s| - st.cp
  {
    hide DirectiveAt, Means, Stands, IsForm, TakenBy;
    if At(s, st.cp) == '\0' {
      assert Literal(s, st.cp, st.cp);
    } else if At(s, st.cp) != '%' {
      ParsedWritten(s, st.(cp := st.cp + 1));
      WrittenBefore(s, st.cp, ParseFrom(s, st).value.items, st.argPosn);
    } else {
      var start := st.(cp := st.cp + 1);
      var (item, after) := DirectiveAt(s, start).value;
      var f := FormOf(s, start);
      ParsedWritten(s, after);
      var items := ParseFrom(s, after).value.items;
      assert ([item] + items)[1..] == items;
      assert Literal(s, st.cp, st.cp);
    }
  }

  lemma FormOf(s: string, st: State) returns (f: Form)
    requires 0 < st.cp <= |s| && s[st.cp - 1] == '%' && DirectiveAt(s, st).Some?
    ensures IsForm(f) && Stands(s, st.cp - 1, f)
    ensures var (item, after) := DirectiveAt(s, st).value;
            && Means(item, st.cp - 1, f, st.argPosn) && after.argPosn == st.argPosn + TakenBy(f)
  {
    hide DirectiveAt, DirectiveSlots, Means, TakenBy, FormText, ConsumeAll, Here, IsForm;
    PastDirective(s, st);
    f := FormFound(s, st.cp - 1);
    StandsPercent(s, st.cp - 1, f);
    DirectiveMeans(s, st, st.cp - 1, f);
  }

  lemma WrittenBefore(s: string, i: nat, items: seq<Item>, next: nat)
    requires i < |s| && s[i] != '%' && s[i] != '\0' && Written(s, i + 1, items, next)
    ensures Written(s, i, items, next)
  {
    hide Means, Stands, IsForm, TakenBy;
    if items == [] {
      var e: nat :| Literal(s, i + 1, e) && At(s, e) == '\0';
      assert Literal(s, i, e);
    } else {
      assert Literal(s, i, items[0].dir.dirStart);
    }
  }

  /** A format is accepted if and only if it is composed of directives that agree on their
      arguments; and then each item is what its directive means. */
  lemma ParsedText(s: string)
    ensures Parse(s).Some? <==> Acceptable(s)
    ensures Parse(s).Some? ==> Written(s, 0, Parse(s).value.items, 0)
  {
    hide ParseFrom, Written, Acceptable;
    AcceptedExactly(s);
    if Parse(s).Some? { ParsedWritten(s, State(0, 0, [])); }
  }

  // ------------------------------------------------------------------
  // Single directives

  lemma SizesSpelled()
    ensures Longs("") == Longs("h") == Longs("hh") == Longs("L") == 0
    ensures Longs("l") == Longs("j") == Longs("z") == Longs("Z") == Longs("t") == 1 && Longs("ll") == 2
    ensures Shorts("") == 0 && Shorts("h") == 1 && Shorts("hh") == 2
    ensures Shorts("l") == Shorts("ll") == Shorts("j") == Shorts("z") == Shorts("Z") == Shorts("t") == 0
  {
    assert Longs("") == 0 && Shorts("") == 0;
    assert "hh"[..1] == "h" && "ll"[..1] == "l";
  }

  /** The types of arguments, by size specifier and conversion. */
  lemma TypeTable(c: char)
    requires IsConversion(c)
    ensures c == 'd' || c == 'i' ==>
      && Wanted("", c) == TYPE_INT && Wanted("h", c) == TYPE_SHORT && Wanted("hh", c) == TYPE_SCHAR
      && Wanted("l", c) == TYPE_LONGINT && Wanted("ll", c) == TYPE_LONGLONGINT && Wanted("L", c) == TYPE_LONGLONGINT
      && Wanted("j", c) == Wanted("z", c) == Wanted("Z", c) == Wanted("t", c) == TYPE_LONGINT
    ensures c == 'o' || c == 'u' || c == 'x' || c == 'X' ==>
      && Wanted("", c) == TYPE_UINT && Wanted("h", c) == TYPE_USHORT && Wanted("hh", c) == TYPE_UCHAR
      && Wanted("l", c) == TYPE_ULONGINT && Wanted("ll", c) == Wanted("L", c) == TYPE_ULONGLONGINT
      && Wanted("j", c) == Wanted("z", c) == Wanted("Z", c) == Wanted("t", c) == TYPE_ULONGINT
    ensures c == 'f' || c == 'F' || c == 'e' || c == 'E' || c == 'g' || c == 'G' || c == 'a' || c == 'A' ==>
      && Wanted("", c) == Wanted("l", c) == TYPE_DOUBLE && Wanted("L", c) == TYPE_LONGDOUBLE
  {
    hide Longs, Shorts;
    SizesSpelled();
  }

  lemma OtherTypes()
    ensures Wanted("", 'c') == TYPE_CHAR && Wanted("l", 'c') == TYPE_WIDE_CHAR && Wanted("", 'C') == TYPE_WIDE_CHAR
    ensures Wanted("", 's') == TYPE_STRING && Wanted("l", 's') == TYPE_WIDE_STRING
    ensures Wanted("", 'S') == TYPE_WIDE_STRING && Wanted("", 'p') == TYPE_POINTER && Wanted("", '%') == TYPE_NONE
    ensures Wanted("", 'n') == TYPE_COUNT_INT_POINTER && Wanted("h", 'n') == TYPE_COUNT_SHORT_POINTER
    ensures Wanted("hh", 'n') == TYPE_COUNT_SCHAR_POINTER && Wanted("l", 'n') == TYPE_COUNT_LONGINT_POINTER
    ensures Wanted("ll", 'n') == Wanted("L", 'n') == TYPE_COUNT_LONGLONGINT_POINTER
  {
    hide Longs, Shorts;
    SizesSpelled();
  }

  /** A directive of a size and a conversion alone takes the first argument, with the type
      that the two stand for; and "%%" takes none. */
  lemma SingleDirective(size: string, c: char)
    requires IsConversion(c) && forall k: nat :: k < |size| ==> IsSize(size[k])
    ensures var p := Parse("%" + size + [c]);
            && p.Some? && |p.value.items| == 1
            && p.value.items[0].argType == Wanted(size, c)
            && p.value.items[0].dir.argIndex == (if c == '%' then ARG_NONE else 0)
            && p.value.table == if c == '%' then [] else [Wanted(size, c)]
  {
    hide Wanted, DirectiveAt, DirectiveSlots, IsConversion, IsSize;
    var s := "%" + size + [c];
    var f := Form(None, "", Absent, Absent, size, c);
    var st := State(1, 0, []);
    assert FormText(f) == s;
    assert s[0..|s|] == s;
    assert IsForm(f) && Stands(s, 0, f);
    FormRead(s, 0, f);
    PastDirective(s, st);
    WantedNothing(f);
    OneSlot(f, st);
    DirectiveMeans(s, st, 0, f);
    var (item, after) := DirectiveAt(s, st).value;
    StepPercent(s, item, after);
  }

  /** A single argument on an empty table. */
  lemma OneSlot(f: Form, st: State)
    requires IsForm(f) && f.lead.None? && f.width.Absent? && f.precision.Absent? && st.argPosn == 0 && st.table == []
    ensures var r := ConsumeAll(st, SlotsOf(f));
            r.Some? && r.value.table == if f.conversion == '%' then [] else [Wanted(f.size, f.conversion)]
  {
    hide Wanted;
    WantedNothing(f);
    if f.conversion == '%' {
      assert SlotsOf(f) == [];
    } else {
      assert SlotsOf(f) == [Slot(ARG_NONE, Wanted(f.size, f.conversion))];
      ConsumeAllOne(st, Slot(ARG_NONE, Wanted(f.size, f.conversion)));
    }
  }

  lemma StepPercent(s: string, item: Item, after: State)
    requires s != [] && s[0] == '%' && DirectiveAt(s, State(1, 0, [])) == Some((item, after)) && after.cp == |s|
    ensures Parse(s) == Some(Parsed([item], after.table, |s|))
  {
    hide DirectiveAt;
    assert ParseFrom(s, after) == Some(Parsed([], after.table, |s|));
    assert [item] + [] == [item];
  }
}
