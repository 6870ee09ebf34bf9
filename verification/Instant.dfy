/** Fixed-width UTC instant text, its tick count, and the pair that binds both. */
module Instant {
  import opened Wrappers
  import opened Ordering
  import opened Calendar

  // ---- Decimal digits ------------------------------------------------------

  predicate IsDigit(c: char) {
    '0' <= c <= '9'
  }

  predicate AllDigits(s: string) {
    forall i :: 0 <= i < |s| ==> IsDigit(s[i])
  }

  function DigitValue(c: char): (v: nat)
    requires IsDigit(c)
    ensures v < 10
  {
    c as int - '0' as int
  }

  function DigitChar(v: nat): (c: char)
    requires v < 10
    ensures IsDigit(c) && DigitValue(c) == v
  {
    '0' + v as char
  }

  function ParseNat(s: string): nat
    requires AllDigits(s)
  {
    if s == [] then 0 else 10 * ParseNat(s[..|s| - 1]) + DigitValue(s[|s| - 1])
  }

  function Decimal(n: nat): (s: string)
    ensures s != [] && AllDigits(s)
  {
    if n < 10 then [DigitChar(n)] else Decimal(n / 10) + [DigitChar(n % 10)]
  }

  function Zeros(k: nat): (s: string)
    ensures |s| == k && AllDigits(s)
  {
    if k == 0 then [] else Zeros(k - 1) + ['0']
  }

  /** Decimal text padded on the left with zeros to at least `width` characters. */
  function ZeroPad(n: nat, width: nat): (s: string)
    ensures AllDigits(s) && |s| >= width
  {
    var s := Decimal(n);
    if |s| >= width then s else Zeros(width - |s|) + s
  }

  function Power10(k: nat): nat {
    if k == 0 then 1 else 10 * Power10(k - 1)
  }

  /** The digits of `n` in exactly `width` places. */
  function Fixed(n: nat, width: nat): (s: string)
    ensures |s| == width && AllDigits(s)
  {
    if width == 0 then [] else Fixed(n / 10, width - 1) + [DigitChar(n % 10)]
  }

  lemma {:induction false} FixedZero(width: nat)
    ensures Fixed(0, width) == Zeros(width)
  {
    if width > 0 {
      FixedZero(width - 1);
    }
  }

  lemma {:induction false} DecimalFits(n: nat, width: nat)
    requires n < Power10(width) && width > 0
    ensures |Decimal(n)| <= width && ZeroPad(n, width) == Fixed(n, width)
  {
    if n < 10 {
      FixedZero(width - 1);
      assert Fixed(n, width) == Zeros(width - 1) + [DigitChar(n)];
    } else {
      assert width > 1;
      DecimalFits(n / 10, width - 1);
      var s := Decimal(n / 10);
      assert Decimal(n) == s + [DigitChar(n % 10)];
      var z := if |s| >= width - 1 then [] else Zeros(width - 1 - |s|);
      assert Fixed(n / 10, width - 1) == z + s;
      assert (z + s) + [DigitChar(n % 10)] == z + (s + [DigitChar(n % 10)]);
    }
  }

  lemma {:induction false} ParseOfFixed(n: nat, width: nat)
    requires n < Power10(width)
    ensures ParseNat(Fixed(n, width)) == n
  {
    if width > 0 {
      ParseOfFixed(n / 10, width - 1);
      assert Fixed(n, width)[..width - 1] == Fixed(n / 10, width - 1);
    }
  }

  lemma {:induction false} FixedOfParse(s: string)
    requires AllDigits(s)
    ensures ParseNat(s) < Power10(|s|) && Fixed(ParseNat(s), |s|) == s
  {
    if s != [] {
      FixedOfParse(s[..|s| - 1]);
      var v := DigitValue(s[|s| - 1]);
      assert ParseNat(s) / 10 == ParseNat(s[..|s| - 1]) && ParseNat(s) % 10 == v;
      assert s == s[..|s| - 1] + [s[|s| - 1]];
    }
  }

  /** Padding a number and parsing digits undo each other at any width. */
  lemma PadAndParse(s: string)
    requires AllDigits(s) && s != []
    ensures ZeroPad(ParseNat(s), |s|) == s
  {
    FixedOfParse(s);
    DecimalFits(ParseNat(s), |s|);
  }

  lemma ParseAndPad(n: nat, width: nat)
    requires n < Power10(width) && width > 0
    ensures |ZeroPad(n, width)| == width && ParseNat(ZeroPad(n, width)) == n
  {
    DecimalFits(n, width);
    ParseOfFixed(n, width);
  }

  /** Digit strings of equal length are ordered as the numbers they spell. */
  lemma {:induction false} DigitOrder(a: string, b: string)
    requires |a| == |b| && AllDigits(a) && AllDigits(b)
    ensures Less(a, b) <==> ParseNat(a) < ParseNat(b)
    ensures a == b <==> ParseNat(a) == ParseNat(b)
  {
    FixedOfParse(a);
    FixedOfParse(b);
    if a != [] {
      var n := |a| - 1;
      DigitOrder(a[..n], b[..n]);
      LessConcat(a[..n], [a[n]], b[..n], [b[n]]);
      assert a == a[..n] + [a[n]] && b == b[..n] + [b[n]];
      assert Less([a[n]], [b[n]]) <==> a[n] < b[n];
    }
  }

  // ---- Instant text --------------------------------------------------------

  /** The seven digit groups of an instant, as they stand in the text. */
  datatype Groups = Groups(year: string, month: string, day: string,
                           hour: string, minute: string, second: string, fraction: string)

  /** `width` is the number of fraction digits: 7 for authority instants, 6 for UTC timestamps. */
  type FractionWidth = w: nat | w == 6 || w == 7 witness 7

  predicate GroupsShape(g: Groups, width: FractionWidth) {
    && |g.year| == 4 && |g.month| == 2 && |g.day| == 2
    && |g.hour| == 2 && |g.minute| == 2 && |g.second| == 2 && |g.fraction| == width
    && AllDigits(g.year) && AllDigits(g.month) && AllDigits(g.day)
    && AllDigits(g.hour) && AllDigits(g.minute) && AllDigits(g.second) && AllDigits(g.fraction)
  }

  function Part(group: string, separator: char, rest: string): string {
    group + ([separator] + rest)
  }

  function RenderClock(g: Groups): string {
    Part(g.hour, ':', Part(g.minute, ':', Part(g.second, '.', Part(g.fraction, 'Z', []))))
  }

  function Render(g: Groups): string {
    Part(g.year, '-', Part(g.month, '-', Part(g.day, 'T', RenderClock(g))))
  }

  /** Cuts a text of the right length at the fixed positions. */
  function Cut(text: string, width: FractionWidth): Groups
    requires |text| == 21 + width
  {
    Groups(text[0..4], text[5..7], text[8..10], text[11..13], text[14..16], text[17..19],
           text[20..20 + width])
  }

  /** The accepted pattern: digits at the digit positions, the separators in between. */
  predicate Matches(text: string, width: FractionWidth) {
    && |text| == 21 + width
    && GroupsShape(Cut(text, width), width)
    && text[4] == '-' && text[7] == '-' && text[10] == 'T'
    && text[13] == ':' && text[16] == ':' && text[19] == '.' && text[20 + width] == 'Z'
  }

  /** Where a group, its separator and what follows it stand, seen from position `at` of a text. */
  lemma PartAt(text: string, at: nat, group: string, separator: char, rest: string)
    requires at <= |text| && text[at..] == Part(group, separator, rest)
    ensures var end := at + |group|;
            end < |text| && text[at..end] == group && text[end] == separator && text[end + 1..] == rest
  {
    var end := at + |group|;
    assert text[at..][|group|] == separator;
    assert text[at..end] == text[at..][..|group|];
    assert text[end + 1..] == text[at..][|group| + 1..];
  }

  lemma ClockAt(text: string, g: Groups, width: FractionWidth)
    requires GroupsShape(g, width) && |text| >= 11 && text[11..] == RenderClock(g)
    ensures |text| == 21 + width
    ensures text[11..13] == g.hour && text[14..16] == g.minute && text[17..19] == g.second
    ensures text[20..20 + width] == g.fraction
    ensures text[13] == ':' && text[16] == ':' && text[19] == '.' && text[20 + width] == 'Z'
  {
    hide Part;
    var s6 := Part(g.fraction, 'Z', []);
    var s5 := Part(g.second, '.', s6);
    PartAt(text, 11, g.hour, ':', Part(g.minute, ':', s5));
    PartAt(text, 14, g.minute, ':', s5);
    PartAt(text, 17, g.second, '.', s6);
    PartAt(text, 20, g.fraction, 'Z', []);
  }

  lemma RenderThenCut(g: Groups, width: FractionWidth)
    requires GroupsShape(g, width)
    ensures Matches(Render(g), width) && Cut(Render(g), width) == g
  {
    hide Part, RenderClock;
    var text, s3 := Render(g), RenderClock(g);
    var s2 := Part(g.day, 'T', s3);
    assert text[0..] == text;
    PartAt(text, 0, g.year, '-', Part(g.month, '-', s2));
    PartAt(text, 5, g.month, '-', s2);
    PartAt(text, 8, g.day, 'T', s3);
    ClockAt(text, g, width);
  }

  lemma CutThenRender(text: string, width: FractionWidth)
    requires Matches(text, width)
    ensures Render(Cut(text, width)) == text
  {
    var g := Cut(text, width);
    PartFrom(text, 20, 20 + width);
    PartFrom(text, 17, 19);
    PartFrom(text, 14, 16);
    PartFrom(text, 11, 13);
    PartFrom(text, 8, 10);
    PartFrom(text, 5, 7);
    PartFrom(text, 0, 4);
    assert text[21 + width..] == [];
    assert text[0..] == text;
  }

  lemma PartFrom(text: string, at: nat, end: nat)
    requires at <= end < |text|
    ensures text[at..] == Part(text[at..end], text[end], text[end + 1..])
  {
  }

  // ---- Ticks ---------------------------------------------------------------

  function TicksPerSecond(width: FractionWidth): int {
    if width == 7 then 10_000_000 else 1_000_000
  }

  function TicksPerDay(width: FractionWidth): int {
    if width == 7 then 864_000_000_000 else 86_400_000_000
  }

  /** Why an instant text or tick count is refused. */
  datatype InstantError = NotCanonicalShape | InvalidDate | InvalidTime | OutsideYearRange

  function GroupsDate(g: Groups): Date
    requires AllDigits(g.year) && AllDigits(g.month) && AllDigits(g.day)
  {
    Date(ParseNat(g.year), ParseNat(g.month), ParseNat(g.day))
  }

  function SecondsOfDay(g: Groups): int
    requires AllDigits(g.hour) && AllDigits(g.minute) && AllDigits(g.second)
  {
    ParseNat(g.hour) * 3600 + ParseNat(g.minute) * 60 + ParseNat(g.second)
  }

  predicate ClockInRange(g: Groups)
    requires AllDigits(g.hour) && AllDigits(g.minute) && AllDigits(g.second)
  {
    ParseNat(g.hour) <= 23 && ParseNat(g.minute) <= 59 && ParseNat(g.second) <= 59
  }

  /** The parser: canonical text to ticks since 1970. */
  function TicksOf(text: string, width: FractionWidth): Result<int, InstantError> {
    if !Matches(text, width) then Err(NotCanonicalShape)
    else
      var g := Cut(text, width);
      var date := GroupsDate(g);
      if !(1 <= date.year <= 9999) || !(1 <= date.month <= 12) then Err(InvalidDate)
      else if !(1 <= date.day <= MonthLength(date.year, date.month)) || !ClockInRange(g) then Err(InvalidTime)
      else Ok(DaysFromCivil(date) * TicksPerDay(width) + SecondsOfDay(g) * TicksPerSecond(width)
              + ParseNat(g.fraction))
  }

  function GroupsOf(date: Date, withinDay: int, width: FractionWidth): Groups
    requires 1 <= date.year && 1 <= date.month && 1 <= date.day && 0 <= withinDay
  {
    var seconds, fraction := withinDay / TicksPerSecond(width), withinDay % TicksPerSecond(width);
    var hour, remaining := seconds / 3600, seconds % 3600;
    Groups(ZeroPad(date.year, 4), ZeroPad(date.month, 2), ZeroPad(date.day, 2),
           ZeroPad(hour, 2), ZeroPad(remaining / 60, 2), ZeroPad(remaining % 60, 2),
           ZeroPad(fraction, width))
  }

  /** The printer: ticks since 1970 to canonical text, for years 1 to 9999 only. */
  function TextOf(ticks: int, width: FractionWidth): Result<string, InstantError> {
    var days, withinDay := ticks / TicksPerDay(width), ticks % TicksPerDay(width);
    var date := CivilFromDays(days);
    DaysAfterCivil(days);
    if !(1 <= date.year <= 9999) then Err(OutsideYearRange)
    else Ok(Render(GroupsOf(date, withinDay, width)))
  }

  lemma ParsePad2(n: nat)
    requires n < 100
    ensures |ZeroPad(n, 2)| == 2 && ParseNat(ZeroPad(n, 2)) == n
  {
    assert Power10(2) == 100;
    ParseAndPad(n, 2);
  }

  lemma ParsePad4(n: nat)
    requires n < 10000
    ensures |ZeroPad(n, 4)| == 4 && ParseNat(ZeroPad(n, 4)) == n
  {
    assert Power10(4) == 100 * Power10(2) == 10000;
    ParseAndPad(n, 4);
  }

  lemma UnitIsPower(width: FractionWidth)
    ensures Power10(width) == TicksPerSecond(width)
    ensures TicksPerDay(width) == 86400 * TicksPerSecond(width)
  {
    assert Power10(4) == 100 * Power10(2) == 10000;
    assert Power10(6) == 100 * Power10(4);
  }

  /** What the printer's digit groups spell. */
  lemma GroupsOfSpell(date: Date, withinDay: int, width: FractionWidth)
    requires ValidDate(date) && 1 <= date.year <= 9999 && 0 <= withinDay < TicksPerDay(width)
    ensures var g := GroupsOf(date, withinDay, width);
            && GroupsShape(g, width) && GroupsDate(g) == date && ClockInRange(g)
            && SecondsOfDay(g) * TicksPerSecond(width) + ParseNat(g.fraction) == withinDay
  {
    UnitIsPower(width);
    var unit := TicksPerSecond(width);
    var seconds, fraction := withinDay / unit, withinDay % unit;
    ParsePad4(date.year);
    ParsePad2(date.month);
    ParsePad2(date.day);
    assert 0 <= seconds < 86400;
    ParsePad2(seconds / 3600);
    ParsePad2(seconds % 3600 / 60);
    ParsePad2(seconds % 3600 % 60);
    ParseAndPad(fraction, width);
  }

  /** What parsing a rendered set of groups yields. */
  lemma TicksOfRendered(g: Groups, width: FractionWidth)
    requires GroupsShape(g, width)
    requires ValidDate(GroupsDate(g)) && 1 <= GroupsDate(g).year && ClockInRange(g)
    ensures TicksOf(Render(g), width)
            == Ok(DaysFromCivil(GroupsDate(g)) * TicksPerDay(width) + SecondsOfDay(g) * TicksPerSecond(width)
                  + ParseNat(g.fraction))
  {
    hide Render, DaysFromCivil, TicksPerDay, TicksPerSecond, SecondsOfDay, ClockInRange;
    FixedOfParse(g.year);
    assert Power10(4) == 100 * Power10(2) == 10000;
    RenderThenCut(g, width);
  }

  /** Parsing what was printed returns the ticks. */
  lemma TicksAfterText(ticks: int, width: FractionWidth)
    requires TextOf(ticks, width).Ok?
    ensures TicksOf(TextOf(ticks, width).value, width) == Ok(ticks)
  {
    hide TicksOf, GroupsOf, Render, CivilFromDays, DaysFromCivil, SecondsOfDay, ClockInRange;
    var days, withinDay := ticks / TicksPerDay(width), ticks % TicksPerDay(width);
    var date := CivilFromDays(days);
    DaysAfterCivil(days);
    GroupsOfSpell(date, withinDay, width);
    TicksOfRendered(GroupsOf(date, withinDay, width), width);
  }

  lemma SplitTicks(days: int, withinDay: int, width: FractionWidth)
    requires 0 <= withinDay < TicksPerDay(width)
    ensures var t := days * TicksPerDay(width) + withinDay;
            t / TicksPerDay(width) == days && t % TicksPerDay(width) == withinDay
  {
  }

  lemma SplitSeconds(h: int, m: int, s: int, fraction: int, width: FractionWidth)
    requires 0 <= h <= 23 && 0 <= m <= 59 && 0 <= s <= 59 && 0 <= fraction < TicksPerSecond(width)
    ensures var seconds := h * 3600 + m * 60 + s;
            var within := seconds * TicksPerSecond(width) + fraction;
            && 0 <= within < TicksPerDay(width)
            && within / TicksPerSecond(width) == seconds && within % TicksPerSecond(width) == fraction
            && seconds / 3600 == h && seconds % 3600 / 60 == m && seconds % 3600 % 60 == s
  {
  }

  lemma ClockSpelled(g: Groups, width: FractionWidth)
    requires GroupsShape(g, width) && ClockInRange(g)
    ensures var within := SecondsOfDay(g) * TicksPerSecond(width) + ParseNat(g.fraction);
            && 0 <= within < TicksPerDay(width)
            && within / TicksPerSecond(width) == SecondsOfDay(g)
            && within % TicksPerSecond(width) == ParseNat(g.fraction)
    ensures SecondsOfDay(g) / 3600 == ParseNat(g.hour)
    ensures SecondsOfDay(g) % 3600 / 60 == ParseNat(g.minute)
    ensures SecondsOfDay(g) % 3600 % 60 == ParseNat(g.second)
  {
    hide ParseNat, Power10;
    UnitIsPower(width);
    FixedOfParse(g.fraction);
    SplitSeconds(ParseNat(g.hour), ParseNat(g.minute), ParseNat(g.second), ParseNat(g.fraction), width);
  }

  /** The printer's groups for the date and clock that a set of groups spells. */
  lemma SpelledGroups(g: Groups, width: FractionWidth)
    requires GroupsShape(g, width) && ClockInRange(g)
    requires ValidDate(GroupsDate(g)) && 1 <= GroupsDate(g).year
    ensures var within := SecondsOfDay(g) * TicksPerSecond(width) + ParseNat(g.fraction);
            0 <= within < TicksPerDay(width) && GroupsOf(GroupsDate(g), within, width) == g
  {
    hide ParseNat, ZeroPad, TicksPerDay, TicksPerSecond, SecondsOfDay;
    ClockSpelled(g, width);
    PadAndParse(g.year);
    PadAndParse(g.month);
    PadAndParse(g.day);
    PadAndParse(g.hour);
    PadAndParse(g.minute);
    PadAndParse(g.second);
    PadAndParse(g.fraction);
  }

  /** What an accepted text is made of. */
  lemma AcceptedText(text: string, width: FractionWidth)
    requires TicksOf(text, width).Ok?
    ensures Matches(text, width)
    ensures var g := Cut(text, width);
            && Render(g) == text && ClockInRange(g)
            && ValidDate(GroupsDate(g)) && 1 <= GroupsDate(g).year <= 9999
            && TicksOf(text, width).value
               == DaysFromCivil(GroupsDate(g)) * TicksPerDay(width)
                  + (SecondsOfDay(g) * TicksPerSecond(width) + ParseNat(g.fraction))
  {
    CutThenRender(text, width);
  }

  /** Printing what was parsed returns the text. */
  lemma TextAfterTicks(text: string, width: FractionWidth)
    requires TicksOf(text, width).Ok?
    ensures TextOf(TicksOf(text, width).value, width) == Ok(text)
  {
    hide TicksOf, GroupsOf, Render, CivilFromDays, DaysFromCivil, SecondsOfDay, ClockInRange;
    AcceptedText(text, width);
    var g := Cut(text, width);
    SpelledGroups(g, width);
    var within := SecondsOfDay(g) * TicksPerSecond(width) + ParseNat(g.fraction);
    SplitTicks(DaysFromCivil(GroupsDate(g)), within, width);
    CivilAfterDays(GroupsDate(g));
  }

  /** The printer's years are exactly the parser's: a tick count is printable iff some text spells it. */
  lemma PrintableIffSpelled(ticks: int, width: FractionWidth)
    ensures TextOf(ticks, width).Ok? <==> exists text :: TicksOf(text, width) == Ok(ticks)
  {
    if TextOf(ticks, width).Ok? {
      TicksAfterText(ticks, width);
    }
    forall text | TicksOf(text, width) == Ok(ticks)
      ensures TextOf(ticks, width).Ok?
    {
      TextAfterTicks(text, width);
    }
  }

  // ---- Text order is time order --------------------------------------------

  lemma PartOrder(x: string, x': string, separator: char, rest: string, rest': string)
    requires |x| == |x'| && AllDigits(x) && AllDigits(x')
    ensures Less(Part(x, separator, rest), Part(x', separator, rest'))
            <==> ParseNat(x) < ParseNat(x') || (ParseNat(x) == ParseNat(x') && Less(rest, rest'))
  {
    LessConcat(x, [separator] + rest, x', [separator] + rest');
    LessConcat([separator], rest, [separator], rest');
    LessIrreflexive([separator]);
    DigitOrder(x, x');
  }

  lemma ClockOrder(g: Groups, h: Groups, width: FractionWidth)
    requires GroupsShape(g, width) && GroupsShape(h, width) && ClockInRange(g) && ClockInRange(h)
    ensures Less(RenderClock(g), RenderClock(h))
            <==> SecondsOfDay(g) < SecondsOfDay(h)
                 || (SecondsOfDay(g) == SecondsOfDay(h) && ParseNat(g.fraction) < ParseNat(h.fraction))
  {
    hide Part;
    var f, f' := Part(g.fraction, 'Z', []), Part(h.fraction, 'Z', []);
    PartOrder(g.fraction, h.fraction, 'Z', [], []);
    LessIrreflexive([]);
    var s, s' := Part(g.second, '.', f), Part(h.second, '.', f');
    PartOrder(g.second, h.second, '.', f, f');
    var m, m' := Part(g.minute, ':', s), Part(h.minute, ':', s');
    PartOrder(g.minute, h.minute, ':', s, s');
    PartOrder(g.hour, h.hour, ':', m, m');
  }

  lemma DateOrder(g: Groups, h: Groups, width: FractionWidth)
    requires GroupsShape(g, width) && GroupsShape(h, width)
    ensures Less(Render(g), Render(h))
            <==> Before(GroupsDate(g), GroupsDate(h))
                 || (GroupsDate(g) == GroupsDate(h) && Less(RenderClock(g), RenderClock(h)))
  {
    hide Part, RenderClock;
    var c, c' := RenderClock(g), RenderClock(h);
    var d, d' := Part(g.day, 'T', c), Part(h.day, 'T', c');
    PartOrder(g.day, h.day, 'T', c, c');
    var m, m' := Part(g.month, '-', d), Part(h.month, '-', d');
    PartOrder(g.month, h.month, '-', d, d');
    PartOrder(g.year, h.year, '-', m, m');
  }

  lemma TickOrder(day: int, sec: int, frac: int, day': int, sec': int, frac': int, width: FractionWidth)
    requires 0 <= sec < 86400 && 0 <= sec' < 86400
    requires 0 <= frac < TicksPerSecond(width) && 0 <= frac' < TicksPerSecond(width)
    ensures (day * TicksPerDay(width) + (sec * TicksPerSecond(width) + frac)
             < day' * TicksPerDay(width) + (sec' * TicksPerSecond(width) + frac'))
            <==> day < day' || (day == day' && (sec < sec' || (sec == sec' && frac < frac')))
  {
  }

  lemma DayNumberOrder(a: Date, b: Date)
    requires ValidDate(a) && ValidDate(b)
    ensures Before(a, b) <==> DaysFromCivil(a) < DaysFromCivil(b)
    ensures a == b <==> DaysFromCivil(a) == DaysFromCivil(b)
  {
    DaysFollowCalendar(a, b);
    CivilAfterDays(a);
    CivilAfterDays(b);
  }

  lemma GroupsOrder(g: Groups, h: Groups, width: FractionWidth)
    requires GroupsShape(g, width) && GroupsShape(h, width) && ClockInRange(g) && ClockInRange(h)
    requires ValidDate(GroupsDate(g)) && ValidDate(GroupsDate(h))
    ensures var day, day' := DaysFromCivil(GroupsDate(g)), DaysFromCivil(GroupsDate(h));
            var sec, sec' := SecondsOfDay(g), SecondsOfDay(h);
            Less(Render(g), Render(h))
            <==> day < day'
                 || (day == day' && (sec < sec' || (sec == sec' && ParseNat(g.fraction) < ParseNat(h.fraction))))
  {
    hide Render, RenderClock, DaysFromCivil, Before, GroupsDate, SecondsOfDay, ClockInRange, ParseNat, Less;
    DateOrder(g, h, width);
    ClockOrder(g, h, width);
    DayNumberOrder(GroupsDate(g), GroupsDate(h));
  }

  /** Comparing two accepted instant texts as strings compares the instants. */
  lemma TextOrderIsTickOrder(a: string, b: string, width: FractionWidth)
    requires TicksOf(a, width).Ok? && TicksOf(b, width).Ok?
    ensures Less(a, b) <==> TicksOf(a, width).value < TicksOf(b, width).value
  {
    hide TicksOf, Render, DaysFromCivil, TicksPerSecond, TicksPerDay, GroupsDate, ParseNat, Less;
    AcceptedText(a, width);
    AcceptedText(b, width);
    var g, h := Cut(a, width), Cut(b, width);
    GroupsOrder(g, h, width);
    FractionBound(g, width);
    FractionBound(h, width);
    TickOrder(DaysFromCivil(GroupsDate(g)), SecondsOfDay(g), ParseNat(g.fraction),
              DaysFromCivil(GroupsDate(h)), SecondsOfDay(h), ParseNat(h.fraction), width);
  }

  lemma FractionBound(g: Groups, width: FractionWidth)
    requires GroupsShape(g, width) && ClockInRange(g)
    ensures 0 <= SecondsOfDay(g) < 86400 && 0 <= ParseNat(g.fraction) < TicksPerSecond(width)
  {
    UnitIsPower(width);
    FixedOfParse(g.fraction);
  }

  // ---- The authority pair --------------------------------------------------

  const INT64_MAX := 9_223_372_036_854_775_807

  predicate DecimalShape(decimal: string) {
    |decimal| == 19 && AllDigits(decimal)
  }

  /** The validator of an authority instant, test by test. */
  predicate AcceptsPair(text: string, decimal: string) {
    && Matches(text, 7)
    && DecimalShape(decimal)
    && var ticks := ParseNat(decimal);
       && ticks <= INT64_MAX
       && ZeroPad(ticks, 19) == decimal
       && TicksOf(text, 7) == Ok(ticks)
       && TextOf(ticks, 7) == Ok(text)
  }

  /** Day numbers of the accepted years lie well inside what the int64 test allows. */
  lemma TicksBound(text: string)
    requires TicksOf(text, 7).Ok?
    ensures TicksOf(text, 7).value < 2_534_023_008_000_000_000 <= INT64_MAX
  {
    hide TicksOf, Render;
    AcceptedText(text, 7);
    var g := Cut(text, 7);
    FractionBound(g, 7);
    var last := Date(9999, 12, 31);
    if GroupsDate(g) != last {
      DaysFollowCalendar(GroupsDate(g), last);
    }
    assert DaysFromCivil(last) == 2932896;
  }

  /** The pair is accepted exactly when the parsed text equals the decimal: the int64, padding and reverse-print
      tests never decide. */
  lemma PairAcceptedIffEqual(text: string, decimal: string)
    ensures AcceptsPair(text, decimal)
            <==> DecimalShape(decimal) && TicksOf(text, 7) == Ok(ParseNat(decimal))
  {
    hide TicksOf, TextOf, ParseNat, ZeroPad;
    if DecimalShape(decimal) && TicksOf(text, 7) == Ok(ParseNat(decimal)) {
      TicksBound(text);
      PadAndParse(decimal);
      TextAfterTicks(text, 7);
      AcceptedText(text, 7);
    }
  }

  /** Half-open interval checks written on either half of accepted pairs decide the numeric interval. */
  lemma PairOrder(a: string, aDecimal: string, b: string, bDecimal: string)
    requires AcceptsPair(a, aDecimal) && AcceptsPair(b, bDecimal)
    ensures Less(aDecimal, bDecimal) <==> ParseNat(aDecimal) < ParseNat(bDecimal)
    ensures Less(a, b) <==> Less(aDecimal, bDecimal)
    ensures a == b <==> aDecimal == bDecimal
  {
    hide TicksOf, TextOf, ZeroPad;
    DigitOrder(aDecimal, bDecimal);
    TextOrderIsTickOrder(a, b, 7);
  }

  /** Signed decimal text with zeros after the sign, at least `width` characters in all. */
  function SignedPad(n: int, width: nat): string {
    if n >= 0 then ZeroPad(n, width)
    else if width > 0 then ['-'] + ZeroPad(-n, width - 1) else ['-'] + Decimal(-n)
  }

  /** A pair made from a whole-microsecond database clock, or none when the printer or the validator refuses. */
  function FromDatabaseMicros(micros: int): Option<(string, string)> {
    var ticks := micros * 10;
    match TextOf(ticks, 7)
    case Err(_) => None
    case Ok(text) => if AcceptsPair(text, SignedPad(ticks, 19)) then Some((text, SignedPad(ticks, 19))) else None
  }

  lemma NineteenPlaces(ticks: nat)
    requires ticks <= INT64_MAX
    ensures DecimalShape(ZeroPad(ticks, 19)) && ParseNat(ZeroPad(ticks, 19)) == ticks
  {
    assert Power10(4) == 100 * Power10(2) == 10000;
    assert Power10(8) == 10000 * Power10(4);
    assert Power10(12) == 10000 * Power10(8);
    assert Power10(16) == 10000 * Power10(12);
    assert Power10(19) == 1000 * Power10(16);
    ParseAndPad(ticks, 19);
  }

  /** A database clock converts exactly from 1970 on and while its year is printable. */
  lemma DatabaseClockConverts(micros: int)
    ensures FromDatabaseMicros(micros).Some? <==> micros >= 0 && TextOf(micros * 10, 7).Ok?
    ensures FromDatabaseMicros(micros).Some? ==> ParseNat(FromDatabaseMicros(micros).value.1) == micros * 10
  {
    hide TicksOf, TextOf, ParseNat, ZeroPad;
    var ticks := micros * 10;
    if micros < 0 {
      assert SignedPad(ticks, 19)[0] == '-';
      assert !IsDigit(SignedPad(ticks, 19)[0]);
    } else if TextOf(ticks, 7).Ok? {
      TicksAfterText(ticks, 7);
      TicksBound(TextOf(ticks, 7).value);
      NineteenPlaces(ticks);
      PairAcceptedIffEqual(TextOf(ticks, 7).value, ZeroPad(ticks, 19));
    }
  }
}
