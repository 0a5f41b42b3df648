/**
 Date-time text (section 5.6 of RFC 3339): one writer and the two readers.
 Text is a byte string; a byte that is not an ASCII digit or punctuation mark
 fails the same way whatever it is.
 */
module CalendarText {
  import opened Wrappers
  import opened Decimal
  import opened Calendar
  import Text

  const I64_MIN: int := -0x8000_0000_0000_0000
  const I64_MAX: int := 0x7FFF_FFFF_FFFF_FFFF
  const I32_MIN: int := -0x8000_0000
  const I32_MAX: int := 0x7FFF_FFFF
  const U32_MAX: nat := 0xFFFF_FFFF

  // ----- the writer

  function ClockOf(second: nat): Time { Time(second / 3600, second % 3600 / 60, second % 60) }

  /** Date, `T`, clock, an optional fraction, `Z`. */
  function Laid(y: string, m: string, d: string, h: string, mi: string, s: string, fraction: string): string {
    (y + "-" + m + "-" + d) + "T" + (h + ":" + mi + ":" + s + fraction) + "Z"
  }

  /** `chrono_like_now` with the clock value as a parameter; `epoch_to_stamp` is the same function. */
  function Render(epoch: int): string {
    var t := CivilFromDays(epoch / SECONDS_PER_DAY);
    var c := ClockOf(epoch % SECONDS_PER_DAY);
    Laid(Padded(t.y, 4), Padded(t.m, 2), Padded(t.d, 2), Padded(c.h, 2), Padded(c.mi, 2), Padded(c.s, 2), [])
  }

  // ----- the fixed-column reader

  /** `parse_utc_epoch`: columns only, separators unread. */
  function ParseUtcEpoch(s: string): Option<int> {
    if |s| < 20 || s[|s| - 1] != 'Z' then None
    else
      var y := ParseSigned(s[0..4], I64_MIN, I64_MAX);
      var mo := ParseSigned(s[5..7], I64_MIN, I64_MAX);
      var d := ParseSigned(s[8..10], I64_MIN, I64_MAX);
      var h := ParseSigned(s[11..13], I64_MIN, I64_MAX);
      var mi := ParseSigned(s[14..16], I64_MIN, I64_MAX);
      var sec := ParseSigned(s[17..19], I64_MIN, I64_MAX);
      if y.None? || mo.None? || d.None? || h.None? || mi.None? || sec.None? then None
      else EpochFromFields(Date(y.value, mo.value, d.value), Time(h.value, mi.value, sec.value))
  }

  // ----- the splitting reader

  function SplitOnceChar(s: string, c: char): Option<(string, string)> {
    if s == [] then None
    else if s[0] == c then Some(([], s[1..]))
    else
      var rest := SplitOnceChar(s[1..], c);
      if rest.None? then None else Some(([s[0]] + rest.value.0, rest.value.1))
  }

  /** `parse_rfc3339_z`. */
  function ParseRfc3339(s: string): Option<nat> {
    if s == [] || s[|s| - 1] != 'Z' then None
    else
      var halves := SplitOnceChar(s[..|s| - 1], 'T');
      if halves.None? then None
      else
        var date := Text.Split(halves.value.0, '-');
        var time := Text.Split(Text.Split(halves.value.1, '.')[0], ':');
        if |date| != 3 || |time| != 3 then None
        else
          var y := ParseSigned(date[0], I32_MIN, I32_MAX);
          var m := ParseUnsigned(date[1], U32_MAX);
          var d := ParseUnsigned(date[2], U32_MAX);
          var h := ParseUnsigned(time[0], U32_MAX);
          var mi := ParseUnsigned(time[1], U32_MAX);
          var sec := ParseUnsigned(time[2], U32_MAX);
          if y.None? || m.None? || d.None? || h.None? || mi.None? || sec.None? then None
          else UnixFromCivil(Date(y.value, m.value, d.value), Time(h.value, mi.value, sec.value))
  }

  predicate SameColumns(s: string, t: string) {
    && |s| >= 20 && |t| >= 20 && s[|s| - 1] == t[|t| - 1] == 'Z' && s[..4] == t[..4] && s[5..7] == t[5..7] && s[8..10] == t[8..10]
    && s[11..13] == t[11..13] && s[14..16] == t[14..16] && s[17..19] == t[17..19]
  }

  /** The column reader takes 20 characters or more ending in `Z`, and looks at the six columns alone. */
  lemma OnlyColumnsMatter(s: string, t: string)
    ensures ParseUtcEpoch(s).Some? ==> |s| >= 20 && s[|s| - 1] == 'Z'
    ensures SameColumns(s, t) ==> ParseUtcEpoch(s) == ParseUtcEpoch(t)
  {
    hide ParseSigned, EpochFromFields;
  }

  /** The splitting reader takes exactly three pieces of each, and ends in `Z`. */
  lemma ThreePiecesOrNothing(s: string)
    ensures ParseRfc3339(s).Some? ==>
      && s != [] && s[|s| - 1] == 'Z'
      && var halves := SplitOnceChar(s[..|s| - 1], 'T');
      && halves.Some? && |Text.Split(halves.value.0, '-')| == 3 && |Text.Split(Text.Split(halves.value.1, '.')[0], ':')| == 3
  {
    hide ParseSigned, ParseUnsigned, UnixFromCivil;
  }

  // ----- lemmas on splitting

  lemma {:induction false} SplitOnceFirst(a: string, c: char, b: string)
    requires c !in a
    ensures SplitOnceChar(a + [c] + b, c) == Some((a, b))
  {
    var s := a + [c] + b;
    if a == [] {
      assert s[1..] == b;
    } else {
      SplitOnceFirst(a[1..], c, b);
      assert s[1..] == a[1..] + [c] + b;
      assert [a[0]] + a[1..] == a;
    }
  }

  lemma SplitThree(a: string, b: string, d: string, c: char)
    requires c !in a && c !in b && c !in d
    ensures Text.Split(a + [c] + b + [c] + d, c) == [a, b, d]
  {
    assert a + [c] + b + [c] + d == a + [c] + (b + [c] + d);
    Text.SplitFirst(a, c, b + [c] + d);
    Text.SplitFirst(b, c, d);
    Text.SplitWhole(d, c);
  }

  // ----- what each reader makes of a laid-out text

  predicate Digital(s: string) { s != [] && AllDigits(s) }

  lemma ParseDigital(s: string, hi: nat)
    requires Digital(s)
    ensures ParseUnsigned(s, hi) == if Value(s) <= hi then Some(Value(s)) else None
    ensures ParseSigned(s, -1, hi) == if Value(s) <= hi then Some(Value(s)) else None
    ensures forall lo | lo <= 0 :: ParseSigned(s, lo, hi) == if Value(s) <= hi then Some(Value(s)) else None
  {
    assert IsDigit(s[0]);
  }

  lemma DateSplits(y: string, m: string, d: string)
    requires Digital(y) && Digital(m) && Digital(d)
    ensures Text.Split(y + "-" + m + "-" + d, '-') == [y, m, d] && 'T' !in y + "-" + m + "-" + d
  {
    SplitThree(y, m, d, '-');
  }

  lemma ClockSplits(h: string, mi: string, s: string, fraction: string)
    requires Digital(h) && Digital(mi) && Digital(s) && (fraction == [] || fraction[0] == '.')
    ensures Text.Split(Text.Split(h + ":" + mi + ":" + s + fraction, '.')[0], ':') == [h, mi, s]
  {
    var clock := h + ":" + mi + ":" + s;
    assert '.' !in clock;
    if fraction == [] {
      assert clock + fraction == clock;
      Text.SplitWhole(clock, '.');
    } else {
      assert clock + fraction == clock + ['.'] + fraction[1..];
      Text.SplitFirst(clock, '.', fraction[1..]);
    }
    SplitThree(h, mi, s, ':');
  }

  lemma LaidSplits(y: string, m: string, d: string, h: string, mi: string, s: string, fraction: string)
    requires Digital(y) && Digital(m) && Digital(d)
    ensures
      var text := Laid(y, m, d, h, mi, s, fraction);
      && text != [] && text[|text| - 1] == 'Z'
      && SplitOnceChar(text[..|text| - 1], 'T') == Some((y + "-" + m + "-" + d, h + ":" + mi + ":" + s + fraction))
  {
    var text := Laid(y, m, d, h, mi, s, fraction);
    var date, rest := y + "-" + m + "-" + d, h + ":" + mi + ":" + s + fraction;
    DateSplits(y, m, d);
    assert text[..|text| - 1] == date + ['T'] + rest;
    SplitOnceFirst(date, 'T', rest);
  }

  lemma SplittingReaderOnLaid(y: string, m: string, d: string, h: string, mi: string, s: string, fraction: string)
    requires Digital(y) && Digital(m) && Digital(d) && Digital(h) && Digital(mi) && Digital(s)
    requires fraction == [] || fraction[0] == '.'
    requires Value(m) <= U32_MAX && Value(d) <= U32_MAX && Value(h) <= U32_MAX && Value(mi) <= U32_MAX && Value(s) <= U32_MAX
    ensures ParseRfc3339(Laid(y, m, d, h, mi, s, fraction)) ==
            if Value(y) <= I32_MAX
            then UnixFromCivil(Date(Value(y), Value(m), Value(d)), Time(Value(h), Value(mi), Value(s))) else None
  {
    hide UnixFromCivil, Laid, ParseSigned, ParseUnsigned;
    LaidSplits(y, m, d, h, mi, s, fraction);
    DateSplits(y, m, d);
    ClockSplits(h, mi, s, fraction);
    ParseDigital(y, I32_MAX);
    ParseDigital(m, U32_MAX);
    ParseDigital(d, U32_MAX);
    ParseDigital(h, U32_MAX);
    ParseDigital(mi, U32_MAX);
    ParseDigital(s, U32_MAX);
  }

  lemma ColumnReaderOnLaid(y: string, m: string, d: string, h: string, mi: string, s: string, fraction: string)
    requires |y| == 4 && |m| == |d| == |h| == |mi| == |s| == 2
    ensures
      var text := Laid(y, m, d, h, mi, s, fraction);
      && |text| >= 20 && text[|text| - 1] == 'Z'
      && text[0..4] == y && text[5..7] == m && text[8..10] == d
      && text[11..13] == h && text[14..16] == mi && text[17..19] == s
  {
  }

  // ----- rendering, read back

  const FIRST_EPOCH: int := -93692592000   // -0999-01-01T00:00:00Z
  const LAST_EPOCH: int := 253402300799    // 9999-12-31T23:59:59Z

  lemma TwoColumns(n: nat)
    requires n < 100
    ensures |PaddedNat(n, 2)| == 2 && Digital(PaddedNat(n, 2)) && Value(PaddedNat(n, 2)) == n
    ensures ParseSigned(PaddedNat(n, 2), I64_MIN, I64_MAX) == Some(n)
  {
    PaddedNatReadsBack(n, 2);
    assert Pow10(2) == 10 * Pow10(1) && Pow10(1) == 10 * Pow10(0);
    ParsePadded(n, 2, I64_MIN, I64_MAX);
  }

  lemma ClockCounts(second: nat)
    requires second < SECONDS_PER_DAY
    ensures ClockInRange(ClockOf(second)) && ClockOf(second).s < 60 && SecondOfDay(ClockOf(second)) == second
  {
  }

  /** The date and clock rendered for an epoch are real and count back to it. */
  lemma RenderedFields(epoch: int) returns (t: Date, c: Time)
    ensures t == CivilFromDays(epoch / SECONDS_PER_DAY) && c == ClockOf(epoch % SECONDS_PER_DAY)
    ensures Valid(t) && ClockInRange(c) && c.s < 60 && Seconds(t, c) == epoch
    ensures Render(epoch) == Laid(Padded(t.y, 4), PaddedNat(t.m, 2), PaddedNat(t.d, 2),
                                  PaddedNat(c.h, 2), PaddedNat(c.mi, 2), PaddedNat(c.s, 2), [])
  {
    t, c := CivilFromDays(epoch / SECONDS_PER_DAY), ClockOf(epoch % SECONDS_PER_DAY);
    CivilCountsBack(epoch / SECONDS_PER_DAY);
    ClockCounts(epoch % SECONDS_PER_DAY);
  }

  /** How wide the year prints. */
  lemma YearWidth(y: int)
    ensures |Padded(y, 4)| >= 4
    ensures |Padded(y, 4)| == 4 <==> -999 <= y <= 9999
    ensures |Padded(y, 4)| >= 7 ==> y >= 1000000 || y <= -100000
    ensures forall i | 1 <= i < |Padded(y, 4)| :: IsDigit(Padded(y, 4)[i])
    ensures Padded(y, 4)[0] == '-' || IsDigit(Padded(y, 4)[0])
  {
    assert Pow10(3) == 1000 && Pow10(4) == 10000 && Pow10(5) == 100000 && Pow10(6) == 1000000;
    if y < 0 {
      PaddedNatReadsBack(Abs(y), 3);
      DigitCount(Abs(y), 5);
    } else {
      PaddedNatReadsBack(y, 4);
      DigitCount(y, 6);
    }
  }

  /** Years are bounded below exactly by the second at which they open. */
  lemma YearEdge(t: Date, c: Time, y: int, edge: int)
    requires Valid(t) && ClockInRange(c) && c.s < 60
    requires edge == (Linear(y - 1) + 365 - 719527) * SECONDS_PER_DAY
    ensures t.y >= y <==> Seconds(t, c) >= edge
  {
    YearsAreLinear(y);
    DayWithinYear(t);
    assert 0 <= SecondOfDay(c) < SECONDS_PER_DAY;
    if t.y < y { YearsGrow(t.y, y); }
    if t.y > y { YearsGrow(y, t.y); }
  }

  lemma YearRange(t: Date, c: Time)
    requires Valid(t) && ClockInRange(c) && c.s < 60
    ensures -999 <= t.y <= 9999 <==> FIRST_EPOCH <= Seconds(t, c) <= LAST_EPOCH
  {
    YearEdge(t, c, -999, FIRST_EPOCH);
    YearEdge(t, c, 10000, LAST_EPOCH + 1);
  }

  lemma EpochEdge(t: Date, c: Time)
    requires Valid(t) && ClockInRange(c) && c.s < 60
    ensures t.y >= 1970 <==> Seconds(t, c) >= 0
  {
    YearEdge(t, c, 1970, 0);
  }

  lemma FarYears(t: Date, c: Time)
    requires Valid(t) && ClockInRange(c) && c.s < 60
    ensures t.y >= 1000000 ==> Seconds(t, c) > 30000000000000
    ensures t.y <= -100000 ==> Seconds(t, c) < -3000000000000
  {
    YearEdge(t, c, 1000000, 31494784780800);
    YearEdge(t, c, -99999, -3217830796800);
  }

  lemma SmallPowers()
    ensures Pow10(1) == 10 && Pow10(2) == 100 && Pow10(3) == 1000 && Pow10(4) == 10000
  {
  }

  lemma SmallFields(s: string, lo: int, hi: int)
    requires |s| <= 4
    ensures ParseSigned(s, lo, hi).Some? ==> -9999 <= ParseSigned(s, lo, hi).value <= 9999
  {
    SmallPowers();
    if ParseSigned(s, lo, hi).Some? {
      var digits := if s[0] == '+' || s[0] == '-' then s[1..] else s;
      ValueBound(digits);
    }
  }

  /** Whatever the fixed-column reader accepts, four year columns keep it small. */
  lemma ColumnsAreBounded(s: string)
    ensures ParseUtcEpoch(s).Some? ==> -1000000000000 < ParseUtcEpoch(s).value < 1000000000000
  {
    if ParseUtcEpoch(s).Some? {
      SmallFields(s[0..4], I64_MIN, I64_MAX);
      SmallFields(s[11..13], I64_MIN, I64_MAX);
      SmallFields(s[14..16], I64_MIN, I64_MAX);
      SmallFields(s[17..19], I64_MIN, I64_MAX);
      var y := ParseSigned(s[0..4], I64_MIN, I64_MAX).value;
      var mo := ParseSigned(s[5..7], I64_MIN, I64_MAX).value;
      YearsAreLinear(y);
      MonthStarts(y, mo);
      ErasAgree(MarchYear(Date(y, mo, 1)));
      FormulaCountsDays(Date(y, mo, ParseSigned(s[8..10], I64_MIN, I64_MAX).value));
    }
  }

  /** A five- or six-byte year shifts a minus sign into the month columns. */
  lemma ShiftedMonth(y: string, rest: string)
    requires 5 <= |y| <= 6 && |rest| >= 15 && rest[0] == '-' && IsDigit(rest[1])
    requires forall i | 1 <= i < |y| :: IsDigit(y[i])
    ensures ParseUtcEpoch(y + rest).None?
  {
    var s := y + rest;
    var column := s[5..7];
    if |y| == 5 {
      assert column == ['-', rest[1]];
      if ParseSigned(column, I64_MIN, I64_MAX).Some? { assert ParseSigned(column, I64_MIN, I64_MAX).value <= 0; }
    } else {
      assert column == [y[5], '-'];
      assert !IsDigit(column[1]);
    }
  }

  lemma ColumnsReadFields(t: Date, c: Time, y: string, m: string, d: string, h: string, mi: string, sec: string)
    requires |y| == 4 && |m| == |d| == |h| == |mi| == |sec| == 2
    requires ParseSigned(y, I64_MIN, I64_MAX) == Some(t.y)
    requires ParseSigned(m, I64_MIN, I64_MAX) == Some(t.m) && ParseSigned(d, I64_MIN, I64_MAX) == Some(t.d)
    requires ParseSigned(h, I64_MIN, I64_MAX) == Some(c.h) && ParseSigned(mi, I64_MIN, I64_MAX) == Some(c.mi)
    requires ParseSigned(sec, I64_MIN, I64_MAX) == Some(c.s)
    ensures ParseUtcEpoch(Laid(y, m, d, h, mi, sec, [])) == EpochFromFields(t, c)
  {
    ColumnReaderOnLaid(y, m, d, h, mi, sec, []);
  }

  lemma ClockColumns(t: Date, c: Time)
    requires Valid(t) && ClockInRange(c)
    ensures |PaddedNat(t.m, 2)| == |PaddedNat(t.d, 2)| == |PaddedNat(c.h, 2)| == |PaddedNat(c.mi, 2)| == |PaddedNat(c.s, 2)| == 2
    ensures ParseSigned(PaddedNat(t.m, 2), I64_MIN, I64_MAX) == Some(t.m) && ParseSigned(PaddedNat(t.d, 2), I64_MIN, I64_MAX) == Some(t.d)
    ensures ParseSigned(PaddedNat(c.h, 2), I64_MIN, I64_MAX) == Some(c.h) && ParseSigned(PaddedNat(c.mi, 2), I64_MIN, I64_MAX) == Some(c.mi)
    ensures ParseSigned(PaddedNat(c.s, 2), I64_MIN, I64_MAX) == Some(c.s)
  {
    TwoColumns(t.m);
    TwoColumns(t.d);
    TwoColumns(c.h);
    TwoColumns(c.mi);
    TwoColumns(c.s);
  }

  /** Everything after the year. */
  function AfterYear(m: string, d: string, h: string, mi: string, s: string): string {
    ("-" + m + "-" + d) + ("T" + (h + ":" + mi + ":" + s + []) + "Z")
  }

  lemma LaidAfterYear(y: string, m: string, d: string, h: string, mi: string, s: string)
    ensures Laid(y, m, d, h, mi, s, []) == y + AfterYear(m, d, h, mi, s)
  {
    var date := "-" + m + "-" + d;
    var clock := h + ":" + mi + ":" + s + [];
    assert y + "-" + m + "-" + d == y + date;
    assert (y + date) + "T" + clock + "Z" == y + (date + ("T" + clock + "Z"));
  }

  lemma ShiftedYearFails(t: Date, c: Time)
    requires Valid(t) && ClockInRange(c) && 5 <= |Padded(t.y, 4)| <= 6
    ensures ParseUtcEpoch(Laid(Padded(t.y, 4), PaddedNat(t.m, 2), PaddedNat(t.d, 2),
                               PaddedNat(c.h, 2), PaddedNat(c.mi, 2), PaddedNat(c.s, 2), [])).None?
  {
    YearWidth(t.y);
    ClockColumns(t, c);
    LaidAfterYear(Padded(t.y, 4), PaddedNat(t.m, 2), PaddedNat(t.d, 2), PaddedNat(c.h, 2), PaddedNat(c.mi, 2), PaddedNat(c.s, 2));
    var tail := AfterYear(PaddedNat(t.m, 2), PaddedNat(t.d, 2), PaddedNat(c.h, 2), PaddedNat(c.mi, 2), PaddedNat(c.s, 2));
    assert tail[1] == PaddedNat(t.m, 2)[0];
    ShiftedMonth(Padded(t.y, 4), tail);
  }

  /**
   Rendering an epoch and reading it back with `parse_utc_epoch` returns that
   epoch exactly from -0999-01-01T00:00:00Z to 9999-12-31T23:59:59Z.
   */
  lemma ColumnRoundTrip(epoch: int)
    ensures ParseUtcEpoch(Render(epoch)) == Some(epoch) <==> FIRST_EPOCH <= epoch <= LAST_EPOCH
  {
    var t, c := RenderedFields(epoch);
    YearRange(t, c);
    YearWidth(t.y);
    ClockColumns(t, c);
    if -999 <= t.y <= 9999 {
      ParsePadded(t.y, 4, I64_MIN, I64_MAX);
      ColumnsReadFields(t, c, Padded(t.y, 4), PaddedNat(t.m, 2), PaddedNat(t.d, 2), PaddedNat(c.h, 2), PaddedNat(c.mi, 2), PaddedNat(c.s, 2));
      ConvertersCount(t, c);
    } else if |Padded(t.y, 4)| <= 6 {
      ShiftedYearFails(t, c);
    } else {
      FarYears(t, c);
      ColumnsAreBounded(Render(epoch));
    }
  }

  /**
   The splitting reader reads the same text back for every epoch from 1970 to the
   end of the last year an `i32` holds.
   */
  lemma SplittingRoundTrip(epoch: int)
    ensures ParseRfc3339(Render(epoch)) == Some(epoch) <==> epoch >= 0 && CivilFromDays(epoch / SECONDS_PER_DAY).y <= I32_MAX
    ensures epoch < 0 ==> ParseRfc3339(Render(epoch)) == None
  {
    var t, c := RenderedFields(epoch);
    EpochEdge(t, c);
    if t.y >= 0 {
      SplittingReadsFields(t, c);
      ConvertersCount(t, c);
    } else {
      LaidAfterYear(Padded(t.y, 4), PaddedNat(t.m, 2), PaddedNat(t.d, 2), PaddedNat(c.h, 2), PaddedNat(c.mi, 2), PaddedNat(c.s, 2));
      SignedYearFails(Render(epoch));
    }
  }

  lemma SplittingReadsFields(t: Date, c: Time)
    requires Valid(t) && ClockInRange(c) && t.y >= 0
    ensures ParseRfc3339(Laid(PaddedNat(t.y, 4), PaddedNat(t.m, 2), PaddedNat(t.d, 2), PaddedNat(c.h, 2), PaddedNat(c.mi, 2), PaddedNat(c.s, 2), []))
            == if t.y <= I32_MAX then UnixFromCivil(t, c) else None
  {
    PaddedNatReadsBack(t.y, 4);
    TwoColumns(t.m);
    TwoColumns(t.d);
    TwoColumns(c.h);
    TwoColumns(c.mi);
    TwoColumns(c.s);
    SplittingReaderOnLaid(PaddedNat(t.y, 4), PaddedNat(t.m, 2), PaddedNat(t.d, 2), PaddedNat(c.h, 2), PaddedNat(c.mi, 2), PaddedNat(c.s, 2), []);
  }

  /** A text that opens with a minus sign splits into an empty year. */
  lemma SignedYearFails(s: string)
    requires s != [] && s[0] == '-'
    ensures ParseRfc3339(s) == None
  {
    if s[|s| - 1] == 'Z' {
      var halves := SplitOnceChar(s[..|s| - 1], 'T');
      if halves.Some? {
        assert halves.value.0 != [] && halves.value.0[0] == '-';
        assert Text.Split(halves.value.0, '-')[0] == [];
      }
    }
  }

  // ----- the two readers on one text

  predicate Widths(pieces: seq<string>, a: nat, b: nat, c: nat) {
    |pieces| == 3 && |pieces[0]| == a && |pieces[1]| == b && |pieces[2]| == c
  }

  function DatePieces(date: string): seq<string> { Text.Split(date, '-') }

  function TimePieces(time: string): seq<string> { Text.Split(Text.Split(time, '.')[0], ':') }

  /** The pieces the splitting reader cuts are as wide as the columns the other reader takes; what they hold is left open. */
  predicate Aligned(s: string) {
    && s != [] && s[|s| - 1] == 'Z'
    && var halves := SplitOnceChar(s[..|s| - 1], 'T');
    && halves.Some? && Widths(DatePieces(halves.value.0), 4, 2, 2) && Widths(TimePieces(halves.value.1), 2, 2, 2)
  }

  lemma {:induction false} SplitOnceRejoins(s: string, c: char)
    requires SplitOnceChar(s, c).Some?
    ensures s == SplitOnceChar(s, c).value.0 + [c] + SplitOnceChar(s, c).value.1
  {
    if s[0] == c {
      assert s == [] + [c] + s[1..];
    } else {
      SplitOnceRejoins(s[1..], c);
      assert s == [s[0]] + s[1..];
    }
  }

  lemma ThreePieces(s: string, c: char, a: nat, b: nat, d: nat)
    requires Widths(Text.Split(s, c), a, b, d)
    ensures
      var p := Text.Split(s, c);
      s == p[0] + [c] + p[1] + [c] + p[2] && c !in p[0] && c !in p[1] && c !in p[2]
  {
    var p := Text.Split(s, c);
    var t := Text.SplitRejoins(s, c);
    assert p[1..][1..] == p[2..];
    var u := Text.SplitRejoins(t, c);
    var v := Text.SplitRejoins(u, c);
    assert s == p[0] + [c] + (p[1] + [c] + p[2]);
  }

  /** An aligned text is its six pieces laid out. */
  lemma AlignedIsLaid(s: string) returns (date: seq<string>, time: seq<string>, fraction: string)
    requires Aligned(s)
    ensures
      var halves := SplitOnceChar(s[..|s| - 1], 'T').value;
      date == DatePieces(halves.0) && time == TimePieces(halves.1)
    ensures Widths(date, 4, 2, 2) && Widths(time, 2, 2, 2)
    ensures '-' !in date[0] && '-' !in date[1] && '-' !in date[2]
    ensures s == Laid(date[0], date[1], date[2], time[0], time[1], time[2], fraction)
  {
    var body := s[..|s| - 1];
    SplitOnceRejoins(body, 'T');
    var halves := SplitOnceChar(body, 'T').value;
    date, time := DatePieces(halves.0), TimePieces(halves.1);
    ThreePieces(halves.0, '-', 4, 2, 2);
    var clock := Text.Split(halves.1, '.')[0];
    ThreePieces(clock, ':', 2, 2, 2);
    var tail := Text.SplitRejoins(halves.1, '.');
    fraction := if |Text.Split(halves.1, '.')| == 1 then [] else ['.'] + tail;
    assert halves.1 == clock + fraction;
    assert s == body + ['Z'];
  }

  /** Without a minus sign a short field reads the same in every integer type; with one, unsigned types refuse it. */
  lemma FieldReadsAlike(p: string)
    requires |p| <= 4
    ensures '-' in p ==> ParseUnsigned(p, U32_MAX).None?
    ensures '-' !in p ==>
      var v := ParseSigned(p, I64_MIN, I64_MAX);
      && ParseSigned(p, I32_MIN, I32_MAX) == v
      && (v.Some? ==> v.value >= 0 && ParseUnsigned(p, U32_MAX) == Some(v.value))
      && (v.None? ==> ParseUnsigned(p, U32_MAX).None?)
  {
    SmallPowers();
    if p != [] {
      var digits := if p[0] == '+' || p[0] == '-' then p[1..] else p;
      assert p[0] != '+' ==> '-' in p ==> !AllDigits(p);
      assert p[0] == '+' && '-' in p ==> '-' in p[1..];
      if AllDigits(digits) { ValueBound(digits); }
    }
  }

  /** The column holds no minus sign and no more than that. */
  predicate Within(column: string, most: nat) {
    var v := ParseSigned(column, I64_MIN, I64_MAX);
    '-' !in column && v.Some? && v.value <= most
  }

  /**
   On an aligned text both readers read the same fields.  Whatever the splitting
   reader accepts, the column reader reads as the same second, and the splitting
   reader refuses more only for a clock out of range or a time before 1970.
   */
  lemma ReadersAgree(s: string)
    requires Aligned(s)
    ensures ParseRfc3339(s).Some? ==> ParseUtcEpoch(s) == Some(ParseRfc3339(s).value)
    ensures ParseUtcEpoch(s).Some? ==>
      (ParseRfc3339(s).Some? <==>
        ParseUtcEpoch(s).value >= 0 && Within(s[11..13], 23) && Within(s[14..16], 59) && Within(s[17..19], 60))
  {
    var date, time, fraction := AlignedIsLaid(s);
    ColumnReaderOnLaid(date[0], date[1], date[2], time[0], time[1], time[2], fraction);
    FieldReadsAlike(date[0]);
    FieldReadsAlike(date[1]);
    FieldReadsAlike(date[2]);
    FieldReadsAlike(time[0]);
    FieldReadsAlike(time[1]);
    FieldReadsAlike(time[2]);
    hide ParseSigned, ParseUnsigned, EpochFromFields, UnixFromCivil, Laid, Aligned, Widths, DatePieces, TimePieces, SplitOnceChar;
    var y, m, d := ParseSigned(date[0], I64_MIN, I64_MAX), ParseSigned(date[1], I64_MIN, I64_MAX), ParseSigned(date[2], I64_MIN, I64_MAX);
    var h, mi, sec := ParseSigned(time[0], I64_MIN, I64_MAX), ParseSigned(time[1], I64_MIN, I64_MAX), ParseSigned(time[2], I64_MIN, I64_MAX);
    if y.Some? && m.Some? && d.Some? && h.Some? && mi.Some? && sec.Some?
       && '-' !in time[0] && '-' !in time[1] && '-' !in time[2] {
      ConvertersCount(Date(y.value, m.value, d.value), Time(h.value, mi.value, sec.value));
    }
  }

  /** The layout of RFC 3339: digits in every column, the five separators, and a fraction or nothing before the `Z`. */
  predicate InLayout(s: string) {
    && |s| >= 20 && s[|s| - 1] == 'Z' && (|s| == 20 || s[19] == '.')
    && s[4] == '-' && s[7] == '-' && s[10] == 'T' && s[13] == ':' && s[16] == ':'
    && forall i | 0 <= i < 19 && i != 4 && i != 7 && i != 10 && i != 13 && i != 16 :: IsDigit(s[i])
  }

  /** Such a text is aligned. */
  lemma LayoutIsAligned(s: string)
    requires InLayout(s)
    ensures Aligned(s)
  {
    LayoutIsLaid(s);
    LaidSplits(s[0..4], s[5..7], s[8..10], s[11..13], s[14..16], s[17..19], s[19..|s| - 1]);
    DateSplits(s[0..4], s[5..7], s[8..10]);
    ClockSplits(s[11..13], s[14..16], s[17..19], s[19..|s| - 1]);
    hide Laid, SplitOnceChar, InLayout, Digital;
  }

  /** Its clock is within range by plain value. */
  lemma LayoutClock(s: string)
    requires InLayout(s)
    ensures forall most: nat | most < 100 ::
      && (Within(s[11..13], most) <==> Value(s[11..13]) <= most) && (Within(s[14..16], most) <==> Value(s[14..16]) <= most)
      && (Within(s[17..19], most) <==> Value(s[17..19]) <= most)
  {
    LayoutIsLaid(s);
    TwoDigits(s[11..13], I64_MAX);
    TwoDigits(s[14..16], I64_MAX);
    TwoDigits(s[17..19], I64_MAX);
    hide ParseSigned, Laid, Value;
  }

  lemma LayoutIsLaid(s: string)
    requires InLayout(s)
    ensures Digital(s[0..4]) && Digital(s[5..7]) && Digital(s[8..10]) && Digital(s[11..13]) && Digital(s[14..16]) && Digital(s[17..19])
    ensures s[19..|s| - 1] == [] || s[19..|s| - 1][0] == '.'
    ensures s == Laid(s[0..4], s[5..7], s[8..10], s[11..13], s[14..16], s[17..19], s[19..|s| - 1])
  {
    assert s[0..4] + "-" + s[5..7] + "-" + s[8..10] == s[..10];
    assert s[11..13] + ":" + s[14..16] + ":" + s[17..19] == s[11..19];
  }

  /** The date-time written with its hour padded to five digits. */
  function WideHour(t: Date, c: Time): string
    requires Valid(t) && ClockInRange(c)
  {
    Laid(Padded(t.y, 4), PaddedNat(t.m, 2), PaddedNat(t.d, 2), Zeros(3) + PaddedNat(c.h, 2), PaddedNat(c.mi, 2), PaddedNat(c.s, 2), [])
  }

  lemma WideHourColumns(y: string, m: string, d: string, h: string, mi: string, sec: string)
    requires |y| == 4 && |m| == |d| == |h| == |mi| == |sec| == 2
    ensures
      var s := Laid(y, m, d, Zeros(3) + h, mi, sec, []);
      && |s| == 23 && s[22] == 'Z' && s[0..4] == y && s[5..7] == m && s[8..10] == d
      && s[11..13] == Zeros(2) && s[14..16] == h && s[17..19] == mi
  {
  }

  lemma WideHourByColumn(t: Date, c: Time)
    requires Valid(t) && ClockInRange(c) && -999 <= t.y <= 9999
    ensures ParseUtcEpoch(WideHour(t, c)) == EpochFromFields(t, Time(0, c.h, c.mi))
  {
    YearWidth(t.y);
    ClockColumns(t, c);
    ParsePadded(t.y, 4, I64_MIN, I64_MAX);
    ZerosAreZero(2);
    ParseDigital(Zeros(2), I64_MAX);
    WideHourColumns(Padded(t.y, 4), PaddedNat(t.m, 2), PaddedNat(t.d, 2), PaddedNat(c.h, 2), PaddedNat(c.mi, 2), PaddedNat(c.s, 2));
  }

  lemma WideHourBySplitting(t: Date, c: Time)
    requires Valid(t) && ClockInRange(c) && 0 <= t.y <= I32_MAX
    ensures ParseRfc3339(WideHour(t, c)) == UnixFromCivil(t, c)
  {
    PaddedNatReadsBack(t.y, 4);
    TwoColumns(t.m);
    TwoColumns(t.d);
    TwoColumns(c.h);
    TwoColumns(c.mi);
    TwoColumns(c.s);
    ZerosDoNotCount(3, PaddedNat(c.h, 2));
    SplittingReaderOnLaid(PaddedNat(t.y, 4), PaddedNat(t.m, 2), PaddedNat(t.d, 2), Zeros(3) + PaddedNat(c.h, 2),
                          PaddedNat(c.mi, 2), PaddedNat(c.s, 2), []);
  }

  lemma ShiftedClock(t: Date, c: Time)
    requires Valid(t)
    ensures InRange(t) && Seconds(t, c) - Seconds(t, Time(0, c.h, c.mi)) == 3540 * c.h + 59 * c.mi + c.s
  {
    hide DayNumber;
  }

  /**
   On a text that is not aligned the readers can both accept and disagree: three
   zeros before the hour move the hour into the minute columns and the minute into the
   second columns.  Whether two such readings ever meet is arithmetic: here they do at
   midnight and at no other time.
   */
  lemma WideHourDisagrees(t: Date, c: Time)
    requires Valid(t) && ClockInRange(c) && 1970 <= t.y <= 9999
    ensures ParseUtcEpoch(WideHour(t, c)).Some? && ParseRfc3339(WideHour(t, c)).Some?
    ensures ParseRfc3339(WideHour(t, c)).value - ParseUtcEpoch(WideHour(t, c)).value == 3540 * c.h + 59 * c.mi + c.s
    ensures ParseUtcEpoch(WideHour(t, c)) == Some(ParseRfc3339(WideHour(t, c)).value) <==> c == Time(0, 0, 0)
  {
    hide WideHour, ParseUtcEpoch, ParseRfc3339, EpochFromFields, UnixFromCivil, Seconds;
    ShiftedClock(t, c);
    WideHourByColumn(t, c);
    WideHourBySplitting(t, c);
    ConvertersCount(t, Time(0, c.h, c.mi));
    FromTheEpochOn(t, c);
  }
}
