/**
 Relative times as text: relTimeToString (src/classad/util.cpp) writes a number of seconds as
 `[-][days+][hh:][mm:]ss`, and MakeRelTime (src/classad/literals.cpp) reads such text from its
 end.
 */
module RelTimes {
  import opened Options
  import opened Strings

  predicate IsDigit(c: char)
  {
    '0' <= c <= '9'
  }

  predicate AllDigits(s: string)
  {
    forall i :: 0 <= i < |s| ==> IsDigit(s[i])
  }

  function Last(s: string): char
    requires s != []
  {
    s[|s| - 1]
  }

  function Front(s: string): string
    requires s != []
  {
    s[..|s| - 1]
  }

  predicate EndsIn(s: string, marks: string)
  {
    s != [] && Last(s) in marks
  }

  // ---------- numbers ----------

  /** `%d` of a number that is not negative. */
  function Show(n: nat): (s: string)
    ensures s != [] && AllDigits(s)
  {
    var digit := ('0' as int + n % 10) as char;
    if n < 10 then [digit] else Show(n / 10) + [digit]
  }

  /** `%02d` of a number that is not negative. */
  function Show2(n: nat): (s: string)
    ensures s != [] && AllDigits(s)
  {
    if n < 10 then "0" + Show(n) else Show(n)
  }

  function NatValue(s: string): nat
    requires AllDigits(s)
  {
    if s == [] then 0 else NatValue(Front(s)) * 10 + DigitValue(Last(s))
  }

  lemma {:induction false} ValueOfShow(n: nat)
    ensures NatValue(Show(n)) == n && NatValue(Show2(n)) == n
  {
    var s := Show(n);
    if n >= 10 {
      ValueOfShow(n / 10);
      assert Front(s) == Show(n / 10);
    } else {
      assert Front(s) == [];
      assert Front("0" + s) == "0" && Front("0") == [];
    }
  }

  function DigitValue(c: char): int
    requires IsDigit(c)
  {
    c as int - '0' as int
  }

  /** The value of the digits after a point. */
  function FractionValue(s: string): real
    requires AllDigits(s)
  {
    if s == [] then 0.0 else (DigitValue(s[0]) as real + FractionValue(s[1..])) / 10.0
  }

  function Decimal(whole: string, fraction: string): real
    requires AllDigits(whole) && AllDigits(fraction)
  {
    NatValue(whole) as real + FractionValue(fraction)
  }

  function Power10(n: nat): (p: nat)
    ensures p > 0
  {
    if n == 0 then 1 else 10 * Power10(n - 1)
  }

  lemma {:induction false} NatValueOfSplit(first: char, rest: string)
    requires IsDigit(first) && AllDigits(rest)
    ensures NatValue([first] + rest) == DigitValue(first) * Power10(|rest|) + NatValue(rest)
  {
    if rest == [] {
      assert [first] + rest == [first] && Front([first]) == [];
    } else {
      NatValueOfSplit(first, Front(rest));
      assert Front([first] + rest) == [first] + Front(rest);
    }
  }

  /** x is n divided by p. */
  predicate IsRatio(x: real, n: nat, p: nat)
  {
    x * p as real == n as real
  }

  /** The digits behind a point are counted in tenths, hundredths and so on. */
  lemma {:induction false} FractionOfDigits(s: string)
    requires AllDigits(s)
    ensures IsRatio(FractionValue(s), NatValue(s), Power10(|s|))
  {
    if s != [] {
      var d, f, n, p := DigitValue(s[0]), FractionValue(s[1..]), NatValue(s[1..]), Power10(|s| - 1);
      FractionOfDigits(s[1..]);
      NatValueOfSplit(s[0], s[1..]);
      assert s == [s[0]] + s[1..];
      OneMorePlace(d, f, n, p);
    }
  }

  lemma OneMorePlace(d: nat, f: real, n: nat, p: nat)
    requires IsRatio(f, n, p)
    ensures IsRatio((d as real + f) / 10.0, d * p + n, 10 * p)
  {
    var r, t := p as real, (d as real + f) / 10.0;
    ProductAsReal(d, p);
    assert t * 10.0 == d as real + f;
    Reordered(t, 10.0, r);
    Distributed(d as real, f, r);
  }

  lemma ProductAsReal(a: nat, b: nat)
    ensures (a * b) as real == a as real * b as real
  {
  }

  lemma Reordered(a: real, b: real, c: real)
    ensures a * (b * c) == a * b * c
  {
  }

  lemma Distributed(a: real, b: real, c: real)
    ensures (a + b) * c == a * c + b * c
  {
  }

  /** A decimal number is that of all its digits, divided by ten for each one behind the point. */
  lemma DecimalOfDigits(whole: string, fraction: string)
    requires AllDigits(whole) && AllDigits(fraction)
    ensures IsRatio(Decimal(whole, fraction), NatValue(whole) * Power10(|fraction|) + NatValue(fraction), Power10(|fraction|))
  {
    FractionOfDigits(fraction);
    WholeAndFraction(NatValue(whole), FractionValue(fraction), NatValue(fraction), Power10(|fraction|));
  }

  lemma WholeAndFraction(w: nat, f: real, n: nat, p: nat)
    requires IsRatio(f, n, p)
    ensures IsRatio(w as real + f, w * p + n, p)
  {
    ProductAsReal(w, p);
    Distributed(w as real, f, p as real);
  }

  // ---------- writing ----------

  /** A relative time in units: its sign, and its magnitude in days, hours, minutes and
      seconds. */
  datatype Units = Units(negative: bool, days: nat, hrs: nat, mins: nat, secs: real)

  /** The units of a number of seconds. */
  function UnitsOf(rsecs: real): Units
  {
    var m := if rsecs < 0.0 then -rsecs else rsecs;
    var n := m.Floor;
    Units(rsecs < 0.0, n / 86400, n % 86400 / 3600, n % 3600 / 60, (n % 60) as real + (m - n as real))
  }

  /** The number of seconds that units stand for. */
  function TotalSeconds(u: Units): real
  {
    var m := (u.days * 86400 + u.hrs * 3600 + u.mins * 60) as real + u.secs;
    if u.negative then -m else m
  }

  /** The text of units, given that of their seconds: a unit is written when it or a greater one
      is not zero. */
  function UnitsText(u: Units, seconds: string): string
  {
    (if u.negative then ['-'] else []) + UnsignedText(u.days, u.hrs, u.mins, seconds)
  }

  function UnsignedText(days: nat, hrs: nat, mins: nat, seconds: string): string
  {
    if days != 0 then Show(days) + ['+'] + Show2(hrs) + [':'] + Show2(mins) + [':'] + seconds
    else if hrs != 0 then Show2(hrs) + [':'] + Show2(mins) + [':'] + seconds
    else if mins != 0 then Show2(mins) + [':'] + seconds
    else seconds
  }

  /** The text of seconds below a minute: `%02d` of a whole number, and `g`, which stands for
      `%02g`, of one with a fraction. */
  function SecondsText(g: real -> string, secs: real): string
  {
    if secs >= 0.0 && secs == secs.Floor as real then Show2(secs.Floor) else g(secs)
  }

  /** What relTimeToString writes. */
  function RelTimeText(g: real -> string, rsecs: real): string
  {
    UnitsText(UnitsOf(rsecs), SecondsText(g, UnitsOf(rsecs).secs))
  }

  // ---------- reading, from the end ----------

  /** Without the spaces at the end. */
  function Trim(s: string): (r: string)
    ensures |r| <= |s|
  {
    if s != [] && IsSpace(Last(s)) then Trim(Front(s)) else s
  }

  /** The digits at the end, and what is before them. */
  function SplitDigits(s: string): (r: (string, string))
    ensures r.0 + r.1 == s && AllDigits(r.1)
    ensures r.0 == [] || !IsDigit(Last(r.0))
  {
    if s != [] && IsDigit(Last(s)) then
      var (front, digits) := SplitDigits(Front(s));
      assert Front(s) + [Last(s)] == s;
      (front, digits + [Last(s)])
    else (s, [])
  }

  /** The digits with at most one point at the end, and what is before them. */
  function ReadDecimal(s: string): (real, string)
  {
    var (front, digits) := SplitDigits(s);
    if EndsIn(front, ".") then
      var (before, whole) := SplitDigits(Front(front));
      (Decimal(whole, digits), before)
    else (Decimal(digits, []), front)
  }

  /** The seconds at the end, and what is before them. */
  function ReadSeconds(s: string): (real, string)
  {
    var t := Trim(s);
    if EndsIn(t, "sS") then ReadDecimal(Trim(Front(t)))
    else if t != [] && IsDigit(Last(t)) then ReadDecimal(t)
    else (0.0, t)
  }

  /** A number before one of the given marks, and what is before it. */
  function ReadUnit(marks: string, s: string): (nat, string)
  {
    var t := Trim(s);
    if EndsIn(t, marks) then
      var (front, digits) := SplitDigits(Trim(Front(t)));
      (NatValue(digits), front)
    else (0, t)
  }

  /** The units that a text names. */
  function ReadUnits(s: string): Option<Units>
  {
    var (secs, s1) := ReadSeconds(s);
    var (mins, s2) := ReadUnit("mM:", s1);
    var (hrs, s3) := ReadUnit("hH:", s2);
    var (days, s4) := ReadUnit("dD+", s3);
    var t := Trim(s4);
    var negative := EndsIn(t, "-");
    if Trim(if negative then Front(t) else t) != [] then None else Some(Units(negative, days, hrs, mins, secs))
  }

  /** The number of seconds that a text stands for; None for MakeRelTime's error value. */
  function ReadRelTime(s: string): Option<real>
  {
    match ReadUnits(s)
    case None => None
    case Some(u) => Some(TotalSeconds(u))
  }

  // ---------- reading what was written ----------

  lemma {:induction false} SplitAppended(a: string, digits: string)
    requires AllDigits(digits) && (a == [] || !IsDigit(Last(a)))
    ensures SplitDigits(a + digits) == (a, digits)
  {
    if digits != [] {
      SplitAppended(a, Front(digits));
      assert Front(a + digits) == a + Front(digits) && Last(a + digits) == Last(digits);
      assert Front(digits) + [Last(digits)] == digits;
    } else {
      assert a + digits == a;
    }
  }

  lemma ReadUnitAppended(marks: string, a: string, digits: string, mark: char)
    requires AllDigits(digits) && digits != [] && (a == [] || !IsDigit(Last(a)))
    requires mark in marks && !IsSpace(mark)
    ensures ReadUnit(marks, a + digits + [mark]) == (NatValue(digits), a)
  {
    var s := a + digits + [mark];
    TrimNothing(s);
    assert Last(s) == mark && Front(s) == a + digits;
    assert Last(a + digits) == Last(digits);
    TrimNothing(a + digits);
    SplitAppended(a, digits);
  }

  lemma TrimNothing(s: string)
    requires s != [] && !IsSpace(Last(s))
    ensures Trim(s) == s
  {
  }

  /** The text of seconds is plain if it is digits with at most one point and ends in a
      digit. */
  predicate Plain(text: string)
  {
    text != [] && IsDigit(Last(text)) && ReadDecimal(text).1 == []
  }

  lemma DigitsArePlain(digits: string)
    requires digits != [] && AllDigits(digits)
    ensures Plain(digits) && ReadDecimal(digits).0 == NatValue(digits) as real
  {
    SplitAppended([], digits);
    assert [] + digits == digits;
  }

  /** Plain seconds are read in the same way after a mark or a sign. */
  lemma ReadDecimalAppended(a: string, text: string)
    requires Plain(text) && (a == [] || (!IsDigit(Last(a)) && Last(a) != '.'))
    ensures ReadDecimal(a + text) == (ReadDecimal(text).0, a)
  {
    var (front, digits) := SplitDigits(text);
    if front == [] {
      assert text == digits;
      SplitAppended(a, digits);
    } else {
      assert Last(a + front) == Last(front);
      SplitAppended(a + front, digits);
      assert a + text == a + front + digits;
      ReadWholeAppended(a, front);
    }
  }

  lemma ReadWholeAppended(a: string, front: string)
    requires front != [] && SplitDigits(Front(front)).0 == [] && (a == [] || !IsDigit(Last(a)))
    ensures SplitDigits(Front(a + front)) == (a, SplitDigits(Front(front)).1)
  {
    var (before, whole) := SplitDigits(Front(front));
    assert before + whole == whole;
    assert Front(a + front) == a + whole;
    SplitAppended(a, whole);
  }

  lemma ReadSecondsAppended(a: string, text: string)
    requires Plain(text) && (a == [] || (!IsDigit(Last(a)) && Last(a) != '.'))
    ensures ReadSeconds(a + text) == (ReadDecimal(text).0, a)
  {
    var s := a + text;
    assert IsDigit(Last(s)) && !IsSpace(Last(s)) && Last(s) != 's' && Last(s) != 'S';
    assert Trim(s) == s;
    ReadDecimalAppended(a, text);
  }

  // ---------- the round trip ----------

  /** A text down to its days, down to its hours and down to its minutes. */
  function UpToDays(sign: string, days: nat): string
  {
    if days != 0 then sign + Show(days) + ['+'] else sign
  }

  function UpToHours(sign: string, days: nat, hrs: nat): string
  {
    if days != 0 || hrs != 0 then UpToDays(sign, days) + Show2(hrs) + [':'] else sign
  }

  function UpToMinutes(sign: string, days: nat, hrs: nat, mins: nat): string
  {
    if days != 0 || hrs != 0 || mins != 0 then UpToHours(sign, days, hrs) + Show2(mins) + [':'] else sign
  }

  predicate IsSign(sign: string)
  {
    sign == [] || sign == ['-']
  }

  lemma ReadDays(sign: string, days: nat)
    requires IsSign(sign)
    ensures ReadUnit("dD+", UpToDays(sign, days)) == (days, sign)
  {
    if days != 0 {
      ReadUnitAppended("dD+", sign, Show(days), '+');
      ValueOfShow(days);
    }
  }

  lemma ReadHours(sign: string, days: nat, hrs: nat)
    requires IsSign(sign)
    ensures ReadUnit("hH:", UpToHours(sign, days, hrs)) == (hrs, UpToDays(sign, days))
  {
    if days != 0 || hrs != 0 {
      ReadUnitAppended("hH:", UpToDays(sign, days), Show2(hrs), ':');
      ValueOfShow(hrs);
    }
  }

  lemma ReadMinutes(sign: string, days: nat, hrs: nat, mins: nat)
    requires IsSign(sign)
    ensures ReadUnit("mM:", UpToMinutes(sign, days, hrs, mins)) == (mins, UpToHours(sign, days, hrs))
  {
    if days != 0 || hrs != 0 || mins != 0 {
      ReadUnitAppended("mM:", UpToHours(sign, days, hrs), Show2(mins), ':');
      ValueOfShow(mins);
    }
  }

  lemma Regroup(a: string, b: string, c: string, d: string)
    ensures a + (b + c + d) == a + b + c + d
  {
  }

  /** The text with days, hours, minutes and seconds, from its sign on. */
  lemma RegroupAll(sign: string, d: string, h: string, m: string, s: string)
    ensures sign + (d + ['+'] + h + [':'] + m + [':'] + s) == sign + d + ['+'] + h + [':'] + m + [':'] + s
  {
    Regroup(sign, d + ['+'] + h + [':'] + m, [':'], s);
    Regroup(sign, d + ['+'] + h, [':'], m);
    Regroup(sign, d, ['+'], h);
  }

  lemma TextInParts(u: Units, seconds: string)
    ensures
      UnitsText(u, seconds) == UpToMinutes(if u.negative then ['-'] else [], u.days, u.hrs, u.mins) + seconds
  {
    var sign := if u.negative then ['-'] else [];
    if u.days != 0 {
      RegroupAll(sign, Show(u.days), Show2(u.hrs), Show2(u.mins), seconds);
    } else if u.hrs != 0 {
      Regroup(sign, Show2(u.hrs) + [':'] + Show2(u.mins), [':'], seconds);
      Regroup(sign, Show2(u.hrs), [':'], Show2(u.mins));
    } else if u.mins != 0 {
      Regroup(sign, Show2(u.mins), [':'], seconds);
    }
  }

  lemma EndsInMark(sign: string, days: nat, hrs: nat, mins: nat)
    requires IsSign(sign)
    ensures var a := UpToMinutes(sign, days, hrs, mins); a == [] || (!IsDigit(Last(a)) && Last(a) != '.')
  {
  }

  /** Units are read back from their text, whichever of them are written, with the seconds that
      the seconds' text says. */
  lemma UnitsReadBack(u: Units, seconds: string)
    requires Plain(seconds)
    ensures ReadUnits(UnitsText(u, seconds)) == Some(u.(secs := ReadDecimal(seconds).0))
  {
    var sign := if u.negative then ['-'] else [];
    TextInParts(u, seconds);
    EndsInMark(sign, u.days, u.hrs, u.mins);
    ReadMinutes(sign, u.days, u.hrs, u.mins);
    ReadHours(sign, u.days, u.hrs);
    ReadDays(sign, u.days);
    ReadSteps(u, UpToMinutes(sign, u.days, u.hrs, u.mins), UpToHours(sign, u.days, u.hrs), UpToDays(sign, u.days), seconds);
  }

  lemma ReadSteps(u: Units, a: string, b: string, c: string, seconds: string)
    requires Plain(seconds) && (a == [] || (!IsDigit(Last(a)) && Last(a) != '.'))
    requires ReadUnit("mM:", a) == (u.mins, b) && ReadUnit("hH:", b) == (u.hrs, c)
    requires ReadUnit("dD+", c) == (u.days, if u.negative then ['-'] else [])
    ensures ReadUnits(a + seconds) == Some(u.(secs := ReadDecimal(seconds).0))
  {
    ReadSecondsAppended(a, seconds);
  }

  lemma ReadMarkedSeconds(a: string, text: string, mark: char)
    requires Plain(text) && (a == [] || (!IsDigit(Last(a)) && Last(a) != '.')) && mark in {'s', 'S'}
    ensures ReadSeconds(a + text + [mark]) == (ReadDecimal(text).0, a)
  {
    var s := a + text + [mark];
    TrimNothing(s);
    assert Last(s) == mark && Front(s) == a + text && Last(a + text) == Last(text);
    TrimNothing(a + text);
    ReadDecimalAppended(a, text);
  }

  /** The form with letters, which is only read: d, h, m and s in either case; the first three may
      be the marks of the other form. */
  lemma LettersRead(sign: string, days: string, d: char, hrs: string, h: char, mins: string, m: char, secs: string, s: char)
    requires IsSign(sign) && AllDigits(days) && AllDigits(hrs) && AllDigits(mins) && Plain(secs)
    requires days != [] && hrs != [] && mins != []
    requires d in {'d', 'D', '+'} && h in {'h', 'H', ':'} && m in {'m', 'M', ':'} && s in {'s', 'S'}
    ensures ReadUnits(sign + days + [d] + hrs + [h] + mins + [m] + secs + [s]) ==
      Some(Units(sign == "-", NatValue(days), NatValue(hrs), NatValue(mins), ReadDecimal(secs).0))
  {
    var c := sign + days + [d];
    var b := c + hrs + [h];
    var a := b + mins + [m];
    assert !IsDigit(d) && !IsDigit(h) && !IsDigit(m) && !IsSpace(d) && !IsSpace(h) && !IsSpace(m);
    ReadUnitAppended("dD+", sign, days, d);
    ReadUnitAppended("hH:", c, hrs, h);
    ReadUnitAppended("mM:", b, mins, m);
    ReadMarkedSeconds(a, secs, s);
    PartsRead(a + secs + [s], ReadDecimal(secs).0, a, NatValue(mins), b, NatValue(hrs), c, NatValue(days), sign);
  }

  lemma PartsRead(text: string, secs: real, a: string, mins: nat, b: string, hrs: nat, c: string, days: nat, sign: string)
    requires ReadSeconds(text) == (secs, a) && ReadUnit("mM:", a) == (mins, b)
    requires ReadUnit("hH:", b) == (hrs, c) && ReadUnit("dD+", c) == (days, sign) && IsSign(sign)
    ensures ReadUnits(text) == Some(Units(sign == "-", days, hrs, mins, secs))
  {
  }

  lemma HoursOfTime(n: nat)
    ensures n / 3600 == 24 * (n / 86400) + n % 86400 / 3600
  {
  }

  lemma MinutesOfTime(n: nat)
    ensures n == 3600 * (n / 3600) + n % 3600 / 60 * 60 + n % 60
  {
  }

  /** No time is lost in its units, and each unit stays below the next greater one. */
  lemma TotalOfUnits(rsecs: real)
    ensures
      var u := UnitsOf(rsecs);
      && TotalSeconds(u) == rsecs && (u.negative <==> rsecs < 0.0)
      && 0.0 <= u.secs < 60.0 && u.mins < 60 && u.hrs < 24
  {
    var n := (if rsecs < 0.0 then -rsecs else rsecs).Floor;
    HoursOfTime(n);
    MinutesOfTime(n);
  }

  lemma SecondsDecide(u: Units, secs: real)
    ensures TotalSeconds(u) == TotalSeconds(u.(secs := secs)) <==> u.secs == secs
  {
  }

  /** A time whose seconds' text is plain is read back exactly when that text says their number,
      whatever the number formatting does with fractions. */
  lemma RelTimeReadBackIff(g: real -> string, rsecs: real)
    requires Plain(SecondsText(g, UnitsOf(rsecs).secs))
    ensures
      var secs := UnitsOf(rsecs).secs;
      ReadRelTime(RelTimeText(g, rsecs)) == Some(rsecs) <==> ReadDecimal(SecondsText(g, secs)).0 == secs
  {
    var u := UnitsOf(rsecs);
    var text := SecondsText(g, u.secs);
    UnitsReadBack(u, text);
    TotalOfUnits(rsecs);
    SecondsDecide(u, ReadDecimal(text).0);
  }

  /** The digits of a number: at least one, two for `%02d`, and none too many. */
  lemma {:induction false} ShownLength(n: nat)
    ensures n < 10 ==> |Show(n)| == 1
    ensures 10 <= n < 100 ==> |Show(n)| == 2
    ensures n < 100 ==> |Show2(n)| == 2
    ensures n > 0 ==> Show(n)[0] != '0'
  {
    if n >= 10 {
      ShownLength(n / 10);
    }
  }

  /** Each of the forms: what is zero in front is left out. */
  lemma TextExamples(g: real -> string)
    ensures UnitsText(Units(false, 1, 2, 30, 5.0), SecondsText(g, 5.0)) == "1+02:30:05"
    ensures UnitsText(Units(true, 0, 2, 0, 0.0), SecondsText(g, 0.0)) == "-02:00:00"
    ensures UnitsText(Units(false, 0, 0, 30, 1.0), SecondsText(g, 1.0)) == "30:01"
    ensures UnitsText(Units(false, 0, 0, 0, 5.0), SecondsText(g, 5.0)) == "05"
  {
    SmallNumbers();
    assert SecondsText(g, 5.0) == "05" && SecondsText(g, 0.0) == "00" && SecondsText(g, 1.0) == "01";
  }

  lemma SmallNumbers()
    ensures Show(1) == "1" && Show2(0) == "00" && Show2(1) == "01" && Show2(2) == "02" && Show2(5) == "05" && Show2(30) == "30"
  {
    assert Show(30) == Show(3) + "0";
  }

  /** Every integer number of seconds is read back. */
  lemma IntegerReadBack(g: real -> string, n: int)
    ensures ReadRelTime(RelTimeText(g, n as real)) == Some(n as real)
  {
    var k := (if n < 0 then -n else n) % 60;
    assert -(n as real) == (-n) as real;
    assert UnitsOf(n as real).secs == k as real;
    DigitsArePlain(Show2(k));
    ValueOfShow(k);
    RelTimeReadBackIff(g, n as real);
  }

  // ---------- the procedures ----------

  /** relTimeToString, which appends to a buffer. */
  method RelTimeToString(g: real -> string, rsecs: real, buffer: string) returns (out: string)
    ensures out == buffer + RelTimeText(g, rsecs)
  {
    out := buffer;
    var u := DivideSeconds(rsecs);
    if u.negative {
      out := out + ['-'];
    }
    var text := if u.secs == u.secs.Floor as real then Show2(u.secs.Floor) else g(u.secs);
    Associative(buffer, if u.negative then ['-'] else [], UnsignedText(u.days, u.hrs, u.mins, text));
    out := WriteUnits(out, u.days, u.hrs, u.mins, text);
  }

  /** The arithmetic of relTimeToString. */
  method DivideSeconds(rsecs: real) returns (u: Units)
    ensures u == UnitsOf(rsecs) && u.secs >= 0.0
  {
    var m := if rsecs < 0.0 then -rsecs else rsecs;
    var fractional := m - m.Floor as real;
    var days := m.Floor;
    var hrs := days % 86400;
    var mins := hrs % 3600;
    var secs := (mins % 60) as real + fractional;
    SameRemainders(days);
    u := Units(rsecs < 0.0, days / 86400, hrs / 3600, mins / 60, secs);
  }

  /** The units without their sign. */
  method WriteUnits(buffer: string, days: nat, hrs: nat, mins: nat, seconds: string) returns (out: string)
    ensures out == buffer + UnsignedText(days, hrs, mins, seconds)
  {
    out := buffer;
    if days != 0 {
      out := out + (Show(days) + ['+'] + Show2(hrs) + [':'] + Show2(mins) + [':'] + seconds);
    } else if hrs != 0 {
      out := out + (Show2(hrs) + [':'] + Show2(mins) + [':'] + seconds);
    } else if mins != 0 {
      out := out + (Show2(mins) + [':'] + seconds);
    } else {
      out := out + seconds;
    }
  }

  lemma SameRemainders(n: nat)
    ensures n % 86400 % 3600 == n % 3600 && n % 3600 % 60 == n % 60
  {
  }

  function Reversed(s: string): (r: string)
    ensures AllDigits(s) ==> AllDigits(r)
  {
    if s == [] then [] else Reversed(s[1..]) + [s[0]]
  }

  lemma {:induction false} ReversedAppended(a: string, b: string)
    ensures Reversed(a + b) == Reversed(b) + Reversed(a)
  {
    if a == [] {
      assert a + b == b;
    } else {
      assert (a + b)[1..] == a[1..] + b;
      ReversedAppended(a[1..], b);
    }
  }

  /** prevNonSpaceChar: moves an index back over spaces. */
  method PrevNonSpaceChar(s: string, start: int) returns (i: int)
    requires -1 <= start < |s|
    ensures -1 <= i <= start && s[..i + 1] == Trim(s[..start + 1])
  {
    i := start;
    while i >= 0 && IsSpace(s[i])
      invariant -1 <= i <= start && Trim(s[..i + 1]) == Trim(s[..start + 1])
    {
      assert Front(s[..i + 1]) == s[..i];
      i := i - 1;
    }
  }

  /** Moves an index back over digits and gives them in the order in which they are met. */
  method TakeDigits(s: string, start: int) returns (i: int, rev: string)
    requires -1 <= start < |s|
    ensures -1 <= i <= start
    ensures (s[..i + 1], Reversed(rev)) == SplitDigits(s[..start + 1]) && AllDigits(rev)
  {
    i, rev := start, [];
    assert SplitDigits(s[..start + 1]).1 + [] == SplitDigits(s[..start + 1]).1;
    while i >= 0 && IsDigit(s[i])
      invariant -1 <= i <= start && DigitsTaken(s, start, i, rev)
    {
      OneMoreDigit(s, start, i, rev);
      rev := rev + [s[i]];
      i := i - 1;
    }
    NoDigits(s[..i + 1]);
    assert [] + Reversed(rev) == Reversed(rev);
  }

  /** The digits behind place i have been met. */
  predicate DigitsTaken(s: string, start: int, i: int, rev: string)
    requires -1 <= i <= start < |s|
  {
    var (front, digits) := SplitDigits(s[..i + 1]);
    AllDigits(rev) && SplitDigits(s[..start + 1]) == (front, digits + Reversed(rev))
  }

  lemma OneMoreDigit(s: string, start: int, i: int, rev: string)
    requires 0 <= i <= start < |s| && IsDigit(s[i]) && DigitsTaken(s, start, i, rev)
    ensures DigitsTaken(s, start, i - 1, rev + [s[i]])
  {
    PrefixStep(s, i);
    DigitTaken(s[..i + 1], Reversed(rev));
    ReversedAppended(rev, [s[i]]);
    assert Reversed([s[i]]) == [s[i]];
  }

  lemma NoDigits(p: string)
    requires p == [] || !IsDigit(Last(p))
    ensures SplitDigits(p) == (p, [])
  {
  }

  lemma Associative(a: string, b: string, c: string)
    ensures a + b + c == a + (b + c)
  {
  }

  lemma PrefixStep(s: string, i: nat)
    requires i < |s|
    ensures Front(s[..i + 1]) == s[..i] && Last(s[..i + 1]) == s[i]
  {
  }

  lemma DigitTaken(p: string, taken: string)
    requires p != [] && IsDigit(Last(p))
    ensures SplitDigits(p).0 == SplitDigits(Front(p)).0
    ensures SplitDigits(p).1 + taken == SplitDigits(Front(p)).1 + ([Last(p)] + taken)
  {
    Associative(SplitDigits(Front(p)).1, [Last(p)], taken);
  }

  /** Puts digits met from the end in their order. */
  method Reverse(rev: string) returns (s: string)
    ensures s == Reversed(rev)
  {
    s := [];
    var i := |rev| - 1;
    while i >= 0
      invariant -1 <= i < |rev| && s == Reversed(rev[i + 1..])
    {
      assert rev[i..] == [rev[i]] + rev[i + 1..];
      s := s + [rev[i]];
      i := i - 1;
    }
  }

  /** The seconds at the end of a text, from an index back. */
  method TakeSeconds(s: string, start: int) returns (i: int, secs: real)
    requires -1 <= start < |s|
    ensures -1 <= i <= start && (secs, s[..i + 1]) == ReadDecimal(s[..start + 1])
  {
    var rev;
    i, rev := TakeDigits(s, start);
    var digits := Reverse(rev);
    if i >= 0 && s[i] == '.' {
      assert Last(s[..i + 1]) == '.' && Front(s[..i + 1]) == s[..i];
      i, rev := TakeDigits(s, i - 1);
      var whole := Reverse(rev);
      secs := Decimal(whole, digits);
    } else {
      assert !EndsIn(s[..i + 1], ".");
      secs := Decimal(digits, []);
    }
  }

  /** One unit of a text, from an index back: a number before one of its marks. */
  method TakeUnit(marks: string, s: string, start: int) returns (i: int, n: nat)
    requires -1 <= start < |s|
    ensures -1 <= i <= start && (n, s[..i + 1]) == ReadUnit(marks, s[..start + 1])
  {
    n := 0;
    i := PrevNonSpaceChar(s, start);
    ghost var t := s[..i + 1];
    assert i >= 0 ==> Last(t) == s[i] && Front(t) == s[..i];
    if i >= 0 && s[i] in marks {
      i := PrevNonSpaceChar(s, i - 1);
      var rev;
      i, rev := TakeDigits(s, i);
      var digits := Reverse(rev);
      n := NatValue(digits);
    }
  }

  /** The seconds field, with its optional mark, from an index back. */
  method TakeSecondsField(s: string, start: int) returns (i: int, secs: real)
    requires -1 <= start < |s|
    ensures -1 <= i <= start && (secs, s[..i + 1]) == ReadSeconds(s[..start + 1])
  {
    i := PrevNonSpaceChar(s, start);
    ghost var p, t := s[..start + 1], s[..i + 1];
    SecondsCases(p);
    if i < 0 {
      return i, 0.0;
    }
    PrefixStep(s, i);
    if s[i] == 's' || s[i] == 'S' {
      i := PrevNonSpaceChar(s, i - 1);
      i, secs := TakeSeconds(s, i);
    } else if IsDigit(s[i]) {
      i, secs := TakeSeconds(s, i);
    } else {
      secs := 0.0;
    }
  }

  lemma SecondsCases(p: string)
    ensures
      var t := Trim(p);
      ReadSeconds(p) ==
        if t == [] then (0.0, t)
        else if Last(t) == 's' || Last(t) == 'S' then ReadDecimal(Trim(Front(t)))
        else if IsDigit(Last(t)) then ReadDecimal(t)
        else (0.0, t)
  {
  }

  /** The sign, from an index back, and whether nothing but spaces is before it. */
  method TakeSign(s: string, start: int) returns (negative: bool, clean: bool)
    requires -1 <= start < |s|
    ensures
      var t := Trim(s[..start + 1]);
      negative == EndsIn(t, "-") && (clean <==> Trim(if negative then Front(t) else t) == [])
  {
    var i := PrevNonSpaceChar(s, start);
    ghost var t := s[..i + 1];
    assert i >= 0 ==> Last(t) == s[i] && Front(t) == s[..i];
    negative := i >= 0 && s[i] == '-';
    if negative {
      i := i - 1;
    }
    i := PrevNonSpaceChar(s, i);
    clean := i < 0;
  }

  /** MakeRelTime of a string: one index runs back over it. */
  method MakeRelTime(timeStr: string) returns (r: Option<real>)
    ensures r == ReadRelTime(timeStr)
  {
    assert timeStr[..|timeStr|] == timeStr;
    var i, secs := TakeSecondsField(timeStr, |timeStr| - 1);
    var mins, hrs, days;
    i, mins := TakeUnit("mM:", timeStr, i);
    i, hrs := TakeUnit("hH:", timeStr, i);
    i, days := TakeUnit("dD+", timeStr, i);
    var negative, clean := TakeSign(timeStr, i);
    var u := Units(negative, days, hrs, mins, secs);
    assert ReadUnits(timeStr) == if clean then Some(u) else None;
    r := if clean then Some(TotalSeconds(u)) else None;
  }
}
