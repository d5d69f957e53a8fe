/**
 Timestamps as they are written: the spellings of section 5.6 of RFC 3339, of
 which the canonical text is one. Instants are whole nanoseconds since 1970 here,
 as the parser keeps them; seconds are at most 59.
 */
module Spellings {
  import opened Protocol
  import opened Timestamps

  const NANOS_PER_MILLI: nat := 1_000_000
  const NANOS_PER_MINUTE: nat := 60_000_000_000

  /** UTC, or an offset from it. */
  datatype Zone = Zulu(mark: char) | Offset(sign: char, hours: nat, minutes: nat)

  /** A date and time to the second, the digits after the point (none means no
      point), the separator and the zone. */
  datatype Spelling = Spelling(f: Fields, fraction: string, tee: char, zone: Zone)

  predicate ValidZone(z: Zone) {
    match z
    case Zulu(mark) => mark == 'Z' || mark == 'z'
    case Offset(sign, hours, minutes) => (sign == '+' || sign == '-') && hours <= 23 && minutes <= 59
  }

  predicate ValidTee(c: char) {
    c == 'T' || c == 't' || c == ' '
  }

  predicate ValidSpelling(x: Spelling) {
    && ValidFields(x.f) && x.f.milli == 0 && AllDigits(x.fraction) && ValidTee(x.tee) && ValidZone(x.zone)
  }

  // ---------------------------------------------------------------------
  // What a spelling says
  // ---------------------------------------------------------------------

  function Zeros(n: nat): (s: string)
    ensures |s| == n && AllDigits(s)
  {
    if n == 0 then [] else Zeros(n - 1) + ['0']
  }

  /** Nanoseconds of a fraction: nine digits count, later ones are dropped. */
  function Nanos(d: string): nat
    requires AllDigits(d)
  {
    if |d| >= 9 then Value(d[..9]) else Value(d + Zeros(9 - |d|))
  }

  function Minutes(z: Zone): int {
    match z
    case Zulu(_) => 0
    case Offset(sign, hours, minutes) => if sign == '-' then 0 - (hours * 60 + minutes) else hours * 60 + minutes
  }

  /** The instant: local time less the offset. */
  function Moment(x: Spelling): int
    requires ValidSpelling(x)
  {
    Instant(x.f) * NANOS_PER_MILLI + Nanos(x.fraction) - Minutes(x.zone) * NANOS_PER_MINUTE
  }

  // ---------------------------------------------------------------------
  // How it is written
  // ---------------------------------------------------------------------

  function SpellDate(f: Fields, tee: char, rest: string): string
    requires ValidFields(f)
  {
    Powers();
    Part(f.year, 4, "-", Part(f.month, 2, "-", Part(f.day, 2, [tee], rest)))
  }

  function SpellClock(f: Fields, rest: string): string
    requires ValidFields(f)
  {
    Powers();
    Part(f.hour, 2, ":", Part(f.minute, 2, ":", Part(f.second, 2, "", rest)))
  }

  function SpellZone(z: Zone): string
    requires ValidZone(z)
  {
    match z
    case Zulu(mark) => [mark]
    case Offset(sign, hours, minutes) =>
      Powers();
      [sign] + Part(hours, 2, ":", Part(minutes, 2, "", ""))
  }

  function SpellFraction(d: string): string {
    if d == "" then "" else ['.'] + d
  }

  function Spell(x: Spelling): string
    requires ValidSpelling(x)
  {
    SpellDate(x.f, x.tee, SpellClock(x.f, SpellFraction(x.fraction) + SpellZone(x.zone)))
  }

  // ---------------------------------------------------------------------
  // How it is read
  // ---------------------------------------------------------------------

  function ScanDate(s: string): Option<(nat, nat, nat, char, string)> {
    var y := Read(s, 4, "-");
    if y.None? then None else
    var m := Read(y.value.1, 2, "-");
    if m.None? then None else
    var d := Read(m.value.1, 2, "");
    if d.None? || d.value.1 == "" || !ValidTee(d.value.1[0]) then None else
    Some((y.value.0, m.value.0, d.value.0, d.value.1[0], d.value.1[1..]))
  }

  function ScanClock(s: string): Option<(nat, nat, nat, string)> {
    var h := Read(s, 2, ":");
    if h.None? then None else
    var m := Read(h.value.1, 2, ":");
    if m.None? then None else
    var c := Read(m.value.1, 2, "");
    if c.None? then None else
    Some((h.value.0, m.value.0, c.value.0, c.value.1))
  }

  /** How many digits a text begins with. */
  function DigitRun(s: string): (n: nat)
    ensures n <= |s| && AllDigits(s[..n]) && (n < |s| ==> !('0' <= s[n] <= '9'))
  {
    if |s| == 0 || !('0' <= s[0] <= '9') then 0 else 1 + DigitRun(s[1..])
  }

  function ScanFraction(s: string): Option<(string, string)> {
    if |s| == 0 || s[0] != '.' then Some(("", s))
    else
      var n := DigitRun(s[1..]);
      if n == 0 then None else Some((s[1..][..n], s[1..][n..]))
  }

  function ScanZone(s: string): Option<Zone> {
    if |s| == 0 then None
    else if s[0] == '+' || s[0] == '-' then
      var h := Read(s[1..], 2, ":");
      if h.None? then None else
      var m := Read(h.value.1, 2, "");
      if m.None? || m.value.1 != "" || h.value.0 > 23 || m.value.0 > 59 then None
      else Some(Offset(s[0], h.value.0, m.value.0))
    else if |s| == 1 && ValidZone(Zulu(s[0])) then Some(Zulu(s[0]))
    else None
  }

  function Scan(s: string): Option<Spelling> {
    var date := ScanDate(s);
    if date.None? then None else
    var clock := ScanClock(date.value.4);
    if clock.None? then None else
    var fraction := ScanFraction(clock.value.3);
    if fraction.None? then None else
    var zone := ScanZone(fraction.value.1);
    if zone.None? then None else
    var f := Fields(date.value.0, date.value.1, date.value.2, clock.value.0, clock.value.1, clock.value.2, 0);
    if ValidFields(f) then Some(Spelling(f, fraction.value.0, date.value.3, zone.value)) else None
  }

  // ---------------------------------------------------------------------
  // Reading is the inverse of writing
  // ---------------------------------------------------------------------

  lemma ScansDate(f: Fields, tee: char, rest: string)
    requires ValidFields(f) && ValidTee(tee)
    ensures ScanDate(SpellDate(f, tee, rest)) == Some((f.year, f.month, f.day, tee, rest))
  {
    Powers();
    var p2 := Part(f.day, 2, [tee], rest);
    var p1 := Part(f.month, 2, "-", p2);
    SeparatorLast(f.day, 2, tee, rest);
    ReadPart(f.day, 2, "", [tee] + rest);
    ReadPart(f.month, 2, "-", p2);
    ReadPart(f.year, 4, "-", p1);
  }

  lemma SeparatorLast(n: nat, w: nat, c: char, rest: string)
    requires n < Power(w)
    ensures Part(n, w, [c], rest) == Part(n, w, "", [c] + rest)
  {
    assert "" + ([c] + rest) == [c] + rest;
  }

  lemma ScansClock(f: Fields, rest: string)
    requires ValidFields(f)
    ensures ScanClock(SpellClock(f, rest)) == Some((f.hour, f.minute, f.second, rest))
  {
    Powers();
    var p2 := Part(f.second, 2, "", rest);
    var p1 := Part(f.minute, 2, ":", p2);
    ReadPart(f.second, 2, "", rest);
    ReadPart(f.minute, 2, ":", p2);
    ReadPart(f.hour, 2, ":", p1);
  }

  lemma ScansZone(z: Zone)
    requires ValidZone(z)
    ensures ScanZone(SpellZone(z)) == Some(z)
    ensures |SpellZone(z)| > 0 && SpellZone(z)[0] != '.' && !('0' <= SpellZone(z)[0] <= '9')
  {
    if z.Offset? {
      Powers();
      var p := Part(z.minutes, 2, "", "");
      ReadPart(z.minutes, 2, "", "");
      ReadPart(z.hours, 2, ":", p);
      assert SpellZone(z)[1..] == Part(z.hours, 2, ":", p);
    }
  }

  lemma {:induction false} RunOfDigits(d: string, rest: string)
    requires AllDigits(d) && |rest| > 0 && !('0' <= rest[0] <= '9')
    ensures DigitRun(d + rest) == |d|
  {
    if d == "" {
      assert d + rest == rest;
    } else {
      assert (d + rest)[1..] == d[1..] + rest;
      RunOfDigits(d[1..], rest);
    }
  }

  lemma ScansFraction(d: string, rest: string)
    requires AllDigits(d) && |rest| > 0 && rest[0] != '.' && !('0' <= rest[0] <= '9')
    ensures ScanFraction(SpellFraction(d) + rest) == Some((d, rest))
  {
    if d == "" {
      assert SpellFraction(d) + rest == rest;
    } else {
      RunOfDigits(d, rest);
      AfterPoint(d, rest);
    }
  }

  lemma AfterPoint(d: string, rest: string)
    ensures var s := (['.'] + d) + rest; |s| > 0 && s[0] == '.' && s[1..] == d + rest
    ensures (d + rest)[..|d|] == d && (d + rest)[|d|..] == rest
  {
  }

  lemma DateScanned(s: string, f: Fields, tee: char, rest: string)
    requires ValidFields(f) && ScanDate(s) == Some((f.year, f.month, f.day, tee, rest))
    ensures s == SpellDate(f, tee, rest) && ValidTee(tee)
  {
    hide Read, Part, ValidFields;
    Powers();
    var y := Read(s, 4, "-").value;
    var m := Read(y.1, 2, "-").value;
    var d := Read(m.1, 2, "").value;
    PartRead(s, 4, "-");
    PartRead(y.1, 2, "-");
    PartRead(m.1, 2, "");
    assert d.1 == [tee] + rest;
    SeparatorLast(f.day, 2, tee, rest);
  }

  lemma ClockScanned(s: string, f: Fields, rest: string)
    requires ValidFields(f) && ScanClock(s) == Some((f.hour, f.minute, f.second, rest))
    ensures s == SpellClock(f, rest)
  {
    hide Read, Part;
    Powers();
    var h := Read(s, 2, ":").value;
    var m := Read(h.1, 2, ":").value;
    PartRead(s, 2, ":");
    PartRead(h.1, 2, ":");
    PartRead(m.1, 2, "");
  }

  lemma FractionScanned(s: string, d: string, rest: string)
    requires ScanFraction(s) == Some((d, rest))
    ensures AllDigits(d) && s == SpellFraction(d) + rest
  {
    if d == "" {
      assert SpellFraction(d) + rest == rest;
    } else {
      assert s == [s[0]] + (s[1..][..|d|] + s[1..][|d|..]);
    }
  }

  lemma ZoneScanned(s: string, z: Zone)
    requires ScanZone(s) == Some(z)
    ensures ValidZone(z) && s == SpellZone(z)
  {
    if z.Offset? {
      OffsetScanned(s, z);
    } else {
      assert s == [s[0]];
    }
  }

  lemma OffsetScanned(s: string, z: Zone)
    requires ScanZone(s) == Some(z) && z.Offset?
    ensures ValidZone(z) && s == SpellZone(z)
  {
    hide Read, Part;
    Powers();
    var h := Read(s[1..], 2, ":").value;
    PartRead(s[1..], 2, ":");
    PartRead(h.1, 2, "");
    assert s == [s[0]] + s[1..];
  }

  lemma SpelledIsScanned(x: Spelling)
    requires ValidSpelling(x)
    ensures Scan(Spell(x)) == Some(x)
  {
    var zone := SpellZone(x.zone);
    var end := SpellFraction(x.fraction) + zone;
    ScansZone(x.zone);
    ScansFraction(x.fraction, zone);
    ScansClock(x.f, end);
    ScansDate(x.f, x.tee, SpellClock(x.f, end));
  }

  lemma ScannedIsSpelled(s: string)
    requires Scan(s).Some?
    ensures ValidSpelling(Scan(s).value) && Spell(Scan(s).value) == s
  {
    var x := Scan(s).value;
    var date := ScanDate(s).value;
    var clock := ScanClock(date.4).value;
    var fraction := ScanFraction(clock.3).value;
    DateScanned(s, x.f, x.tee, date.4);
    ClockScanned(date.4, x.f, clock.3);
    FractionScanned(clock.3, x.fraction, fraction.1);
    ZoneScanned(fraction.1, x.zone);
  }

  /** `parse`. */
  function Parse(s: string): Option<int> {
    if Scan(s).Some? then
      ScannedIsSpelled(s);
      Some(Moment(Scan(s).value))
    else None
  }

  /** A text parses exactly if it spells an instant, and then to that instant. */
  lemma {:induction false} ParseReadsSpellings(s: string, n: int)
    ensures Parse(s) == Some(n) <==> exists x :: ValidSpelling(x) && Spell(x) == s && Moment(x) == n
  {
    if Parse(s) == Some(n) {
      ScannedIsSpelled(s);
    }
    if exists x :: ValidSpelling(x) && Spell(x) == s && Moment(x) == n {
      var x :| ValidSpelling(x) && Spell(x) == s && Moment(x) == n;
      SpelledIsScanned(x);
    }
  }

  // ---------------------------------------------------------------------
  // What each part of a text means
  // ---------------------------------------------------------------------

  /** A text up to its zone. */
  function BeforeZone(x: Spelling): string
    requires ValidSpelling(x)
  {
    SpellDate(x.f, x.tee, SpellClock(x.f, SpellFraction(x.fraction)))
  }

  lemma PartAppend(n: nat, w: nat, sep: string, rest: string, end: string)
    requires n < Power(w)
    ensures Part(n, w, sep, rest + end) == Part(n, w, sep, rest) + end
  {
    assert sep + (rest + end) == (sep + rest) + end;
  }

  lemma ClockAppend(f: Fields, rest: string, end: string)
    requires ValidFields(f)
    ensures SpellClock(f, rest + end) == SpellClock(f, rest) + end
  {
    Powers();
    var p2 := Part(f.second, 2, "", rest);
    var p1 := Part(f.minute, 2, ":", p2);
    hide Part;
    PartAppend(f.second, 2, "", rest, end);
    PartAppend(f.minute, 2, ":", p2, end);
    PartAppend(f.hour, 2, ":", p1, end);
  }

  lemma DateAppend(f: Fields, tee: char, rest: string, end: string)
    requires ValidFields(f)
    ensures SpellDate(f, tee, rest + end) == SpellDate(f, tee, rest) + end
  {
    Powers();
    var p2 := Part(f.day, 2, [tee], rest);
    var p1 := Part(f.month, 2, "-", p2);
    hide Part;
    PartAppend(f.day, 2, [tee], rest, end);
    PartAppend(f.month, 2, "-", p2, end);
    PartAppend(f.year, 4, "-", p1, end);
  }

  lemma ZoneLast(x: Spelling)
    requires ValidSpelling(x)
    ensures Spell(x) == BeforeZone(x) + SpellZone(x.zone)
  {
    ClockAppend(x.f, SpellFraction(x.fraction), SpellZone(x.zone));
    DateAppend(x.f, x.tee, SpellClock(x.f, SpellFraction(x.fraction)), SpellZone(x.zone));
  }

  lemma SameEnds(a: string, s: string, b: string, t: string)
    requires a + s == b + t && |s| == |t|
    ensures a == b && s == t
  {
    assert |a + s| == |b + t|;
    assert a == (a + s)[..|a|] && b == (b + t)[..|b|];
    assert s == (a + s)[|a|..] && t == (b + t)[|b|..];
  }

  /** The text of a zone, by its last character. */
  lemma ZoneForm(z: Zone)
    requires ValidZone(z)
    ensures z.Zulu? ==> SpellZone(z) == [z.mark]
    ensures z.Offset? ==> |SpellZone(z)| == 6 && '0' <= SpellZone(z)[5] <= '9'
  {
    Powers();
  }

  lemma TextIsZulu(p: string, x: Spelling)
    requires ValidSpelling(x) && Spell(x) == p + "Z"
    ensures x.zone == Zulu('Z') && BeforeZone(x) == p
  {
    hide Spell, BeforeZone, SpellZone;
    ZoneLast(x);
    ZoneForm(x.zone);
    LastOf(p, "Z");
    LastOf(BeforeZone(x), SpellZone(x.zone));
    if x.zone.Zulu? { SameEnds(BeforeZone(x), SpellZone(x.zone), p, "Z"); }
  }

  lemma LastOf(a: string, b: string)
    requires |b| > 0
    ensures (a + b)[|a + b| - 1] == b[|b| - 1]
  {
  }

  /** `hh:mm` behind a sign. */
  function OffsetText(sign: char, hours: nat, minutes: nat): string
    requires hours < 100 && minutes < 100
  {
    Powers();
    [sign] + (Digits(hours, 2) + (":" + Digits(minutes, 2)))
  }

  lemma OffsetTextScans(sign: char, hours: nat, minutes: nat)
    requires hours < 100 && minutes < 100 && (sign == '+' || sign == '-')
    ensures |OffsetText(sign, hours, minutes)| == 6 && '0' <= OffsetText(sign, hours, minutes)[5] <= '9'
    ensures ScanZone(OffsetText(sign, hours, minutes)) ==
            if hours <= 23 && minutes <= 59 then Some(Offset(sign, hours, minutes)) else None
    ensures hours <= 23 && minutes <= 59 ==>
              SpellZone(Offset(sign, hours, minutes)) == OffsetText(sign, hours, minutes)
  {
    Powers();
    var p := Part(minutes, 2, "", "");
    assert p == Digits(minutes, 2);
    assert OffsetText(sign, hours, minutes)[1..] == Part(hours, 2, ":", p);
    ReadPart(minutes, 2, "", "");
    ReadPart(hours, 2, ":", p);
  }

  lemma TextHasOffset(p: string, sign: char, hours: nat, minutes: nat, x: Spelling)
    requires hours < 100 && minutes < 100 && (sign == '+' || sign == '-')
    requires ValidSpelling(x) && Spell(x) == p + OffsetText(sign, hours, minutes)
    ensures hours <= 23 && minutes <= 59 && x.zone == Offset(sign, hours, minutes) && BeforeZone(x) == p
  {
    hide Spell, BeforeZone, SpellZone, OffsetText, ScanZone;
    var end := OffsetText(sign, hours, minutes);
    ZoneLast(x);
    ZoneForm(x.zone);
    OffsetTextScans(sign, hours, minutes);
    ScansZone(x.zone);
    LastOf(p, end);
    LastOf(BeforeZone(x), SpellZone(x.zone));
    assert x.zone.Offset?;
    SameEnds(BeforeZone(x), SpellZone(x.zone), p, end);
  }

  lemma Rezoned(x: Spelling, zone: Zone)
    requires ValidSpelling(x) && ValidZone(zone)
    ensures ValidSpelling(x.(zone := zone)) && Spell(x.(zone := zone)) == BeforeZone(x) + SpellZone(zone)
    ensures Parse(BeforeZone(x) + SpellZone(zone)) == Some(Moment(x.(zone := zone)))
  {
    var y := x.(zone := zone);
    ZoneLast(y);
    SpelledIsScanned(y);
  }

  /** A time with a positive offset is that much earlier than the same digits in
      UTC, one with a negative offset that much later; hours go to 23 and minutes
      to 59. */
  lemma OffsetsShiftExactly(p: string, sign: char, hours: nat, minutes: nat)
    requires hours < 100 && minutes < 100 && (sign == '+' || sign == '-')
    ensures var utc, shift := Parse(p + "Z"), (hours * 60 + minutes) * 60_000_000_000;
            Parse(p + OffsetText(sign, hours, minutes)) ==
            if utc.Some? && hours <= 23 && minutes <= 59
            then Some(if sign == '+' then utc.value - shift else utc.value + shift)
            else None
  {
    hide Scan, Spell, OffsetText, SpellZone, BeforeZone, ValidFields, Instant, Nanos;
    var utc, local := p + "Z", p + OffsetText(sign, hours, minutes);
    if Parse(utc).Some? {
      ScannedIsSpelled(utc);
      var x := Scan(utc).value;
      TextIsZulu(p, x);
      if hours <= 23 && minutes <= 59 {
        OffsetTextScans(sign, hours, minutes);
        Rezoned(x, Offset(sign, hours, minutes));
      }
    }
    if Parse(local).Some? {
      ScannedIsSpelled(local);
      var x := Scan(local).value;
      TextHasOffset(p, sign, hours, minutes, x);
      ZoneForm(Zulu('Z'));
      Rezoned(x, Zulu('Z'));
    }
  }

  /** The zone mark's case does not matter. */
  lemma ZuluEitherCase(p: string)
    ensures Parse(p + "z") == Parse(p + "Z")
  {
    hide Scan, Spell, SpellZone, BeforeZone, ValidFields, Instant, Nanos;
    ZoneForm(Zulu('Z'));
    ZoneForm(Zulu('z'));
    if Parse(p + "Z").Some? {
      ScannedIsSpelled(p + "Z");
      TextIsZulu(p, Scan(p + "Z").value);
      Rezoned(Scan(p + "Z").value, Zulu('z'));
    }
    if Parse(p + "z").Some? {
      ScannedIsSpelled(p + "z");
      var x := Scan(p + "z").value;
      ZoneLast(x);
      ZoneForm(x.zone);
      LastOf(p, "z");
      LastOf(BeforeZone(x), SpellZone(x.zone));
      assert x.zone.Zulu?;
      SameEnds(BeforeZone(x), SpellZone(x.zone), p, "z");
      Rezoned(x, Zulu('Z'));
    }
  }

  /** What the digits of a fraction are worth, in nanoseconds. */
  function Worth(d: string): nat
    requires AllDigits(d)
  {
    if |d| <= 9 then Value(d) * Power(9 - |d|) else Value(d[..9])
  }

  lemma {:induction false} ZerosShift(d: string, n: nat)
    requires AllDigits(d)
    ensures Value(d + Zeros(n)) == Value(d) * Power(n)
  {
    if n == 0 {
      assert d + Zeros(0) == d;
    } else {
      var init := d + Zeros(n - 1);
      assert d + Zeros(n) == init + ['0'];
      ZerosShift(d, n - 1);
      ValueShift(init);
      hide Value, Zeros, AllDigits;
      TenTimes(Value(d), Power(n - 1));
    }
  }

  lemma TenTimes(a: nat, b: nat)
    ensures a * b * 10 == a * (10 * b)
  {
  }

  lemma NanosAreWorth(d: string)
    requires AllDigits(d)
    ensures Nanos(d) == Worth(d)
  {
    if |d| == 9 {
      assert d[..9] == d && Power(0) == 1;
    } else if |d| < 9 {
      ZerosShift(d, 9 - |d|);
    }
  }

  lemma PointInPart(n: nat, w: nat, sep: string, rest: string)
    requires n < Power(w)
    ensures '.' in Part(n, w, sep, rest) <==> '.' in sep || '.' in rest
  {
    assert '.' !in Digits(n, w);
  }

  /** A point stands before the zone exactly if there is a fraction. */
  lemma PointInText(x: Spelling)
    requires ValidSpelling(x)
    ensures '.' in BeforeZone(x) <==> x.fraction != ""
  {
    Powers();
    var f, q3 := x.f, SpellFraction(x.fraction);
    var q2 := Part(f.second, 2, "", q3);
    var q1 := Part(f.minute, 2, ":", q2);
    var q0 := Part(f.hour, 2, ":", q1);
    var p2 := Part(f.day, 2, [x.tee], q0);
    var p1 := Part(f.month, 2, "-", p2);
    hide Part;
    PointInPart(f.second, 2, "", q3);
    PointInPart(f.minute, 2, ":", q2);
    PointInPart(f.hour, 2, ":", q1);
    PointInPart(f.day, 2, [x.tee], q0);
    PointInPart(f.month, 2, "-", p2);
    PointInPart(f.year, 4, "-", p1);
  }

  lemma FractionLast(x: Spelling)
    requires ValidSpelling(x)
    ensures BeforeZone(x) == BeforeZone(x.(fraction := "")) + SpellFraction(x.fraction)
  {
    var d := SpellFraction(x.fraction);
    assert "" + d == d;
    ClockAppend(x.f, "", d);
    DateAppend(x.f, x.tee, SpellClock(x.f, ""), d);
  }

  lemma OnePoint(a: string, d: string, b: string, e: string)
    requires a + (['.'] + d) == b + (['.'] + e) && AllDigits(d) && AllDigits(e)
    ensures a == b && d == e
  {
    var s := a + (['.'] + d);
    assert s[|a|] == '.' && s[|b|] == '.';
    SameEnds(a, ['.'] + d, b, ['.'] + e);
    assert d == (['.'] + d)[1..] && e == (['.'] + e)[1..];
  }

  /** Digits after a point add their worth; only the first nine count, and a text
      has one point. */
  lemma FractionsAddExactly(p: string, d: string)
    requires AllDigits(d) && d != ""
    ensures var whole := Parse(p + "Z");
            Parse(p + (['.'] + d) + "Z") ==
            if whole.Some? && '.' !in p then Some(whole.value + Worth(d)) else None
  {
    hide Scan, Spell, SpellZone, BeforeZone, ValidFields, Instant, Nanos, Worth;
    var whole, s := p + "Z", p + (['.'] + d) + "Z";
    NanosAreWorth(d);
    ZoneForm(Zulu('Z'));
    if Parse(whole).Some? && '.' !in p {
      ScannedIsSpelled(whole);
      var x := Scan(whole).value;
      TextIsZulu(p, x);
      PointInText(x);
      WithFraction(x, d);
    }
    if Parse(s).Some? {
      ScannedIsSpelled(s);
      var x := Scan(s).value;
      TextIsZulu(p + (['.'] + d), x);
      PointInText(x);
      FractionLast(x);
      assert '.' in p + (['.'] + d);
      OnePoint(p, d, BeforeZone(x.(fraction := "")), x.fraction);
      PointInText(x.(fraction := ""));
      Rezoned(x.(fraction := ""), Zulu('Z'));
    }
  }

  lemma MomentOfFraction(x: Spelling, d: string)
    requires ValidSpelling(x) && x.fraction == "" && AllDigits(d)
    ensures Moment(x.(fraction := d)) == Moment(x) + Nanos(d)
  {
    NanosAreWorth("");
    hide Nanos, Instant, Minutes, ValidFields, AllDigits;
  }

  lemma WithFraction(x: Spelling, d: string)
    requires ValidSpelling(x) && x.fraction == "" && x.zone == Zulu('Z') && AllDigits(d) && d != ""
    ensures Parse(BeforeZone(x) + (['.'] + d) + "Z") == Some(Moment(x) + Nanos(d))
  {
    hide Parse, Spell, BeforeZone, Moment, Nanos, ValidFields;
    var y := x.(fraction := d);
    assert y.(fraction := "") == x;
    FractionLast(y);
    ZoneForm(Zulu('Z'));
    Rezoned(y, Zulu('Z'));
    assert y.(zone := Zulu('Z')) == y;
    MomentOfFraction(x, d);
  }

  /** A text from after the separator on. */
  function AfterTee(x: Spelling): string
    requires ValidSpelling(x)
  {
    SpellClock(x.f, SpellFraction(x.fraction) + SpellZone(x.zone))
  }

  function DateDigits(f: Fields): string
    requires ValidFields(f)
  {
    Powers();
    Part(f.year, 4, "-", Part(f.month, 2, "-", Digits(f.day, 2)))
  }

  lemma TeeBetween(x: Spelling)
    requires ValidSpelling(x)
    ensures |DateDigits(x.f)| == 10 && Spell(x) == DateDigits(x.f) + ([x.tee] + AfterTee(x))
  {
    Powers();
    var f, end := x.f, [x.tee] + AfterTee(x);
    var q := Digits(f.day, 2);
    assert Part(f.day, 2, [x.tee], AfterTee(x)) == q + end;
    PartAppend(f.month, 2, "-", q, end);
    PartAppend(f.year, 4, "-", Part(f.month, 2, "-", q), end);
  }

  /** Date and time are separated by T, t or a space, all alike, and by nothing
      else. */
  lemma SeparatorsAreAlike(date: string, c: char, rest: string)
    requires |date| == 10
    ensures Parse(date + ([c] + rest)) ==
            if c == 'T' || c == 't' || c == ' ' then Parse(date + (['T'] + rest)) else None
  {
    var s, t := date + ([c] + rest), date + (['T'] + rest);
    if Parse(s).Some? { Reseparated(date, c, rest, 'T'); }
    if Parse(t).Some? && ValidTee(c) { Reseparated(date, 'T', rest, c); }
  }

  lemma Reseparated(date: string, c: char, rest: string, to: char)
    requires |date| == 10 && Parse(date + ([c] + rest)).Some? && ValidTee(to)
    ensures ValidTee(c) && Parse(date + ([to] + rest)) == Parse(date + ([c] + rest))
  {
    hide Scan, Spell, DateDigits, AfterTee, ValidFields;
    var s := date + ([c] + rest);
    ScannedIsSpelled(s);
    var x := Scan(s).value;
    TeeBetween(x);
    assert date == s[..10] == DateDigits(x.f);
    assert [c] + rest == s[10..] == [x.tee] + AfterTee(x);
    assert c == x.tee && rest == AfterTee(x) by {
      assert ([c] + rest)[1..] == rest && ([x.tee] + AfterTee(x))[1..] == AfterTee(x);
      assert ([c] + rest)[0] == c && ([x.tee] + AfterTee(x))[0] == x.tee;
    }
    var y := x.(tee := to);
    TeeBetween(y);
    SameAfterTee(x, to);
    SpelledIsScanned(y);
  }

  lemma SameAfterTee(x: Spelling, to: char)
    requires ValidSpelling(x) && ValidTee(to)
    ensures AfterTee(x.(tee := to)) == AfterTee(x) && Moment(x.(tee := to)) == Moment(x)
  {
  }

  /** `YYYY-MM-DDThh:mm:ssZ`, digit by digit. */
  function PlainText(f: Fields): string
    requires f.year < 10000 && f.month < 100 && f.day < 100 && f.hour < 100 && f.minute < 100 && f.second < 100
  {
    Powers();
    Digits(f.year, 4) + "-" + Digits(f.month, 2) + "-" + Digits(f.day, 2) + "T"
    + Digits(f.hour, 2) + ":" + Digits(f.minute, 2) + ":" + Digits(f.second, 2) + "Z"
  }

  /** A plain text parses exactly if its fields are a date and a time of day, and
      then to their instant. */
  lemma PlainTextsParseExactly(f: Fields)
    requires f.year < 10000 && f.month < 100 && f.day < 100 && f.hour < 100 && f.minute < 100 && f.second < 100
    requires f.milli == 0
    ensures Parse(PlainText(f)) == if ValidFields(f) then Some(Instant(f) * 1_000_000) else None
  {
    hide Scan, PlainText, Instant, Nanos, ValidFields;
    PlainTextScans(f);
    if ValidFields(f) { PlainMoment(f); }
  }

  lemma PlainMoment(f: Fields)
    requires ValidFields(f) && f.milli == 0
    ensures ValidSpelling(Spelling(f, "", 'T', Zulu('Z')))
    ensures Moment(Spelling(f, "", 'T', Zulu('Z'))) == Instant(f) * 1_000_000
  {
    NoNanos();
    hide Instant, Nanos, ValidFields;
  }

  lemma NoNanos()
    ensures Nanos("") == 0
  {
    NanosAreWorth("");
  }

  lemma RawDateScans(y: nat, m: nat, d: nat, rest: string)
    requires Power(4) == 10000 && Power(2) == 100 && y < 10000 && m < 100 && d < 100
    ensures ScanDate(Part(y, 4, "-", Part(m, 2, "-", Part(d, 2, "", ['T'] + rest)))) == Some((y, m, d, 'T', rest))
  {
    var end := ['T'] + rest;
    var p2 := Part(d, 2, "", end);
    var p1 := Part(m, 2, "-", p2);
    hide Part, Read;
    ReadPart(d, 2, "", end);
    ReadPart(m, 2, "-", p2);
    ReadPart(y, 4, "-", p1);
    assert end[0] == 'T' && end[1..] == rest;
  }

  lemma RawClockScans(h: nat, m: nat, s: nat, rest: string)
    requires Power(2) == 100 && h < 100 && m < 100 && s < 100
    ensures ScanClock(Part(h, 2, ":", Part(m, 2, ":", Part(s, 2, "", rest)))) == Some((h, m, s, rest))
  {
    var p2 := Part(s, 2, "", rest);
    var p1 := Part(m, 2, ":", p2);
    hide Part, Read;
    ReadPart(s, 2, "", rest);
    ReadPart(m, 2, ":", p2);
    ReadPart(h, 2, ":", p1);
  }

  lemma PlainTextScans(f: Fields)
    requires f.year < 10000 && f.month < 100 && f.day < 100 && f.hour < 100 && f.minute < 100 && f.second < 100
    requires f.milli == 0
    ensures Scan(PlainText(f)) == if ValidFields(f) then Some(Spelling(f, "", 'T', Zulu('Z'))) else None
  {
    PlainTextIsParts(f);
    var c0 := Part(f.hour, 2, ":", Part(f.minute, 2, ":", Part(f.second, 2, "", "Z")));
    hide Part, PlainText, ScanDate, ScanClock, ValidFields;
    RawClockScans(f.hour, f.minute, f.second, "Z");
    RawDateScans(f.year, f.month, f.day, c0);
  }

  lemma PlainTextIsParts(f: Fields)
    requires f.year < 10000 && f.month < 100 && f.day < 100 && f.hour < 100 && f.minute < 100 && f.second < 100
    ensures Power(4) == 10000 && Power(2) == 100
    ensures PlainText(f) ==
            Part(f.year, 4, "-", Part(f.month, 2, "-", Part(f.day, 2, "", ['T'] + Part(f.hour, 2, ":",
                 Part(f.minute, 2, ":", Part(f.second, 2, "", "Z"))))))
  {
    Powers();
    hide Digits;
  }

  // ---------------------------------------------------------------------
  // The canonical spelling
  // ---------------------------------------------------------------------

  /** Milliseconds, an upper-case T and Z. */
  predicate Canonical(x: Spelling) {
    |x.fraction| == 3 && x.tee == 'T' && x.zone == Zulu('Z')
  }

  function CanonicalSpelling(t: Ts): (x: Spelling)
    requires InRange(t)
    ensures ValidSpelling(x) && Canonical(x)
  {
    Powers();
    Spelling(FieldsOf(t).(milli := 0), Digits(FieldsOf(t).milli, 3), 'T', Zulu('Z'))
  }

  lemma ValueOfThree(d: string)
    requires AllDigits(d) && |d| == 3
    ensures Nanos(d) == Value(d) * NANOS_PER_MILLI
  {
    TimesThousand(d);
    TimesThousand(d + Zeros(3));
    assert d + Zeros(6) == (d + Zeros(3)) + Zeros(3);
  }

  lemma ValueShift(d: string)
    requires AllDigits(d)
    ensures AllDigits(d + ['0']) && Value(d + ['0']) == Value(d) * 10
  {
    assert (d + ['0'])[..|d|] == d;
  }

  lemma TimesThousand(d: string)
    requires AllDigits(d)
    ensures Value(d + Zeros(3)) == Value(d) * 1000
  {
    hide Value, AllDigits;
    var d1 := d + ['0'];
    var d2 := d1 + ['0'];
    assert d + Zeros(3) == d2 + ['0'];
    ValueShift(d);
    ValueShift(d1);
    ValueShift(d2);
  }

  lemma CanonicalMoment(t: Ts)
    requires InRange(t)
    ensures Moment(CanonicalSpelling(t)) == t * NANOS_PER_MILLI
  {
    Powers();
    var f := FieldsOf(t);
    DigitsHaveValue(f.milli, 3);
    ValueOfThree(Digits(f.milli, 3));
  }

  lemma CanonicalIsSpelled(t: Ts)
    requires InRange(t)
    ensures Spell(CanonicalSpelling(t)) == CanonicalText(t)
  {
    Powers();
    var f, d := FieldsOf(t), Digits(FieldsOf(t).milli, 3);
    assert Part(f.second, 2, "", SpellFraction(d) + "Z") == Part(f.second, 2, ".", Part(f.milli, 3, "Z", "")) by {
      assert SpellFraction(d) + "Z" == "." + (d + ("Z" + ""));
      assert "" + (SpellFraction(d) + "Z") == SpellFraction(d) + "Z";
    }
  }

  lemma MillisAdd(f: Fields, m: nat)
    requires ValidFields(f) && f.milli == 0 && m <= 999
    ensures ValidFields(f.(milli := m)) && Instant(f.(milli := m)) == Instant(f) + m
  {
  }

  lemma FieldsBack(f: Fields)
    requires ValidFields(f)
    ensures InRange(Instant(f)) && FieldsOf(Instant(f)) == f
  {
    YearsEnd(f);
    EarlierExactly(f, FieldsOf(Instant(f)));
  }

  lemma CanonicalInstant(x: Spelling, t: Ts)
    requires ValidSpelling(x) && Canonical(x) && t == Instant(x.f) + Value(x.fraction)
    ensures Moment(x) == t * NANOS_PER_MILLI
  {
    hide Instant;
    ValueOfThree(x.fraction);
  }

  /** A canonical spelling is the canonical one of its instant. */
  lemma CanonicalIsUnique(x: Spelling, t: Ts)
    requires ValidSpelling(x) && Canonical(x) && Moment(x) == t * NANOS_PER_MILLI
    ensures InRange(t) && x == CanonicalSpelling(t)
  {
    hide Instant, Moment, InRange, FieldsOf, Value, Digits;
    Powers();
    var m := Value(x.fraction);
    CanonicalInstant(x, Instant(x.f) + m);
    assert t == Instant(x.f) + m;
    MillisAdd(x.f, m);
    FieldsBack(x.f.(milli := m));
    ValueHasDigits(x.fraction);
  }

  /** The canonical text of an instant is, of its many spellings, the one in
      canonical form: whatever was read, writing it and reading it again gives
      the instant, less what is below the millisecond. */
  lemma {:induction false} ParsingInvertsPrinting(s: string, t: Ts)
    requires InRange(t)
    ensures s == CanonicalText(t) <==>
            Parse(s) == Some(t * NANOS_PER_MILLI) && Canonical(Scan(s).value)
  {
    hide Scan, Spell, Moment, CanonicalText, CanonicalSpelling, Canonical, ValidSpelling, InRange;
    CanonicalIsSpelled(t);
    CanonicalMoment(t);
    SpelledIsScanned(CanonicalSpelling(t));
    if Parse(s) == Some(t * NANOS_PER_MILLI) && Canonical(Scan(s).value) {
      ScannedIsSpelled(s);
      CanonicalIsUnique(Scan(s).value, t);
    }
  }
}
