/**
 What each form of a timestamp reads as, told on its characters: the plain form in UTC, a fraction,
 an offset, a final newline; and that nothing else reads.
 */
module CalendarText {
  import opened Text
  import opened Calendar

  predicate Digits(s: string, n: nat) {
    |s| == n && AllDigits(s)
  }

  // ---- the plain form

  function Plain(year: string, month: string, day: string, hour: string, minute: string, second: string): string {
    year + "-" + month + "-" + day + "T" + hour + ":" + minute + ":" + second
  }

  lemma PlainParts(year: string, month: string, day: string, hour: string, minute: string, second: string, rest: string)
    requires |year| == 4 && |month| == |day| == |hour| == |minute| == |second| == 2
    ensures var text := Plain(year, month, day, hour, minute, second) + rest;
      && |text| == 19 + |rest| && text[19..] == rest
      && text[0..4] == year && text[5..7] == month && text[8..10] == day
      && text[11..13] == hour && text[14..16] == minute && text[17..19] == second
      && text[4] == '-' && text[7] == '-' && text[10] == 'T' && text[13] == ':' && text[16] == ':'
  {
    var text := Plain(year, month, day, hour, minute, second) + rest;
    assert text[..19] == Plain(year, month, day, hour, minute, second);
  }

  /** The plain form in UTC reads exactly when it names a day and a time of day, and then as the
      seconds since the epoch, days counted one by one. */
  lemma ZuluReads(year: string, month: string, day: string, hour: string, minute: string, second: string)
    requires Digits(year, 4) && Digits(month, 2) && Digits(day, 2)
    requires Digits(hour, 2) && Digits(minute, 2) && Digits(second, 2)
    ensures var date := Date(Value(year), Value(month), Value(day));
      var read := EpochOf(Plain(year, month, day, hour, minute, second) + "Z");
      && (read.Some? <==> ValidDate(date) && Value(hour) <= 23 && Value(minute) <= 59 && Value(second) <= 60)
      && (read.Some? ==>
            exists n :: DateAt(n) == date
                        && read.value == (n * 86400 + Value(hour) * 3600 + Value(minute) * 60 + Value(second)) as real)
  {
    hide DaysFromCivil, DateAt, Value, Plain, DaysInMonth;
    var text := Plain(year, month, day, hour, minute, second) + "Z";
    PlainParts(year, month, day, hour, minute, second, "Z");
    ZeroOffset();
    hide OffsetOf;
    assert StampOf(text) ==
            Some(Stamp(Date(Value(year), Value(month), Value(day)), Value(hour), Value(minute), Value(second), 0.0, 0));
    hide StampOf;
    if EpochOf(text).Some? {
      var date := Date(Value(year), Value(month), Value(day));
      DaysFromCivilCounts(date);
      assert DateAt(DaysFromCivil(date)) == date;
    }
  }

  // ---- offsets

  predicate IsZone(zone: string) {
    zone == "Z" || (|zone| == 6 && (zone[0] == '+' || zone[0] == '-') && zone[3] == ':'
                    && AllDigits(zone[1..3]) && AllDigits(zone[4..6]))
  }

  /** The seconds a zone is ahead of UTC. */
  function Ahead(zone: string): int
    requires IsZone(zone)
  {
    if zone == "Z" then 0
    else
      var seconds := (Value(zone[1..3]) * 60 + Value(zone[4..6])) * 60;
      if zone[0] == '+' then seconds else -seconds
  }

  lemma OffsetExactly(rest: string)
    ensures OffsetOf(rest).Some? <==>
              IsZone(rest) || (rest != "" && rest[|rest| - 1] == '\n' && IsZone(rest[..|rest| - 1]))
    ensures IsZone(rest) ==> OffsetOf(rest) == Some(Ahead(rest))
    ensures rest != "" && rest[|rest| - 1] == '\n' && IsZone(rest[..|rest| - 1]) ==>
              OffsetOf(rest) == Some(Ahead(rest[..|rest| - 1]))
  {
    hide Value, AllDigits;
    if |rest| == 7 {
      var zone := rest[..6];
      assert zone[1..3] == rest[1..3] && zone[4..6] == rest[4..6];
    }
    if |rest| == 2 { assert rest[..1] == [rest[0]] && rest == [rest[0]] + [rest[1]]; }
  }

  // ---- fractions

  predicate IsFraction(fraction: string) {
    fraction == "" || (|fraction| > 1 && fraction[0] == '.' && AllDigits(fraction[1..]))
  }

  /** The part of a second: the digits over ten to their number. */
  function PartOf(fraction: string): real
    requires IsFraction(fraction)
  {
    if fraction == "" then 0.0
    else
      assert Pow10(|fraction| - 1) > 0 by { PowPositive(|fraction| - 1); }
      Value(fraction[1..]) as real / Pow10(|fraction| - 1) as real
  }

  lemma FractionExactly(digits: string)
    requires AllDigits(digits) && digits != ""
    ensures IsFraction("." + digits) && FractionOf(digits) == PartOf("." + digits)
  {
    assert ("." + digits)[1..] == digits;
    PowerOfTenth(|digits|);
    PowPositive(|digits|);
    hide Value, Tenth, Pow10, AllDigits;
    Quotient(Value(digits), Pow10(|digits|), Tenth(|digits|));
  }

  lemma Quotient(v: nat, p: nat, t: real)
    requires p > 0 && p as real * t == 1.0
    ensures Scaled(v, t) == v as real / p as real
  {
    assert t == 1.0 / p as real;
  }

  // ---- every form

  predicate IsEnd(end: string) {
    end == "" || end == "\n"
  }

  lemma TailParts(core: string, fraction: string, rest: string)
    requires |core| == 19 && IsFraction(fraction) && rest != "" && !IsDigit(rest[0]) && rest[0] != '.'
    ensures var text := core + fraction + rest;
      && core <= text && |text| >= 20
      && (fraction == "" ==> text[19] != '.' && text[19..] == rest)
      && (fraction != "" ==> text[19] == '.' && DigitRun(text, 20) == |fraction| - 1
                             && text[20..20 + (|fraction| - 1)] == fraction[1..]
                             && text[20 + (|fraction| - 1)..] == rest)
  {
    hide IsDigit;
    var text := core + fraction + rest;
    if fraction == "" {
      assert text == core + rest;
    } else {
      var n := |fraction| - 1;
      assert text[19] == fraction[0] && text[20..20 + n] == fraction[1..] && text[20 + n..] == rest;
      assert text[20 + n] == rest[0];
      DigitRunExact(text, 20, n);
    }
  }

  lemma StampParts(core: string, fraction: string, rest: string)
    requires |core| == 19 && IsFraction(fraction) && rest != "" && !IsDigit(rest[0]) && rest[0] != '.'
    ensures StampOf(core + fraction + rest) ==
            match (StampOf(core + "Z"), OffsetOf(rest))
            case (Some(s), Some(offset)) => Some(s.(fraction := PartOf(fraction), offset := offset))
            case _ => None
  {
    hide OffsetOf, DigitRun, FractionOf, Number, PartOf;
    var a, b := core + fraction + rest, core + "Z";
    TailParts(core, fraction, rest);
    TailParts(core, "", "Z");
    assert core + "" + "Z" == b;
    SameFields(core, a, b);
    ZeroOffset();
    if fraction != "" {
      FractionExactly(fraction[1..]);
      assert "." + fraction[1..] == fraction;
    } else {
      assert PartOf(fraction) == 0.0 by { NoPart(); }
    }
  }

  lemma NoPart()
    ensures IsFraction("") && PartOf("") == 0.0
  {
  }

  lemma ZoneIsNoDigit(zone: string)
    requires IsZone(zone)
    ensures zone != "" && !IsDigit(zone[0]) && zone[0] != '.'
  {
  }

  /** A fraction adds its part of a second, a zone takes off how far it is ahead, and a newline at
      the end changes nothing; whether the text reads is decided by the plain form alone. */
  lemma ReadsExactly(core: string, fraction: string, zone: string, end: string)
    requires |core| == 19 && IsFraction(fraction) && IsZone(zone) && IsEnd(end)
    ensures EpochOf(core + fraction + zone + end) ==
            match EpochOf(core + "Z")
            case None => None
            case Some(v) => Some(v + PartOf(fraction) - Ahead(zone) as real)
  {
    hide StampOf, PartOf, EpochOf;
    var rest := zone + end;
    assert core + fraction + zone + end == core + fraction + rest;
    ZoneIsNoDigit(zone);
    OffsetExactly(zone);
    OffsetExactly(rest);
    if end == "" { assert rest == zone; } else { assert rest[..|rest| - 1] == zone; }
    ReadsRest(core, fraction, rest, Ahead(zone));
  }

  lemma ReadsRest(core: string, fraction: string, rest: string, ahead: int)
    requires |core| == 19 && IsFraction(fraction) && rest != "" && !IsDigit(rest[0]) && rest[0] != '.'
    requires OffsetOf(rest) == Some(ahead)
    ensures EpochOf(core + fraction + rest) ==
            match EpochOf(core + "Z") case None => None case Some(v) => Some(v + PartOf(fraction) - ahead as real)
  {
    hide OffsetOf, StampOf, PartOf, DaysInMonth, EpochSeconds;
    StampParts(core, fraction, rest);
    StampParts(core, "", "Z");
    assert core + "" + "Z" == core + "Z";
    ZeroOffset();
    NoPart();
    if StampOf(core + "Z").Some? { SecondsShift(StampOf(core + "Z").value, PartOf(fraction), ahead); }
  }

  lemma SecondsShift(s: Stamp, part: real, ahead: int)
    requires s.fraction == 0.0 && s.offset == 0
    ensures EpochSeconds(s.(fraction := part, offset := ahead)) == EpochSeconds(s) + part - ahead as real
  {
    hide DaysFromCivil;
  }

  /** Nothing else reads. */
  ghost predicate IsTimestamp(text: string) {
    exists year, month, day, hour, minute, second, fraction, zone, end ::
      Spelled(text, year, month, day, hour, minute, second, fraction, zone, end)
  }

  predicate Spelled(text: string, year: string, month: string, day: string, hour: string, minute: string,
                    second: string, fraction: string, zone: string, end: string)
  {
    && Digits(year, 4) && Digits(month, 2) && Digits(day, 2) && Digits(hour, 2) && Digits(minute, 2)
    && Digits(second, 2)
    && IsFraction(fraction) && IsZone(zone) && IsEnd(end)
    && text == Plain(year, month, day, hour, minute, second) + fraction + zone + end
  }

  lemma OnlyTimestampsRead(text: string)
    requires EpochOf(text).Some?
    ensures IsTimestamp(text)
  {
    assert StampOf(text).Some?;
    hide EpochOf;
    StampSplits(text);
    var tail := if text[19] == '.' then 20 + DigitRun(text, 20) else 19;
    var fraction, rest := text[19..tail], text[tail..];
    var zone, end := ZoneAndEnd(rest);
    hide *;
    PlainSpells(text);
    Reglue(text, tail, zone, end);
    Spells(text, text[0..4], text[5..7], text[8..10], text[11..13], text[14..16], text[17..19], fraction, zone, end);
  }

  lemma ZoneAndEnd(rest: string) returns (zone: string, end: string)
    requires OffsetOf(rest).Some?
    ensures rest == zone + end && IsZone(zone) && IsEnd(end)
  {
    OffsetExactly(rest);
    if IsZone(rest) { zone, end := rest, ""; } else { zone, end := rest[..|rest| - 1], "\n"; }
  }

  lemma Spells(text: string, year: string, month: string, day: string, hour: string, minute: string,
               second: string, fraction: string, zone: string, end: string)
    requires Digits(year, 4) && Digits(month, 2) && Digits(day, 2)
    requires Digits(hour, 2) && Digits(minute, 2) && Digits(second, 2)
    requires IsFraction(fraction) && IsZone(zone) && IsEnd(end)
    requires text == Plain(year, month, day, hour, minute, second) + fraction + zone + end
    ensures IsTimestamp(text)
  {
    hide IsFraction, IsZone, IsEnd, AllDigits, Plain;
    assert Spelled(text, year, month, day, hour, minute, second, fraction, zone, end);
  }

  lemma Reglue(text: string, tail: nat, zone: string, end: string)
    requires 19 <= tail <= |text| && text[tail..] == zone + end
    ensures text == text[..19] + text[19..tail] + zone + end
  {
  }

  lemma StampSplits(text: string)
    requires StampOf(text).Some?
    ensures |text| >= 20 && text[4] == '-' && text[7] == '-' && text[10] == 'T' && text[13] == ':' && text[16] == ':'
    ensures Digits(text[0..4], 4) && Digits(text[5..7], 2) && Digits(text[8..10], 2)
            && Digits(text[11..13], 2) && Digits(text[14..16], 2) && Digits(text[17..19], 2)
    ensures var tail := if text[19] == '.' then 20 + DigitRun(text, 20) else 19;
      tail <= |text| && IsFraction(text[19..tail]) && OffsetOf(text[tail..]).Some?
  {
    hide Value, OffsetOf, AllDigits, FractionOf;
    if text[19] == '.' {
      var tail := 20 + DigitRun(text, 20);
      assert text[19..tail][1..] == text[20..tail];
    }
  }

  lemma PlainSpells(text: string)
    requires |text| >= 19 && text[4] == '-' && text[7] == '-' && text[10] == 'T' && text[13] == ':' && text[16] == ':'
    ensures text[..19] == Plain(text[0..4], text[5..7], text[8..10], text[11..13], text[14..16], text[17..19])
  {
  }

  /** An offset as written. */
  function Offset(sign: string, hh: string, mm: string): string {
    sign + hh + ":" + mm
  }

  /** For every text in front, `+hh:mm` reads that many minutes earlier than `Z`, `-hh:mm` as many
      later, and the three are read or refused together. */
  lemma OffsetShifts(core: string, hh: string, mm: string)
    requires |hh| == |mm| == 2 && AllDigits(hh) && AllDigits(mm)
    ensures var seconds := (Value(hh) * 60 + Value(mm)) * 60;
      match EpochOf(core + "Z")
      case None => EpochOf(core + Offset("+", hh, mm)).None? && EpochOf(core + Offset("-", hh, mm)).None?
      case Some(v) =>
        && EpochOf(core + Offset("+", hh, mm)) == Some(v - seconds as real)
        && EpochOf(core + Offset("-", hh, mm)) == Some(v + seconds as real)
  {
    hide *;
    SignShifts(core, "+", hh, mm);
    SignShifts(core, "-", hh, mm);
  }

  lemma SignShifts(core: string, sign: string, hh: string, mm: string)
    requires |hh| == |mm| == 2 && AllDigits(hh) && AllDigits(mm) && (sign == "+" || sign == "-")
    ensures var seconds := (Value(hh) * 60 + Value(mm)) * 60;
      EpochOf(core + Offset(sign, hh, mm)) ==
      match EpochOf(core + "Z")
      case None => None
      case Some(v) => Some(if sign == "+" then v - seconds as real else v + seconds as real)
  {
    hide *;
    ZoneParts(sign, hh, mm);
    ZoneShifts(core, Offset(sign, hh, mm));
  }

  lemma ZoneShifts(core: string, zone: string)
    requires IsZone(zone)
    ensures EpochOf(core + zone) ==
            match EpochOf(core + "Z") case None => None case Some(v) => Some(v - Ahead(zone) as real)
  {
    hide EpochOf, Ahead, AllDigits;
    if EpochOf(core + "Z").Some? || EpochOf(core + zone).Some? {
      SuffixReads(core, if EpochOf(core + zone).Some? then zone else "Z");
      var c, fraction :| core == c + fraction && |c| == 19 && IsFraction(fraction);
      ReadsExactly(c, fraction, "Z", "");
      ReadsExactly(c, fraction, zone, "");
      assert core + "Z" == c + fraction + "Z" + "" && core + zone == c + fraction + zone + "";
      UtcIsNotAhead();
    }
  }

  lemma UtcIsNotAhead()
    ensures Ahead("Z") == 0
  {
  }

  lemma ZoneParts(sign: string, hh: string, mm: string)
    requires (sign == "+" || sign == "-") && |hh| == |mm| == 2 && AllDigits(hh) && AllDigits(mm)
    ensures IsZone(Offset(sign, hh, mm))
    ensures var seconds := (Value(hh) * 60 + Value(mm)) * 60;
      Ahead(Offset(sign, hh, mm)) == if sign == "+" then seconds else -seconds
  {
    hide Value, AllDigits;
    var zone := Offset(sign, hh, mm);
    assert zone[1..3] == hh && zone[4..6] == mm;
  }

  /** If a text followed by a zone reads, the text is a plain form with or without a fraction. */
  lemma SuffixReads(core: string, zone: string)
    requires IsZone(zone) && EpochOf(core + zone).Some?
    ensures exists c, fraction :: core == c + fraction && |c| == 19 && IsFraction(fraction)
  {
    var text := core + zone;
    OnlyTimestampsRead(text);
    var year, month, day, hour, minute, second, fraction, found, end :|
      Spelled(text, year, month, day, hour, minute, second, fraction, found, end);
    var c := Plain(year, month, day, hour, minute, second);
    assert |c| == 19 && text == c + fraction + found + end;
    hide Plain, EpochOf;
    SameZone(core, zone, c + fraction, found, end);
  }

  /** A zone at the end of a text can be read off it in one way. */
  lemma SameZone(a: string, zone: string, b: string, found: string, end: string)
    requires IsZone(zone) && IsZone(found) && IsEnd(end) && a + zone == b + found + end
    ensures a == b && zone == found && end == ""
  {
    var text := a + zone;
    ZoneEnds(zone);
    ZoneEnds(found);
    assert text[|text| - 1] == zone[|zone| - 1];
    var last := (b + found + end)[|text| - 1];
    assert last == if end == "" then found[|found| - 1] else '\n';
    assert text == b + found;
    assert |zone| == |found|;
    assert a == text[..|text| - |zone|] == b && zone == text[|text| - |zone|..] == found;
  }

  lemma ZoneEnds(zone: string)
    requires IsZone(zone)
    ensures zone != "" && zone[|zone| - 1] != '\n' && (zone[|zone| - 1] == 'Z' <==> |zone| == 1)
    ensures |zone| == 1 || |zone| == 6
  {
    if |zone| == 6 { assert zone[4..6][1] == zone[5] && IsDigit(zone[5]); }
  }
}
