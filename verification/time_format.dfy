/** The frontend's `formatTime`: a second count shown as minutes and seconds,
    each written in decimal and left-padded with '0' to two characters,
    separated by ':'. `ParseTime` reads such a text back. */
module TimeFormat {

  datatype Option<T> = None | Some(value: T)

  predicate IsDigit(c: char) {
    '0' <= c <= '9'
  }

  predicate IsDigits(s: string) {
    forall i :: 0 <= i < |s| ==> IsDigit(s[i])
  }

  function DigitChar(d: nat): (c: char)
    requires d < 10
    ensures IsDigit(c)
  {
    ('0' as int + d) as char
  }

  function DigitValue(c: char): (d: nat)
    requires IsDigit(c)
    ensures d < 10
    ensures DigitChar(d) == c
  {
    c as int - '0' as int
  }

  /** Decimal text of a number, as JavaScript's `toString` writes a
      non-negative integer: no sign and no leading zero. */
  function NatToString(n: nat): (r: string)
    ensures |r| >= 1 && IsDigits(r)
    ensures r[0] == '0' ==> n == 0
    ensures n < 10 <==> |r| == 1
    ensures n < 100 <==> |r| <= 2
    decreases n
  {
    if n < 10 then [DigitChar(n)] else NatToString(n / 10) + [DigitChar(n % 10)]
  }

  /** The number a digit string denotes; leading zeros count for nothing. */
  function ParseDigits(s: string): nat
    requires IsDigits(s)
    decreases |s|
  {
    if s == [] then 0 else ParseDigits(s[..|s| - 1]) * 10 + DigitValue(s[|s| - 1])
  }

  /** JavaScript's `padStart(width, fill)` with a one-character fill: `s`
      itself when it is long enough, otherwise `s` preceded by as many fill
      characters as make it `width` long. */
  function PadStart(s: string, width: nat, fill: char): (r: string)
    ensures |r| == if |s| >= width then |s| else width
  {
    if |s| >= width then s else seq(width - |s|, _ => fill) + s
  }

  /** What padding leaves: the original text at the end, fill before it. */
  lemma PadStartShape(s: string, width: nat, fill: char)
    ensures PadStart(s, width, fill)[|PadStart(s, width, fill)| - |s|..] == s
    ensures forall i :: 0 <= i < |PadStart(s, width, fill)| - |s| ==> PadStart(s, width, fill)[i] == fill
  {
  }

  /** One field of the display: a number padded to two digits. */
  function Field(n: nat): (r: string)
    ensures IsDigits(r) && |r| >= 2
    ensures n < 100 <==> |r| == 2
  {
    var r := PadStart(NatToString(n), 2, '0');
    PadStartShape(NatToString(n), 2, '0');
    assert forall i :: 0 <= i < |r| ==> IsDigit(r[i]) by {
      forall i | 0 <= i < |r| ensures IsDigit(r[i]) {
        if i >= |r| - |NatToString(n)| {
          assert r[i] == r[|r| - |NatToString(n)|..][i - (|r| - |NatToString(n)|)];
        }
      }
    }
    r
  }

  /** Whole minutes stay below 100 exactly while the count is below 6000. */
  lemma MinutesBelowHundred(seconds: nat)
    ensures seconds / 60 < 100 <==> seconds < 6000
  {
    var q := seconds / 60;
    assert seconds == q * 60 + seconds % 60;
  }

  /** The two fields joined by ':'. */
  function Clock(mm: string, ss: string): (r: string)
    requires |mm| >= 2 && |ss| == 2 && IsDigits(mm) && IsDigits(ss)
    ensures |r| == |mm| + 3 && r[|r| - 3] == ':'
    ensures r[..|r| - 3] == mm && r[|r| - 2..] == ss
  {
    mm + ":" + ss
  }

  /** `formatTime`: whole minutes, then the seconds left over, as `MM:SS`;
      minutes widen past two digits from 100 minutes on. */
  function FormatTime(seconds: nat): (r: string)
    ensures |r| >= 5 && r[|r| - 3] == ':'
    ensures IsDigits(r[..|r| - 3]) && IsDigits(r[|r| - 2..])
    ensures seconds < 6000 <==> |r| == 5
    ensures seconds < 6000 ==> r[2] == ':'
  {
    var mins := seconds / 60;
    var secs := seconds % 60;
    MinutesBelowHundred(seconds);
    Clock(Field(mins), Field(secs))
  }

  /** Reads `MM:SS` back into a second count: the last three characters are
      ':' and two digits making less than 60, and everything before them is
      a minutes field of at least two digits. Anything else is not a
      displayed time. */
  function ParseTime(t: string): (r: Option<nat>)
    ensures r.Some? ==> |t| >= 5 && t[|t| - 3] == ':'
  {
    if |t| < 5 || t[|t| - 3] != ':' then None
    else
      var mm := t[..|t| - 3];
      var ss := t[|t| - 2..];
      if IsDigits(mm) && IsDigits(ss) && ParseDigits(ss) < 60
      then Some(ParseDigits(mm) * 60 + ParseDigits(ss))
      else None
  }

  /** Reading back the decimal text of a number gives the number. */
  lemma {:induction false} ParseNatToString(n: nat)
    ensures ParseDigits(NatToString(n)) == n
    decreases n
  {
    var s := NatToString(n);
    if n < 10 {
      assert s[..0] == [];
    } else {
      ParseNatToString(n / 10);
      assert s[..|s| - 1] == NatToString(n / 10);
    }
  }

  /** A leading zero does not change the number a digit string denotes. */
  lemma {:induction false} ParseLeadingZero(s: string)
    requires IsDigits(s)
    ensures IsDigits("0" + s) && ParseDigits("0" + s) == ParseDigits(s)
    decreases |s|
  {
    var z := "0" + s;
    if s == [] {
      assert z[..0] == [];
    } else {
      assert z[..|z| - 1] == "0" + s[..|s| - 1];
      ParseLeadingZero(s[..|s| - 1]);
    }
  }

  /** Padding with zeros keeps the number. */
  lemma {:induction false} ParseZeroPadded(s: string, width: nat)
    requires IsDigits(s)
    ensures IsDigits(PadStart(s, width, '0'))
    ensures ParseDigits(PadStart(s, width, '0')) == ParseDigits(s)
    decreases width
  {
    if |s| < width {
      var p := PadStart(s, width, '0');
      assert p == "0" + PadStart(s, width - 1, '0');
      ParseZeroPadded(s, width - 1);
      ParseLeadingZero(PadStart(s, width - 1, '0'));
    }
  }

  /** A field reads back as its number. */
  lemma ParseField(n: nat)
    ensures ParseDigits(Field(n)) == n
  {
    ParseNatToString(n);
    ParseZeroPadded(NatToString(n), 2);
  }

  /** A clock text reads back as its minutes times 60 plus its seconds. */
  lemma ParseClock(mm: string, ss: string)
    requires |mm| >= 2 && |ss| == 2 && IsDigits(mm) && IsDigits(ss)
    requires ParseDigits(ss) < 60
    ensures ParseTime(Clock(mm, ss)) == Some(ParseDigits(mm) * 60 + ParseDigits(ss))
  {
  }

  /** The clock text of any minutes and seconds below 60 reads back as the
      second count they make. */
  lemma ParseFields(mins: nat, secs: nat)
    requires secs < 60
    ensures ParseTime(Clock(Field(mins), Field(secs))) == Some(mins * 60 + secs)
  {
    var mm := Field(mins);
    var ss := Field(secs);
    assert ParseDigits(mm) == mins by { ParseField(mins); }
    assert ParseDigits(ss) == secs by { ParseField(secs); }
    ParseClock(mm, ss);
  }

  /** Round trip: the displayed text reads back as the second count it was
      made from, minutes times 60 plus the leftover seconds. */
  lemma FormatTimeRoundTrip(seconds: nat)
    ensures ParseTime(FormatTime(seconds)) == Some(seconds)
  {
    var mins, secs := seconds / 60, seconds % 60;
    ParseFields(mins, secs);
  }

  /** A digit string with a nonzero first digit denotes a positive number. */
  lemma {:induction false} ParsePositive(d: string)
    requires IsDigits(d) && |d| >= 1 && d[0] != '0'
    ensures ParseDigits(d) > 0
    decreases |d|
  {
    if |d| > 1 {
      ParsePositive(d[..|d| - 1]);
    }
  }

  /** Dividing out the last decimal digit. */
  lemma DivModTen(p: nat, v: nat)
    requires v < 10
    ensures (p * 10 + v) / 10 == p && (p * 10 + v) % 10 == v
  {
  }

  /** A digit string without a leading zero is the decimal text of the
      number it denotes. */
  lemma {:induction false} NatToStringParse(d: string)
    requires IsDigits(d) && |d| >= 1
    requires |d| == 1 || d[0] != '0'
    ensures NatToString(ParseDigits(d)) == d
    decreases |d|
  {
    var v := DigitValue(d[|d| - 1]);
    if |d| == 1 {
      assert d[..0] == [];
      assert d == [DigitChar(v)];
    } else {
      var p := d[..|d| - 1];
      ParsePositive(p);
      NatToStringParse(p);
      DivModTen(ParseDigits(p), v);
      assert d == p + [DigitChar(v)];
    }
  }

  /** A field text reads as a number whose field is that text. */
  lemma FieldParse(d: string)
    requires IsDigits(d) && |d| >= 2
    requires |d| == 2 || d[0] != '0'
    ensures Field(ParseDigits(d)) == d
  {
    if d[0] == '0' {
      assert d[..1] == "0" && d[..1][..0] == [];
      assert ParseDigits(d[..1]) == 0;
      assert ParseDigits(d) == ParseDigits(d[..1]) * 10 + DigitValue(d[1]);
      FieldTwoDigits(ParseDigits(d));
    } else {
      NatToStringParse(d);
    }
  }

  /** Dividing out minutes and seconds. */
  lemma DivModSixty(mins: nat, secs: nat)
    requires secs < 60
    ensures (mins * 60 + secs) / 60 == mins && (mins * 60 + secs) % 60 == secs
  {
  }

  /** The converse of the round trip: every text that reads as a time and
      has no superfluous leading zero in its minutes is what `formatTime`
      displays for that time. */
  lemma ParseTimeRoundTrip(t: string)
    requires ParseTime(t).Some?
    requires |t| == 5 || t[0] != '0'
    ensures FormatTime(ParseTime(t).value) == t
  {
    var mm, ss := t[..|t| - 3], t[|t| - 2..];
    assert t == mm + ":" + ss;
    FieldParse(mm);
    FieldParse(ss);
    DivModSixty(ParseDigits(mm), ParseDigits(ss));
  }

  /** Different second counts are displayed differently. */
  lemma FormatTimeInjective(a: nat, b: nat)
    ensures FormatTime(a) == FormatTime(b) <==> a == b
  {
    FormatTimeRoundTrip(a);
    FormatTimeRoundTrip(b);
  }

  /** A number below 100 fills its field with its tens digit and its units
      digit, the tens being '0' below 10. */
  lemma FieldTwoDigits(n: nat)
    requires n < 100
    ensures Field(n) == [DigitChar(n / 10), DigitChar(n % 10)]
  {
    if n < 10 {
      assert NatToString(n) == [DigitChar(n)];
      assert Field(n) == ['0'] + [DigitChar(n)];
    } else {
      assert NatToString(n / 10) == [DigitChar(n / 10)];
    }
  }

  /** Below 100 minutes the display is exactly five characters: two minute
      digits, ':' and two second digits. */
  lemma FormatTimeFiveChars(seconds: nat)
    requires seconds < 6000
    ensures var mins, secs := seconds / 60, seconds % 60;
      FormatTime(seconds) ==
        [DigitChar(mins / 10), DigitChar(mins % 10), ':', DigitChar(secs / 10), DigitChar(secs % 10)]
  {
    MinutesBelowHundred(seconds);
    FieldTwoDigits(seconds / 60);
    FieldTwoDigits(seconds % 60);
  }

  /** The two examples: a full work session and zero. */
  lemma FormatTimeExamples()
    ensures FormatTime(1500) == "25:00"
    ensures FormatTime(0) == "00:00"
  {
    FormatTimeFiveChars(1500);
    FormatTimeFiveChars(0);
  }
}
