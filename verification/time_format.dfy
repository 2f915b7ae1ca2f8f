/**
 * The player's `m:ss` clock text (src/components/MusicPlayer.tsx,
 * `formatTime`), over whole seconds: the value after the source's floor.
 * JavaScript's integer-to-text conversion and `padStart` are written out
 * as decimal digits and left padding with '0'.
 */
module TimeFormat {
  import opened Wrappers

  predicate IsDigit(c: char) {
    '0' <= c <= '9'
  }

  predicate AllDigits(t: string) {
    forall i :: 0 <= i < |t| ==> IsDigit(t[i])
  }

  function DigitChar(d: nat): (c: char)
    requires d < 10
    ensures IsDigit(c)
  {
    (48 + d) as char
  }

  function DigitValue(c: char): (d: nat)
    requires IsDigit(c)
    ensures d < 10
  {
    (c as int) - 48
  }

  /** The value of a string of decimal digits. */
  function ParseDigits(t: string): nat
    requires AllDigits(t)
  {
    if t == [] then 0 else 10 * ParseDigits(t[..|t| - 1]) + DigitValue(t[|t| - 1])
  }

  /** A numeral as JavaScript prints it: digits with no leading zero. */
  predicate Canonical(t: string) {
    |t| >= 1 && AllDigits(t) && (t[0] == '0' ==> |t| == 1)
  }

  /**
   * The decimal numeral of n, as `toString` writes a whole number that
   * is exactly representable and below 10^21 (larger numbers print in
   * exponent form, which is not modelled).
   */
  function Decimal(n: nat): (r: string)
    ensures Canonical(r)
    ensures r[0] == '0' <==> n == 0
  {
    if n < 10 then [DigitChar(n)] else Decimal(n / 10) + [DigitChar(n % 10)]
  }

  lemma {:induction false} ParseDecimal(n: nat)
    ensures ParseDigits(Decimal(n)) == n
  {
    if n >= 10 {
      ParseDecimal(n / 10);
      var t := Decimal(n);
      assert t[..|t| - 1] == Decimal(n / 10);
    }
  }

  lemma {:induction false} LeadingDigitPositive(t: string)
    requires AllDigits(t) && |t| >= 1 && t[0] != '0'
    ensures ParseDigits(t) > 0
  {
    if |t| > 1 {
      LeadingDigitPositive(t[..|t| - 1]);
    }
  }

  lemma {:induction false} DecimalOfParse(t: string)
    requires Canonical(t)
    ensures Decimal(ParseDigits(t)) == t
  {
    if |t| > 1 {
      var front := t[..|t| - 1];
      LeadingDigitPositive(front);
      DecimalOfParse(front);
      var n := ParseDigits(t);
      assert n / 10 == ParseDigits(front) && n % 10 == DigitValue(t[|t| - 1]);
      assert DigitChar(n % 10) == t[|t| - 1];
      assert t == front + [t[|t| - 1]];
    } else {
      assert DigitChar(DigitValue(t[0])) == t[0];
    }
  }

  /** `padStart(w, '0')`: prefix '0' until the text is w long. */
  function PadStart(t: string, w: nat): (r: string)
    ensures |r| == if |t| >= w then |t| else w
    ensures r[|r| - |t|..] == t
    ensures forall i :: 0 <= i < |r| - |t| ==> r[i] == '0'
  {
    if |t| >= w then t else ['0'] + PadStart(t, w - 1)
  }

  /** Minutes text, a colon and a two-character seconds text. */
  function Join(minutes: string, seconds: string): (r: string)
    requires |seconds| == 2
    ensures |r| == |minutes| + 3 && r[|r| - 3] == ':'
    ensures r[..|r| - 3] == minutes && r[|r| - 2..] == seconds
  {
    minutes + ":" + seconds
  }

  /**
   * `r` reads as a clock: canonical minutes m, a colon, and exactly two
   * digits for the seconds sec.
   */
  predicate ReadsAs(r: string, m: nat, sec: nat) {
    && |r| >= 4 && r[|r| - 3] == ':'
    && Canonical(r[..|r| - 3]) && ParseDigits(r[..|r| - 3]) == m
    && AllDigits(r[|r| - 2..]) && ParseDigits(r[|r| - 2..]) == sec
  }

  /**
   * Minutes, a colon, and the seconds left over as exactly two digits;
   * zero (and, in the source, any falsy input) is "0:00".
   */
  function FormatTime(s: nat): (r: string)
    ensures ReadsAs(r, s / 60, s % 60)
  {
    if s == 0 then BlankClock() else Clock(s / 60, s % 60)
  }

  /** The fixed text for zero. */
  function BlankClock(): (r: string)
    ensures ReadsAs(r, 0, 0)
  {
    var r := "0:00";
    assert r[..1] == ['0'];
    assert r[2..] == ['0', '0'];
    ParseOne('0');
    ParseTwo(['0', '0']);
    r
  }

  /** Minutes as printed, a colon, and the seconds padded to two digits. */
  function Clock(m: nat, sec: nat): (r: string)
    requires sec < 60
    ensures ReadsAs(r, m, sec)
  {
    var minutes := Decimal(m);
    var seconds := PadStart(Decimal(sec), 2);
    ParseDecimal(m);
    SecondsField(sec);
    JoinReads(minutes, seconds, m, sec);
    Join(minutes, seconds)
  }

  lemma JoinReads(minutes: string, seconds: string, m: nat, sec: nat)
    requires Canonical(minutes) && ParseDigits(minutes) == m
    requires |seconds| == 2 && AllDigits(seconds) && ParseDigits(seconds) == sec
    ensures ReadsAs(Join(minutes, seconds), m, sec)
  {
  }

  lemma ParseOne(c: char)
    requires IsDigit(c)
    ensures ParseDigits([c]) == DigitValue(c)
  {
    assert [c][..0] == [];
  }

  lemma ParseTwo(a: string)
    requires |a| == 2 && AllDigits(a)
    ensures ParseDigits(a) == 10 * DigitValue(a[0]) + DigitValue(a[1])
  {
    assert a[..1] == [a[0]];
    ParseOne(a[0]);
  }

  /** The padded seconds text is two digits carrying the value. */
  lemma SecondsField(n: nat)
    requires n < 60
    ensures |PadStart(Decimal(n), 2)| == 2
    ensures AllDigits(PadStart(Decimal(n), 2))
    ensures ParseDigits(PadStart(Decimal(n), 2)) == n
  {
    var d := Decimal(n);
    var p := PadStart(d, 2);
    ParseDecimal(n);
    if n < 10 {
      assert p == ['0'] + d;
      ParseTwo(p);
      ParseOne(d[0]);
    } else {
      assert p == d;
    }
  }

  /** Reading a clock text back: 60 per minute plus the two-digit seconds. */
  function ParseTime(t: string): (r: Option<nat>)
    ensures r.Some? ==> |t| >= 4 && t[|t| - 3] == ':'
  {
    if |t| >= 4 && t[|t| - 3] == ':' && AllDigits(t[..|t| - 3]) && AllDigits(t[|t| - 2..])
       && ParseDigits(t[|t| - 2..]) < 60
    then Some(60 * ParseDigits(t[..|t| - 3]) + ParseDigits(t[|t| - 2..]))
    else None
  }

  /** A text that reads as m minutes and sec seconds parses to their total. */
  lemma ParseReading(r: string, m: nat, sec: nat)
    requires ReadsAs(r, m, sec) && sec < 60
    ensures ParseTime(r) == Some(60 * m + sec)
  {
  }

  /** Two texts with the same reading are equal. */
  lemma ReadingIsUnique(r: string, t: string, m: nat, sec: nat)
    requires ReadsAs(r, m, sec) && ReadsAs(t, m, sec)
    ensures r == t
  {
    DecimalOfParse(r[..|r| - 3]);
    DecimalOfParse(t[..|t| - 3]);
    TwoDigitsEqual(r[|r| - 2..], t[|t| - 2..]);
    assert r == r[..|r| - 3] + [':'] + r[|r| - 2..];
    assert t == t[..|t| - 3] + [':'] + t[|t| - 2..];
  }

  /** Formatting and reading back gives the seconds again. */
  lemma FormatThenParse(s: nat)
    ensures ParseTime(FormatTime(s)) == Some(s)
  {
    var r := FormatTime(s);
    assert ReadsAs(r, s / 60, s % 60);
    ReadTotal(r, s);
  }

  /** A reading of s's minutes and seconds parses back to s. */
  lemma ReadTotal(r: string, s: nat)
    requires ReadsAs(r, s / 60, s % 60)
    ensures ParseTime(r) == Some(s)
  {
    ParseReading(r, s / 60, s % 60);
  }

  /** The texts `formatTime` can produce: canonical minutes, colon, two digits below 60. */
  predicate IsClockText(t: string) {
    && |t| >= 4 && t[|t| - 3] == ':'
    && Canonical(t[..|t| - 3])
    && AllDigits(t[|t| - 2..]) && ParseDigits(t[|t| - 2..]) < 60
  }

  /** Every clock text is the formatting of the seconds it denotes. */
  lemma ParseThenFormat(t: string)
    requires IsClockText(t)
    ensures ParseTime(t).Some? && FormatTime(ParseTime(t).value) == t
  {
    var m, sec := ParseDigits(t[..|t| - 3]), ParseDigits(t[|t| - 2..]);
    ClockTextParses(t, m, sec);
    var s := ParseTime(t).value;
    SplitMinutes(m, sec);
    FormatReading(t, s, m, sec);
  }

  /** A clock text reads as its own minutes and seconds, and parses to their total. */
  lemma ClockTextParses(t: string, m: nat, sec: nat)
    requires IsClockText(t) && m == ParseDigits(t[..|t| - 3]) && sec == ParseDigits(t[|t| - 2..])
    ensures ReadsAs(t, m, sec) && sec < 60 && ParseTime(t) == Some(60 * m + sec)
  {
    ParseReading(t, m, sec);
  }

  /** The formatting of s is the one text reading as s's minutes and seconds. */
  lemma FormatReading(t: string, s: nat, m: nat, sec: nat)
    requires ReadsAs(t, m, sec) && s / 60 == m && s % 60 == sec
    ensures FormatTime(s) == t
  {
    ReadingIsUnique(FormatTime(s), t, m, sec);
  }

  /** Whole minutes and the seconds left over. */
  lemma SplitMinutes(m: nat, sec: nat)
    requires sec < 60
    ensures (60 * m + sec) / 60 == m && (60 * m + sec) % 60 == sec
  {
  }

  /** Two-digit texts with the same value are the same text. */
  lemma TwoDigitsEqual(a: string, b: string)
    requires |a| == 2 && |b| == 2 && AllDigits(a) && AllDigits(b)
    requires ParseDigits(a) == ParseDigits(b)
    ensures a == b
  {
    ParseTwo(a);
    ParseTwo(b);
  }

  lemma ZeroIsBlankClock()
    ensures FormatTime(0) == "0:00"
  {
  }
}
