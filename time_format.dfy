/** `formatTime` of the tracker: seconds shown as `HH:MM:SS`, each field a decimal
    number padded with zeros to at least two digits, the hours field unbounded. */
module TimeFormat {

  predicate IsDigit(c: char)
  {
    '0' <= c <= '9'
  }

  predicate AllDigits(s: string)
  {
    forall i :: 0 <= i < |s| ==> IsDigit(s[i])
  }

  /** The character of a decimal digit. */
  function DigitChar(d: nat): (c: char)
    requires d < 10
    ensures IsDigit(c) && c as int - '0' as int == d
  {
    ('0' as int + d) as char
  }

  /** The value of a digit string read most significant digit first. */
  function Value(s: string): nat
    requires AllDigits(s)
  {
    if s == [] then 0 else Value(s[..|s| - 1]) * 10 + (s[|s| - 1] as int - '0' as int)
  }

  /** `n.toString()` for a non-negative integer: decimal digits without leading zeros;
      a single digit exactly below ten and at most two digits exactly below a hundred. */
  function Show(n: nat): (s: string)
    ensures AllDigits(s) && |s| >= 1
    ensures |s| == 1 <==> n < 10
    ensures |s| <= 2 <==> n < 100
    ensures s[0] == '0' <==> n == 0
  {
    if n < 10 then [DigitChar(n)] else Show(n / 10) + [DigitChar(n % 10)]
  }

  /** `s.padStart(2, '0')`: zeros in front up to length two, longer strings kept. */
  function PadStart2(s: string): (r: string)
    ensures |r| == if |s| < 2 then 2 else |s|
    ensures r[|r| - |s|..] == s
    ensures forall i :: 0 <= i < |r| - |s| ==> r[i] == '0'
  {
    if |s| == 0 then "00" else if |s| == 1 then ['0'] + s else s
  }

  /** The tracker's formatter: whole hours, minutes of the hour and seconds of the
      minute, each padded to two digits and joined by colons. Split at its last two
      colons, the string gives decimals that read back to the number of seconds, with
      minutes and seconds below sixty; the hours field has two characters exactly below
      a hundred hours and beyond that grows without bound and without a leading zero. */
  function FormatTime(seconds: nat): (r: string)
    ensures var n := |r|;
      n >= 8 && r[n - 3] == ':' && r[n - 6] == ':'
      && AllDigits(r[..n - 6]) && AllDigits(r[n - 5..n - 3]) && AllDigits(r[n - 2..])
      && Value(r[..n - 6]) * 3600 + Value(r[n - 5..n - 3]) * 60 + Value(r[n - 2..]) == seconds
      && Value(r[n - 5..n - 3]) < 60 && Value(r[n - 2..]) < 60
      && (n == 8 <==> seconds < 360000)
      && (n > 8 ==> r[0] != '0')
  {
    var hrs, mins, secs := seconds / 3600, (seconds % 3600) / 60, seconds % 60;
    ClockFields(seconds);
    PaddedValue(hrs);
    PaddedValue(mins);
    PaddedValue(secs);
    var h, m, s := PadStart2(Show(hrs)), PadStart2(Show(mins)), PadStart2(Show(secs));
    ColonLayout(h, m, s);
    h + ":" + m + ":" + s
  }

  /** Reading a decimal back recovers the number shown. */
  lemma {:induction false} ValueShow(n: nat)
    ensures Value(Show(n)) == n
  {
    if n >= 10 {
      ValueShow(n / 10);
      var s := Show(n);
      assert s[..|s| - 1] == Show(n / 10);
    }
  }

  /** A leading zero does not change the value of a digit string. */
  lemma {:induction false} ValueLeadingZero(s: string)
    requires AllDigits(s)
    ensures AllDigits(['0'] + s) && Value(['0'] + s) == Value(s)
  {
    if s != [] {
      ValueLeadingZero(s[..|s| - 1]);
      assert (['0'] + s)[..|s|] == ['0'] + s[..|s| - 1];
    }
  }

  /** Padding keeps the value: a padded decimal reads back as the number shown. */
  lemma PaddedValue(n: nat)
    ensures AllDigits(PadStart2(Show(n))) && Value(PadStart2(Show(n))) == n
  {
    ValueShow(n);
    if n < 10 {
      ValueLeadingZero(Show(n));
    }
  }

  /** The clock fields: whole hours, minutes of the hour, seconds of the minute, which
      recombine to the number of seconds. */
  lemma ClockFields(seconds: nat)
    ensures var hrs, mins, secs := seconds / 3600, (seconds % 3600) / 60, seconds % 60;
      hrs * 3600 + mins * 60 + secs == seconds && mins < 60 && secs < 60
      && (hrs < 100 <==> seconds < 360000)
  {
    var hrs, rest := seconds / 3600, seconds % 3600;
    assert seconds == hrs * 3600 + rest;
    assert rest == (rest / 60) * 60 + rest % 60;
    assert rest % 60 == seconds % 60 by {
      assert seconds == (hrs * 60) * 60 + rest;
    }
  }

  /** Where the fields sit in `h:m:s` when the last two fields have two characters. */
  lemma ColonLayout(h: string, m: string, s: string)
    requires |m| == 2 && |s| == 2
    ensures var r := h + ":" + m + ":" + s;
      var n := |r|;
      n == |h| + 6 && r[n - 3] == ':' && r[n - 6] == ':'
      && r[..n - 6] == h && r[n - 5..n - 3] == m && r[n - 2..] == s
  {
  }
}
