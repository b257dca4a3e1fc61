/**
  The timestamp parser of the transcript converter: `"HH:MM:SS,mmm"` to
  seconds, the way the converter does it with `split(',')`, `split(':')` and
  `Number`.
 */
module Timestamp {
  import opened JsText

  /** `s.split(sep)` for a one-character separator: the pieces between the
      separators, in order; the empty string gives one empty piece. */
  function SplitOn(s: string, sep: char): (r: seq<string>)
    ensures |r| >= 1
    ensures |r| >= 2 ==> sep in s
    ensures forall k :: 0 <= k < |r| ==> sep !in r[k]
  {
    if s == [] then [[]]
    else
      var rest := SplitOn(s[1..], sep);
      if s[0] == sep then [[]] + rest
      else [[s[0]] + rest[0]] + rest[1..]
  }

  /** `pieces.join(sep)`. */
  function JoinOn(pieces: seq<string>, sep: char): string
    requires |pieces| >= 1
  {
    if |pieces| == 1 then pieces[0]
    else pieces[0] + [sep] + JoinOn(pieces[1..], sep)
  }

  /** Splitting loses nothing: joining the pieces again gives back the string. */
  lemma {:induction false} JoinSplitOn(s: string, sep: char)
    ensures JoinOn(SplitOn(s, sep), sep) == s
  {
    if s != [] {
      JoinSplitOn(s[1..], sep);
      var rest := SplitOn(s[1..], sep);
      if s[0] == sep {
        assert SplitOn(s, sep) == [[]] + rest;
        assert ([[]] + rest)[1..] == rest;
      } else {
        var parts := [[s[0]] + rest[0]] + rest[1..];
        assert SplitOn(s, sep) == parts;
        if |rest| > 1 {
          assert parts[1..] == rest[1..];
          assert JoinOn(parts, sep) == [s[0]] + rest[0] + [sep] + JoinOn(rest[1..], sep);
        }
      }
    }
  }

  /** A separator-free prefix becomes the first piece. */
  lemma {:induction false} SplitOnFirst(a: string, sep: char, b: string)
    requires sep !in a
    ensures SplitOn(a + [sep] + b, sep) == [a] + SplitOn(b, sep)
  {
    if a == [] {
      assert a + [sep] + b == [sep] + b;
      assert ([sep] + b)[1..] == b;
    } else {
      assert (a + [sep] + b)[1..] == a[1..] + [sep] + b;
      SplitOnFirst(a[1..], sep, b);
      assert a == [a[0]] + a[1..];
    }
  }

  lemma {:induction false} SplitOnNone(a: string, sep: char)
    requires sep !in a
    ensures SplitOn(a, sep) == [a]
  {
    if a != [] {
      SplitOnNone(a[1..], sep);
      assert a == [a[0]] + a[1..];
    }
  }

  predicate AllDigits(s: string) {
    forall k :: 0 <= k < |s| ==> IsDigit(s[k])
  }

  /** `Number(s)` on a string of decimal digits (the empty string gives 0). */
  function NumeralValue(s: string): (r: nat)
    requires AllDigits(s)
    ensures r == 0 <==> forall k :: 0 <= k < |s| ==> s[k] == '0'
  {
    if s == [] then 0
    else NumeralValue(s[..|s| - 1]) * 10 + (s[|s| - 1] as int - '0' as int)
  }

  /** The pieces the parser reads: hours, minutes and seconds before the first
      comma, milliseconds after it. Further pieces are ignored, as the
      destructuring assignments in the converter ignore them. */
  predicate WellFormedTimestamp(ts: string)
    ensures WellFormedTimestamp(ts) ==> ',' in ts
  {
    var parts := SplitOn(ts, ',');
    var fields := SplitOn(parts[0], ':');
    && |parts| >= 2 && |fields| >= 3
    && AllDigits(fields[0]) && AllDigits(fields[1]) && AllDigits(fields[2])
    && AllDigits(parts[1])
  }

  /** Seconds denoted by the four fields; milliseconds are thousandths
      whatever their number of digits. */
  function Seconds(h: nat, m: nat, s: nat, ms: nat): real {
    (h * 3600 + m * 60 + s) as real + ms as real / 1000.0
  }

  /** A JavaScript number as far as the parser can produce one: a finite value
      or NaN. */
  datatype Number = Finite(value: real) | NaN

  /** `parseTimestamp`, defined inside `convertWhisperToTranscriptionObject`.
      A missing piece reads as `undefined` and any piece that is not a digit
      string is taken as unreadable; either makes `Number` give NaN, and NaN
      propagates through the arithmetic. */
  function ParseTimestamp(ts: string): (r: Number)
    ensures r.Finite? <==> WellFormedTimestamp(ts)
    ensures r.Finite? ==> r.value >= 0.0
  {
    if WellFormedTimestamp(ts) then
      var parts := SplitOn(ts, ',');
      var fields := SplitOn(parts[0], ':');
      Finite(Seconds(NumeralValue(fields[0]), NumeralValue(fields[1]), NumeralValue(fields[2]),
                     NumeralValue(parts[1])))
    else NaN
  }

  /** Decimal digits of `n`, most significant first. */
  function Numeral(n: nat): (r: string)
    ensures r != [] && AllDigits(r)
  {
    if n < 10 then ['0' + n as char]
    else Numeral(n / 10) + ['0' + (n % 10) as char]
  }

  lemma {:induction false} NumeralRoundTrip(n: nat)
    ensures NumeralValue(Numeral(n)) == n
  {
    if n >= 10 {
      NumeralRoundTrip(n / 10);
      var r := Numeral(n);
      assert r[..|r| - 1] == Numeral(n / 10);
    }
  }

  /** `n` in decimal, zero-padded on the left to at least `width` digits. */
  function Padded(n: nat, width: nat): (r: string)
    ensures AllDigits(r) && |r| >= width
  {
    var digits := Numeral(n);
    if |digits| >= width then digits
    else seq(width - |digits|, _ => '0') + digits
  }

  lemma {:induction false} LeadingZeros(z: nat, d: string)
    requires AllDigits(d)
    ensures AllDigits(seq(z, _ => '0') + d)
    ensures NumeralValue(seq(z, _ => '0') + d) == NumeralValue(d)
    decreases |d|
  {
    var zeros: string := seq(z, _ => '0');
    if d == [] {
      assert zeros + d == zeros;
      ZerosValue(z);
    } else {
      LeadingZeros(z, d[..|d| - 1]);
      assert (zeros + d)[..|zeros + d| - 1] == zeros + d[..|d| - 1];
    }
  }

  lemma {:induction false} ZerosValue(z: nat)
    ensures NumeralValue(seq(z, _ => '0')) == 0
  {
    if z > 0 {
      ZerosValue(z - 1);
      assert seq(z, _ => '0')[..z - 1] == seq(z - 1, _ => '0');
    }
  }

  lemma PaddedValue(n: nat, width: nat)
    ensures NumeralValue(Padded(n, width)) == n
  {
    NumeralRoundTrip(n);
    var digits := Numeral(n);
    if |digits| < width {
      LeadingZeros(width - |digits|, digits);
    }
  }

  /** The form in which the speech recognizer writes timestamps, `%02d:%02d:%02d,%03d`. */
  function Format(h: nat, m: nat, s: nat, ms: nat): string {
    Padded(h, 2) + ":" + Padded(m, 2) + ":" + Padded(s, 2) + "," + Padded(ms, 3)
  }

  /** A timestamp assembled from four digit strings is well formed, and
      parses to the seconds those digits denote. */
  lemma ParseFields(ts: string, h: string, m: string, s: string, ms: string)
    requires AllDigits(h) && AllDigits(m) && AllDigits(s) && AllDigits(ms)
    requires ts == h + ":" + m + ":" + s + "," + ms
    ensures WellFormedTimestamp(ts)
    ensures ParseTimestamp(ts)
            == Finite(Seconds(NumeralValue(h), NumeralValue(m), NumeralValue(s), NumeralValue(ms)))
  {
    var time := h + ":" + m + ":" + s;
    assert ts == time + [','] + ms;
    assert ',' !in time by {
      assert forall k :: 0 <= k < |time| ==> IsDigit(time[k]) || time[k] == ':';
    }
    NoSeparatorInDigits(ms, ',');
    SplitOnFirst(time, ',', ms);
    SplitOnNone(ms, ',');
    SplitClock(time, h, m, s);
  }

  lemma NoSeparatorInDigits(d: string, sep: char)
    requires AllDigits(d) && !IsDigit(sep)
    ensures sep !in d
  {
    assert forall k :: 0 <= k < |d| ==> IsDigit(d[k]);
  }

  lemma SplitClock(time: string, h: string, m: string, s: string)
    requires AllDigits(h) && AllDigits(m) && AllDigits(s)
    requires time == h + ":" + m + ":" + s
    ensures SplitOn(time, ':') == [h, m, s]
  {
    assert time == h + [':'] + (m + [':'] + s);
    NoSeparatorInDigits(h, ':');
    NoSeparatorInDigits(m, ':');
    NoSeparatorInDigits(s, ':');
    SplitOnFirst(h, ':', m + [':'] + s);
    SplitOnFirst(m, ':', s);
    SplitOnNone(s, ':');
  }

  /** Parsing a formatted timestamp gives back the seconds it denotes. */
  lemma ParseFormat(h: nat, m: nat, s: nat, ms: nat)
    ensures ParseTimestamp(Format(h, m, s, ms)) == Finite(Seconds(h, m, s, ms))
  {
    ParseFields(Format(h, m, s, ms), Padded(h, 2), Padded(m, 2), Padded(s, 2), Padded(ms, 3));
    PaddedValue(h, 2);
    PaddedValue(m, 2);
    PaddedValue(s, 2);
    PaddedValue(ms, 3);
  }

  /** The timestamps the behaviour of the converter is usually illustrated
      with. (The string is a parameter so that the solver does not evaluate
      the parser on the literal by unfolding.) */
  lemma ParseExampleMixed(ts: string)
    requires ts == "01:02:03,500"
    ensures ParseTimestamp(ts) == Finite(3723.5)
  {
    SmallNumerals();
    ParseFields(ts, "01", "02", "03", "500");
  }

  lemma ParseExampleZero(ts: string)
    requires ts == "00:00:00,000"
    ensures ParseTimestamp(ts) == Finite(0.0)
  {
    SmallNumerals();
    ParseFields(ts, "00", "00", "00", "000");
  }

  lemma ParseExampleNinety(ts: string)
    requires ts == "00:01:30,000"
    ensures ParseTimestamp(ts) == Finite(90.0)
  {
    SmallNumerals();
    ParseFields(ts, "00", "01", "30", "000");
  }

  /** Without a comma there are no milliseconds to read, and the result is NaN. */
  lemma ParseWithoutComma(ts: string)
    requires ',' !in ts
    ensures ParseTimestamp(ts) == NaN
  {
    SplitOnNone(ts, ',');
  }

  lemma SmallNumerals()
    ensures NumeralValue("00") == 0 && NumeralValue("000") == 0
    ensures NumeralValue("01") == 1 && NumeralValue("02") == 2 && NumeralValue("03") == 3
    ensures NumeralValue("30") == 30 && NumeralValue("500") == 500
  {
    assert "000"[..2] == "00" && "00"[..1] == "0" && "0"[..0] == "";
    assert "01"[..1] == "0" && "02"[..1] == "0" && "03"[..1] == "0" && "30"[..1] == "3";
    assert "500"[..2] == "50" && "50"[..1] == "5" && "5"[..0] == "" && "3"[..0] == "";
  }

  /** Clock order: for fields in their usual ranges, comparing the seconds is
      comparing hours, then minutes, then seconds, then milliseconds. */
  predicate InRange(m: nat, s: nat, ms: nat) {
    m < 60 && s < 60 && ms < 1000
  }

  predicate ClockBefore(h1: nat, m1: nat, s1: nat, ms1: nat, h2: nat, m2: nat, s2: nat, ms2: nat) {
    || h1 < h2
    || (h1 == h2 && m1 < m2)
    || (h1 == h2 && m1 == m2 && s1 < s2)
    || (h1 == h2 && m1 == m2 && s1 == s2 && ms1 < ms2)
  }

  lemma SecondsOrder(h1: nat, m1: nat, s1: nat, ms1: nat, h2: nat, m2: nat, s2: nat, ms2: nat)
    requires InRange(m1, s1, ms1) && InRange(m2, s2, ms2)
    ensures Seconds(h1, m1, s1, ms1) < Seconds(h2, m2, s2, ms2)
            <==> ClockBefore(h1, m1, s1, ms1, h2, m2, s2, ms2)
  {
    var t1 := ((h1 * 60 + m1) * 60 + s1) * 1000 + ms1;
    var t2 := ((h2 * 60 + m2) * 60 + s2) * 1000 + ms2;
    assert Seconds(h1, m1, s1, ms1) == t1 as real / 1000.0;
    assert Seconds(h2, m2, s2, ms2) == t2 as real / 1000.0;
  }
}
