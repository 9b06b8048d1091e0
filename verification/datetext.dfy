/**
 * The `YYYY-MM-DD` strings a date picker stores in a task, their decoding into
 * calendar dates, and the fact that comparing the strings character by
 * character orders them exactly as the dates they name.
 */
module DateText {
  import opened Calendar

  predicate IsDigit(c: char) {
    '0' <= c <= '9'
  }

  predicate AllDigits(s: string) {
    forall i :: 0 <= i < |s| ==> IsDigit(s[i])
  }

  function DigitValue(c: char): (v: nat)
    requires IsDigit(c)
    ensures v <= 9
  {
    (c as int) - ('0' as int)
  }

  function DigitChar(v: nat): (c: char)
    requires v <= 9
    ensures IsDigit(c) && DigitValue(c) == v
  {
    (('0' as int) + v) as char
  }

  function Pow10(n: nat): nat {
    if n == 0 then 1 else 10 * Pow10(n - 1)
  }

  /** The number a string of decimal digits spells, most significant digit first. */
  function NumberValue(s: string): (v: nat)
    requires AllDigits(s)
    ensures v < Pow10(|s|)
  {
    if s == [] then 0 else NumberValue(s[..|s| - 1]) * 10 + DigitValue(s[|s| - 1])
  }

  /** `n` written with exactly `width` digits, zero-padded on the left. */
  function Digits(n: nat, width: nat): (s: string)
    ensures |s| == width && AllDigits(s)
  {
    if width == 0 then [] else Digits(n / 10, width - 1) + [DigitChar(n % 10)]
  }

  lemma {:induction false} DigitsRoundTrip(n: nat, width: nat)
    requires n < Pow10(width)
    ensures NumberValue(Digits(n, width)) == n
    decreases width
  {
    if width > 0 {
      var s := Digits(n, width);
      assert s[..|s| - 1] == Digits(n / 10, width - 1);
      DigitsRoundTrip(n / 10, width - 1);
    }
  }

  lemma {:induction false} NumberValueRoundTrip(s: string)
    requires AllDigits(s)
    ensures Digits(NumberValue(s), |s|) == s
    decreases |s|
  {
    if s != [] {
      var init, last := s[..|s| - 1], s[|s| - 1];
      NumberValueRoundTrip(init);
      var v, d := NumberValue(init), DigitValue(last);
      assert NumberValue(s) == v * 10 + d;
      DivModTen(v, d);
      assert DigitChar(d) == last;
      assert s == init + [last];
    }
  }

  lemma DivModTen(v: nat, d: nat)
    requires d <= 9
    ensures (v * 10 + d) / 10 == v && (v * 10 + d) % 10 == d
  {
  }

  /** Digit strings of one length spell the same number only when they are the same string. */
  lemma NumberValueInjective(a: string, b: string)
    requires AllDigits(a) && AllDigits(b) && |a| == |b|
    requires NumberValue(a) == NumberValue(b)
    ensures a == b
  {
    NumberValueRoundTrip(a);
    NumberValueRoundTrip(b);
  }

  /** Four digits, a hyphen, two digits, a hyphen, two digits. */
  predicate IsIsoShape(s: string) {
    && |s| == 10
    && s[4] == '-' && s[7] == '-'
    && AllDigits(s[..4]) && AllDigits(s[5..7]) && AllDigits(s[8..])
  }

  /** The (year, month, day) an ISO-shaped string spells. */
  function ToDate(s: string): (d: Date)
    requires IsIsoShape(s)
    ensures 0 <= d.year <= 9999 && 0 <= d.month <= 99 && 0 <= d.day <= 99
  {
    Date(NumberValue(s[..4]), NumberValue(s[5..7]), NumberValue(s[8..]))
  }

  /** A string `new Date` accepts as a date-only ISO date: the right shape, naming a real day. */
  predicate WellFormedDate(s: string) {
    IsIsoShape(s) && Valid(ToDate(s))
  }

  /** The `YYYY-MM-DD` spelling of a date whose fields fit their digit counts. */
  function IsoText(d: Date): (s: string)
    requires 0 <= d.year <= 9999 && 0 <= d.month <= 99 && 0 <= d.day <= 99
    ensures IsIsoShape(s)
  {
    Digits(d.year, 4) + "-" + Digits(d.month, 2) + "-" + Digits(d.day, 2)
  }

  lemma IsoTextParts(d: Date)
    requires 0 <= d.year <= 9999 && 0 <= d.month <= 99 && 0 <= d.day <= 99
    ensures IsoText(d)[..4] == Digits(d.year, 4)
    ensures IsoText(d)[5..7] == Digits(d.month, 2)
    ensures IsoText(d)[8..] == Digits(d.day, 2)
  {
  }

  /** Reading back the spelling of a date gives that date. */
  lemma IsoTextThenToDate(d: Date)
    requires 0 <= d.year <= 9999 && 0 <= d.month <= 99 && 0 <= d.day <= 99
    ensures ToDate(IsoText(d)) == d
  {
    IsoTextParts(d);
    assert Pow10(4) == 10000 && Pow10(2) == 100;
    DigitsRoundTrip(d.year, 4);
    DigitsRoundTrip(d.month, 2);
    DigitsRoundTrip(d.day, 2);
  }

  /** Spelling the date an ISO-shaped string names gives back that string. */
  lemma ToDateThenIsoText(s: string)
    requires IsIsoShape(s)
    ensures IsoText(ToDate(s)) == s
  {
    NumberValueRoundTrip(s[..4]);
    NumberValueRoundTrip(s[5..7]);
    NumberValueRoundTrip(s[8..]);
    assert s == s[..4] + "-" + s[5..7] + "-" + s[8..];
  }

  /** Distinct ISO-shaped strings name distinct dates. */
  lemma ToDateInjective(s: string, t: string)
    requires IsIsoShape(s) && IsIsoShape(t)
    ensures ToDate(s) == ToDate(t) <==> s == t
  {
    ToDateThenIsoText(s);
    ToDateThenIsoText(t);
  }

  /** The text that names the sentinel date, and the only one that does. */
  lemma SentinelText(s: string)
    requires IsIsoShape(s)
    ensures IsIsoShape("9999-12-31") && ToDate("9999-12-31") == Sentinel
    ensures ToDate(s) == Sentinel <==> s == "9999-12-31"
  {
    var t := "9999-12-31";
    assert t[..4] == "9999";
    assert t[5..7] == "12";
    assert t[8..] == "31";
    assert NumberValue("9999") == 9999 by {
      assert "9999"[..3] == "999" && "999"[..2] == "99" && "99"[..1] == "9" && "9"[..0] == "";
    }
    assert NumberValue("12") == 12 by {
      assert "12"[..1] == "1" && "1"[..0] == "";
    }
    assert NumberValue("31") == 31 by {
      assert "31"[..1] == "3" && "3"[..0] == "";
    }
    ToDateInjective(s, t);
  }

  /** JavaScript's `<` on strings: code-unit-wise lexicographic order. */
  predicate LexLess(a: string, b: string)
    decreases |a|
  {
    && |b| > 0
    && (|a| == 0 || a[0] < b[0] || (a[0] == b[0] && LexLess(a[1..], b[1..])))
  }

  /** Comparing a concatenation compares the equally long prefixes first. */
  lemma {:induction false} LexLessAppend(a: string, b: string, c: string, d: string)
    requires |a| == |c|
    ensures LexLess(a + b, c + d) <==> LexLess(a, c) || (a == c && LexLess(b, d))
    decreases |a|
  {
    if |a| > 0 {
      assert (a + b)[1..] == a[1..] + b;
      assert (c + d)[1..] == c[1..] + d;
      LexLessAppend(a[1..], b, c[1..], d);
      if a[0] == c[0] && a[1..] == c[1..] {
        assert a == c;
      }
      if a == c {
        assert a[1..] == c[1..];
      }
    } else {
      assert a + b == b && c + d == d;
    }
  }

  lemma LexLessLastChar(a: string, x: char, b: string, y: char)
    requires |a| == |b|
    ensures LexLess(a + [x], b + [y]) <==> LexLess(a, b) || (a == b && x < y)
  {
    LexLessAppend(a, [x], b, [y]);
    assert LexLess([x], [y]) <==> x < y by {
      assert [x][1..] == [];
    }
  }

  /** On digit strings of one length, character order is numeric order. */
  lemma {:induction false} LexLessIsNumericOrder(a: string, b: string)
    requires AllDigits(a) && AllDigits(b) && |a| == |b|
    ensures LexLess(a, b) <==> NumberValue(a) < NumberValue(b)
    decreases |a|
  {
    if |a| == 0 {
      assert !LexLess(a, b);
    } else {
      var a', b' := a[..|a| - 1], b[..|b| - 1];
      var x, y := a[|a| - 1], b[|b| - 1];
      assert a == a' + [x] && b == b' + [y];
      LexLessLastChar(a', x, b', y);
      LexLessIsNumericOrder(a', b');
      if NumberValue(a') == NumberValue(b') {
        NumberValueInjective(a', b');
      }
    }
  }

  /**
   * Comparing ISO-shaped strings as strings orders them as the dates they
   * name: either representation of a task's date gives the same order.
   */
  lemma IsoLexOrder(s: string, t: string)
    requires IsIsoShape(s) && IsIsoShape(t)
    ensures LexLess(s, t) <==> Before(ToDate(s), ToDate(t))
  {
    var ys, ms, ds := s[..4], s[5..7], s[8..];
    var yt, mt, dt := t[..4], t[5..7], t[8..];
    assert s == ys + ("-" + (ms + ("-" + ds)));
    assert t == yt + ("-" + (mt + ("-" + dt)));
    LexLessAppend(ys, "-" + (ms + ("-" + ds)), yt, "-" + (mt + ("-" + dt)));
    LexLessAppend("-", ms + ("-" + ds), "-", mt + ("-" + dt));
    LexLessAppend(ms, "-" + ds, mt, "-" + dt);
    LexLessAppend("-", ds, "-", dt);
    assert !LexLess("-", "-");
    LexLessIsNumericOrder(ys, yt);
    LexLessIsNumericOrder(ms, mt);
    LexLessIsNumericOrder(ds, dt);
    ToDateInjective(s, t);
    if NumberValue(ys) == NumberValue(yt) {
      NumberValueInjective(ys, yt);
    }
    if NumberValue(ms) == NumberValue(mt) {
      NumberValueInjective(ms, mt);
    }
  }
}
