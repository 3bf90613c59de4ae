/**
 The `Pull Date` stamp (pull.py:70 and pull.py:90).

 The source stores the stamp as the text `strftime('%Y-%m-%d %H:%M:%S')`
 and later sorts rows by that text (pull.py:77). Because every field is
 zero-padded to a fixed width, comparing two stamps as strings is the same
 as comparing the clock readings they came from. `Key` reads the digits of
 the stamp as one number; the merge orders rows by it, and `FormatOrder`
 and `KeyOrder` show that this is the order the strings have.
 */
module PullStamp {

  /** A wall-clock reading as `datetime.now()` gives it (to the second). */
  datatype DateTime = DateTime(year: int, month: int, day: int, hour: int, minute: int, second: int)

  /** Readings whose fields fit the stamp's fixed-width fields. */
  predicate Valid(t: DateTime) {
    && 1000 <= t.year <= 9999
    && 1 <= t.month <= 12
    && 1 <= t.day <= 31
    && 0 <= t.hour <= 23
    && 0 <= t.minute <= 59
    && 0 <= t.second <= 59
  }

  /** Chronological order: field by field, from the year down to the second. */
  predicate Earlier(a: DateTime, b: DateTime) {
    if a.year != b.year then a.year < b.year
    else if a.month != b.month then a.month < b.month
    else if a.day != b.day then a.day < b.day
    else if a.hour != b.hour then a.hour < b.hour
    else if a.minute != b.minute then a.minute < b.minute
    else a.second < b.second
  }

  /** String order as Python compares `str` values: code point by code point,
      a proper prefix first. */
  predicate LexLess(a: string, b: string) {
    |b| > 0 && (|a| == 0 || a[0] < b[0] || (a[0] == b[0] && LexLess(a[1..], b[1..])))
  }

  function Pow10(n: nat): (p: nat)
    ensures p >= 1
  {
    if n == 0 then 1 else 10 * Pow10(n - 1)
  }

  /** The character of one decimal digit. */
  function Digit(d: int): char
    requires 0 <= d < 10
  {
    ('0' as int + d) as char
  }

  /** `n` in decimal, zero-padded to `width` digits (`%Y` with width 4, the
      other fields with width 2). */
  function Pad(n: nat, width: nat): (s: string)
    requires n < Pow10(width)
    ensures |s| == width
  {
    if width == 0 then [] else Pad(n / 10, width - 1) + [Digit(n % 10)]
  }

  /** A separator followed by a two-digit field, then the rest of the stamp. */
  function Field(sep: char, n: nat, rest: string): string
    requires n < 100
  {
    [sep] + (Pad(n, 2) + rest)
  }

  /** `strftime('%Y-%m-%d %H:%M:%S')`. */
  function Format(t: DateTime): (s: string)
    requires Valid(t)
    ensures |s| == 19
  {
    Pad(t.year, 4) + Field('-', t.month, Field('-', t.day, Field(' ', t.hour,
      Field(':', t.minute, Field(':', t.second, [])))))
  }

  /** The digits of the stamp read as one number: YYYYMMDDhhmmss. */
  function Key(t: DateTime): nat
    requires Valid(t)
  {
    ((((t.year * 100 + t.month) * 100 + t.day) * 100 + t.hour) * 100 + t.minute) * 100 + t.second
  }

  /** Comparing strings that start with parts of equal length compares those
      parts first and the remainders only on a tie. */
  lemma {:induction false} LexAppend(a1: string, a2: string, b1: string, b2: string)
    requires |a1| == |b1|
    ensures LexLess(a1 + a2, b1 + b2) <==> LexLess(a1, b1) || (a1 == b1 && LexLess(a2, b2))
  {
    if |a1| > 0 {
      assert (a1 + a2)[0] == a1[0] && (b1 + b2)[0] == b1[0];
      assert (a1 + a2)[1..] == a1[1..] + a2;
      assert (b1 + b2)[1..] == b1[1..] + b2;
      LexAppend(a1[1..], a2, b1[1..], b2);
      if a1[0] == b1[0] && a1[1..] == b1[1..] {
        assert a1 == [a1[0]] + a1[1..] && b1 == [b1[0]] + b1[1..];
      }
    } else {
      assert a1 + a2 == a2 && b1 + b2 == b2;
    }
  }

  /** Zero-padded numbers of one width compare as strings the way they compare as numbers. */
  lemma {:induction false} PadOrder(n: nat, m: nat, width: nat)
    requires n < Pow10(width) && m < Pow10(width)
    ensures LexLess(Pad(n, width), Pad(m, width)) <==> n < m
    ensures Pad(n, width) == Pad(m, width) <==> n == m
  {
    if width > 0 {
      PadOrder(n / 10, m / 10, width - 1);
      LexAppend(Pad(n / 10, width - 1), [Digit(n % 10)], Pad(m / 10, width - 1), [Digit(m % 10)]);
      var a := Pad(n / 10, width - 1) + [Digit(n % 10)];
      var b := Pad(m / 10, width - 1) + [Digit(m % 10)];
      if a == b {
        assert a[width - 1] == b[width - 1];
        assert a[..width - 1] == b[..width - 1];
      }
    }
  }

  /** Stamps compare as strings the way their fields compare, field by field. */
  lemma FieldOrder(sep: char, n: nat, r1: string, m: nat, r2: string)
    requires n < 100 && m < 100 && |r1| == |r2|
    ensures LexLess(Field(sep, n, r1), Field(sep, m, r2))
        <==> n < m || (n == m && LexLess(r1, r2))
    ensures Field(sep, n, r1) == Field(sep, m, r2) <==> n == m && r1 == r2
  {
    PadOrder(n, m, 2);
    LexAppend([sep], Pad(n, 2) + r1, [sep], Pad(m, 2) + r2);
    LexAppend(Pad(n, 2), r1, Pad(m, 2), r2);
    if Field(sep, n, r1) == Field(sep, m, r2) {
      assert Pad(n, 2) + r1 == Field(sep, n, r1)[1..];
      assert Pad(m, 2) + r2 == Field(sep, m, r2)[1..];
      assert Pad(n, 2) == (Pad(n, 2) + r1)[..2];
      assert Pad(m, 2) == (Pad(m, 2) + r2)[..2];
      assert r1 == (Pad(n, 2) + r1)[2..];
      assert r2 == (Pad(m, 2) + r2)[2..];
    }
  }

  /** Sorting stamps as strings sorts them chronologically: the string
      comparison of pull.py:77 is the order of the clock readings. */
  lemma FormatOrder(a: DateTime, b: DateTime)
    requires Valid(a) && Valid(b)
    ensures LexLess(Format(a), Format(b)) <==> Earlier(a, b)
    ensures Format(a) == Format(b) <==> a == b
  {
    var e: string := [];
    var s1 := Field(':', a.second, e);
    var s2 := Field(':', b.second, e);
    FieldOrder(':', a.second, e, b.second, e);
    var mi1 := Field(':', a.minute, s1);
    var mi2 := Field(':', b.minute, s2);
    FieldOrder(':', a.minute, s1, b.minute, s2);
    var h1 := Field(' ', a.hour, mi1);
    var h2 := Field(' ', b.hour, mi2);
    FieldOrder(' ', a.hour, mi1, b.hour, mi2);
    var d1 := Field('-', a.day, h1);
    var d2 := Field('-', b.day, h2);
    FieldOrder('-', a.day, h1, b.day, h2);
    var mo1 := Field('-', a.month, d1);
    var mo2 := Field('-', b.month, d2);
    FieldOrder('-', a.month, d1, b.month, d2);
    PadOrder(a.year, b.year, 4);
    LexAppend(Pad(a.year, 4), mo1, Pad(b.year, 4), mo2);
    if Format(a) == Format(b) {
      assert Pad(a.year, 4) == Format(a)[..4] && Pad(b.year, 4) == Format(b)[..4];
      assert mo1 == Format(a)[4..] && mo2 == Format(b)[4..];
    }
  }

  /** Two-digit fields appended to a prefix compare prefix first. */
  lemma Base100(p: int, x: int, q: int, y: int)
    requires 0 <= x < 100 && 0 <= y < 100
    ensures p * 100 + x < q * 100 + y <==> p < q || (p == q && x < y)
    ensures p * 100 + x == q * 100 + y <==> p == q && x == y
  {
    if p < q {
      assert p * 100 + x < (p + 1) * 100 <= q * 100 + y;
    } else if q < p {
      assert q * 100 + y < (q + 1) * 100 <= p * 100 + x;
    }
  }

  /** The number read from a stamp orders readings chronologically, and
      distinct readings get distinct numbers. */
  lemma KeyOrder(a: DateTime, b: DateTime)
    requires Valid(a) && Valid(b)
    ensures Key(a) < Key(b) <==> Earlier(a, b)
    ensures Key(a) == Key(b) <==> a == b
  {
    var a1 := a.year * 100 + a.month;
    var b1 := b.year * 100 + b.month;
    Base100(a.year, a.month, b.year, b.month);
    var a2 := a1 * 100 + a.day;
    var b2 := b1 * 100 + b.day;
    Base100(a1, a.day, b1, b.day);
    var a3 := a2 * 100 + a.hour;
    var b3 := b2 * 100 + b.hour;
    Base100(a2, a.hour, b2, b.hour);
    var a4 := a3 * 100 + a.minute;
    var b4 := b3 * 100 + b.minute;
    Base100(a3, a.minute, b3, b.minute);
    Base100(a4, a.second, b4, b.second);
  }

  /** Comparing the stamps as strings and comparing their keys agree. */
  lemma StringOrderIsKeyOrder(a: DateTime, b: DateTime)
    requires Valid(a) && Valid(b)
    ensures LexLess(Format(a), Format(b)) <==> Key(a) < Key(b)
    ensures Format(a) == Format(b) <==> Key(a) == Key(b)
  {
    FormatOrder(a, b);
    KeyOrder(a, b);
  }
}
