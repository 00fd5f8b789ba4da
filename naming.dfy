/**
 * Names of backup archives: `config_backup_<stamp>.zip`, where the stamp is
 * the local time written with the `%Y%m%d_%H%M%S` format (backup_config.py,
 * lines 51-52), and the test the pruner uses to recognise them (lines
 * 100-101). The main result is NameOrder: because every field is written
 * with a fixed width and leading zeros, comparing two archive names as
 * strings is the same as comparing their stamps in time.
 */
module Naming {
  import opened LexOrder

  const Prefix: string := "config_backup_"
  const Extension: string := ".zip"

  /** `f.startswith('config_backup_') and f.endswith('.zip')` */
  predicate IsBackupName(f: string)
  {
    |Prefix| <= |f| && f[..|Prefix|] == Prefix &&
    |Extension| <= |f| && f[|f| - |Extension|..] == Extension
  }

  /**
   * Since the prefix and the extension cannot overlap, a recognised name is
   * the prefix, some middle part and the extension, one after the other.
   */
  lemma BackupNameShape(f: string)
    ensures IsBackupName(f) <==>
      |Prefix| + |Extension| <= |f| && f == Prefix + f[|Prefix|..|f| - |Extension|] + Extension
  {
    if IsBackupName(f) {
      forall i | 0 <= i < |Prefix|
        ensures f[i] != '.'
      {
        assert f[i] == f[..|Prefix|][i];
      }
      assert f[|f| - |Extension|] == f[|f| - |Extension|..][0] == '.';
      assert f == f[..|Prefix|] + f[|Prefix|..|f| - |Extension|] + f[|f| - |Extension|..];
    }
    if |Prefix| + |Extension| <= |f| && f == Prefix + f[|Prefix|..|f| - |Extension|] + Extension {
      var mid := f[|Prefix|..|f| - |Extension|];
      assert f[..|Prefix|] == (Prefix + mid + Extension)[..|Prefix|];
      assert f[|f| - |Extension|..] == (Prefix + mid + Extension)[|Prefix| + |mid|..];
    }
  }

  /** The fields of a local date and time, as `datetime` holds them. */
  datatype Stamp = Stamp(year: nat, month: nat, day: nat, hour: nat, minute: nat, second: nat)
  {
    /** The ranges `datetime` guarantees; the year has at most four digits. */
    predicate Valid()
    {
      1 <= year <= 9999 && 1 <= month <= 12 && 1 <= day <= 31 &&
      hour <= 23 && minute <= 59 && second <= 59
    }
  }

  type Timestamp = t: Stamp | t.Valid() witness Stamp(1970, 1, 1, 0, 0, 0)

  /** `a` is earlier in time than `b`: the first field that differs decides. */
  predicate Before(a: Stamp, b: Stamp)
  {
    a.year < b.year || (a.year == b.year &&
    (a.month < b.month || (a.month == b.month &&
    (a.day < b.day || (a.day == b.day && ClockBefore(a, b))))))
  }

  /** On the same day, `a` is earlier than `b`. */
  predicate ClockBefore(a: Stamp, b: Stamp)
  {
    a.hour < b.hour || (a.hour == b.hour &&
    (a.minute < b.minute || (a.minute == b.minute &&
    a.second < b.second)))
  }

  function Pow10(w: nat): nat
  {
    if w == 0 then 1 else 10 * Pow10(w - 1)
  }

  function DigitChar(d: nat): (c: char)
    requires d < 10
    ensures '0' <= c <= '9'
  {
    (48 + d) as char
  }

  /** `n` written with exactly `w` decimal digits, zero-padded on the left. */
  function Digits(n: nat, w: nat): (s: string)
    ensures |s| == w
    ensures forall i :: 0 <= i < w ==> '0' <= s[i] <= '9'
  {
    if w == 0 then "" else Digits(n / 10, w - 1) + [DigitChar(n % 10)]
  }

  /** `strftime('%H%M%S')` */
  function ClockText(t: Timestamp): (s: string)
    ensures |s| == 6
    ensures forall i :: 0 <= i < 6 ==> '0' <= s[i] <= '9'
  {
    Digits(t.hour, 2) + (Digits(t.minute, 2) + Digits(t.second, 2))
  }

  /** `strftime('%Y%m%d_%H%M%S')` */
  function StampText(t: Timestamp): (s: string)
    ensures |s| == 15 && s[8] == '_'
  {
    Digits(t.year, 4) + (Digits(t.month, 2) + (Digits(t.day, 2) + ("_" + ClockText(t))))
  }

  /** `f'config_backup_{timestamp}.zip'`: every such name is one the pruner recognises. */
  function BackupName(t: Timestamp): (name: string)
    ensures IsBackupName(name)
    ensures |name| == |Prefix| + 15 + |Extension|
  {
    var name := Prefix + (StampText(t) + Extension);
    assert name[..|Prefix|] == Prefix;
    assert name[|name| - |Extension|..] == Extension;
    name
  }

  lemma DivModOrder(n: nat, m: nat)
    ensures n < m <==> n / 10 < m / 10 || (n / 10 == m / 10 && n % 10 < m % 10)
    ensures n == m <==> n / 10 == m / 10 && n % 10 == m % 10
  {
    assert n == 10 * (n / 10) + n % 10;
    assert m == 10 * (m / 10) + m % 10;
  }

  /** Fixed-width decimal numerals compare as strings exactly as the numbers do. */
  lemma {:induction false} DigitsOrder(n: nat, m: nat, w: nat)
    requires n < Pow10(w) && m < Pow10(w)
    ensures Below(Digits(n, w), Digits(m, w)) <==> n < m
    ensures Digits(n, w) == Digits(m, w) <==> n == m
  {
    if w == 0 {
      BelowIrreflexive("");
    } else {
      DigitsOrder(n / 10, m / 10, w - 1);
      var c, d := DigitChar(n % 10), DigitChar(m % 10);
      BelowConcat(Digits(n / 10, w - 1), [c], Digits(m / 10, w - 1), [d]);
      assert Below([c], [d]) <==> c < d;
      DivModOrder(n, m);
    }
  }

  lemma FieldStep(x: nat, y: nat, w: nat, r1: string, r2: string)
    requires x < Pow10(w) && y < Pow10(w)
    ensures Below(Digits(x, w) + r1, Digits(y, w) + r2) <==> x < y || (x == y && Below(r1, r2))
    ensures Digits(x, w) + r1 == Digits(y, w) + r2 <==> x == y && r1 == r2
  {
    DigitsOrder(x, y, w);
    BelowConcat(Digits(x, w), r1, Digits(y, w), r2);
  }

  lemma ClockOrder(a: Timestamp, b: Timestamp)
    ensures Below(ClockText(a), ClockText(b)) <==> ClockBefore(a, b)
    ensures ClockText(a) == ClockText(b) <==> a.hour == b.hour && a.minute == b.minute && a.second == b.second
  {
    assert Pow10(2) == 100;
    var s1, s2 := Digits(a.second, 2), Digits(b.second, 2);
    DigitsOrder(a.second, b.second, 2);
    FieldStep(a.minute, b.minute, 2, s1, s2);
    FieldStep(a.hour, b.hour, 2, Digits(a.minute, 2) + s1, Digits(b.minute, 2) + s2);
  }

  lemma StampOrder(a: Timestamp, b: Timestamp)
    ensures Below(StampText(a), StampText(b)) <==> Before(a, b)
    ensures StampText(a) == StampText(b) <==> a == b
  {
    assert Pow10(2) == 100 && Pow10(4) == 10000;
    var c1, c2 := ClockText(a), ClockText(b);
    ClockOrder(a, b);
    var u1, u2 := "_" + c1, "_" + c2;
    BelowIrreflexive("_");
    BelowConcat("_", c1, "_", c2);
    var d1, d2 := Digits(a.day, 2) + u1, Digits(b.day, 2) + u2;
    FieldStep(a.day, b.day, 2, u1, u2);
    var o1, o2 := Digits(a.month, 2) + d1, Digits(b.month, 2) + d2;
    FieldStep(a.month, b.month, 2, d1, d2);
    FieldStep(a.year, b.year, 4, o1, o2);
  }

  /**
   * The property the pruner's "most recent" rests on: one archive name sorts
   * below another exactly when its stamp is earlier, and two stamps give the
   * same name only when they are equal.
   */
  lemma NameOrder(a: Timestamp, b: Timestamp)
    ensures Below(BackupName(a), BackupName(b)) <==> Before(a, b)
    ensures BackupName(a) == BackupName(b) <==> a == b
  {
    var t1, t2 := StampText(a), StampText(b);
    StampOrder(a, b);
    BelowIrreflexive(Extension);
    BelowConcat(t1, Extension, t2, Extension);
    BelowIrreflexive(Prefix);
    BelowConcat(Prefix, t1 + Extension, Prefix, t2 + Extension);
  }
}
