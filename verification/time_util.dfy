/** Splitting a number of seconds into hours, minutes and seconds, with
    Rust's integer division, which truncates toward zero. */
module TimeUtil {

  datatype Hms = Hms(hours: int, minutes: int, seconds: int)

  /** Rust's `a / b` for a positive divisor: the quotient rounded toward zero. */
  function Quot(a: int, b: int): (q: int)
    requires b > 0
    ensures a >= 0 ==> 0 <= b * q <= a < b * q + b
    ensures a <= 0 ==> b * q - b < a <= b * q <= 0
  {
    if a >= 0 then a / b else -((-a) / b)
  }

  /** Rust's `a % b` for a positive divisor: the remainder has the sign of `a`. */
  function Rem(a: int, b: int): (r: int)
    requires b > 0
    ensures a == b * Quot(a, b) + r
    ensures a >= 0 ==> 0 <= r < b
    ensures a <= 0 ==> -b < r <= 0
  {
    a - b * Quot(a, b)
  }

  /** The number of seconds a split stands for. */
  function HmsToSeconds(t: Hms): int {
    t.hours * 3600 + t.minutes * 60 + t.seconds
  }

  /** A split with no minute or second field overflowing into the next unit. */
  predicate Normal(t: Hms) {
    t.hours >= 0 && 0 <= t.minutes < 60 && 0 <= t.seconds < 60
  }

  function SecToHms(seconds: int): (t: Hms)
    ensures HmsToSeconds(t) == seconds
    ensures seconds >= 0 ==> Normal(t) && t.hours == seconds / 3600
    ensures seconds <= 0 ==> t.hours <= 0 && -60 < t.minutes <= 0 && -60 < t.seconds <= 0
  {
    var h := Quot(seconds, 3600);
    var m := Quot(Rem(seconds, 3600), 60);
    var s := Rem(seconds, 60);
    RemOfRem(seconds);
    Hms(h, m, s)
  }

  /** Taking the remainder by an hour first does not change the remainder by a
      minute, because an hour is a whole number of minutes. */
  lemma RemOfRem(a: int)
    ensures Rem(Rem(a, 3600), 60) == Rem(a, 60)
  {
    var q := Quot(a, 3600);
    var r := Rem(a, 3600);
    var q2 := Quot(r, 60);
    var r2 := Rem(r, 60);
    assert a == 60 * (60 * q + q2) + r2;
    QuotUnique(a, 60, 60 * q + q2, r2);
  }

  /** Truncating division is determined by the defining equation together with
      the sign and size of the remainder. */
  lemma QuotUnique(a: int, b: int, q: int, r: int)
    requires b > 0
    requires a == b * q + r
    requires a >= 0 ==> 0 <= r < b
    requires a <= 0 ==> -b < r <= 0
    ensures Quot(a, b) == q && Rem(a, b) == r
  {
    var q' := Quot(a, b);
    var r' := Rem(a, b);
    assert b * q - b * q' == b * (q - q');
    SmallMultipleIsZero(b, q - q', r' - r);
  }

  /** The only multiple of `b` strictly between `-b` and `b` is zero. */
  lemma SmallMultipleIsZero(b: int, d: int, e: int)
    requires b > 0 && b * d == e && -b < e < b
    ensures d == 0
  {
    if d > 0 {
      MulAtLeast(b, d);
    } else if d < 0 {
      MulAtLeast(b, -d);
    }
  }

  /** A positive multiple of `b` is at least `b`. */
  lemma {:induction false} MulAtLeast(b: int, k: int)
    requires b > 0 && k >= 1
    ensures b * k >= b
  {
    if k > 1 {
      MulAtLeast(b, k - 1);
      assert b * k == b * (k - 1) + b;
    }
  }

  /** Any normal split is the split of the seconds it stands for, so a
      non-negative count has exactly one normal split. */
  lemma {:induction false} SecToHmsUnique(t: Hms)
    requires Normal(t)
    ensures SecToHms(HmsToSeconds(t)) == t
  {
    var n := HmsToSeconds(t);
    QuotUnique(n, 3600, t.hours, t.minutes * 60 + t.seconds);
    QuotUnique(t.minutes * 60 + t.seconds, 60, t.minutes, t.seconds);
    QuotUnique(n, 60, t.hours * 60 + t.minutes, t.seconds);
  }
}
