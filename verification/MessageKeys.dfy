/** Database keys of radio messages: a prefix and the timestamp printed with 13 digits.  The store orders keys
    byte by byte; these facts say when that order is the order of the timestamps. */
module MessageKeys {
  import opened Wrappers

  const PREFIX := "raw/"
  const WIDTH := 13
  const MAX_INT64 := 9223372036854775807
  /** The last timestamp below the open-ended end key. */
  const MAX_AT := 9223372036854

  function Pow10(w: nat): (p: nat)
    ensures p > 0
  {
    if w == 0 then 1 else 10 * Pow10(w - 1)
  }

  function Digit(d: nat): char
    requires d < 10
  {
    ('0' as int + d) as char
  }

  /** The last w decimal digits of n. */
  function Padded(n: nat, w: nat): (s: string)
    ensures |s| == w
    ensures forall i :: 0 <= i < w ==> '0' <= s[i] <= '9'
  {
    if w == 0 then "" else Padded(n / 10, w - 1) + [Digit(n % 10)]
  }

  function DigitCount(n: nat): (w: nat)
    ensures w > 0 && n < Pow10(w)
    ensures n > 0 ==> n >= Pow10(w - 1)
  {
    if n < 10 then assert Pow10(1) == 10; 1 else DigitCount(n / 10) + 1
  }

  /** Decimal with at least 13 digits. */
  function GenRFKey(at: nat): string {
    var w := DigitCount(at);
    PREFIX + Padded(at, if w < WIDTH then WIDTH else w)
  }

  function ParseDigits(s: string): Option<nat> {
    if s == "" then Some(0)
    else
      var d := s[|s|-1];
      if !('0' <= d <= '9') then None
      else match ParseDigits(s[..|s|-1])
           case None => None
           case Some(n) => Some(10 * n + (d as int - '0' as int))
  }

  /** The digits of a number that may have a sign in front. */
  function Unsigned(s: string): string { if s != "" && (s[0] == '+' || s[0] == '-') then s[1..] else s }

  predicate Negative(s: string) { s != "" && s[0] == '-' }

  /** A decimal number of 64 bits with sign. */
  function ParseInt(s: string): Option<int> {
    if Unsigned(s) == "" then None
    else
      match ParseDigits(Unsigned(s))
      case None => None
      case Some(n) =>
        var v: int := if Negative(s) then -(n as int) else n;
        if -MAX_INT64 - 1 <= v <= MAX_INT64 then Some(v) else None
  }

  /** The timestamp of a key; keys too short to hold one are refused. */
  function ParseRFKey(key: string): Option<int> {
    if |key| <= |PREFIX| then None else ParseInt(key[|PREFIX|..])
  }

  /** The byte order of the store. */
  predicate KeyLess(a: string, b: string) {
    b != "" && (a == "" || a[0] < b[0] || (a[0] == b[0] && KeyLess(a[1..], b[1..])))
  }

  // ----- Padded numbers sort like numbers -----

  lemma {:induction false} LessAppend(x: string, y: string, c: char, d: char)
    requires |x| == |y|
    ensures KeyLess(x + [c], y + [d]) <==> KeyLess(x, y) || (x == y && c < d)
  {
    if x == "" {
    } else {
      assert (x + [c])[1..] == x[1..] + [c] && (y + [d])[1..] == y[1..] + [d];
      LessAppend(x[1..], y[1..], c, d);
      assert x == y <==> x[0] == y[0] && x[1..] == y[1..] by {
        assert x == [x[0]] + x[1..] && y == [y[0]] + y[1..];
      }
    }
  }

  lemma {:induction false} PaddedOrder(a: nat, b: nat, w: nat)
    requires a < Pow10(w) && b < Pow10(w)
    ensures KeyLess(Padded(a, w), Padded(b, w)) <==> a < b
    ensures Padded(a, w) == Padded(b, w) <==> a == b
  {
    if w == 0 {
    } else {
      PaddedOrder(a / 10, b / 10, w - 1);
      var x, y, c, d := Padded(a / 10, w - 1), Padded(b / 10, w - 1), Digit(a % 10), Digit(b % 10);
      LessAppend(x, y, c, d);
      assert x + [c] == y + [d] <==> x == y && c == d by {
        assert (x + [c])[..w-1] == x && (y + [d])[..w-1] == y;
        assert (x + [c])[w-1] == c && (y + [d])[w-1] == d;
      }
      assert c < d <==> a % 10 < b % 10;
    }
  }

  lemma {:induction false} SamePrefix(p: string, a: string, b: string)
    ensures KeyLess(p + a, p + b) <==> KeyLess(a, b)
  {
    if p == "" {
      assert p + a == a && p + b == b;
    } else {
      assert (p + a)[1..] == p[1..] + a && (p + b)[1..] == p[1..] + b;
      SamePrefix(p[1..], a, b);
    }
  }

  lemma {:induction false} LessThanLonger(x: string, y: string, tail: string)
    requires |x| == |y| && tail != ""
    ensures KeyLess(x, y + tail) <==> KeyLess(x, y) || x == y
  {
    if x == "" {
      assert y + tail == tail;
    } else {
      assert (y + tail)[1..] == y[1..] + tail;
      LessThanLonger(x[1..], y[1..], tail);
      assert x == [x[0]] + x[1..] && y == [y[0]] + y[1..];
    }
  }

  /** n without its last k digits. */
  function Shifted(n: nat, k: nat): nat { if k == 0 then n else Shifted(n / 10, k - 1) }

  lemma {:induction false} LeadingDigits(n: nat, w: nat, k: nat)
    ensures Padded(n, w + k)[..w] == Padded(Shifted(n, k), w)
  {
    if k == 0 {
    } else {
      LeadingDigits(n / 10, w, k - 1);
      assert Padded(n, w + k) == Padded(n / 10, w + k - 1) + [Digit(n % 10)];
    }
  }

  lemma {:induction false} DigitCountIsMonotone(a: nat, w: nat)
    requires w > 0
    ensures a < Pow10(w) <==> DigitCount(a) <= w
    decreases w
  {
    if w == 1 {
      assert Pow10(1) == 10 && (a >= 10 ==> DigitCount(a) > 1);
    } else if a >= 10 {
      DigitCountIsMonotone(a / 10, w - 1);
    } else {
      assert Pow10(w) >= 10;
    }
  }

  lemma {:induction false} KeyOf(at: nat)
    requires at < Pow10(WIDTH)
    ensures GenRFKey(at) == PREFIX + Padded(at, WIDTH)
  {
    DigitCountIsMonotone(at, WIDTH);
    hide Padded, DigitCount, Pow10;
  }

  /** Keys of 13-digit timestamps sort like the timestamps. */
  lemma KeyOrder(a: nat, b: nat)
    requires a < Pow10(WIDTH) && b < Pow10(WIDTH)
    ensures KeyLess(GenRFKey(a), GenRFKey(b)) <==> a < b
  {
    KeyOf(a);
    KeyOf(b);
    SamePrefix(PREFIX, Padded(a, WIDTH), Padded(b, WIDTH));
    PaddedOrder(a, b, WIDTH);
    hide Padded, DigitCount, Pow10, KeyLess, GenRFKey;
  }

  lemma Powers()
    ensures Pow10(13) == 10000000000000 && Pow10(18) == 1000000000000000000
    ensures Pow10(19) == 10000000000000000000
  {
    assert Pow10(3) == 1000;
    assert Pow10(6) == 1000000;
    assert Pow10(9) == 1000000000;
    assert Pow10(12) == 1000000000000;
    assert Pow10(15) == 1000000000000000;
    assert Pow10(18) == 1000000000000000000;
  }

  lemma {:induction false} LongKey(n: nat)
    requires Pow10(18) <= n < Pow10(19)
    ensures GenRFKey(n) == PREFIX + Padded(n, 19)
  {
    DigitCountIsMonotone(n, 19);
    DigitCountIsMonotone(n, 18);
    hide Padded, DigitCount, Pow10;
  }

  lemma {:induction false} LongKeyShape(n: nat) returns (tail: string)
    requires Pow10(18) <= n < Pow10(19)
    ensures GenRFKey(n) == PREFIX + (Padded(Shifted(n, 6), WIDTH) + tail) && tail != ""
  {
    hide Padded, DigitCount, Pow10, Shifted, GenRFKey;
    LongKey(n);
    LeadingDigits(n, WIDTH, 6);
    var e := Padded(n, 19);
    tail := e[WIDTH..];
    assert e == e[..WIDTH] + tail;
  }

  lemma SixDigitsOff()
    ensures Shifted(MAX_INT64, 6) == MAX_AT
  {
    assert Shifted(922337203685477580, 5) == Shifted(92233720368547758, 4) == Shifted(9223372036854775, 3);
    assert Shifted(9223372036854775, 3) == Shifted(922337203685477, 2) == Shifted(92233720368547, 1);
  }

  /** The open-ended end key lies above exactly the keys up to MAX_AT. */
  lemma EndKeyCovers(a: nat)
    requires a < Pow10(WIDTH)
    ensures KeyLess(GenRFKey(a), GenRFKey(MAX_INT64)) <==> a <= MAX_AT
  {
    Powers();
    var n := MAX_INT64;
    SixDigitsOff();
    var tail := LongKeyShape(n);
    KeyOf(a);
    var x, y := Padded(a, WIDTH), Padded(Shifted(n, 6), WIDTH);
    PaddedOrder(a, Shifted(n, 6), WIDTH);
    hide Padded, DigitCount, Pow10, KeyLess, GenRFKey;
    SamePrefix(PREFIX, x, y + tail);
    LessThanLonger(x, y, tail);
  }

  lemma {:induction false} ParsePadded(n: nat, w: nat)
    requires n < Pow10(w)
    ensures ParseDigits(Padded(n, w)) == Some(n)
  {
    if w == 0 {
    } else {
      ParsePadded(n / 10, w - 1);
      assert Padded(n, w)[..w-1] == Padded(n / 10, w - 1);
    }
  }

  /** Parsing a key gives back its timestamp. */
  lemma KeyRoundTrip(at: nat)
    requires at <= MAX_INT64
    ensures ParseRFKey(GenRFKey(at)) == Some(at)
  {
    var w := DigitCount(at);
    var v := if w < WIDTH then WIDTH else w;
    assert GenRFKey(at)[|PREFIX|..] == Padded(at, v) == Unsigned(Padded(at, v));
    DigitCountIsMonotone(at, v);
    ParsePadded(at, v);
  }

  // ----- The characters of a key -----

  lemma {:induction false} DigitsOf(n: nat, w: nat, j: nat)
    requires j < w
    ensures Padded(n, w)[j] as int - '0' as int == n / Pow10(w - 1 - j) % 10
  {
    if j == w - 1 {
      assert Pow10(0) == 1;
    } else {
      DigitsOf(n / 10, w - 1, j);
      TenTimes(n, Pow10(w - 2 - j));
      assert Padded(n, w)[j] == Padded(n / 10, w - 1)[j];
    }
  }

  lemma TenTimes(n: nat, p: nat)
    requires p > 0
    ensures n / 10 / p == n / (10 * p)
  {
    var d := 10 * p;
    DivMod(n, d);
    Regrouped(d, p, n / d);
    Nested(n, p, n / d, n % d, n / d * p);
  }

  lemma DivMod(n: nat, d: nat)
    requires d > 0
    ensures n / d >= 0 && n == n / d * d + n % d && n % d < d
  {
  }

  lemma Regrouped(d: nat, p: nat, q: nat)
    requires d == 10 * p
    ensures q * d == 10 * (q * p)
  {
  }

  lemma Nested(n: nat, p: nat, q: nat, r: nat, x: int)
    requires x == q * p && n == 10 * x + r && r < 10 * p
    ensures n / 10 / p == q
  {
    Quotient(n / 10, p, q, r / 10, x);
  }

  lemma Quotient(n: nat, p: nat, q: nat, r: nat, x: int)
    requires x == q * p && n == x + r && r < p
    ensures n / p == q
  {
    var d := n / p;
    assert n == p * d + n % p;
    assert (d - q) * p == r - n % p && (q - d) * p == n % p - r;
    if d > q {
      AtLeast(d - q, p);
    } else if d < q {
      AtLeast(q - d, p);
    }
  }

  lemma AtLeast(k: nat, p: nat)
    requires k >= 1
    ensures k * p >= p
  {
    assert k * p == (k - 1) * p + p;
  }

  /** A key is "raw/" and the decimal digits of the timestamp, with zeros in front if there are fewer than 13. */
  lemma {:induction false} KeyInDigits(at: nat)
    ensures var (key, w) := (GenRFKey(at), |GenRFKey(at)| - 4);
            && w >= 13 && key[..4] == "raw/" && at < Pow10(w) && (w > 13 ==> at >= Pow10(w - 1))
            && forall j :: 4 <= j < |key| ==> key[j] as int - '0' as int == at / Pow10(|key| - 1 - j) % 10
  {
    var (key, w) := (GenRFKey(at), |GenRFKey(at)| - 4);
    hide Pow10, Padded;
    DigitCountIsMonotone(at, w);
    if w > 13 {
      DigitCountIsMonotone(at, w - 1);
    }
    hide DigitCount;
    forall j | 4 <= j < |key| ensures key[j] as int - '0' as int == at / Pow10(|key| - 1 - j) % 10 {
      DigitsOf(at, w, j - 4);
      assert key[j] == Padded(at, w)[j-4];
    }
  }

  predicate AllDigits(s: string) { forall j :: 0 <= j < |s| ==> '0' <= s[j] <= '9' }

  lemma {:induction false} ParsedIsPadded(s: string)
    ensures ParseDigits(s).Some? <==> AllDigits(s)
    ensures ParseDigits(s).Some? ==> ParseDigits(s).value < Pow10(|s|) && s == Padded(ParseDigits(s).value, |s|)
  {
    if s == "" {
    } else {
      var k := |s| - 1;
      LastDigit(s);
      ParsedIsPadded(s[..k]);
      hide ParseDigits, Padded, Pow10;
      assert s == s[..k] + [s[k]];
      if ParseDigits(s).Some? {
        OneMoreDigit(ParseDigits(s[..k]).value, s[k] as int - '0' as int, k);
      }
    }
  }

  lemma {:induction false} LastDigit(s: string)
    requires s != ""
    ensures var (before, c) := (ParseDigits(s[..|s|-1]), s[|s|-1]);
            && (ParseDigits(s).Some? <==> before.Some? && '0' <= c <= '9')
            && (ParseDigits(s).Some? ==> ParseDigits(s).value == 10 * before.value + (c as int - '0' as int))
    ensures AllDigits(s) <==> AllDigits(s[..|s|-1]) && '0' <= s[|s|-1] <= '9'
  {
    assert s == s[..|s|-1] + [s[|s|-1]];
  }

  lemma OneMoreDigit(m: nat, d: nat, w: nat)
    requires m < Pow10(w) && d < 10
    ensures 10 * m + d < Pow10(w + 1) && Padded(10 * m + d, w + 1) == Padded(m, w) + [Digit(d)]
  {
  }

  /** These are decimal digits of the number. */
  predicate SpellsNumber(s: string, n: nat) {
    && AllDigits(s) && n < Pow10(|s|)
    && forall j :: 0 <= j < |s| ==> s[j] as int - '0' as int == n / Pow10(|s| - 1 - j) % 10
  }

  lemma {:induction false} ParsedDigitsIff(s: string, n: nat)
    ensures ParseDigits(s) == Some(n) <==> SpellsNumber(s, n)
  {
    ParsedIsPadded(s);
    forall j | 0 <= j < |s| ensures Padded(n, |s|)[j] as int - '0' as int == n / Pow10(|s| - 1 - j) % 10 {
      DigitsOf(n, |s|, j);
    }
    hide ParseDigits, Padded, Pow10;
    if SpellsNumber(s, n) {
      assert s == Padded(n, |s|);
      ParsePadded(n, |s|);
    }
  }

  /** A key is parsed exactly if behind its first four characters there are digits, perhaps with a sign in front, and
      their number fits in 64 bits with sign. */
  lemma {:induction false} ParsedIff(key: string, v: int)
    ensures |key| <= 4 ==> ParseRFKey(key) == None
    ensures |key| > 4 ==>
              var t := key[4..];
              var d := if t[0] == '+' || t[0] == '-' then t[1..] else t;
              ParseRFKey(key) == Some(v) <==>
              && -0x8000_0000_0000_0000 <= v < 0x8000_0000_0000_0000
              && (v < 0 ==> t[0] == '-') && (v > 0 ==> t[0] != '-')
              && d != "" && SpellsNumber(d, if v < 0 then -v else v)
    ensures forall d: string, n: nat ::
              SpellsNumber(d, n) <==>
              && (forall j :: 0 <= j < |d| ==> '0' <= d[j] <= '9') && n < Pow10(|d|)
              && forall j :: 0 <= j < |d| ==> d[j] as int - '0' as int == n / Pow10(|d| - 1 - j) % 10
  {
    if |key| > 4 {
      var t := key[4..];
      SignedIff(t, v);
      ParsedDigitsIff(Unsigned(t), if v < 0 then -v else v);
      hide ParseDigits, ParseInt, Pow10;
    }
  }

  lemma SignedIff(s: string, v: int)
    ensures ParseInt(s) == Some(v) <==>
              && Unsigned(s) != "" && -0x8000_0000_0000_0000 <= v < 0x8000_0000_0000_0000
              && (v < 0 ==> Negative(s)) && (v > 0 ==> !Negative(s))
              && ParseDigits(Unsigned(s)) == Some(if v < 0 then -v else v)
  {
    hide ParseDigits, Unsigned, Negative;
  }

  /** The order of the store: one key lies below another if it is the beginning of it, or smaller at the first place
      where they differ. */
  lemma {:induction false} KeyLessIff(a: string, b: string)
    ensures KeyLess(a, b) <==> exists k :: 0 <= k <= |a| && k < |b| && a[..k] == b[..k] && (k == |a| || a[k] < b[k])
  {
    if a == "" || b == "" {
      assert b != "" ==> a[..0] == b[..0];
    } else {
      KeyLessIff(a[1..], b[1..]);
      if a[0] < b[0] {
        assert a[..0] == b[..0];
      }
      var (x, y) := (a[1..], b[1..]);
      if k :| 0 <= k <= |x| && k < |y| && x[..k] == y[..k] && (k == |x| || x[k] < y[k]) {
        if a[0] == b[0] {
          assert a[..k+1] == [a[0]] + x[..k] && b[..k+1] == [b[0]] + y[..k];
        }
      }
      if k :| 0 <= k <= |a| && k < |b| && a[..k] == b[..k] && (k == |a| || a[k] < b[k]) {
        if k > 0 {
          assert a[..k][0] == b[..k][0];
          assert a[1..][..k-1] == a[..k][1..] && b[1..][..k-1] == b[..k][1..];
        }
      }
    }
  }

  /** In figures: the open end of a range, the greatest 64-bit number with sign, covers exactly the 13-digit times up
      to 9223372036854. */
  lemma RangeEnd(a: nat)
    requires a < 10000000000000
    ensures KeyLess(GenRFKey(a), GenRFKey(9223372036854775807)) <==> a <= 9223372036854
  {
    Powers();
    EndKeyCovers(a);
    hide KeyLess, GenRFKey, Pow10;
  }
}
