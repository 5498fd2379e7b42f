/** Number printing: `itoa`, its in-place reversal, and the fixed-width `%#x` conversion, against numerals
    and a reader for them. */
module Numbers {
  import opened Words

  // ----- numerals and how to read them -----

  function Digit(d: nat): char
    requires d < 36
  {
    if d < 10 then '0' + d as char else 'A' + (d - 10) as char
  }

  /** The digits are 0 to 9 and then A to Z, in order. */
  lemma DigitsInOrder(d: nat)
    requires d < 36
    ensures Digit(0) == '0' && Digit(9) == '9' && Digit(10) == 'A' && Digit(35) == 'Z'
    ensures d != 9 && d != 35 ==> Digit(d + 1) as int == Digit(d) as int + 1
  {
  }

  /** `lookup[i]` in `itoa`. */
  method LookUp(i: nat) returns (c: char)
    requires i < 36
    ensures c == Digit(i)
  {
    c := "0123456789ABCDEFGHIJKLMNOPQRSTUVWXYZ"[i];
  }

  lemma QuotientShrinks(value: nat, radix: nat)
    requires radix >= 2
    ensures value >= radix ==> 0 < value / radix
    ensures value > 0 ==> value / radix < value
    ensures 0 <= value % radix < radix
    ensures value / radix * radix + value % radix == value
  {
  }

  /** The numeral of a number: most significant digit first. */
  function Numeral(value: nat, radix: nat): (s: string)
    requires 2 <= radix <= 36
    ensures |s| > 0 && '\0' !in s
  {
    if value < radix then [Digit(value)]
    else
      QuotientShrinks(value, radix);
      Numeral(value / radix, radix) + [Digit(value % radix)]
  }

  function DigitValue(c: char): nat {
    if '0' <= c <= '9' then (c - '0') as nat
    else if 'A' <= c <= 'Z' then (c - 'A') as nat + 10
    else 36
  }

  /** Reads a string of digits, from left to right. */
  function Parse(s: string, radix: nat): Option<nat>
    requires 2 <= radix <= 36
  {
    if s == "" then None
    else
      var d := DigitValue(s[|s| - 1]);
      if d >= radix then None
      else if |s| == 1 then Some(d)
      else
        var high := Parse(s[..|s| - 1], radix);
        if high.None? then None else Some(high.value * radix + d)
  }

  lemma ParseStep(high: string, d: nat, radix: nat)
    requires 2 <= radix <= 36 && d < radix && Parse(high, radix).Some?
    ensures Parse(high + [Digit(d)], radix) == Some(Parse(high, radix).value * radix + d)
  {
    assert (high + [Digit(d)])[..|high|] == high;
  }

  /** Reading a numeral back in the same radix gives the number, and only zero begins with a zero. */
  lemma {:induction false} NumeralRoundTrip(value: nat, radix: nat)
    requires 2 <= radix <= 36
    ensures Parse(Numeral(value, radix), radix) == Some(value)
    ensures Numeral(value, radix)[0] == '0' <==> value == 0
  {
    if value >= radix {
      QuotientShrinks(value, radix);
      NumeralRoundTrip(value / radix, radix);
      ParseStep(Numeral(value / radix, radix), value % radix, radix);
    }
  }

  predicate Canonical(s: string, radix: nat)
    requires 2 <= radix <= 36
  {
    Parse(s, radix).Some? && (s[0] == '0' ==> |s| == 1)
  }

  lemma {:induction false} CanonicalPositive(s: string, radix: nat)
    requires 2 <= radix <= 36 && Canonical(s, radix) && |s| > 1
    ensures Parse(s, radix).value >= radix
    decreases |s|
  {
    var high := s[..|s| - 1];
    if |high| > 1 {
      CanonicalPositive(high, radix);
    }
    AtLeast(Parse(high, radix).value, radix);
  }

  lemma AtLeast(x: nat, radix: nat)
    requires x >= 1
    ensures x * radix >= radix
  {
  }

  /** A number has one quotient and one remainder. */
  lemma Divide(x: nat, d: nat, radix: nat)
    requires radix >= 2 && d < radix
    ensures (x * radix + d) / radix == x && (x * radix + d) % radix == d
  {
    var v := x * radix + d;
    QuotientShrinks(v, radix);
    SameQuotient(x, d, v / radix, v % radix, radix);
  }

  lemma SameQuotient(x: nat, d: nat, q: nat, r: nat, radix: nat)
    requires d < radix && r < radix && x * radix + d == q * radix + r
    ensures x == q && d == r
  {
    if q > x {
      Ordered(x + 1, q, radix);
      OneMore(x, radix);
    } else if q < x {
      Ordered(q + 1, x, radix);
      OneMore(q, radix);
    }
  }

  lemma OneMore(x: nat, radix: nat)
    ensures (x + 1) * radix == x * radix + radix
  {
  }

  lemma Ordered(a: nat, b: nat, c: nat)
    requires a <= b
    ensures a * c <= b * c
  {
  }

  /** The numerals are exactly the digit strings without leading zeros: each is the numeral of what it reads as. */
  lemma {:induction false} ParseRoundTrip(s: string, radix: nat)
    requires 2 <= radix <= 36 && Canonical(s, radix)
    ensures Numeral(Parse(s, radix).value, radix) == s
    decreases |s|
  {
    if |s| > 1 {
      var high, d := s[..|s| - 1], DigitValue(s[|s| - 1]);
      ParseRoundTrip(high, radix);
      CanonicalPositive(s, radix);
      Divide(Parse(high, radix).value, d, radix);
      assert s == high + [s[|s| - 1]];
    }
  }

  function Power(radix: nat, n: nat): nat {
    if n == 0 then 1 else radix * Power(radix, n - 1)
  }

  lemma BelowPower(value: nat, radix: nat, p: nat)
    requires radix >= 2
    ensures value < radix * p <==> value / radix < p
  {
    QuotientShrinks(value, radix);
    var q := value / radix;
    if q >= p {
      Ordered(p, q, radix);
    } else {
      Ordered(q + 1, p, radix);
    }
  }

  /** A numeral has at most `n` digits exactly when the number is below `radix` to the `n`. */
  lemma {:induction false} NumeralLength(value: nat, radix: nat, n: nat)
    requires 2 <= radix <= 36 && n >= 1
    ensures |Numeral(value, radix)| <= n <==> value < Power(radix, n)
    decreases n
  {
    BelowPower(value, radix, Power(radix, n - 1));
    if value >= radix {
      QuotientShrinks(value, radix);
      if n > 1 {
        NumeralLength(value / radix, radix, n - 1);
      }
    } else {
      PowerPositive(radix, n - 1);
    }
  }

  lemma {:induction false} PowerPositive(radix: nat, n: nat)
    requires radix >= 2
    ensures Power(radix, n) >= 1
    ensures radix * Power(radix, n) >= radix
  {
    if n > 0 {
      PowerPositive(radix, n - 1);
    }
    AtLeast(Power(radix, n), radix);
  }

  // ----- the code -----

  /** The string at `at` has `n` characters before its terminator. */
  ghost predicate StringAt(s: array<char>, at: nat, n: nat)
    reads s
  {
    && at + n < s.Length && s[at + n] == '\0'
    && forall j :: at <= j < at + n ==> s[j] != '\0'
  }

  /** `strlen` */
  method StrLen(s: array<char>, at: nat, ghost n: nat) returns (len: nat)
    requires StringAt(s, at, n)
    ensures len == n
  {
    len := 0;
    while s[at + len] != '\0'
      invariant len <= n
      decreases n - len
    {
      len := len + 1;
    }
  }

  /** `strrev`: reverses the string in place. */
  method StrRev(s: array<char>, at: nat, ghost n: nat)
    requires StringAt(s, at, n)
    modifies s
    ensures forall j :: at <= j < at + n ==> s[j] == old(s[2 * at + n - 1 - j])
    ensures forall j :: 0 <= j < s.Length && !(at <= j < at + n) ==> s[j] == old(s[j])
  {
    var beg := 0;
    var len: int := StrLen(s, at, n);
    var end: int := len - 1;
    while beg < end
      invariant 0 <= beg <= n && end == n - 1 - beg && beg <= end + 1
      invariant forall j :: at <= j < at + beg ==> s[j] == old(s[2 * at + n - 1 - j])
      invariant forall j :: at + end < j < at + n ==> s[j] == old(s[2 * at + n - 1 - j])
      invariant forall j :: 0 <= j < s.Length && !(at <= j < at + beg) && !(at + end < j < at + n) ==> s[j] == old(s[j])
    {
      var tmp := s[at + end];
      s[at + end] := s[at + beg];
      s[at + beg] := tmp;
      beg := beg + 1;
      end := end - 1;
    }
  }

  /** What is left of the numeral once its low digits have been written. */
  function Remaining(value: nat, radix: nat): string
    requires 2 <= radix <= 36
  {
    if value == 0 then "" else Numeral(value, radix)
  }

  lemma RemainingStep(value: nat, radix: nat)
    requires 2 <= radix <= 36 && value > 0
    ensures value % radix < 36 && 0 <= value / radix < value
    ensures Remaining(value, radix) == Remaining(value / radix, radix) + [Digit(value % radix)]
  {
    QuotientShrinks(value, radix);
    if value < radix {
      Divide(0, value, radix);
    }
  }

  /** The loop of `itoa`: the digits from the lowest place up, and the terminator. */
  method WriteDigits(value: uint32, buf: array<char>, at: nat, radix: int)
    requires value > 0 && 2 <= radix <= 36 && at + |Numeral(value, radix)| < buf.Length
    modifies buf
    ensures StringAt(buf, at, |Numeral(value, radix)|)
    ensures var s := Numeral(value, radix); forall j :: at <= j < at + |s| ==> buf[j] == s[at + |s| - 1 - j]
    ensures forall j :: 0 <= j < buf.Length && !(at <= j <= at + |Numeral(value, radix)|) ==> buf[j] == old(buf[j])
  {
    ghost var s := Numeral(value, radix);
    var n: nat, newval: nat := 0, value;
    while newval > 0
      invariant 0 <= n <= |s| && 0 <= newval && Remaining(newval, radix) == s[..|s| - n]
      invariant forall j :: at <= j < at + n ==> buf[j] == s[at + |s| - 1 - j]
      invariant forall j :: 0 <= j < buf.Length && !(at <= j < at + n) ==> buf[j] == old(buf[j])
    {
      RemainingStep(newval, radix);
      var c := LookUp(newval % radix);
      buf[at + n] := c;
      n := n + 1;
      newval := newval / radix;
    }
    buf[at + n] := '\0';
    assert n == |s|;
  }

  /** `itoa`: low digits first, then reversed in place. */
  method Itoa(value: uint32, buf: array<char>, at: nat, radix: int)
    requires 2 <= radix <= 36 && at + |Numeral(value, radix)| < buf.Length
    modifies buf
    ensures var s := Numeral(value, radix); buf[at..at + |s|] == s && buf[at + |s|] == '\0'
    ensures forall j :: 0 <= j < buf.Length && !(at <= j <= at + |Numeral(value, radix)|) ==> buf[j] == old(buf[j])
  {
    if value == 0 {
      buf[at] := '0';
      buf[at + 1] := '\0';
    } else {
      WriteDigits(value, buf, at, radix);
      StrRev(buf, at, |Numeral(value, radix)|);
    }
  }

  /** The characters `puts` shows: up to the terminator. */
  method Puts(s: array<char>, at: nat, ghost n: nat) returns (shown: string)
    requires StringAt(s, at, n)
    ensures shown == s[at..at + n]
  {
    var index := 0;
    shown := "";
    while s[at + index] != '\0'
      invariant 0 <= index <= n && shown == s[at..at + index]
      decreases n - index
    {
      shown := shown + [s[at + index]];
      index := index + 1;
    }
  }

  function Zeros(n: nat): (s: string)
    ensures |s| == n && forall j :: 0 <= j < n ==> s[j] == '0'
  {
    seq(n, _ => '0')
  }

  lemma {:induction false} ZerosBefore(n: nat, s: string, radix: nat)
    requires 2 <= radix <= 36 && Parse(s, radix).Some?
    ensures Parse(Zeros(n) + s, radix) == Parse(s, radix)
    decreases |s|
  {
    hide DigitValue;
    var t := Zeros(n) + s;
    assert t[|t| - 1] == s[|s| - 1];
    assert t[..|t| - 1] == Zeros(n) + s[..|s| - 1];
    if |s| == 1 {
      assert t[..|t| - 1] == Zeros(n);
      if n > 0 {
        ZerosAreZero(n, radix);
      }
    } else {
      ZerosBefore(n, s[..|s| - 1], radix);
    }
  }

  lemma {:induction false} ZerosAreZero(n: nat, radix: nat)
    requires 2 <= radix <= 36 && n > 0
    ensures Parse(Zeros(n), radix) == Some(0)
  {
    if n > 1 {
      ZerosAreZero(n - 1, radix);
      assert Zeros(n)[..n - 1] == Zeros(n - 1);
    }
  }

  lemma HexFits(value: uint32)
    ensures |Numeral(value, 16)| <= 8
  {
    assert Power(16, 4) == 0x1_0000;
    assert Power(16, 8) == 0x1_0000_0000;
    NumeralLength(value, 16, 8);
  }

  /** The `%#x` case of `printf`: exactly eight digits, which read back as the value. */
  method PrintAlternateHex(value: uint32) returns (shown: string)
    ensures |shown| == 8 && Parse(shown, 16) == Some(value)
  {
    hide Numeral, Parse, Zeros;
    HexFits(value);
    ghost var s := Numeral(value, 16);
    var convBuf := new char[64];
    Itoa(value, convBuf, 8, 16);
    forall j | 8 <= j < 8 + |s| ensures convBuf[j] == s[j - 8] {
      assert convBuf[j] == convBuf[8..8 + |s|][j - 8];
    }
    var startingIndex := StrLen(convBuf, 8, |s|);
    PadLeft(convBuf, startingIndex);
    shown := Puts(convBuf, startingIndex, 8);
    Padded(shown, s);
    NumeralRoundTrip(value, 16);
    ZerosBefore(8 - |s|, s, 16);
  }

  /** Fills `s[i..8]` with zeros. */
  method PadLeft(s: array<char>, start: nat)
    requires start <= 8 <= s.Length
    modifies s
    ensures forall j :: 0 <= j < s.Length ==> s[j] == if start <= j < 8 then '0' else old(s[j])
  {
    var i := start;
    while i < 8
      invariant start <= i <= 8
      invariant forall j :: 0 <= j < s.Length ==> s[j] == if start <= j < i then '0' else old(s[j])
    {
      s[i] := '0';
      i := i + 1;
    }
  }

  lemma Padded(shown: string, s: string)
    requires |s| <= |shown| && forall j :: 0 <= j < |shown| - |s| ==> shown[j] == '0'
    requires forall j :: |shown| - |s| <= j < |shown| ==> shown[j] == s[j - (|shown| - |s|)]
    ensures shown == Zeros(|shown| - |s|) + s
  {
  }
}
