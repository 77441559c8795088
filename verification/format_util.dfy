/**
 * String and integer helpers of `FormatUtil` (src/FormatUtil.h): style
 * characters, trimming, clamped substrings and the overflow-checked integer
 * parser the directive grammar is built on.
 */
module FormatUtil {
  import opened Wrappers
  import opened FormatAlign

  /** 2^64: `unsigned long long` and `size_t` are 64 bits wide. */
  const U64Limit: nat := 0x1_0000_0000_0000_0000

  /** One more than the largest `size_t`. */
  const SizeLimit: nat := U64Limit

  /** The default character set of `trim`: " \t\n\v\f\r". */
  const Whitespace: string := [' ', '\t', '\n', 11 as char, 12 as char, '\r']

  /** `a` is a tail of `b`: what a parser leaves of its input. */
  predicate IsSuffix(a: string, b: string) {
    |a| <= |b| && a == b[|b| - |a|..]
  }

  lemma SuffixTransitive(a: string, b: string, c: string)
    requires IsSuffix(a, b) && IsSuffix(b, c)
    ensures IsSuffix(a, c)
  {
    assert c[|c| - |b|..][|b| - |a|..] == c[|c| - |a|..];
  }

  function Min(a: nat, b: nat): nat {
    if a <= b then a else b
  }

  /** `TranslateLocChar`: the alignment style a layout character names, if any. */
  function TranslateLocChar(c: char): (r: Option<AlignStyle>)
    ensures r.Some? ==> StyleChar(r.value) == c
    ensures r.None? ==> forall s :: StyleChar(s) != c
  {
    match c
    case '-' => Some(Left)
    case '=' => Some(Center)
    case '+' => Some(Right)
    case _ => None
  }

  // ---------------------------------------------------------------------------
  // Trimming

  /** `std::string::find_first_not_of(chars)`; `None` is `npos`. */
  function FindFirstNotOf(s: string, chars: string): (r: Option<nat>)
    ensures r.Some? ==> r.value < |s| && s[r.value] !in chars
    ensures r.Some? ==> forall j :: 0 <= j < r.value ==> s[j] in chars
    ensures r.None? ==> forall j :: 0 <= j < |s| ==> s[j] in chars
  {
    if s == [] then None
    else if s[0] !in chars then Some(0)
    else
      match FindFirstNotOf(s[1..], chars)
      case None => None
      case Some(k) => Some(k + 1)
  }

  /** `std::string::find_last_not_of(chars)`; `None` is `npos`. */
  function FindLastNotOf(s: string, chars: string): (r: Option<nat>)
    ensures r.Some? ==> r.value < |s| && s[r.value] !in chars
    ensures r.Some? ==> forall j :: r.value < j < |s| ==> s[j] in chars
    ensures r.None? ==> forall j :: 0 <= j < |s| ==> s[j] in chars
  {
    if s == [] then None
    else if s[|s| - 1] !in chars then Some(|s| - 1)
    else FindLastNotOf(s[..|s| - 1], chars)
  }

  /** `ltrim`: drop the leading characters that belong to `chars`. */
  function LTrim(s: string, chars: string): (r: string)
    ensures |r| <= |s| && r == s[|s| - |r|..]
    ensures forall j :: 0 <= j < |s| - |r| ==> s[j] in chars
    ensures r == [] || r[0] !in chars
  {
    match FindFirstNotOf(s, chars)
    case None => []
    case Some(b) => s[b..]
  }

  /** `rtrim`: drop the trailing characters that belong to `chars`. */
  function RTrim(s: string, chars: string): (r: string)
    ensures |r| <= |s| && r == s[..|r|]
    ensures forall j :: |r| <= j < |s| ==> s[j] in chars
    ensures r == [] || r[|r| - 1] !in chars
  {
    match FindLastNotOf(s, chars)
    case None => []
    case Some(e) => s[..e + 1]
  }

  /**
   * `trim`: the piece of `s` left once every surrounding character from
   * `chars` is removed; it starts where `ltrim` stops.
   */
  function Trim(s: string, chars: string): (r: string)
    ensures var a := |s| - |LTrim(s, chars)|;
      && a + |r| <= |s|
      && r == s[a..a + |r|]
      && (forall j :: a + |r| <= j < |s| ==> s[j] in chars)
    ensures r == [] || (r[0] !in chars && r[|r| - 1] !in chars)
    ensures r == [] <==> forall j :: 0 <= j < |s| ==> s[j] in chars
  {
    var left := LTrim(s, chars);
    TrimOfParts(s, chars, left, RTrim(left, chars));
    RTrim(left, chars)
  }

  /**
   * The facts `trim` promises, from what `ltrim` promises about `left` and
   * what `rtrim` promises about `r`.
   */
  lemma TrimOfParts(s: string, chars: string, left: string, r: string)
    requires |left| <= |s| && left == s[|s| - |left|..]
    requires forall j :: 0 <= j < |s| - |left| ==> s[j] in chars
    requires left == [] || left[0] !in chars
    requires |r| <= |left| && r == left[..|r|]
    requires forall j :: |r| <= j < |left| ==> left[j] in chars
    requires r == [] || r[|r| - 1] !in chars
    ensures var a := |s| - |left|;
      && a + |r| <= |s|
      && r == s[a..a + |r|]
      && (forall j :: a + |r| <= j < |s| ==> s[j] in chars)
    ensures r == [] || (r[0] !in chars && r[|r| - 1] !in chars)
    ensures r == [] <==> forall j :: 0 <= j < |s| ==> s[j] in chars
  {
    var a := |s| - |left|;
    assert left[..|r|] == s[a..a + |r|];
    forall j | a + |r| <= j < |s|
      ensures s[j] in chars
    {
      assert s[j] == left[j - a];
    }
    if r != [] {
      assert r[0] == left[0];
    } else {
      assert left == [];
    }
  }

  /** A string that starts and ends outside `chars` is its own trim. */
  lemma TrimKeeps(s: string, chars: string)
    requires s == [] || (s[0] !in chars && s[|s| - 1] !in chars)
    ensures Trim(s, chars) == s
  {
    if s != [] {
      assert FindFirstNotOf(s, chars) == Some(0);
      assert FindLastNotOf(s, chars) == Some(|s| - 1);
    }
  }

  /** Trimming twice is trimming once. */
  lemma TrimIdempotent(s: string, chars: string)
    ensures Trim(Trim(s, chars), chars) == Trim(s, chars)
  {
    TrimKeeps(Trim(s, chars), chars);
  }

  // ---------------------------------------------------------------------------
  // Integer parsing

  /** `std::isdigit` in the "C" locale. */
  predicate IsDigit(c: char) {
    '0' <= c <= '9'
  }

  /** The digit value `consumeUnsignedInteger` gives a character: 0-9, then a-z and A-Z as 10-35. */
  function CharValue(c: char): (r: Option<nat>)
    ensures r.Some? ==> r.value < 36
    ensures IsDigit(c) <==> r.Some? && r.value < 10
  {
    if '0' <= c <= '9' then Some(c as nat - '0' as nat)
    else if 'a' <= c <= 'z' then Some(c as nat - 'a' as nat + 10)
    else if 'A' <= c <= 'Z' then Some(c as nat - 'A' as nat + 10)
    else None
  }

  /** A character `consumeUnsignedInteger` accepts as a digit in `radix`. */
  predicate IsRadixDigit(c: char, radix: nat) {
    CharValue(c).Some? && CharValue(c).value < radix
  }

  /** Every character of `ds` is a digit in `radix`. */
  predicate AllRadixDigits(ds: string, radix: nat) {
    forall i :: 0 <= i < |ds| ==> IsRadixDigit(ds[i], radix)
  }

  /** The length of the longest prefix of `s` made of digits in `radix`. */
  function DigitRun(s: string, radix: nat): (n: nat)
    ensures n <= |s|
    ensures AllRadixDigits(s[..n], radix)
    ensures n == |s| || !IsRadixDigit(s[n], radix)
  {
    if s == [] || !IsRadixDigit(s[0], radix) then 0 else 1 + DigitRun(s[1..], radix)
  }

  /** The mathematical value of the digits `ds` read after a prefix worth `acc`. */
  function Horner(acc: nat, ds: string, radix: nat): nat
    requires AllRadixDigits(ds, radix)
    decreases |ds|
  {
    if ds == [] then acc
    else
      assert IsRadixDigit(ds[0], radix);
      Horner(acc * radix + CharValue(ds[0]).value, ds[1..], radix)
  }

  /** Reading more digits never makes the value smaller. */
  lemma {:induction false} HornerGrows(acc: nat, ds: string, radix: nat)
    requires radix >= 1 && AllRadixDigits(ds, radix)
    ensures Horner(acc, ds, radix) >= acc
    decreases |ds|
  {
    if ds != [] {
      assert IsRadixDigit(ds[0], radix);
      var next := acc * radix + CharValue(ds[0]).value;
      MulMonotone(1, radix, acc);
      assert acc <= next;
      HornerGrows(next, ds[1..], radix);
      assert Horner(acc, ds, radix) == Horner(next, ds[1..], radix);
    }
  }

  /** Reading `a + b` is reading `a`, then `b` from where `a` left off. */
  lemma {:induction false} HornerAppend(acc: nat, a: string, b: string, radix: nat)
    requires AllRadixDigits(a, radix) && AllRadixDigits(b, radix)
    ensures AllRadixDigits(a + b, radix)
    ensures Horner(acc, a + b, radix) == Horner(Horner(acc, a, radix), b, radix)
    decreases |a|
  {
    assert forall i :: 0 <= i < |a + b| ==> (a + b)[i] == if i < |a| then a[i] else b[i - |a|];
    if a != [] {
      assert IsRadixDigit(a[0], radix);
      var next := acc * radix + CharValue(a[0]).value;
      assert (a + b)[0] == a[0] && (a + b)[1..] == a[1..] + b;
      HornerAppend(next, a[1..], b, radix);
      assert Horner(acc, a + b, radix) == Horner(next, a[1..] + b, radix);
      assert Horner(acc, a, radix) == Horner(next, a[1..], radix);
    } else {
      assert a + b == b;
    }
  }

  /** `GetAutoSenseRadix` result: the radix and the string it leaves behind. */
  datatype Sensed = Sensed(radix: nat, str: string)

  /**
   * `GetAutoSenseRadix(str)`: a leading `0` followed by a digit means octal and
   * is removed from `str`; anything else is decimal and left alone.
   */
  function GetAutoSenseRadix(s: string): (r: Sensed)
    ensures r.radix == 8 || r.radix == 10
    ensures r.radix == 8 <==> |s| > 1 && s[0] == '0' && IsDigit(s[1])
    ensures r.radix == 8 ==> s == ['0'] + r.str
    ensures r.radix == 10 ==> r.str == s
  {
    if s == [] then Sensed(10, s)
    else if s[0] == '0' && |s| > 1 && IsDigit(s[1]) then Sensed(8, s[1..])
    else Sensed(10, s)
  }

  /** The radix and text `consumeUnsignedInteger` works on: radix 0 asks for auto-sensing. */
  function SenseRadix(s: string, radix: nat): (r: Sensed)
    ensures r.radix >= 1
  {
    if radix == 0 then GetAutoSenseRadix(s) else Sensed(radix, s)
  }

  /** Where the digit loop of `consumeUnsignedInteger` ends. */
  datatype DigitLoopExit =
    | Overflowed                              // the early `return true`
    | Stopped(result: nat, rest: string)      // `break` or end of input

  lemma MulMonotone(a: nat, b: nat, d: nat)
    ensures a <= b ==> a * d <= b * d
  {
  }

  lemma DivOfMulAdd(q: nat, d: nat, r: nat)
    requires d > 0 && r < d
    ensures (q * d + r) / d == q
  {
    var a := q * d + r;
    var q' := a / d;
    assert a == q' * d + a % d;
    MulMonotone(q + 1, q', d);
    MulMonotone(q' + 1, q, d);
    assert (q + 1) * d == q * d + d;
    assert (q' + 1) * d == q' * d + d;
  }

  lemma DivBelow(w: nat, d: nat, p: nat)
    requires d > 0
    ensures w < p * d ==> w / d < p
  {
    var q := w / d;
    assert q * d <= w;
    MulMonotone(p, q, d);
  }

  lemma ModOfLarge(v: nat, m: nat)
    requires m > 0
    ensures v >= m ==> v % m <= v - m
    ensures v < m ==> v % m == v
  {
    if v < m {
      DivOfMulAdd(0, m, v);
    }
    assert v == (v / m) * m + v % m;
    MulMonotone(1, v / m, m);
  }

  /** A value survives the cast to a type of `m` values exactly when it is below `m`. */
  lemma ModKeeps(x: nat, m: nat)
    requires m > 0
    ensures x % m == x <==> x < m
  {
    ModOfLarge(x, m);
  }

  /**
   * The overflow test `result / radix < prev_result` after the wrapping
   * multiply-add is exact: it fires precisely when the true value needs more
   * than 64 bits.
   */
  lemma WrapDetectsOverflow(prev: nat, radix: nat, cv: nat)
    requires 1 <= radix < U32Limit && cv < radix && prev < U64Limit
    ensures (prev * radix + cv) % U64Limit / radix < prev <==> prev * radix + cv >= U64Limit
  {
    var v := prev * radix + cv;
    var w := v % U64Limit;
    DivOfMulAdd(prev, radix, cv);
    ModOfLarge(v, U64Limit);
    DivBelow(w, radix, prev);
  }

  /** How one accepted digit advances the run and the value the loop is reading. */
  lemma DigitRunStep(str2: string, radix: nat, result: nat)
    requires str2 != [] && IsRadixDigit(str2[0], radix)
    ensures var n := DigitRun(str2, radix);
      && n >= 1
      && DigitRun(str2[1..], radix) == n - 1
      && str2[..n][1..] == str2[1..][..n - 1]
      && str2[n..] == str2[1..][n - 1..]
      && Horner(result, str2[..n], radix)
         == Horner(result * radix + CharValue(str2[0]).value, str2[1..][..n - 1], radix)
  {
  }

  /**
   * One pass of the digit loop on the digit at the front of `str2`, with the
   * unwrapped next value `v`: the wrap check fires exactly on overflow, an
   * overflow here dooms the whole run, and otherwise the wrapped value is `v`.
   */
  lemma DigitLoopStep(str2: string, radix: nat, result: nat, v: nat)
    requires 1 <= radix < U32Limit && result < U64Limit
    requires str2 != [] && IsRadixDigit(str2[0], radix)
    requires v == result * radix + CharValue(str2[0]).value
    ensures var n := DigitRun(str2, radix);
      && n >= 1
      && (v % U64Limit / radix < result <==> v >= U64Limit)
      && (v < U64Limit ==> v % U64Limit == v)
      && (v >= U64Limit ==> Horner(result, str2[..n], radix) >= U64Limit)
      && Horner(result, str2[..n], radix) == Horner(v, str2[1..][..n - 1], radix)
      && str2[n..] == str2[1..][n - 1..]
      && DigitRun(str2[1..], radix) == n - 1
  {
    WrapDetectsOverflow(result, radix, CharValue(str2[0]).value);
    ModOfLarge(v, U64Limit);
    DigitRunStep(str2, radix, result);
    HornerGrows(v, str2[1..][..DigitRun(str2, radix) - 1], radix);
  }

  /**
   * The digit loop of `consumeUnsignedInteger`, with its 64-bit wrap-around
   * accumulator: it either stops at the first non-digit with the value read so
   * far, or gives up as soon as the wrap check fires.
   */
  function DigitLoop(str2: string, radix: nat, result: nat): (r: DigitLoopExit)
    requires 1 <= radix < U32Limit && result < U64Limit
    ensures var n := DigitRun(str2, radix);
      && (r.Overflowed? <==> Horner(result, str2[..n], radix) >= U64Limit)
      && (r.Stopped? ==> r.result == Horner(result, str2[..n], radix) && r.rest == str2[n..])
    decreases |str2|
  {
    if str2 == [] || CharValue(str2[0]).None? || CharValue(str2[0]).value >= radix then
      assert DigitRun(str2, radix) == 0;
      Stopped(result, str2)
    else
      var charVal := CharValue(str2[0]).value;
      var v := result * radix + charVal;
      var next := v % U64Limit;
      DigitLoopStep(str2, radix, result, v);
      if next / radix < result then Overflowed
      else DigitLoop(str2[1..], radix, next)
  }

  /** What an integer parser leaves behind: the value (`None` on failure) and the string argument. */
  datatype Consumed = Consumed(value: Option<nat>, rest: string)

  /**
   * `consumeUnsignedInteger(str, radix, result)`: read the longest run of
   * digits; fail on an empty run or when the value needs more than 64 bits.
   * On failure `str` still loses the `0` that auto-sensing stripped.
   */
  function ConsumeUnsignedInteger(str: string, radix: nat): (r: Consumed)
    requires radix < U32Limit
    ensures var sensed := SenseRadix(str, radix);
      var n := DigitRun(sensed.str, sensed.radix);
      && (r.value.Some? <==> n > 0 && Horner(0, sensed.str[..n], sensed.radix) < U64Limit)
      && (r.value.Some? ==> r.value.value == Horner(0, sensed.str[..n], sensed.radix)
                            && r.rest == sensed.str[n..])
      && (r.value.None? ==> r.rest == sensed.str)
    ensures IsSuffix(r.rest, str)
    ensures r.value.Some? ==> |r.rest| < |str|
  {
    var sensed := SenseRadix(str, radix);
    var s := sensed.str;
    assert IsSuffix(s, str);
    assert forall n :: 0 <= n <= |s| ==> IsSuffix(s[n..], str) by {
      forall n | 0 <= n <= |s| ensures IsSuffix(s[n..], str) {
        SuffixTransitive(s[n..], s, str);
      }
    }
    if s == [] then Consumed(None, s)
    else
      match DigitLoop(s, sensed.radix, 0)
      case Overflowed => Consumed(None, s)
      case Stopped(v, str2) =>
        if |s| == |str2| then Consumed(None, s) else Consumed(Some(v), str2)
  }

  /**
   * `ConsumeInteger<T>` for an unsigned `T` whose values are below `typeLimit`:
   * the parsed value must survive the round trip through `T`.
   */
  function ConsumeInteger(str: string, radix: nat, typeLimit: nat): (r: Consumed)
    requires radix < U32Limit && 0 < typeLimit <= U64Limit
    ensures var c := ConsumeUnsignedInteger(str, radix);
      && r.rest == c.rest
      && (r.value.Some? <==> c.value.Some? && c.value.value < typeLimit)
      && (r.value.Some? ==> r.value == c.value)
    ensures IsSuffix(r.rest, str)
    ensures r.value.Some? ==> |r.rest| < |str|
  {
    var c := ConsumeUnsignedInteger(str, radix);
    if c.value.None? then Consumed(None, c.rest)
    else
      ModKeeps(c.value.value, typeLimit);
      if c.value.value % typeLimit != c.value.value then Consumed(None, c.rest) else c
  }

  // ---------------------------------------------------------------------------
  // Substrings and searching

  /** `take_while(str, f)`: the longest prefix whose characters all satisfy `f`. */
  function TakeWhile(s: string, f: char -> bool): (r: string)
    ensures r <= s
    ensures forall i :: 0 <= i < |r| ==> f(r[i])
    ensures |r| == |s| || !f(s[|r|])
  {
    if s == [] || !f(s[0]) then [] else [s[0]] + TakeWhile(s[1..], f)
  }

  /** `take_front(str, n)`: the first `n` characters, or all of them. */
  function TakeFront(s: string, n: nat): (r: string)
    ensures |r| == Min(n, |s|) && r <= s
  {
    s[..Min(n, |s|)]
  }

  /** `drop_front(str, n)`: `std::string::substr(n)`, which throws when `n` exceeds the size. */
  function DropFront(s: string, n: nat): (r: string)
    requires n <= |s|
    ensures |r| == |s| - n && s == s[..n] + r
  {
    s[n..]
  }

  /** `slice(str, start, end)`: both ends clamped to the string, never failing. */
  function Slice(s: string, start: nat, end: nat): (r: string)
    ensures |r| == if Min(end, |s|) <= Min(start, |s|) then 0 else Min(end, |s|) - Min(start, |s|)
    ensures r <= s[Min(start, |s|)..]
  {
    var b := Min(start, |s|);
    var e := if end < b then b else Min(end, |s|);
    s[b..e]
  }

  /**
   * `substr(str, start, n)`: at most `n` characters from `start`, both clamped.
   * The default `n = npos` is passed as `|s|`, which clamps the same way.
   */
  function Substr(s: string, start: nat, n: nat): (r: string)
    ensures |r| == Min(n, |s| - Min(start, |s|))
    ensures r <= s[Min(start, |s|)..]
  {
    var b := Min(start, |s|);
    s[b..b + Min(n, |s| - b)]
  }

  /** `find(str, c, from)` / `find_first_of`: the first `c` at or after `from`; `None` is `npos`. */
  function Find(s: string, c: char, from: nat): (r: Option<nat>)
    ensures r.Some? ==> from <= r.value < |s| && s[r.value] == c
    ensures r.Some? ==> forall j :: from <= j < r.value ==> s[j] != c
    ensures r.None? ==> forall j :: from <= j < |s| ==> s[j] != c
    decreases |s| - from
  {
    if from >= |s| then None
    else if s[from] == c then Some(from)
    else Find(s, c, from + 1)
  }
}
