/** Printing integers in decimal, two digits at a time. */
module DecimalPrinter {
  import opened Digits

  type uint32 = x: int | 0 <= x < 0x1_0000_0000
  type uint64 = x: int | 0 <= x < 0x1_0000_0000_0000_0000
  type int32 = x: int | -0x8000_0000 <= x < 0x8000_0000
  type int64 = x: int | -0x8000_0000_0000_0000 <= x < 0x8000_0000_0000_0000

  function ToUInt32(x: int): uint32 {
    x % 0x1_0000_0000
  }

  function ToUInt64(x: int): uint64 {
    x % 0x1_0000_0000_0000_0000
  }

  function ToInt32(x: int): int32 {
    var m := ToUInt32(x);
    if m < 0x8000_0000 then m else m - 0x1_0000_0000
  }

  function ToInt64(x: int): int64 {
    var m := ToUInt64(x);
    if m < 0x8000_0000_0000_0000 then m else m - 0x1_0000_0000_0000_0000
  }

  // ---------------------------------------------------------------------------
  // Canonical decimal form
  // ---------------------------------------------------------------------------

  /** The decimal digits of `n`, without leading zeros. */
  function Decimal(n: nat): (s: string)
    ensures s != ""
  {
    if n < 10 then [DigitChar(n)] else Decimal(n / 10) + [DigitChar(n % 10)]
  }

  /** The number a digit string stands for. */
  function Value(s: string): nat
    requires AllDigits(s)
  {
    if s == "" then 0 else 10 * Value(s[..|s| - 1]) + (s[|s| - 1] as int - '0' as int)
  }

  /** At least one digit, and no leading zero except in "0" itself. */
  predicate IsCanonical(s: string) {
    s != "" && AllDigits(s) && (s[0] == '0' ==> |s| == 1)
  }

  lemma {:induction false} DecimalIsCanonical(n: nat)
    ensures IsCanonical(Decimal(n)) && Value(Decimal(n)) == n
    ensures n > 0 ==> Decimal(n)[0] != '0'
  {
    if n >= 10 {
      DecimalIsCanonical(n / 10);
      var s := Decimal(n);
      assert s[..|s| - 1] == Decimal(n / 10);
    } else {
      assert Decimal(n)[..0] == "";
    }
  }

  /** The canonical form is unique: it is the only such string with its value. */
  lemma {:induction false} CanonicalIsDecimal(s: string)
    requires IsCanonical(s)
    ensures s == Decimal(Value(s))
  {
    var n := |s| - 1;
    var front := s[..n];
    assert s == front + [s[n]];
    if n == 0 {
      assert front == "" && Value(s) < 10;
    } else {
      CanonicalIsDecimal(front);
      ValuePositive(front);
    }
  }

  lemma {:induction false} ValuePositive(s: string)
    requires s != "" && AllDigits(s) && s[0] != '0'
    ensures Value(s) > 0
  {
    if |s| > 1 {
      ValuePositive(s[..|s| - 1]);
    }
  }

  lemma {:induction false} DecimalLength(n: nat, k: nat)
    requires k > 0
    ensures |Decimal(n)| <= k <==> n < Pow10(k)
  {
    if k == 1 {
      assert Pow10(1) == 10;
    } else if n >= 10 {
      DecimalLength(n / 10, k - 1);
    }
  }

  // ---------------------------------------------------------------------------
  // Cutting numbers into blocks of digits
  // ---------------------------------------------------------------------------

  lemma TimesTen(q: nat, p: nat)
    ensures q * (10 * p) == 10 * (q * p)
  {
  }

  /** The low `w` digits and what is above them. */
  lemma {:induction false} PaddedBlocks(q: nat, r: nat, v: nat, w: nat)
    requires r < Pow10(w)
    ensures Padded(q * Pow10(w) + r, v + w) == Padded(q, v) + Padded(r, w)
  {
    if w == 0 {
      assert Padded(q, v) + "" == Padded(q, v);
    } else {
      var p := Pow10(w - 1);
      TimesTen(q, p);
      PaddedBlocks(q, r / 10, v, w - 1);
      assert (q * Pow10(w) + r) / 10 == q * p + r / 10 && (q * Pow10(w) + r) % 10 == r % 10;
    }
  }

  lemma {:induction false} DecimalBlocks(q: nat, r: nat, w: nat)
    requires r < Pow10(w) && q > 0
    ensures Decimal(q * Pow10(w) + r) == Decimal(q) + Padded(r, w)
  {
    if w == 0 {
      assert Decimal(q) + "" == Decimal(q);
    } else {
      var p := Pow10(w - 1);
      TimesTen(q, p);
      assert q * p >= 1;
      DecimalBlocks(q, r / 10, w - 1);
      assert (q * Pow10(w) + r) / 10 == q * p + r / 10 && (q * Pow10(w) + r) % 10 == r % 10;
    }
  }

  /** An entry of `two_ASCII_digits`. */
  function TwoDigits(d: nat): (s: string)
    requires d < 100
    ensures s == Padded(d, 2)
  {
    assert Padded(d / 10, 1) == Padded(d / 100, 0) + [DigitChar(d / 10 % 10)];
    [DigitChar(d / 10), DigitChar(d % 10)]
  }

  lemma {:induction false} PowersOfTen()
    ensures Pow10(0) == 1 && Pow10(1) == 10 && Pow10(2) == 100 && Pow10(3) == 1000
    ensures Pow10(4) == 10_000 && Pow10(5) == 100_000 && Pow10(6) == 1_000_000
    ensures Pow10(7) == 10_000_000 && Pow10(8) == 100_000_000 && Pow10(9) == 1_000_000_000
  {
    assert Pow10(2) == 10 * Pow10(1);
    assert Pow10(4) == 10 * Pow10(3);
    assert Pow10(6) == 10 * Pow10(5);
    assert Pow10(8) == 10 * Pow10(7);
  }

  // ---------------------------------------------------------------------------
  // The unrolled 32-bit printer
  // ---------------------------------------------------------------------------

  /** `u -= digits * weight`: the product is a signed `int` and may wrap around. */
  function Subtract(u: uint32, digits: nat, weight: nat): uint32 {
    ToUInt32(u - ToInt32(digits * weight))
  }

  /** The wrapped product does no harm: the difference is exact whenever it is a `uint32`. */
  lemma SubtractExact(u: uint32, digits: nat, weight: nat)
    requires digits * weight <= u
    ensures Subtract(u, digits, weight) == u - digits * weight
  {
    var product := digits * weight;
    assert product < 0x1_0000_0000 && ToUInt32(product) == product;
  }

  /** A label of the ladder: `pairs` two-digit blocks are still to be printed. */
  datatype Label = SubBelow(pairs: nat) | Below(pairs: nat) | Done

  /** The values a label is reached with. */
  ghost predicate Fits(at: Label, u: nat, digits: nat) {
    match at
    case SubBelow(k) =>
      1 <= k <= 4 && digits * Pow10(2 * k) <= u < digits * Pow10(2 * k) + Pow10(2 * k)
    case Below(k) => 1 <= k <= 4 && u < Pow10(2 * k)
    case Done => true
  }

  /** What is left to print when control is at a label. */
  ghost function Rest(at: Label, u: nat, digits: nat): string
    requires Fits(at, u, digits)
  {
    match at
    case SubBelow(k) => Padded(u - digits * Pow10(2 * k), 2 * k)
    case Below(k) => Padded(u, 2 * k)
    case Done => ""
  }

  /** From `sublt…` to `lt…`: take off what is already printed. */
  method TakeOff(at: Label, u: uint32, digits: nat, k: nat, weight: nat)
    returns (next: Label, rest: uint32)
    requires Fits(at, u, digits) && 1 <= k && weight == Pow10(2 * k)
    ensures Fits(next, rest, digits) && Rest(next, rest, digits) == Rest(at, u, digits)
    ensures next == if at == SubBelow(k) then Below(k) else at
  {
    next, rest := at, u;
    if at == SubBelow(k) {
      SubtractExact(u, digits, weight);
      next, rest := Below(k), Subtract(u, digits, weight);
    }
  }

  lemma ProductOrder(q: nat, bound: nat, w: nat)
    ensures q >= bound ==> q * w >= bound * w
  {
    if q >= bound {
      assert q * w == bound * w + (q - bound) * w;
    }
  }

  lemma TwoBlocks(u: nat, q: nat, k: nat, weight: nat)
    requires weight == Pow10(2 * k) && u < 100 * weight
    requires q * weight <= u < q * weight + weight
    ensures q < 100
    ensures Padded(u, 2 * k + 2) == Padded(q, 2) + Padded(u - q * weight, 2 * k)
  {
    ProductOrder(q, 100, weight);
    PaddedBlocks(q, u - q * weight, 2, 2 * k);
  }

  lemma PairAhead(u: uint32, digits: nat, q: nat, k: nat, weight: nat, output: string)
    requires Fits(Below(k + 1), u, digits) && 1 <= k && weight == Pow10(2 * k)
    requires q * weight <= u < q * weight + weight
    ensures q < 100 && Fits(SubBelow(k), u, q)
    ensures output + TwoDigits(q) + Rest(SubBelow(k), u, q) == output + Rest(Below(k + 1), u, digits)
  {
    assert Pow10(2 * k + 1) == 10 * weight && Pow10(2 * k + 2) == 10 * Pow10(2 * k + 1);
    TwoBlocks(u, q, k, weight);
    Concatenated(output, TwoDigits(q), Rest(SubBelow(k), u, q));
  }

  lemma Concatenated(a: string, b: string, c: string)
    ensures a + b + c == a + (b + c)
  {
  }

  /** From `lt…` to the next `sublt…`: print the two leading digits of what is left. */
  method PrintPair(at: Label, u: uint32, digits: nat, output: string,
                   k: nat, weight: nat, quotient: nat)
    returns (next: Label, lead: nat, text: string)
    requires Fits(at, u, digits) && 1 <= k && weight == Pow10(2 * k)
    requires quotient * weight <= u < quotient * weight + weight
    ensures Fits(next, u, lead)
    ensures text + Rest(next, u, lead) == output + Rest(at, u, digits)
    ensures next == if at == Below(k + 1) then SubBelow(k) else at
  {
    next, lead, text := at, digits, output;
    if at == Below(k + 1) {
      PairAhead(u, digits, quotient, k, weight, output);
      next, lead, text := SubBelow(k), quotient, output + TwoDigits(quotient);
    }
  }

  /** The unrolled code from any of its labels to the end. */
  method Ladder(start: Label, number: uint32, lead: nat, text: string) returns (output: string)
    requires Fits(start, number, lead)
    ensures output == text + Rest(start, number, lead)
  {
    PowersOfTen();
    var at, u, digits := start, number, lead;
    output := text;
    at, u := TakeOff(at, u, digits, 4, 100_000_000);
    at, digits, output := PrintPair(at, u, digits, output, 3, 1_000_000, u / 1_000_000);
    at, u := TakeOff(at, u, digits, 3, 1_000_000);
    at, digits, output := PrintPair(at, u, digits, output, 2, 10_000, u / 10_000);
    at, u := TakeOff(at, u, digits, 2, 10_000);
    at, digits, output := PrintPair(at, u, digits, output, 1, 100, u / 100);
    at, u := TakeOff(at, u, digits, 1, 100);
    if at == Below(1) {
      output := output + TwoDigits(u);
    }
  }

  lemma {:induction false} DecimalPadded(n: nat, k: nat)
    requires k > 0 && n < Pow10(k) && (k > 1 ==> n >= Pow10(k - 1))
    ensures Decimal(n) == Padded(n, k)
  {
    if k == 1 {
      assert Pow10(1) == 10 && Padded(n, 1) == Padded(n / 10, 0) + [DigitChar(n % 10)];
    } else {
      assert n >= Pow10(1);
      DecimalPadded(n / 10, k - 1);
    }
  }

  lemma DigitBounds(u: nat, weight: nat)
    requires 0 < weight <= u < 10 * weight
    ensures 0 < u / weight < 10 && u / weight * weight <= u < u / weight * weight + weight
  {
    assert u == u / weight * weight + u % weight;
  }

  /** Numbers with an odd number of digits print the first one alone. */
  lemma LeadingDigit(u: nat, k: nat, weight: nat) returns (d: nat)
    requires 1 <= k <= 4 && weight == Pow10(2 * k) && weight <= u < 10 * weight
    ensures d == u / weight < 10 && Fits(SubBelow(k), u, d)
    ensures Decimal(u) == [DigitChar(d)] + Rest(SubBelow(k), u, d)
  {
    d := u / weight;
    DigitBounds(u, weight);
    DecimalBlocks(d, u - d * Pow10(2 * k), 2 * k);
  }

  /** Numbers with an even number of digits go straight to the ladder. */
  lemma EvenDigits(u: nat, d: nat, k: nat)
    requires Fits(Below(k), u, d) && u >= Pow10(2 * k - 1)
    ensures Decimal(u) == Rest(Below(k), u, d)
  {
    DecimalPadded(u, 2 * k);
  }

  /** The ten-digit numbers print their first two digits before the ladder. */
  lemma LeadingPair(u: nat, d: nat)
    requires 10 <= d < 100 && Fits(SubBelow(4), u, d)
    ensures Decimal(u) == TwoDigits(d) + Rest(SubBelow(4), u, d)
  {
    DecimalBlocks(d, u - d * Pow10(8), 8);
    assert Pow10(1) == 10;
    DecimalPadded(d, 2);
  }

  /** The branches for numbers of up to four digits. */
  method EnterShort(u: uint32) returns (at: Label, digits: nat, output: string)
    requires u < 10_000
    ensures Fits(at, u, digits) && output + Rest(at, u, digits) == Decimal(u)
  {
    PowersOfTen();
    digits, output := u, "";
    if u < 100 {
      if u >= 10 {
        at := Below(1);
        EvenDigits(u, digits, 1);
      } else {
        output := [DigitChar(digits)];
        at := Done;
      }
    } else if u >= 1000 {
      at := Below(2);
      EvenDigits(u, digits, 2);
    } else {
      digits := u / 100;
      output := [DigitChar(digits)];
      at := SubBelow(1);
      ghost var _ := LeadingDigit(u, 1, 100);
    }
  }

  /** The branches for numbers of five to nine digits. */
  method EnterLong(u: uint32) returns (at: Label, digits: nat, output: string)
    requires 10_000 <= u < 1_000_000_000
    ensures Fits(at, u, digits) && output + Rest(at, u, digits) == Decimal(u)
  {
    PowersOfTen();
    digits, output := u, "";
    if u < 1_000_000 {
      if u >= 100_000 {
        at := Below(3);
        EvenDigits(u, digits, 3);
        return;
      }
      digits, at := u / 10_000, SubBelow(2);
      ghost var _ := LeadingDigit(u, 2, 10_000);
    } else if u < 100_000_000 {
      if u >= 10_000_000 {
        at := Below(4);
        EvenDigits(u, digits, 4);
        return;
      }
      digits, at := u / 1_000_000, SubBelow(3);
      ghost var _ := LeadingDigit(u, 3, 1_000_000);
    } else {
      digits, at := u / 100_000_000, SubBelow(4);
      ghost var _ := LeadingDigit(u, 4, 100_000_000);
    }
    output := [DigitChar(digits)];
  }

  /** Where the code enters the ladder: the digits printed before, and the label. */
  method Enter(u: uint32) returns (at: Label, digits: nat, output: string)
    ensures Fits(at, u, digits) && output + Rest(at, u, digits) == Decimal(u)
  {
    if u >= 1_000_000_000 {
      PowersOfTen();
      digits := u / 100_000_000;
      output := TwoDigits(digits);
      at := SubBelow(4);
      LeadingPair(u, digits);
    } else if u < 10_000 {
      at, digits, output := EnterShort(u);
    } else {
      at, digits, output := EnterLong(u);
    }
  }

  /** The 32-bit printer prints the canonical form of every `uint32`, in at most ten characters. */
  method OutputUInt32AsString(u: uint32) returns (output: string)
    ensures output == Decimal(u) && |output| <= 10
  {
    var at, digits, text := Enter(u);
    output := Ladder(at, u, digits, text);
    PowersOfTen();
    DecimalLength(u, 10);
  }

  // ---------------------------------------------------------------------------
  // 64-bit and signed printers
  // ---------------------------------------------------------------------------

  /** `k` two-digit blocks and a last digit. */
  ghost function OddBlocks(u: nat, k: nat): string {
    Padded(u, 2 * k + 1)
  }

  /** Prints the leading two digits and takes them off. */
  method PrintTwo(u: nat, text: string, k: nat, weight: nat, digits: nat)
    returns (longer: string, rest: nat)
    requires weight == Pow10(2 * k + 1) && digits < 100
    requires digits * weight <= u < digits * weight + weight
    ensures rest == u - digits * weight
    ensures longer + OddBlocks(rest, k) == text + OddBlocks(u, k + 1)
  {
    longer, rest := text + TwoDigits(digits), u - digits * weight;
    PaddedBlocks(digits, rest, 2, 2 * k + 1);
  }

  /** The nine low digits of a 64-bit number, printed as 2 + 2 + 2 + 2 + 1. */
  method PrintNineDigits(number: nat) returns (text: string)
    requires number < 1_000_000_000
    ensures text == OddBlocks(number, 4)
  {
    PowersOfTen();
    var u := number;
    text := "";
    text, u := PrintTwo(u, text, 3, 10_000_000, u / 10_000_000);
    text, u := PrintTwo(u, text, 2, 100_000, u / 100_000);
    text, u := PrintTwo(u, text, 1, 1000, u / 1000);
    text, u := PrintTwo(u, text, 0, 10, u / 10);
    LastDigit(u);
    text := text + [DigitChar(u)];
  }

  lemma LastDigit(u: nat)
    requires u < 10
    ensures OddBlocks(u, 0) == [DigitChar(u)]
  {
    assert Padded(u, 1) == Padded(u / 10, 0) + [DigitChar(u)];
  }

  /** Numbers of more than 32 bits have a proper upper part and nine low digits. */
  lemma CutAtNine(u64: uint64)
    requires ToUInt32(u64) != u64
    ensures 0 < u64 / 1_000_000_000 < u64
    ensures ToUInt32(u64 - u64 / 1_000_000_000 * 1_000_000_000) == u64 % 1_000_000_000
  {
  }

  /** The 64-bit printer prints the canonical form too, in at most twenty characters. */
  method OutputUInt64AsString(u64: uint64) returns (output: string)
    ensures output == Decimal(u64) && |output| <= 20
    decreases u64
  {
    SixtyFourBits(u64);
    var u := ToUInt32(u64);
    if u == u64 {
      output := OutputUInt32AsString(u);
    } else {
      CutAtNine(u64);
      var top := u64 / 1_000_000_000;
      output := OutputUInt64AsString(top);
      u := ToUInt32(u64 - top * 1_000_000_000);
      var low := PrintNineDigits(u);
      NineDigitsBelow(top, u);
      output := output + low;
    }
  }

  lemma NineDigitsBelow(top: nat, u: nat)
    requires top > 0 && u < 1_000_000_000
    ensures Decimal(top * 1_000_000_000 + u) == Decimal(top) + OddBlocks(u, 4)
  {
    PowersOfTen();
    DecimalBlocks(top, u, 9);
  }

  lemma SixtyFourBits(u64: uint64)
    ensures |Decimal(u64)| <= 20
  {
    PowersOfTen();
    assert Pow10(11) == 10 * Pow10(10);
    assert Pow10(13) == 10 * Pow10(12);
    assert Pow10(15) == 10 * Pow10(14);
    assert Pow10(17) == 10 * Pow10(16);
    assert Pow10(19) == 10 * Pow10(18);
    DecimalLength(u64, 20);
  }

  function Signed(i: int): string {
    if i < 0 then "-" + Decimal(-i) else Decimal(i)
  }

  /** Different integers never print alike. */
  lemma SignedInjective(i: int, j: int)
    requires Signed(i) == Signed(j)
    ensures i == j
  {
    DecimalIsCanonical(if i < 0 then -i else i);
    DecimalIsCanonical(if j < 0 then -j else j);
    assert i < 0 <==> Signed(i)[0] == '-';
    assert j < 0 <==> Signed(j)[0] == '-';
    assert i < 0 ==> Signed(i)[1..] == Decimal(-i);
    assert j < 0 ==> Signed(j)[1..] == Decimal(-j);
  }

  /** Reading a sign and digits. */
  function SignedValue(s: string): int
    requires if s != "" && s[0] == '-' then AllDigits(s[1..]) else AllDigits(s)
  {
    if s != "" && s[0] == '-' then 0 - Value(s[1..]) else Value(s)
  }

  /** The printed text reads back as the number, with a minus sign exactly for negative ones and
      canonical digits. */
  lemma SignedReadsBack(i: int)
    ensures var s := Signed(i);
            && s != "" && (s[0] == '-' <==> i < 0) && IsCanonical(if i < 0 then s[1..] else s)
            && SignedValue(s) == i
  {
    DecimalIsCanonical(if i < 0 then -i else i);
    assert i < 0 ==> Signed(i)[1..] == Decimal(-i);
  }

  /** `u = -i`, where the negation of the least integer wraps around. */
  function Negated32(i: int): uint32 {
    ToUInt32(ToInt32(-i))
  }

  function Negated64(i: int): uint64 {
    ToUInt64(ToInt64(-i))
  }

  lemma Negated32Exact(i: int)
    requires -0x8000_0000 <= i < 0
    ensures Negated32(i) == -i
  {
    assert ToUInt32(-i) == -i;
  }

  lemma Negated64Exact(i: int)
    requires -0x8000_0000_0000_0000 <= i < 0
    ensures Negated64(i) == -i
  {
    assert ToUInt64(-i) == -i;
  }

  method OutputInt32AsString(i: int32) returns (output: string)
    ensures output == Signed(i) && |output| <= 11
  {
    if i < 0 {
      var u := Negated32(i);
      Negated32Exact(i);
      output := OutputUInt32AsString(u);
      output := "-" + output;
    } else {
      var u := ToUInt32(i);
      assert u == i;
      output := OutputUInt32AsString(u);
    }
  }

  method OutputInt64AsString(i: int64) returns (output: string)
    ensures output == Signed(i) && |output| <= 21
  {
    if i < 0 {
      var u := Negated64(i);
      Negated64Exact(i);
      output := OutputUInt64AsString(u);
      output := "-" + output;
    } else {
      var u := ToUInt64(i);
      assert u == i;
      output := OutputUInt64AsString(u);
    }
  }
}
