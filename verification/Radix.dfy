/** Numbers in positional notation. */
module Radix {

  function DigitChar(d: nat, upper: bool): char
    requires d < 16
  {
    if d < 10 then '0' + d as char else if upper then 'A' + (d - 10) as char else 'a' + (d - 10) as char
  }

  predicate IsDecimal(c: char) {
    '0' <= c <= '9'
  }

  predicate IsHex(c: char) {
    IsDecimal(c) || 'a' <= c <= 'f' || 'A' <= c <= 'F'
  }

  function DigitValue(c: char): nat {
    if IsDecimal(c) then c as int - '0' as int
    else if 'a' <= c <= 'f' then c as int - 'a' as int + 10
    else if 'A' <= c <= 'F' then c as int - 'A' as int + 10
    else 0
  }

  /** `n` written in `radix`, without leading zeros. */
  function ToRadix(n: nat, radix: nat, upper: bool): (s: string)
    requires 2 <= radix <= 16
    ensures s != ""
  {
    if n < radix then [DigitChar(n, upper)]
    else ToRadix(n / radix, radix, upper) + [DigitChar(n % radix, upper)]
  }

  function FromRadix(s: string, radix: nat): nat {
    if s == "" then 0 else FromRadix(s[..|s| - 1], radix) * radix + DigitValue(s[|s| - 1])
  }

  lemma FromRadixLast(front: string, c: char, radix: nat)
    ensures FromRadix(front + [c], radix) == FromRadix(front, radix) * radix + DigitValue(c)
  {
    assert (front + [c])[..|front|] == front;
  }

  lemma DigitReads(d: nat, upper: bool)
    requires d < 16
    ensures DigitValue(DigitChar(d, upper)) == d && IsHex(DigitChar(d, upper))
    ensures d < 10 ==> IsDecimal(DigitChar(d, upper))
  {
  }

  /** The digits by name. */
  lemma DigitsAre(d: nat)
    requires d < 16
    ensures DigitChar(d, false) == "0123456789abcdef"[d] && DigitChar(d, true) == "0123456789ABCDEF"[d]
  {
  }

  lemma DivModFacts(n: nat, radix: nat)
    requires 2 <= radix
    ensures n / radix * radix + n % radix == n && 0 <= n % radix < radix
  {
  }

  lemma OneDigitMore(front: string, q: nat, d: nat, radix: nat, upper: bool)
    requires d < 16 && FromRadix(front, radix) == q
    ensures FromRadix(front + [DigitChar(d, upper)], radix) == q * radix + d
  {
    FromRadixLast(front, DigitChar(d, upper), radix);
    DigitReads(d, upper);
  }

  /** How [ToRadix] is built, with the division named. */
  lemma RadixStep(n: nat, radix: nat, upper: bool) returns (q: nat, d: nat)
    requires 2 <= radix <= 16 && n >= radix
    ensures d < radix && q < n && q * radix + d == n
    ensures ToRadix(n, radix, upper) == ToRadix(q, radix, upper) + [DigitChar(d, upper)]
  {
    q, d := n / radix, n % radix;
    DivModFacts(n, radix);
  }

  lemma {:induction false} RadixRoundTrip(n: nat, radix: nat, upper: bool)
    requires 2 <= radix <= 16
    ensures FromRadix(ToRadix(n, radix, upper), radix) == n
  {
    if n < radix {
      OneDigitMore("", 0, n, radix, upper);
      assert "" + [DigitChar(n, upper)] == [DigitChar(n, upper)];
    } else {
      var q, d := RadixStep(n, radix, upper);
      RadixRoundTrip(q, radix, upper);
      OneDigitMore(ToRadix(q, radix, upper), q, d, radix, upper);
    }
  }

  /** Every character is a digit of the radix: decimal up to ten, hex up to sixteen. */
  lemma {:induction false} RadixIsDigits(n: nat, radix: nat, upper: bool)
    requires 2 <= radix <= 16
    ensures forall c :: c in ToRadix(n, radix, upper) ==> IsHex(c) && (radix <= 10 ==> IsDecimal(c))
  {
    if n < radix {
      DigitReads(n, upper);
    } else {
      var q, d := RadixStep(n, radix, upper);
      DigitReads(d, upper);
      RadixIsDigits(q, radix, upper);
    }
  }

  /** Every character is a digit below the radix, in the case asked for. */
  lemma {:induction false} RadixDigitsAreBelow(n: nat, radix: nat, upper: bool)
    requires 2 <= radix <= 16
    ensures forall c :: c in ToRadix(n, radix, upper) ==>
              ('0' <= c <= '9' && c as int - '0' as int < radix)
              || (!upper && 'a' <= c <= 'f' && c as int - 'a' as int + 10 < radix)
              || (upper && 'A' <= c <= 'F' && c as int - 'A' as int + 10 < radix)
  {
    if n >= radix {
      var q, d := RadixStep(n, radix, upper);
      RadixDigitsAreBelow(q, radix, upper);
    }
  }

  /** No leading zero, except the number zero itself. */
  lemma {:induction false} RadixIsCanonical(n: nat, radix: nat, upper: bool)
    requires 2 <= radix <= 16
    ensures ToRadix(n, radix, upper)[0] == '0' <==> n == 0
    ensures n == 0 ==> ToRadix(n, radix, upper) == ['0']
  {
    if n < radix {
      DigitReads(n, upper);
    } else {
      var q, d := RadixStep(n, radix, upper);
      assert q > 0;
      RadixIsCanonical(q, radix, upper);
    }
  }

  function Repeat(c: char, n: nat): string {
    seq(n, _ => c)
  }

  lemma {:induction false} ZerosAreFree(n: nat, s: string, radix: nat)
    ensures FromRadix(Repeat('0', n) + s, radix) == FromRadix(s, radix)
    decreases |s|, n
  {
    if s != "" {
      var front, last := s[..|s| - 1], s[|s| - 1];
      ZerosAreFree(n, front, radix);
      FromRadixLast(Repeat('0', n) + front, last, radix);
      assert Repeat('0', n) + front + [last] == Repeat('0', n) + s;
    } else if n > 0 {
      ZerosAreFree(n - 1, s, radix);
      FromRadixLast(Repeat('0', n - 1), '0', radix);
      assert Repeat('0', n - 1) + ['0'] == Repeat('0', n) + s;
      assert Repeat('0', n - 1) + s == Repeat('0', n - 1);
    }
  }
}
