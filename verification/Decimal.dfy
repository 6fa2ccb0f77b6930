/** Zero-padded decimal text: what `{:0w}` prints and what the fixed-width digit reader accepts. */
module Decimal {
  import opened Ordering
  import opened Wrappers

  predicate IsDigit(c: char) { '0' <= c <= '9' }

  predicate AllDigits(s: string) { forall i :: 0 <= i < |s| ==> IsDigit(s[i]) }

  function DigitChar(d: nat): char
    requires d < 10
  {
    '0' + d as char
  }

  function DigitValue(c: char): nat
    requires IsDigit(c)
  {
    (c - '0') as nat
  }

  function Value(s: string): nat
    requires AllDigits(s)
  {
    if s == [] then 0 else 10 * Value(s[..|s| - 1]) + DigitValue(s[|s| - 1])
  }

  function Pow10(k: nat): nat {
    if k == 0 then 1 else 10 * Pow10(k - 1)
  }

  /** At least `width` digits: pads short numbers with zeros, never cuts long ones. */
  function Padded(n: nat, width: nat): string
    decreases n, width
  {
    if n < 10 && width <= 1 then [DigitChar(n)]
    else Padded(n / 10, if width == 0 then 0 else width - 1) + [DigitChar(n % 10)]
  }

  lemma LastDigitReads(front: string, d: nat)
    requires AllDigits(front) && d < 10
    ensures var text := front + [DigitChar(d)]; AllDigits(text) && Value(text) == 10 * Value(front) + d
  {
    assert (front + [DigitChar(d)])[..|front|] == front;
  }

  lemma {:induction false} PaddedReads(n: nat, width: nat)
    ensures AllDigits(Padded(n, width)) && Value(Padded(n, width)) == n
    decreases n, width
  {
    hide Value, AllDigits;
    if n < 10 && width <= 1 {
      NoDigits();
      LastDigitReads([], n);
      assert Padded(n, width) == [] + [DigitChar(n)];
    } else {
      var w := if width == 0 then 0 else width - 1;
      PaddedReads(n / 10, w);
      LastDigitReads(Padded(n / 10, w), n % 10);
    }
  }

  lemma NoDigits()
    ensures AllDigits([]) && Value([]) == 0
  {
  }

  lemma {:induction false} PaddedWidth(n: nat, width: nat)
    requires 1 <= width && n < Pow10(width)
    ensures |Padded(n, width)| == width
    decreases width
  {
    if width > 1 { PaddedWidth(n / 10, width - 1); }
    else { assert Pow10(1) == 10; }
  }

  lemma {:induction false} ValueBound(s: string)
    requires AllDigits(s)
    ensures Value(s) < Pow10(|s|)
  {
    if s != [] { ValueBound(s[..|s| - 1]); }
  }

  /** A digit string is the padding of its own value: fixed-width reading loses nothing. */
  lemma {:induction false} PaddedOfValue(s: string)
    requires AllDigits(s) && s != []
    ensures Padded(Value(s), |s|) == s
  {
    var init, last := s[..|s| - 1], s[|s| - 1];
    LastDigitApart(Value(init), DigitValue(last));
    assert DigitChar(DigitValue(last)) == last;
    hide DigitChar, DigitValue;
    if init == [] {
      NoDigits();
      assert s == [last];
    } else {
      PaddedOfValue(init);
      assert s == init + [last];
    }
  }

  lemma LastDigitApart(tens: nat, d: nat)
    requires d < 10
    ensures (10 * tens + d) / 10 == tens && (10 * tens + d) % 10 == d
  {
  }

  /** Equal-width zero-padded numbers sort as text exactly as they sort as numbers. */
  lemma {:induction false} PaddedOrder(m: nat, n: nat, width: nat)
    requires 1 <= width && m < Pow10(width) && n < Pow10(width)
    ensures Less(Padded(m, width), Padded(n, width)) <==> m < n
    decreases width
  {
    if width == 1 {
      assert Pow10(1) == 10;
    } else {
      PaddedOrder(m / 10, n / 10, width - 1);
      PaddedWidth(m / 10, width - 1);
      PaddedWidth(n / 10, width - 1);
      PaddedReads(m / 10, width - 1);
      PaddedReads(n / 10, width - 1);
      hide Value, AllDigits;
      LessConcat(Padded(m / 10, width - 1), [DigitChar(m % 10)], Padded(n / 10, width - 1), [DigitChar(n % 10)]);
      TensDecide(m, n);
    }
  }

  lemma TensDecide(m: nat, n: nat)
    ensures m < n <==> m / 10 < n / 10 || (m / 10 == n / 10 && m % 10 < n % 10)
  {
  }

  /** The fixed-width reader: exactly `digits` ASCII digits or nothing. */
  function ParseFixed(text: string, digits: nat): Option<nat> {
    if |text| != digits || !AllDigits(text) then None else Some(Value(text))
  }
}
