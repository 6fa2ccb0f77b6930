/** What UTF-8 spells (section 3 of RFC 3629), and that text order is the order of its bytes. */
module Utf8Order {
  import opened Ordering
  import opened Utf8

  /** The number a character's bytes spell, six bits for each byte after the first. */
  function SpelledBy(e: Bytes): int {
    if |e| == 1 then e[0] as int
    else if |e| == 2 then (e[0] as int - 0xC0) * 64 + (e[1] as int - 0x80)
    else if |e| == 3 then (e[0] as int - 0xE0) * 4096 + (e[1] as int - 0x80) * 64 + (e[2] as int - 0x80)
    else if |e| == 4 then
      (e[0] as int - 0xF0) * 262144 + (e[1] as int - 0x80) * 4096 + (e[2] as int - 0x80) * 64 + (e[3] as int - 0x80)
    else -1
  }

  lemma SixBits(n: nat)
    ensures n == n / 64 * 64 + n % 64
    ensures n / 64 == n / 4096 * 64 + n / 64 % 64
    ensures n / 4096 == n / 262144 * 64 + n / 4096 % 64
  {
    assert n / 64 / 64 == n / 4096 && n / 4096 / 64 == n / 262144;
  }

  /** UTF-8 as the standard tabulates it: how many bytes a character takes, and that they spell its number. */
  lemma EncodeExactly(c: char)
    ensures var n := c as int;
            |Encode(c)| == (if n <= 0x7F then 1 else if n <= 0x7FF then 2 else if n <= 0xFFFF then 3 else 4)
            && SpelledBy(Encode(c)) == n
  {
    SixBits(c as nat);
  }

  // ---- Text order is byte order ----

  predicate ByteLess(a: Bytes, b: Bytes) {
    if |b| == 0 then false
    else if |a| == 0 then true
    else a[0] < b[0] || (a[0] == b[0] && ByteLess(a[1..], b[1..]))
  }

  lemma {:induction false} SameHead(head: Bytes, a: Bytes, b: Bytes)
    ensures ByteLess(head + a, head + b) <==> ByteLess(a, b)
  {
    if head == [] {
      assert head + a == a && head + b == b;
    } else {
      assert (head + a)[1..] == head[1..] + a && (head + b)[1..] == head[1..] + b;
      SameHead(head[1..], a, b);
    }
  }

  /** The encodings agree up to some byte, and there the smaller one's is smaller. */
  predicate ByteDiffers(a: Bytes, b: Bytes, p: nat) {
    p < |a| && p < |b| && a[..p] == b[..p] && a[p] < b[p]
  }

  lemma DifferenceDecides(a: Bytes, x: Bytes, b: Bytes, y: Bytes, p: nat)
    requires ByteDiffers(a, b, p)
    ensures ByteLess(a + x, b + y) && !ByteLess(b + y, a + x)
  {
    var head := a[..p];
    assert a + x == head + (a[p..] + x) && b + y == head + (b[p..] + y);
    SameHead(head, a[p..] + x, b[p..] + y);
    SameHead(head, b[p..] + y, a[p..] + x);
  }

  lemma LeadByte(c: char)
    ensures var n, e := c as int, Encode(c);
            (|e| == 1 ==> n < 0x80 && e[0] < 0x80) && (|e| == 2 ==> 0x80 <= n < 0x800 && 0xC0 <= e[0] < 0xE0)
            && (|e| == 3 ==> 0x800 <= n < 0x10000 && 0xE0 <= e[0] < 0xF0) && (|e| == 4 ==> 0x10000 <= n && 0xF0 <= e[0])
  {
  }

  lemma SixBitOrder(m: nat, n: nat)
    requires m <= n
    ensures m / 64 < n / 64 || (m / 64 == n / 64 && m % 64 <= n % 64 && (m < n ==> m % 64 < n % 64))
  {
  }

  /** The six-bit groups of two numbers, from the most significant down, are ordered as the numbers are. */
  lemma GroupOrder(m: nat, n: nat)
    requires m < n
    ensures m / 262144 < n / 262144
            || (m / 262144 == n / 262144
                && (m / 4096 % 64 < n / 4096 % 64
                    || (m / 4096 % 64 == n / 4096 % 64
                        && (m / 64 % 64 < n / 64 % 64 || (m / 64 % 64 == n / 64 % 64 && m % 64 < n % 64)))))
  {
    SixBits(m);
    SixBits(n);
  }

  lemma SmallerCharacter(c: char, d: char) returns (p: nat)
    requires c < d
    ensures ByteDiffers(Encode(c), Encode(d), p)
  {
    var m, n := c as nat, d as nat;
    var e, f := Encode(c), Encode(d);
    LeadByte(c);
    LeadByte(d);
    if |e| < |f| {
      hide Encode;
      p := 0;
    } else {
      SameLengthOrder(c, d);
      hide Encode;
      p := FirstDifference(e, f);
    }
  }

  /** At most four bytes, and at the first that differs the left one is smaller. */
  predicate FirstSmaller(e: Bytes, f: Bytes) {
    && 1 <= |e| <= 4 && |e| == |f|
    && (e[0] < f[0]
        || (e[0] == f[0] && |e| > 1
            && (e[1] < f[1]
                || (e[1] == f[1] && |e| > 2 && (e[2] < f[2] || (e[2] == f[2] && |e| > 3 && e[3] < f[3]))))))
  }

  lemma SameLengthOrder(c: char, d: char)
    requires c < d && |Encode(c)| == |Encode(d)|
    ensures FirstSmaller(Encode(c), Encode(d))
  {
    GroupOrder(c as nat, d as nat);
  }

  lemma FirstDifference(e: Bytes, f: Bytes) returns (p: nat)
    requires FirstSmaller(e, f)
    ensures ByteDiffers(e, f, p)
  {
    p := if e[0] < f[0] then 0 else if e[1] < f[1] then 1 else if e[2] < f[2] then 2 else 3;
    assert forall k :: 0 <= k < p ==> e[k] == f[k];
  }

  /** Texts compare as their UTF-8 bytes do. */
  lemma {:induction false} TextOrderIsByteOrder(a: string, b: string)
    ensures Less(a, b) <==> ByteLess(EncodeAll(a), EncodeAll(b))
  {
    hide Encode;
    if a != [] && b != [] {
      if a[0] == b[0] {
        SameHead(Encode(a[0]), EncodeAll(a[1..]), EncodeAll(b[1..]));
        TextOrderIsByteOrder(a[1..], b[1..]);
      } else if a[0] < b[0] {
        var p := SmallerCharacter(a[0], b[0]);
        DifferenceDecides(Encode(a[0]), EncodeAll(a[1..]), Encode(b[0]), EncodeAll(b[1..]), p);
      } else {
        var p := SmallerCharacter(b[0], a[0]);
        DifferenceDecides(Encode(b[0]), EncodeAll(b[1..]), Encode(a[0]), EncodeAll(a[1..]), p);
      }
    }
  }
}
