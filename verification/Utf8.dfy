/** UTF-8 (section 3 of RFC 3629): byte lengths, character boundaries and truncation between characters. */
module Utf8 {
  type Byte = b: nat | b < 256
  type Bytes = seq<Byte>

  function Encode(c: char): (e: Bytes)
    ensures 1 <= |e| <= 4
  {
    var n := c as nat;
    if n < 0x80 then [n]
    else if n < 0x800 then [0xC0 + n / 64, 0x80 + n % 64]
    else if n < 0x10000 then [0xE0 + n / 4096, 0x80 + n / 64 % 64, 0x80 + n % 64]
    else [0xF0 + n / 262144, 0x80 + n / 4096 % 64, 0x80 + n / 64 % 64, 0x80 + n % 64]
  }

  function EncodeAll(s: string): Bytes {
    if s == [] then [] else Encode(s[0]) + EncodeAll(s[1..])
  }

  /** A text's length in bytes, which is what every byte bound is compared with. */
  function ByteLen(s: string): nat { |EncodeAll(s)| }

  predicate IsContinuation(b: Byte) { 0x80 <= b < 0xC0 }

  predicate IsCharBoundary(bytes: Bytes, i: nat) {
    i == 0 || i == |bytes| || (i < |bytes| && !IsContinuation(bytes[i]))
  }

  /** Characters are counted by the bytes that start one. */
  function CharCount(bytes: Bytes): nat {
    if bytes == [] then 0 else (if IsContinuation(bytes[0]) then 0 else 1) + CharCount(bytes[1..])
  }

  lemma EncodedBytes(c: char)
    ensures !IsContinuation(Encode(c)[0])
    ensures forall i :: 0 < i < |Encode(c)| ==> IsContinuation(Encode(c)[i])
  {
  }

  lemma {:induction false} CharCountConcat(a: Bytes, b: Bytes)
    ensures CharCount(a + b) == CharCount(a) + CharCount(b)
  {
    if a == [] {
      assert a + b == b;
    } else {
      assert (a + b)[1..] == a[1..] + b;
      CharCountConcat(a[1..], b);
    }
  }

  lemma {:induction false} ContinuationsOnly(b: Bytes)
    requires forall i :: 0 <= i < |b| ==> IsContinuation(b[i])
    ensures CharCount(b) == 0
  {
    if b != [] { ContinuationsOnly(b[1..]); }
  }

  lemma {:induction false} CharCountEncode(s: string)
    ensures CharCount(EncodeAll(s)) == |s|
  {
    if s != [] {
      EncodedBytes(s[0]);
      ContinuationsOnly(Encode(s[0])[1..]);
      CharCountConcat(Encode(s[0]), EncodeAll(s[1..]));
      CharCountEncode(s[1..]);
    }
  }

  lemma {:induction false} EncodeConcat(a: string, b: string)
    ensures EncodeAll(a + b) == EncodeAll(a) + EncodeAll(b)
  {
    if a == [] {
      assert a + b == b;
    } else {
      assert (a + b)[1..] == a[1..] + b;
      EncodeConcat(a[1..], b);
    }
  }

  lemma EncodePrefix(s: string, k: nat)
    requires k <= |s|
    ensures ByteLen(s[..k]) <= ByteLen(s) && EncodeAll(s)[..ByteLen(s[..k])] == EncodeAll(s[..k])
  {
    assert s == s[..k] + s[k..];
    EncodeConcat(s[..k], s[k..]);
  }

  lemma EncodeNext(s: string, k: nat)
    requires k < |s|
    ensures EncodeAll(s[..k + 1]) == EncodeAll(s[..k]) + Encode(s[k])
  {
    assert s[..k + 1] == s[..k] + [s[k]];
    EncodeConcat(s[..k], [s[k]]);
    assert EncodeAll([s[k]]) == Encode(s[k]);
  }

  /** The byte positions between whole characters are exactly the char boundaries. */
  lemma {:induction false} BoundaryIsPrefix(s: string, i: nat) returns (k: nat)
    requires i <= ByteLen(s) && IsCharBoundary(EncodeAll(s), i)
    ensures k <= |s| && ByteLen(s[..k]) == i
  {
    if i == 0 {
      k := 0;
    } else {
      var e := Encode(s[0]);
      EncodedBytes(s[0]);
      assert i >= |e|;
      var m := BoundaryIsPrefix(s[1..], i - |e|);
      k := m + 1;
      assert s[..k][1..] == s[1..][..m];
    }
  }

  lemma PrefixIsBoundary(s: string, k: nat)
    requires k <= |s|
    ensures ByteLen(s[..k]) <= ByteLen(s) && IsCharBoundary(EncodeAll(s), ByteLen(s[..k]))
  {
    hide EncodeAll, Encode;
    EncodePrefix(s, k);
    if k < |s| {
      EncodeNext(s, k);
      EncodePrefix(s, k + 1);
      EncodedBytes(s[k]);
      var i := ByteLen(s[..k]);
      assert EncodeAll(s)[i] == EncodeAll(s)[..ByteLen(s[..k + 1])][i] == Encode(s[k])[0];
    } else {
      assert s[..k] == s;
    }
  }

  /** `k` leading characters are the most that fit in `max` bytes. */
  ghost predicate LongestFit(s: string, k: nat, max: nat) {
    k <= |s| && ByteLen(s[..k]) <= max && (k == |s| || ByteLen(s[..k + 1]) > max)
  }

  /** More leading characters need at least as many bytes, so the longest fit is unique. */
  lemma {:induction false} LongestFitUnique(s: string, j: nat, k: nat, max: nat)
    requires LongestFit(s, j, max) && LongestFit(s, k, max)
    ensures j == k
  {
    if j < k {
      assert s[..k][..j + 1] == s[..j + 1];
      EncodePrefix(s[..k], j + 1);
    } else if k < j {
      assert s[..j][..k + 1] == s[..k + 1];
      EncodePrefix(s[..j], k + 1);
    }
  }

  /**
   * Fits a text under a byte bound without splitting a character. The backward scan
   * gives up at most three bytes, and kept plus lost characters are all of them.
   */
  method Truncate(text: string, max: nat) returns (kept: Bytes, lost: nat)
    ensures exists k: nat :: LongestFit(text, k, max) && kept == EncodeAll(text[..k]) && lost == |text| - k
                        && (k < |text| ==> max - |kept| <= 3)
  {
    var bytes := EncodeAll(text);
    if |bytes| <= max {
      assert text[..|text|] == text;
      assert LongestFit(text, |text|, max);
      return bytes, 0;
    }
    var end := max;
    while end > 0 && !IsCharBoundary(bytes, end)
      invariant 0 <= end <= max
      invariant forall i :: end < i <= max ==> !IsCharBoundary(bytes, i)
    {
      end := end - 1;
    }
    ghost var k := BoundaryIsPrefix(text, end);
    EncodePrefix(text, k);
    kept := bytes[..end];
    CharCountEncode(text);
    CharCountEncode(text[..k]);
    var original, keptChars := CharCount(bytes), CharCount(kept);
    lost := if original >= keptChars then original - keptChars else 0;
    assert text[..|text|] == text;
    PrefixIsBoundary(text, k + 1);
    EncodeNext(text, k);
    assert LongestFit(text, k, max);
  }
}
