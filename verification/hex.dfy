/** The byte-to-hex helper: each byte of a buffer becomes two lowercase
    hexadecimal digits, most significant nibble first. */
module Hex {
  import opened Wrappers

  /** One element of a `Uint8Array`. */
  type byte = b: int | 0 <= b < 256

  predicate IsLowerHexDigit(c: char) {
    '0' <= c <= '9' || 'a' <= c <= 'f'
  }

  predicate IsLowerHex(s: string) {
    forall i :: 0 <= i < |s| ==> IsLowerHexDigit(s[i])
  }

  /** The digit JavaScript prints for a value below 16 in radix 16. */
  function HexDigit(d: int): (c: char)
    requires 0 <= d < 16
    ensures IsLowerHexDigit(c)
  {
    if d < 10 then ('0' as int + d) as char else ('a' as int + d - 10) as char
  }

  /** The value of one lowercase hex digit; the inverse of `HexDigit`. */
  function DigitValue(c: char): (d: Option<int>)
    ensures d.Some? <==> IsLowerHexDigit(c)
    ensures d.Some? ==> 0 <= d.value < 16 && HexDigit(d.value) == c
  {
    if '0' <= c <= '9' then Some(c as int - '0' as int)
    else if 'a' <= c <= 'f' then Some(c as int - 'a' as int + 10)
    else None
  }

  lemma DigitValueOfHexDigit(d: int)
    requires 0 <= d < 16
    ensures DigitValue(HexDigit(d)) == Some(d)
  {
  }

  /** `n.toString(16)` for a non-negative integer: most significant digit
      first, lowercase, without leading zeros. */
  function Radix16(n: nat): (s: string)
    ensures 1 <= |s|
    ensures IsLowerHex(s)
  {
    if n < 16 then [HexDigit(n)] else Radix16(n / 16) + [HexDigit(n % 16)]
  }

  /** The number a lowercase hex numeral denotes. */
  function HexValue(s: string): nat
    requires IsLowerHex(s)
  {
    if s == [] then 0 else HexValue(s[..|s| - 1]) * 16 + DigitValue(s[|s| - 1]).value
  }

  /** `toString(16)` is a faithful numeral: it denotes `n` and has no leading
      zero unless `n` is zero. */
  lemma {:induction false} Radix16Denotes(n: nat)
    ensures HexValue(Radix16(n)) == n
    ensures n > 0 ==> Radix16(n)[0] != '0'
  {
    var s := Radix16(n);
    if n < 16 {
      DigitValueOfHexDigit(n);
    } else {
      Radix16Denotes(n / 16);
      DigitValueOfHexDigit(n % 16);
      assert s[..|s| - 1] == Radix16(n / 16);
      assert s[0] == Radix16(n / 16)[0];
    }
  }

  /** For a byte, `toString(16)` has one digit exactly when the value is below 16. */
  lemma Radix16OfByte(b: byte)
    ensures b < 16 ==> Radix16(b) == [HexDigit(b)]
    ensures 16 <= b ==> Radix16(b) == [HexDigit(b / 16), HexDigit(b % 16)]
  {
  }

  /** The padding step at agent/FridaUtil.ts:70. */
  function PadToTwo(at: string): string {
    if |at| < 2 then "0" + at else at
  }

  /** One loop iteration's contribution: two digits, the high nibble first,
      zero-padded when the byte is below 16. */
  function ByteToHex(b: byte): (s: string)
    ensures s == [HexDigit(b / 16), HexDigit(b % 16)]
    ensures b < 16 ==> s[0] == '0'
  {
    Radix16OfByte(b);
    PadToTwo(Radix16(b))
  }

  /** The string `byteArrayToHexString` builds, defined the way the loop
      extends it: one byte at a time from the left. */
  function HexOf(bs: seq<byte>): (s: string)
    ensures |s| == 2 * |bs|
  {
    if bs == [] then "" else HexOf(bs[..|bs| - 1]) + ByteToHex(bs[|bs| - 1])
  }

  /** Byte `i` of the input is spelled by characters `2i` and `2i+1` of the
      output. */
  lemma {:induction false} HexOfDigits(bs: seq<byte>)
    ensures forall i :: 0 <= i < |bs| ==> HexOf(bs)[2 * i] == HexDigit(bs[i] / 16) && HexOf(bs)[2 * i + 1] == HexDigit(bs[i] % 16)
    decreases |bs|
  {
    if bs != [] {
      var init := bs[..|bs| - 1];
      var b := bs[|bs| - 1];
      HexOfDigits(init);
      var p := HexOf(init);
      var q := ByteToHex(b);
      var s := HexOf(bs);
      assert s == p + q;
      forall i | 0 <= i < |bs|
        ensures s[2 * i] == HexDigit(bs[i] / 16) && s[2 * i + 1] == HexDigit(bs[i] % 16)
      {
        if i < |init| {
          assert bs[i] == init[i];
          assert s[2 * i] == p[2 * i] && s[2 * i + 1] == p[2 * i + 1];
        } else {
          assert s[2 * i] == q[0] && s[2 * i + 1] == q[1];
        }
      }
    }
  }

  /** The output is lowercase hex throughout. */
  lemma {:induction false} HexOfIsLowerHex(bs: seq<byte>)
    ensures IsLowerHex(HexOf(bs))
    decreases |bs|
  {
    if bs != [] {
      var init := bs[..|bs| - 1];
      HexOfIsLowerHex(init);
      var p := HexOf(init);
      var q := ByteToHex(bs[|bs| - 1]);
      var s := HexOf(bs);
      assert s == p + q;
      forall k | 0 <= k < |s|
        ensures IsLowerHexDigit(s[k])
      {
        if k < |p| {
          assert s[k] == p[k];
        } else {
          assert s[k] == q[k - |p|];
        }
      }
    }
  }

  /** The loop of agent/FridaUtil.ts:65-74. */
  method ByteArrayToHexString(arybuf: seq<byte>) returns (retstr: string)
    ensures |retstr| == 2 * |arybuf|
    ensures retstr == HexOf(arybuf)
  {
    retstr := "";
    var i := 0;
    while i < |arybuf|
      invariant 0 <= i <= |arybuf|
      invariant retstr == HexOf(arybuf[..i])
    {
      var at := Radix16(arybuf[i]);
      if |at| < 2 {
        at := "0" + at;
      }
      assert arybuf[..i + 1][..i] == arybuf[..i];
      retstr := retstr + at;
      i := i + 1;
    }
    assert arybuf[..i] == arybuf;
  }

  /** Encoding distributes over concatenation of buffers. */
  lemma {:induction false} HexOfConcat(a: seq<byte>, b: seq<byte>)
    ensures HexOf(a + b) == HexOf(a) + HexOf(b)
    decreases |b|
  {
    if b == [] {
      assert a + b == a;
    } else {
      var b' := b[..|b| - 1];
      assert (a + b)[..|a + b| - 1] == a + b';
      assert (a + b)[|a + b| - 1] == b[|b| - 1];
      HexOfConcat(a, b');
    }
  }

  /** Reads a lowercase hex string back as bytes, two digits per byte; fails
      on an odd length or a character that is not a lowercase hex digit. */
  function Unhex(s: string): (r: Option<seq<byte>>)
    ensures r.Some? ==> 2 * |r.value| == |s|
    decreases |s|
  {
    if |s| == 0 then Some([])
    else if |s| == 1 then None
    else
      var hi := DigitValue(s[|s| - 2]);
      var lo := DigitValue(s[|s| - 1]);
      var rest := Unhex(s[..|s| - 2]);
      if hi.None? || lo.None? || rest.None? then None
      else Some(rest.value + [hi.value * 16 + lo.value])
  }

  lemma SplitLast<T>(xs: seq<T>)
    requires |xs| >= 1
    ensures xs[..|xs| - 1] + [xs[|xs| - 1]] == xs
  {
  }

  /** Decoding the last digit pair of a string adds the byte it spells. */
  lemma UnhexLastPair(s: string, bs: seq<byte>)
    requires |s| >= 2 && |bs| >= 1
    requires Unhex(s[..|s| - 2]) == Some(bs[..|bs| - 1])
    requires s[|s| - 2] == HexDigit(bs[|bs| - 1] / 16) && s[|s| - 1] == HexDigit(bs[|bs| - 1] % 16)
    ensures Unhex(s) == Some(bs)
  {
    var b := bs[|bs| - 1];
    var hi, lo := b / 16, b % 16;
    assert hi * 16 + lo == b;
    DigitValueOfHexDigit(hi);
    DigitValueOfHexDigit(lo);
    assert DigitValue(s[|s| - 2]) == Some(hi) && DigitValue(s[|s| - 1]) == Some(lo);
    assert Unhex(s) == Some(bs[..|bs| - 1] + [hi * 16 + lo]);
    SplitLast(bs);
  }

  /** Decoding the digit pairs recovers the input bytes. */
  lemma {:induction false} UnhexHexOf(bs: seq<byte>)
    ensures Unhex(HexOf(bs)) == Some(bs)
    decreases |bs|
  {
    if bs != [] {
      var s := HexOf(bs);
      var init := bs[..|bs| - 1];
      var p := HexOf(init);
      assert s == p + ByteToHex(bs[|bs| - 1]);
      assert s[..|s| - 2] == p;
      UnhexHexOf(init);
      UnhexLastPair(s, bs);
    }
  }

  /** What a successful decode of a string of two or more characters says
      about its last digit pair and the rest. */
  lemma UnhexLastPairInverse(s: string)
    requires |s| >= 2 && Unhex(s).Some?
    ensures var bs := Unhex(s).value;
            && |bs| >= 1
            && Unhex(s[..|s| - 2]) == Some(bs[..|bs| - 1])
            && s[|s| - 2] == HexDigit(bs[|bs| - 1] / 16)
            && s[|s| - 1] == HexDigit(bs[|bs| - 1] % 16)
  {
    var hi := DigitValue(s[|s| - 2]).value;
    var lo := DigitValue(s[|s| - 1]).value;
    var rest := Unhex(s[..|s| - 2]).value;
    var b: byte := hi * 16 + lo;
    assert Unhex(s).value == rest + [b];
    assert b / 16 == hi && b % 16 == lo;
    assert (rest + [b])[..|rest|] == rest;
  }

  /** Every string that decodes is the encoding of what it decodes to. */
  lemma {:induction false} HexOfUnhex(s: string)
    requires Unhex(s).Some?
    ensures HexOf(Unhex(s).value) == s
    decreases |s|
  {
    if |s| >= 2 {
      var bs := Unhex(s).value;
      UnhexLastPairInverse(s);
      var rest := s[..|s| - 2];
      HexOfUnhex(rest);
      assert HexOf(bs) == rest + ByteToHex(bs[|bs| - 1]);
      SplitLastTwo(s);
    }
  }

  lemma SplitLastTwo<T>(xs: seq<T>)
    requires |xs| >= 2
    ensures xs[..|xs| - 2] + [xs[|xs| - 2], xs[|xs| - 1]] == xs
  {
  }

  /** Encoding and decoding are inverse: a string decodes to `bs` exactly
      when it is the encoding of `bs`. */
  lemma HexRoundTrip(s: string, bs: seq<byte>)
    ensures Unhex(s) == Some(bs) <==> HexOf(bs) == s
  {
    if Unhex(s) == Some(bs) {
      HexOfUnhex(s);
    }
    if HexOf(bs) == s {
      UnhexHexOf(bs);
    }
  }
}
