/** Bytes, characters and the JavaScript string helpers the decoder relies on. */
module Bytes {

  /** An element of a Uint8Array. */
  type byte = x: int | 0 <= x < 256

  function Min(a: int, b: int): int {
    if a <= b then a else b
  }

  function Max(a: int, b: int): int {
    if a <= b then b else a
  }

  /** The contents of a freshly allocated `new Uint8Array(n)`. */
  function Zeros(n: nat): (r: seq<byte>)
    ensures |r| == n && forall i :: 0 <= i < n ==> r[i] == 0
  {
    seq(n, _ => 0)
  }

  /** `String.fromCharCode` applied to every byte, concatenated. */
  function Latin1(bs: seq<byte>): (r: string)
    ensures |r| == |bs| && forall i :: 0 <= i < |bs| ==> r[i] as int == bs[i]
  {
    seq(|bs|, i requires 0 <= i < |bs| => bs[i] as char)
  }

  /** Decoding one more byte appends its character. */
  lemma Latin1Snoc(bs: seq<byte>, b: byte)
    ensures Latin1(bs + [b]) == Latin1(bs) + [b as char]
  {
    assert Latin1(bs + [b])[|bs|] == b as char;
  }

  /** `String.prototype.padStart(width, fill)` with a one-character fill. */
  function PadStart(s: string, width: nat, fill: char): (r: string)
    ensures |r| == Max(|s|, width)
    ensures r[|r| - |s|..] == s
    ensures forall i :: 0 <= i < |r| - |s| ==> r[i] == fill
  {
    if |s| >= width then s else seq(width - |s|, _ => fill) + s
  }

  /** `String.prototype.charAt(i)`: the character at i as a string, or "" past the end. */
  function CharAt(s: string, i: nat): (r: string)
    ensures |r| <= 1 && (r == "" <==> i >= |s|)
    ensures i < |s| ==> r[0] == s[i]
  {
    if i < |s| then [s[i]] else ""
  }

  /** The digit character for 0 <= d < 16, lowercase as `Number.prototype.toString` writes it. */
  function DigitChar(d: nat): char
    requires d < 16
  {
    if d < 10 then ('0' as int + d) as char else ('a' as int + d - 10) as char
  }

  /** The value of a digit character written by DigitChar, -1 for any other character. */
  function DigitValue(c: char): int {
    if '0' <= c <= '9' then c as int - '0' as int
    else if 'a' <= c <= 'f' then c as int - 'a' as int + 10
    else -1
  }

  /** `Number.prototype.toString(radix)` for a non-negative integer: no leading zeros. */
  function Digits(n: nat, radix: nat): (s: string)
    requires 2 <= radix <= 16
    ensures |s| >= 1 && (|s| == 1 <==> n < radix)
    decreases n
  {
    if n < radix then [DigitChar(n)] else Digits(n / radix, radix) + [DigitChar(n % radix)]
  }

  /** The number a string of digits denotes in the given radix. */
  function ValueOf(s: string, radix: nat): int {
    if s == [] then 0 else ValueOf(s[..|s| - 1], radix) * radix + DigitValue(s[|s| - 1])
  }

  /** True when every character of s is a digit of the radix. */
  predicate AllDigits(s: string, radix: nat) {
    forall i :: 0 <= i < |s| ==> 0 <= DigitValue(s[i]) < radix
  }

  /** Digits writes n with at least one digit, only digits of the radix, and the digits read back as n. */
  lemma {:induction false} DigitsRoundTrip(n: nat, radix: nat)
    requires 2 <= radix <= 16
    ensures |Digits(n, radix)| >= 1
    ensures AllDigits(Digits(n, radix), radix)
    ensures ValueOf(Digits(n, radix), radix) == n
    decreases n
  {
    var s := Digits(n, radix);
    if n < radix {
      DigitCharValue(n);
      assert s[..|s| - 1] == [];
    } else {
      var q, d := DivMod(n, radix);
      var init := Digits(q, radix);
      DigitsRoundTrip(q, radix);
      DigitCharValue(d);
      assert s == init + [DigitChar(d)];
      assert s[..|s| - 1] == init;
    }
  }

  /** Euclidean division of n by the radix, with the facts the digit proofs use. */
  lemma DivMod(n: nat, radix: nat) returns (q: nat, d: nat)
    requires 2 <= radix <= n
    ensures q == n / radix && d == n % radix
    ensures n == q * radix + d && d < radix && q < n
  {
    q, d := n / radix, n % radix;
  }

  /** DigitValue reads back the digit DigitChar writes. */
  lemma DigitCharValue(d: nat)
    requires d < 16
    ensures DigitValue(DigitChar(d)) == d
  {
  }

  /** Zeros written in front of a digit string do not change its value. */
  lemma {:induction false} LeadingZerosKeepValue(zeros: string, s: string, radix: nat)
    requires forall i :: 0 <= i < |zeros| ==> zeros[i] == '0'
    ensures ValueOf(zeros + s, radix) == ValueOf(s, radix)
    decreases |s|
  {
    if s == [] {
      assert zeros + s == zeros;
      AllZerosAreZero(zeros, radix);
    } else {
      assert (zeros + s)[..|zeros + s| - 1] == zeros + s[..|s| - 1];
      LeadingZerosKeepValue(zeros, s[..|s| - 1], radix);
    }
  }

  lemma {:induction false} AllZerosAreZero(zeros: string, radix: nat)
    requires forall i :: 0 <= i < |zeros| ==> zeros[i] == '0'
    ensures ValueOf(zeros, radix) == 0
    decreases |zeros|
  {
    if zeros != [] {
      AllZerosAreZero(zeros[..|zeros| - 1], radix);
    }
  }
}
