/** The 4-bit Nibble value of sadl/nibble.ts. */
module Nibbles {
  import opened Bytes

  /** JavaScript's ToUint32 on an integer: its low 32 bits (the bit pattern ToInt32 also yields). */
  function ToUint32(v: int): (r: nat)
    ensures r < 0x1_0000_0000 && (v - r) % 0x1_0000_0000 == 0
    ensures 0 <= v < 0x1_0000_0000 ==> r == v
  {
    v % 0x1_0000_0000
  }

  /** Bitwise AND of two non-negative integers, taken bit by bit from the least significant end. */
  function BitAnd(a: nat, b: nat): (r: nat)
    ensures r <= a && r <= b
  {
    if a == 0 || b == 0 then 0
    else 2 * BitAnd(a / 2, b / 2) + (if a % 2 == 1 && b % 2 == 1 then 1 else 0)
  }

  function Pow2(k: nat): (p: nat)
    ensures p >= 1
  {
    if k == 0 then 1 else 2 * Pow2(k - 1)
  }

  /** AND with a mask of k one-bits keeps the value modulo 2^k. */
  lemma {:induction false} BitAndLowBits(a: nat, k: nat)
    ensures BitAnd(a, Pow2(k) - 1) == a % Pow2(k)
  {
    if k == 0 {
      assert Pow2(k) == 1;
    } else if a == 0 {
      assert BitAnd(a, Pow2(k) - 1) == 0;
    } else {
      var p := Pow2(k - 1);
      var m := Pow2(k) - 1;
      assert m == 2 * (p - 1) + 1;
      assert m / 2 == p - 1 && m % 2 == 1;
      var low := BitAnd(a / 2, p - 1);
      assert BitAnd(a, m) == 2 * low + a % 2;
      BitAndLowBits(a / 2, k - 1);
      assert low == (a / 2) % p;
      HalveMod(a, p);
    }
  }

  /** Splitting off the lowest bit: a mod 2p is twice (a/2 mod p) plus a's lowest bit. */
  lemma HalveMod(a: nat, p: nat)
    requires p > 0
    ensures a % (2 * p) == 2 * ((a / 2) % p) + a % 2
  {
    var h, b := a / 2, a % 2;
    var q, s := h / p, h % p;
    assert h == p * q + s;
    assert a == (2 * p) * q + (2 * s + b);
    ModUnique(a, 2 * p, q, 2 * s + b);
  }

  lemma ModUnique(x: int, d: nat, q: int, r: int)
    requires d > 0 && 0 <= r < d && x == d * q + r
    ensures x % d == r
  {
    var q', r' := x / d, x % d;
    assert x == d * q' + r';
    if q' < q {
      AtLeastOnce(d, q - q');
    } else if q' > q {
      AtLeastOnce(d, q' - q);
    }
  }

  lemma AtLeastOnce(d: nat, k: int)
    requires k >= 1
    ensures d * k >= d
  {
    assert d * k == d + d * (k - 1);
  }

  /** `v & 0x0f` on a JavaScript number holding the integer v: its value modulo 16. */
  function Mask(v: int): (r: int)
    ensures 0 <= r < 16
    ensures r == v % 16
  {
    BitAndLowBits(ToUint32(v), 4);
    assert Pow2(4) == 16;
    LowBitsKeepMod16(v);
    BitAnd(ToUint32(v), 0x0f)
  }

  /** Dropping multiples of 2^32 does not change a value modulo 16. */
  lemma LowBitsKeepMod16(v: int)
    ensures ToUint32(v) % 16 == v % 16
  {
    var u, q := ToUint32(v), v / 0x1_0000_0000;
    var h, r := v / 16, v % 16;
    assert v == 0x1_0000_0000 * q + u;
    assert v == 16 * h + r;
    assert u == 16 * (h - 0x1000_0000 * q) + r;
    ModUnique(u, 16, h - 0x1000_0000 * q, r);
  }

  type uint4 = x: int | 0 <= x < 16

  /** A Nibble object; its private value is fixed by the constructor and never changes. */
  datatype Nibble = Nibble(value: uint4)

  /** `new Nibble(v)`: keeps the low four bits of v. */
  function FromNumber(v: int): (n: Nibble)
    ensures n.value == v % 16
  {
    Nibble(Mask(v))
  }

  /** `new Nibble()`: the parameter defaults to 0x00. */
  function DefaultNibble(): (n: Nibble)
    ensures n.value == 0 && ToString(n) == "0"
  {
    FromNumber(0x00)
  }

  /** `Nibble.toString`: the value in radix 16, padded to two characters with '0', second character. */
  function ToString(n: Nibble): (s: string)
    ensures s == [DigitChar(n.value)]
  {
    CharAt(PadStart(Digits(n.value, 16), 2, '0'), 1)
  }

  /** Constructing from v and from v & 0x0f gives the same nibble; a nibble rebuilt from its value is itself. */
  lemma MaskIsIdempotent(v: int, n: Nibble)
    ensures FromNumber(v) == FromNumber(Mask(v))
    ensures FromNumber(n.value) == n
  {
    var m := Mask(v);
    assert FromNumber(v).value == m;
    assert m % 16 == m;
    assert FromNumber(m).value == m;
    assert n.value % 16 == n.value;
  }

  /** The text of a nibble is one lowercase hex digit: '0'..'9' for 0..9 and 'a'..'f' for 10..15. */
  lemma HexDigitText(n: Nibble)
    ensures |ToString(n)| == 1
    ensures ToString(n)[0] == "0123456789abcdef"[n.value]
    ensures n.value < 10 ==> '0' <= ToString(n)[0] <= '9'
    ensures n.value >= 10 ==> 'a' <= ToString(n)[0] <= 'f'
    ensures DigitValue(ToString(n)[0]) == n.value
  {
    DigitCharValue(n.value);
  }

  /** Different nibbles have different texts, so "a" is the text of the value 10 only. */
  lemma ToStringInjective(a: Nibble, b: Nibble)
    ensures ToString(a) == ToString(b) <==> a == b
    ensures ToString(a) == "a" <==> a.value == 10
  {
    HexDigitText(a);
    HexDigitText(b);
  }
}
