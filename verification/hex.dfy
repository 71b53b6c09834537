/**
 Bytes and their rendering by Go's `fmt.Sprintf("%x", b)`: two lower-case hex
 digits per byte, high nibble first, in byte order.
 */
module Hex {

  newtype byte = x: int | 0 <= x < 256

  const Digits: string := "0123456789abcdef"

  /** A character `%x` can produce. */
  predicate IsLowerHex(c: char) { '0' <= c <= '9' || 'a' <= c <= 'f' }

  /** The digit for a value below 16. */
  function Nibble(n: int): (c: char)
    requires 0 <= n < 16
    ensures IsLowerHex(c)
  {
    Digits[n]
  }

  /** The value of a lower-case hex digit; the inverse of `Nibble`. */
  function NibbleValue(c: char): (n: int)
    requires IsLowerHex(c)
    ensures 0 <= n < 16
    ensures Nibble(n) == c
  {
    if c <= '9' then c as int - '0' as int else c as int - 'a' as int + 10
  }

  lemma NibbleInjective(n: int)
    requires 0 <= n < 16
    ensures NibbleValue(Nibble(n)) == n
  {
  }

  /** `fmt.Sprintf("%x", d)`. */
  function ToHex(d: seq<byte>): (r: string)
    ensures |r| == 2 * |d|
    ensures forall i :: 0 <= i < |r| ==> IsLowerHex(r[i])
  {
    if |d| == 0 then ""
    else [Nibble(d[0] as int / 16), Nibble(d[0] as int % 16)] + ToHex(d[1..])
  }

  /** Byte `i` sits at characters `2i` and `2i+1`, high nibble first. */
  lemma {:induction false} ToHexAt(d: seq<byte>, i: int)
    requires 0 <= i < |d|
    ensures ToHex(d)[2 * i] == Nibble(d[i] as int / 16)
    ensures ToHex(d)[2 * i + 1] == Nibble(d[i] as int % 16)
    decreases |d|
  {
    if i > 0 {
      ToHexAt(d[1..], i - 1);
    }
  }

  /** A well-formed rendering: even length, lower-case hex digits only. */
  predicate IsHexText(s: string) {
    |s| % 2 == 0 && forall i :: 0 <= i < |s| ==> IsLowerHex(s[i])
  }

  /** Reads a rendering back into bytes. */
  function FromHex(s: string): (d: seq<byte>)
    requires IsHexText(s)
    ensures |d| == |s| / 2
  {
    if |s| == 0 then []
    else [(NibbleValue(s[0]) * 16 + NibbleValue(s[1])) as byte] + FromHex(s[2..])
  }

  /** Reading a rendering gives back the bytes. */
  lemma {:induction false} FromToHex(d: seq<byte>)
    ensures IsHexText(ToHex(d))
    ensures FromHex(ToHex(d)) == d
    decreases |d|
  {
    if |d| > 0 {
      var h := ToHex(d);
      assert h[2..] == ToHex(d[1..]);
      FromToHex(d[1..]);
      NibbleInjective(d[0] as int / 16);
      NibbleInjective(d[0] as int % 16);
    }
  }

  /** Rendering the bytes read from a well-formed text gives that text back. */
  lemma {:induction false} ToFromHex(s: string)
    requires IsHexText(s)
    ensures ToHex(FromHex(s)) == s
    decreases |s|
  {
    if |s| > 0 {
      var rest := s[2..];
      ToFromHex(rest);
      var hi, lo := NibbleValue(s[0]), NibbleValue(s[1]);
      var b := (hi * 16 + lo) as byte;
      SplitByte(hi, lo);
      var d := FromHex(s);
      assert d == [b] + FromHex(rest);
      assert d[1..] == FromHex(rest);
      assert ToHex(d) == [Nibble(hi), Nibble(lo)] + ToHex(FromHex(rest));
      assert s == [s[0], s[1]] + rest;
    }
  }

  lemma SplitByte(hi: int, lo: int)
    requires 0 <= hi < 16 && 0 <= lo < 16
    ensures (hi * 16 + lo) / 16 == hi && (hi * 16 + lo) % 16 == lo
  {
  }
}
