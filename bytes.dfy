/** Bytes and fixed-width unsigned integers stored least significant byte first,
    the layout every multi-byte field of the transaction wire format uses. */
module Bytes {

  /** One octet of an encoded buffer. */
  newtype byte = b: int | 0 <= b < 256

  /** 256 to the power `width`: how many distinct values `width` bytes can hold. */
  function Pow256(width: nat): (p: nat)
    ensures p >= 1
  {
    if width == 0 then 1 else 256 * Pow256(width - 1)
  }

  /** The low `width` bytes of `n`, least significant first (Python's
      `n.to_bytes(width, "little")` for an `n` that fits). */
  function LittleEndian(n: nat, width: nat): (r: seq<byte>)
    ensures |r| == width
  {
    if width == 0 then [] else [(n % 256) as byte] + LittleEndian(n / 256, width - 1)
  }

  /** The unsigned integer that `s` spells, least significant byte first.
      Every `|s|`-byte string spells a number below 256^|s|. */
  function FromLittleEndian(s: seq<byte>): (n: nat)
    ensures n < Pow256(|s|)
  {
    if s == [] then 0 else s[0] as nat + 256 * FromLittleEndian(s[1..])
  }

  /** Writing a number that fits in `width` bytes and reading it back gives the number. */
  lemma {:induction false} LittleEndianRoundTrip(n: nat, width: nat)
    requires n < Pow256(width)
    ensures FromLittleEndian(LittleEndian(n, width)) == n
  {
    if width > 0 {
      var r := LittleEndian(n, width);
      assert n / 256 < Pow256(width - 1);
      LittleEndianRoundTrip(n / 256, width - 1);
      assert r[1..] == LittleEndian(n / 256, width - 1);
      assert r[0] as nat == n % 256;
    }
  }

  /** Reading bytes as a number and writing the number back at the same width gives the bytes. */
  lemma {:induction false} FromLittleEndianRoundTrip(s: seq<byte>)
    ensures LittleEndian(FromLittleEndian(s), |s|) == s
  {
    if s != [] {
      var m := FromLittleEndian(s[1..]);
      var n := FromLittleEndian(s);
      assert n == s[0] as nat + 256 * m;
      assert n % 256 == s[0] as nat && n / 256 == m;
      FromLittleEndianRoundTrip(s[1..]);
      assert LittleEndian(n, |s|) == [s[0]] + s[1..];
    }
  }

  /** Distinct numbers that fit in `width` bytes have distinct `width`-byte encodings. */
  lemma LittleEndianInjective(m: nat, n: nat, width: nat)
    requires m < Pow256(width) && n < Pow256(width)
    requires LittleEndian(m, width) == LittleEndian(n, width)
    ensures m == n
  {
    LittleEndianRoundTrip(m, width);
    LittleEndianRoundTrip(n, width);
  }
}
