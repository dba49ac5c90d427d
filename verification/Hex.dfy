/** Hexadecimal, and the `sha256:` digest notation. */
module Hex {
  import opened Basics

  /** A SHA-256 value: exactly 32 bytes. */
  type Hash = h: Bytes | |h| == 32 witness seq(32, _ => '\0')

  const DIGEST_PREFIX := "sha256:"

  function HexDigit(d: nat): (c: char)
    requires d < 16
    ensures IsLowerHex(c)
  {
    if d < 10 then ('0' as int + d) as char else ('a' as int + d - 10) as char
  }

  function HexValue(c: char): (v: Option<nat>)
    ensures v.Some? ==> v.value < 16
  {
    if '0' <= c <= '9' then Some(c as int - '0' as int)
    else if 'a' <= c <= 'f' then Some(c as int - 'a' as int + 10)
    else if 'A' <= c <= 'F' then Some(c as int - 'A' as int + 10)
    else None
  }

  predicate IsLowerHex(c: char) {
    '0' <= c <= '9' || 'a' <= c <= 'f'
  }

  /** Two lower-case digits for each byte. */
  function ToHex(bytes: Bytes): (s: string)
    ensures |s| == 2 * |bytes|
    ensures forall i :: 0 <= i < |s| ==> IsLowerHex(s[i])
  {
    if bytes == [] then ""
    else [HexDigit(bytes[0] as int / 16), HexDigit(bytes[0] as int % 16)] + ToHex(bytes[1..])
  }

  lemma {:induction false} ToHexInjective(a: Bytes, b: Bytes)
    requires ToHex(a) == ToHex(b)
    ensures a == b
  {
    assert |ToHex(a)| == |ToHex(b)|;
    if a != [] {
      assert HexValue(ToHex(a)[0]) == Some(a[0] as int / 16) && HexValue(ToHex(a)[1]) == Some(a[0] as int % 16);
      assert HexValue(ToHex(b)[0]) == Some(b[0] as int / 16) && HexValue(ToHex(b)[1]) == Some(b[0] as int % 16);
      assert a[0] == b[0];
      assert ToHex(a)[2..] == ToHex(a[1..]) && ToHex(b)[2..] == ToHex(b[1..]);
      ToHexInjective(a[1..], b[1..]);
      assert a == [a[0]] + a[1..] && b == [b[0]] + b[1..];
    }
  }

  /** The high digit comes first, letters are lower case. */
  lemma HexExample()
    ensures ToHex([1 as char, 0xab as char]) == "01ab"
  {
    assert ToHex([0xab as char]) == "ab";
    assert [1 as char, 0xab as char][1..] == [0xab as char];
  }

  /** The textual digest of a hash. */
  function Digest(h: Hash): string {
    DIGEST_PREFIX + ToHex(h)
  }

  /** `sha256:` and 64 lower-case hexadecimal digits. */
  predicate ValidDigest(value: string) {
    && |value| >= |DIGEST_PREFIX|
    && value[..|DIGEST_PREFIX|] == DIGEST_PREFIX
    && |value| - |DIGEST_PREFIX| == 64
    && forall i :: |DIGEST_PREFIX| <= i < |value| ==> IsLowerHex(value[i])
  }

  /** Every emitted digest passes the format check, and it determines the hash. */
  lemma DigestFormat(h: Hash)
    ensures ValidDigest(Digest(h))
  {
    var d := Digest(h);
    assert d[..|DIGEST_PREFIX|] == DIGEST_PREFIX;
    forall i | |DIGEST_PREFIX| <= i < |d|
      ensures IsLowerHex(d[i])
    {
      assert d[i] == ToHex(h)[i - |DIGEST_PREFIX|];
    }
  }

  lemma DigestInjective(a: Hash, b: Hash)
    requires Digest(a) == Digest(b)
    ensures a == b
  {
    assert Digest(a)[|DIGEST_PREFIX|..] == ToHex(a);
    assert Digest(b)[|DIGEST_PREFIX|..] == ToHex(b);
    ToHexInjective(a, b);
  }
}
