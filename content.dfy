/** Content identity (src/hash.ts). The 64-bit xxHash of a file's bytes is taken as a
    parameter (`xxh64`); what is modelled is how the digest is written down:
    `digest.toString(16).padStart(16, '0')`, and the files a command reads, given as
    a map from resolved path to content. */
module Content {
  type Bytes = seq<bv8>

  /** An unsigned 64-bit value, as xxHash64 produces. */
  type U64 = n: nat | n < 0x1_0000_0000_0000_0000

  /** The regular files on disk, by resolved path. A path that is not a key does not exist. */
  type Disk = map<string, Bytes>

  predicate IsHexDigit(c: char) {
    '0' <= c <= '9' || 'a' <= c <= 'f'
  }

  function HexChar(d: nat): (c: char)
    requires d < 16
    ensures IsHexDigit(c)
  {
    if d < 10 then ('0' as int + d) as char else ('a' as int + d - 10) as char
  }

  function HexDigitValue(c: char): (d: nat)
    requires IsHexDigit(c)
    ensures d < 16 && HexChar(d) == c
  {
    if c <= '9' then c as int - '0' as int else c as int - 'a' as int + 10
  }

  /** `n.toString(16)`: lower-case hexadecimal digits, no leading zero. */
  function ToHex(n: nat): (r: string)
    ensures |r| >= 1 && forall i :: 0 <= i < |r| ==> IsHexDigit(r[i])
  {
    if n < 16 then [HexChar(n)] else ToHex(n / 16) + [HexChar(n % 16)]
  }

  /** The number a string of hexadecimal digits denotes. */
  function HexValue(s: string): nat
    requires forall i :: 0 <= i < |s| ==> IsHexDigit(s[i])
  {
    if s == [] then 0 else HexValue(s[..|s| - 1]) * 16 + HexDigitValue(s[|s| - 1])
  }

  function Pow16(k: nat): nat {
    if k == 0 then 1 else 16 * Pow16(k - 1)
  }

  lemma {:induction false} ToHexLength(n: nat, k: nat)
    requires k >= 1 && n < Pow16(k)
    ensures |ToHex(n)| <= k
  {
    if n >= 16 {
      ToHexLength(n / 16, k - 1);
    }
  }

  /** Every 64-bit value has at most 16 hexadecimal digits. */
  lemma Pow16Sixteen()
    ensures Pow16(16) == 0x1_0000_0000_0000_0000
  {
    assert Pow16(4) == 0x1_0000;
    assert Pow16(8) == 0x1_0000_0000 by { Pow16Add(4, 4); }
    Pow16Add(8, 8);
  }

  lemma {:induction false} Pow16Add(a: nat, b: nat)
    ensures Pow16(a + b) == Pow16(a) * Pow16(b)
  {
    if b > 0 {
      Pow16Add(a, b - 1);
    }
  }

  lemma {:induction false} ToHexValue(n: nat)
    ensures HexValue(ToHex(n)) == n
  {
    if n >= 16 {
      var s := ToHex(n);
      assert s[..|s| - 1] == ToHex(n / 16);
      ToHexValue(n / 16);
    }
  }

  lemma {:induction false} HexLeadingZeros(z: nat, s: string)
    requires forall i :: 0 <= i < |s| ==> IsHexDigit(s[i])
    ensures var p := seq(z, _ => '0') + s;
      (forall i :: 0 <= i < |p| ==> IsHexDigit(p[i])) && HexValue(p) == HexValue(s)
  {
    var p := seq(z, _ => '0') + s;
    assert forall i :: 0 <= i < |p| ==> IsHexDigit(p[i]);
    if s == [] {
      ZerosValue(z);
      assert p == seq(z, _ => '0');
    } else {
      assert p[..|p| - 1] == seq(z, _ => '0') + s[..|s| - 1];
      HexLeadingZeros(z, s[..|s| - 1]);
    }
  }

  lemma {:induction false} ZerosValue(z: nat)
    ensures var p := seq(z, _ => '0');
      (forall i :: 0 <= i < |p| ==> IsHexDigit(p[i])) && HexValue(p) == 0
  {
    var p := seq(z, _ => '0');
    assert forall i :: 0 <= i < |p| ==> IsHexDigit(p[i]);
    if z > 0 {
      assert p[..z - 1] == seq(z - 1, _ => '0');
      ZerosValue(z - 1);
    }
  }

  /** How `hashFile` writes a 64-bit digest: hexadecimal, left-padded with zeros to 16. */
  function DigestText(v: U64): (r: string)
    ensures |r| == 16 && forall i :: 0 <= i < 16 ==> IsHexDigit(r[i])
  {
    var h := ToHex(v);
    Pow16Sixteen();
    ToHexLength(v, 16);
    seq(16 - |h|, _ => '0') + h
  }

  /** The written digest determines the 64-bit value: two files share a hash text
      exactly when their xxHash values are equal. */
  lemma DigestTextInjective(a: U64, b: U64)
    ensures DigestText(a) == DigestText(b) <==> a == b
  {
    var ha, hb := ToHex(a), ToHex(b);
    Pow16Sixteen();
    ToHexLength(a, 16);
    ToHexLength(b, 16);
    HexLeadingZeros(16 - |ha|, ha);
    HexLeadingZeros(16 - |hb|, hb);
    ToHexValue(a);
    ToHexValue(b);
    if DigestText(a) == DigestText(b) {
      assert HexValue(DigestText(a)) == a;
    }
  }

  /** `hashFile(path)` for a file with the given content. */
  function HashFile(content: Bytes, xxh64: Bytes -> U64): (r: string)
    ensures |r| == 16 && forall i :: 0 <= i < 16 ==> IsHexDigit(r[i])
    ensures HexValue(r) == xxh64(content)
  {
    ToHexValue(xxh64(content));
    Pow16Sixteen();
    ToHexLength(xxh64(content), 16);
    HexLeadingZeros(16 - |ToHex(xxh64(content))|, ToHex(xxh64(content)));
    DigestText(xxh64(content))
  }

  /** `hashFile` as the commands call it, for a given 64-bit xxHash. */
  function Hasher(xxh64: Bytes -> U64): Bytes -> string {
    content => HashFile(content, xxh64)
  }

  /** The catalog's identity of a file: its hash text and its byte size (`stat.size`). */
  datatype Identity = Identity(hash: string, size: nat)
}
