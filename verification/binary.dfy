/** Unsigned integers encoded as byte sequences: the little- and big-endian
    conventions the library uses through Go's encoding/binary package and
    through its own hand-written shifts. */
module Binary {

  /** One octet of a buffer or file. */
  type Byte = b: int | 0 <= b < 256

  /** 256^n: one more than the largest value n bytes can hold. */
  function Pow256(n: nat): (r: nat)
    ensures r >= 1
    ensures n > 0 ==> r >= 256
  {
    if n == 0 then 1 else 256 * Pow256(n - 1)
  }

  /** The value whose encoding is s, least significant byte first. */
  function LittleEndian(s: seq<Byte>): (r: nat)
    ensures r < Pow256(|s|)
  {
    if s == [] then 0
    else
      var rest := LittleEndian(s[1..]);
      assert 256 * rest <= 256 * (Pow256(|s| - 1) - 1);
      s[0] + 256 * rest
  }

  /** The value whose encoding is s, most significant byte first. */
  function BigEndian(s: seq<Byte>): (r: nat)
    ensures r < Pow256(|s|)
  {
    if s == [] then 0
    else
      var high := BigEndian(s[..|s| - 1]);
      assert 256 * high <= 256 * (Pow256(|s| - 1) - 1);
      256 * high + s[|s| - 1]
  }

  /** The n-byte little-endian encoding of x (Go's PutUint16/PutUint32). */
  function PutLittleEndian(x: nat, n: nat): (r: seq<Byte>)
    requires x < Pow256(n)
    ensures |r| == n
    ensures LittleEndian(r) == x
  {
    if n == 0 then []
    else [x % 256] + PutLittleEndian(x / 256, n - 1)
  }

  /** The bytes of s in the opposite order. */
  function Reverse(s: seq<Byte>): (r: seq<Byte>)
    ensures |r| == |s|
    ensures forall i :: 0 <= i < |s| ==> r[i] == s[|s| - 1 - i]
  {
    seq(|s|, i requires 0 <= i < |s| => s[|s| - 1 - i])
  }

  /** Encoding is the inverse of decoding: the n bytes of a little-endian
      value are recovered from the value alone. */
  lemma {:induction false} PutLittleEndianOfLittleEndian(s: seq<Byte>)
    ensures PutLittleEndian(LittleEndian(s), |s|) == s
  {
    if s != [] {
      var x := LittleEndian(s);
      assert x % 256 == s[0] && x / 256 == LittleEndian(s[1..]);
      PutLittleEndianOfLittleEndian(s[1..]);
    }
  }

  /** Reading most significant byte first is reading the reversed bytes
      least significant byte first. */
  lemma {:induction false} BigEndianIsReversedLittleEndian(s: seq<Byte>)
    ensures BigEndian(s) == LittleEndian(Reverse(s))
  {
    if s != [] {
      var init := s[..|s| - 1];
      assert Reverse(s)[1..] == Reverse(init);
      BigEndianIsReversedLittleEndian(init);
    }
  }

  /** Writing a big-endian value back little-endian reverses its bytes. */
  lemma PutLittleEndianOfBigEndian(s: seq<Byte>)
    ensures BigEndian(s) < Pow256(|s|)
    ensures PutLittleEndian(BigEndian(s), |s|) == Reverse(s)
  {
    BigEndianIsReversedLittleEndian(s);
    PutLittleEndianOfLittleEndian(Reverse(s));
  }

  /** The two-byte little-endian value, spelled out. */
  lemma LittleEndian2(s: seq<Byte>)
    requires |s| == 2
    ensures LittleEndian(s) == s[0] + 0x100 * s[1] as int
  {
    assert s[1..][1..] == [];
  }

  /** The three-byte little-endian value, spelled out. */
  lemma LittleEndian3(s: seq<Byte>)
    requires |s| == 3
    ensures LittleEndian(s) == s[0] + 0x100 * s[1] as int + 0x1_0000 * s[2] as int
  {
    LittleEndian2(s[1..]);
  }

  /** The four-byte little-endian value, spelled out. */
  lemma LittleEndian4(s: seq<Byte>)
    requires |s| == 4
    ensures LittleEndian(s) == s[0] + 0x100 * s[1] as int + 0x1_0000 * s[2] as int + 0x100_0000 * s[3] as int
  {
    LittleEndian3(s[1..]);
  }

  /** The two-byte big-endian value, spelled out. */
  lemma BigEndian2(s: seq<Byte>)
    requires |s| == 2
    ensures BigEndian(s) == 0x100 * s[0] as int + s[1]
  {
    assert s[..1][..0] == [];
  }

  /** The four-byte big-endian value, spelled out. */
  lemma BigEndian4(s: seq<Byte>)
    requires |s| == 4
    ensures BigEndian(s) == 0x100_0000 * s[0] as int + 0x1_0000 * s[1] as int + 0x100 * s[2] as int + s[3]
  {
    var s3 := s[..3];
    assert s3[..2] == s[..2];
    BigEndian2(s[..2]);
    assert BigEndian(s3) == 0x100 * BigEndian(s[..2]) + s[2];
    assert BigEndian(s) == 0x100 * BigEndian(s3) + s[3];
  }

  /** A big-endian value splits into its first k bytes, scaled, and the rest. */
  lemma {:induction false} BigEndianSplit(s: seq<Byte>, k: nat)
    requires k <= |s|
    ensures BigEndian(s) == Pow256(|s| - k) * BigEndian(s[..k]) + BigEndian(s[k..])
  {
    if k < |s| {
      var init := s[..|s| - 1];
      assert init[..k] == s[..k];
      assert s[k..][..|s| - k - 1] == init[k..];
      BigEndianSplit(init, k);
      var whole := BigEndian(init);
      Regroup(BigEndian(s), whole, s[|s| - 1], Pow256(|init| - k), BigEndian(s[..k]),
              BigEndian(init[k..]), BigEndian(s[k..]), Pow256(|s| - k));
    } else {
      assert s[..k] == s;
    }
  }

  /** The arithmetic step of BigEndianSplit. */
  lemma Regroup(whole: int, init: int, last: int, p: int, high: int, low: int, tail: int, q: int)
    requires whole == 256 * init + last && init == p * high + low
    requires tail == 256 * low + last && q == 256 * p
    ensures whole == q * high + tail
  {
  }
}
