/** Byte-level value types and the big-endian n-byte field helpers that stand in for
    BitStream::writeBits / readBits with a bit count that is a multiple of eight. */
module Bytes {
  import opened Wrappers

  type Byte = x: int | 0 <= x < 0x100
  type uint16 = x: int | 0 <= x < 0x1_0000
  type uint32 = x: int | 0 <= x < 0x1_0000_0000
  type uint64 = x: int | 0 <= x < 0x1_0000_0000_0000_0000

  /** 256^n: the number of values an n-byte field can hold. */
  function Pow256(n: nat): (r: nat)
    ensures r >= 1
  {
    if n == 0 then 1 else 256 * Pow256(n - 1)
  }

  lemma Pow256Widths()
    ensures Pow256(0) == 1
    ensures Pow256(1) == 0x100
    ensures Pow256(2) == 0x1_0000
    ensures Pow256(4) == 0x1_0000_0000
    ensures Pow256(8) == 0x1_0000_0000_0000_0000
  {
    assert Pow256(1) == 0x100;
    assert Pow256(2) == 0x1_0000;
    assert Pow256(3) == 0x100_0000;
    assert Pow256(4) == 0x1_0000_0000;
    assert Pow256(5) == 0x100_0000_0000;
    assert Pow256(6) == 0x1_0000_0000_0000;
    assert Pow256(7) == 0x100_0000_0000_0000;
  }

  /** The n low-order bytes of v, most significant first. Like writeBits, a value
      wider than the field is truncated to its low-order bytes. */
  function ToBE(v: nat, n: nat): (r: seq<Byte>)
    ensures |r| == n
  {
    if n == 0 then [] else ToBE(v / 256, n - 1) + [v % 256]
  }

  /** The unsigned value of a big-endian byte string. */
  function FromBE(s: seq<Byte>): (r: nat)
    ensures r < Pow256(|s|)
  {
    if |s| == 0 then 0
    else
      var hi := FromBE(s[..|s| - 1]);
      assert hi <= Pow256(|s| - 1) - 1;
      assert hi * 256 <= Pow256(|s|) - 256;
      hi * 256 + s[|s| - 1]
  }

  /** Reads an n-byte big-endian field from the front of s; a stream shorter than
      the field is rejected rather than read past its end. */
  function ReadBE(s: seq<Byte>, n: nat): (r: Result<(nat, seq<Byte>)>)
    ensures r.Success? <==> n <= |s|
    ensures r.Success? ==> r.value.0 < Pow256(n) && r.value.1 == s[n..]
    ensures r.Failure? ==> r.error == Truncated
  {
    if n <= |s| then Success((FromBE(s[..n]), s[n..])) else Failure(Truncated)
  }

  lemma MulAtLeast(m: nat, d: nat)
    requires d >= 1
    ensures m * d >= m
  {
    assert m * d == m + m * (d - 1);
  }

  /** v == m * q + r with 0 <= r < m pins down v % m. */
  lemma ModUnique(v: nat, m: nat, q: nat, r: nat)
    requires m > 0 && r < m && v == m * q + r
    ensures v % m == r
  {
    var q' := v / m;
    var r' := v % m;
    assert v == m * q' + r';
    if q' < q {
      var d := q - q';
      assert m * q == m * q' + m * d;
      MulAtLeast(m, d);
      assert false;
    } else if q' > q {
      var d := q' - q;
      assert m * q' == m * q + m * d;
      MulAtLeast(m, d);
      assert false;
    }
  }

  lemma ModSplit(v: nat, p: nat)
    requires p >= 1
    ensures ((v / 256) % p) * 256 + v % 256 == v % (256 * p)
  {
    var q := v / 256;
    var a := q / p;
    var b := q % p;
    assert q == p * a + b;
    assert v == 256 * q + v % 256;
    assert v == (256 * p) * a + (256 * b + v % 256);
    assert 256 * b + v % 256 < 256 * p;
    ModUnique(v, 256 * p, a, 256 * b + v % 256);
  }

  /** Reading back an n-byte field yields the value modulo the field's range. */
  lemma {:induction false} FromToBE(v: nat, n: nat)
    ensures FromBE(ToBE(v, n)) == v % Pow256(n)
  {
    if n > 0 {
      var s := ToBE(v, n);
      assert s[..n - 1] == ToBE(v / 256, n - 1);
      FromToBE(v / 256, n - 1);
      ModSplit(v, Pow256(n - 1));
    }
  }

  /** Writing the value of a byte string back into as many bytes reproduces it. */
  lemma {:induction false} ToFromBE(s: seq<Byte>)
    ensures ToBE(FromBE(s), |s|) == s
  {
    if |s| > 0 {
      var init := s[..|s| - 1];
      var v := FromBE(s);
      assert v == FromBE(init) * 256 + s[|s| - 1];
      assert v / 256 == FromBE(init);
      assert v % 256 == s[|s| - 1];
      ToFromBE(init);
      assert s == init + [s[|s| - 1]];
    }
  }

  /** A field written with ToBE and followed by any bytes reads back as the
      (truncated) value, leaving exactly the following bytes. */
  lemma ReadToBE(v: nat, n: nat, rest: seq<Byte>)
    ensures ReadBE(ToBE(v, n) + rest, n) == Success((v % Pow256(n), rest))
  {
    var s := ToBE(v, n) + rest;
    assert s[..n] == ToBE(v, n);
    assert s[n..] == rest;
    FromToBE(v, n);
  }
}
