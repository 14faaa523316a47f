/**
 Big-endian (network order) byte encodings.

 `Value` and `Bytes` are the reference definitions: the number a byte string
 denotes most significant byte first, and the n-byte string that denotes a
 number. `Uint16`, `Uint32` and `PutUint32` are the formulas of Go's
 `encoding/binary.BigEndian`, which the core calls by name; each is proved to
 agree with the reference definitions.
 */
module BigEndian {
  import opened GoTypes

  function Pow256(n: nat): (r: nat)
    ensures r >= 1
  {
    if n == 0 then 1 else 256 * Pow256(n - 1)
  }

  /** The number denoted by `s`, most significant byte first. */
  function Value(s: seq<byte>): (r: nat)
    ensures r < Pow256(|s|)
  {
    if s == [] then 0 else Value(s[..|s| - 1]) * 256 + s[|s| - 1]
  }

  /** The `n` bytes, most significant first, of `x` modulo 256^n. */
  function Bytes(x: nat, n: nat): (r: seq<byte>)
    ensures |r| == n
  {
    if n == 0 then [] else Bytes(x / 256, n - 1) + [x % 256]
  }

  lemma {:induction false} ValueOfBytes(x: nat, n: nat)
    requires x < Pow256(n)
    ensures Value(Bytes(x, n)) == x
  {
    if n > 0 {
      var r := Bytes(x, n);
      assert r[..n - 1] == Bytes(x / 256, n - 1);
      assert x / 256 < Pow256(n - 1);
      ValueOfBytes(x / 256, n - 1);
    }
  }

  lemma {:induction false} BytesOfValue(s: seq<byte>)
    ensures Bytes(Value(s), |s|) == s
  {
    if s != [] {
      var init, last := s[..|s| - 1], s[|s| - 1];
      var v := Value(init) * 256 + last;
      assert v / 256 == Value(init) && v % 256 == last;
      BytesOfValue(init);
      assert s == init + [last];
    }
  }

  /** Two byte strings of one length with the same value are the same string. */
  lemma ValueInjective(s: seq<byte>, t: seq<byte>)
    requires |s| == |t| && Value(s) == Value(t)
    ensures s == t
  {
    BytesOfValue(s);
    BytesOfValue(t);
  }

  /** `binary.BigEndian.Uint16`: panics (here: requires) on fewer than 2 bytes, reads the first 2. */
  function Uint16(b: seq<byte>): (r: uint16)
    requires |b| >= 2
    ensures r == Value(b[..2])
  {
    assert b[..2][..1] == [b[0]];
    b[1] as int + (b[0] as int) * 0x100
  }

  /** `binary.BigEndian.Uint32`: panics (here: requires) on fewer than 4 bytes, reads the first 4. */
  function Uint32(b: seq<byte>): (r: uint32)
    requires |b| >= 4
    ensures r == Value(b[..4])
  {
    assert b[..4][..3] == b[..3] && b[..3][..2] == b[..2] && b[..2][..1] == [b[0]];
    assert Value(b[..2]) == (b[0] as int) * 0x100 + b[1];
    assert Value(b[..3]) == Value(b[..2]) * 0x100 + b[2];
    assert Value(b[..4]) == Value(b[..3]) * 0x100 + b[3];
    b[3] as int + (b[2] as int) * 0x100 + (b[1] as int) * 0x1_0000 + (b[0] as int) * 0x100_0000
  }

  /** `binary.BigEndian.PutUint32` into a 4-byte slice. */
  function PutUint32(v: uint32): (r: seq<byte>)
    ensures |r| == 4
    ensures r == Bytes(v, 4)
  {
    var v1, v2, v3 := v / 0x100, v / 0x1_0000, v / 0x100_0000;
    assert v1 / 0x100 == v2 && v2 / 0x100 == v3 && v3 / 0x100 == 0 && v3 % 0x100 == v3;
    assert Bytes(v3, 1) == [v3];
    assert Bytes(v2, 2) == Bytes(v3, 1) + [v2 % 0x100];
    assert Bytes(v1, 3) == Bytes(v2, 2) + [v1 % 0x100];
    assert Bytes(v, 4) == Bytes(v1, 3) + [v % 0x100];
    [v / 0x100_0000 % 0x100, v / 0x1_0000 % 0x100, v / 0x100 % 0x100, v % 0x100]
  }

  /** Writing a `uint32` and reading it back gives the same number. */
  lemma Uint32OfPutUint32(v: uint32)
    ensures Uint32(PutUint32(v)) == v
  {
    assert Pow256(4) == 0x1_0000_0000;
    ValueOfBytes(v, 4);
  }

  /** Reading 4 bytes and writing the number back gives the same bytes. */
  lemma PutUint32OfUint32(b: seq<byte>)
    requires |b| == 4
    ensures PutUint32(Uint32(b)) == b
  {
    assert b[..4] == b;
    BytesOfValue(b);
  }
}
