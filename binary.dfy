/** Little-endian encoding of 32-bit unsigned integers (binary.go). */
module Binary {
  import opened Common

  /** The four bytes of `v`, least significant first: byte i is
      `(v >> 8*i) & 0xFF`. */
  function EncodeU32(v: u32): (b: Bytes)
    ensures |b| == 4
    ensures b[3] == v / 0x100_0000
  {
    [v % 0x100, (v / 0x100) % 0x100, (v / 0x1_0000) % 0x100, (v / 0x100_0000) % 0x100]
  }

  /** Getuint32: the value of the first four bytes of `buf`, read little-endian.
      Go's library panics on a shorter slice, hence the precondition. */
  function GetUint32(buf: Bytes): (v: u32)
    requires |buf| >= 4
    ensures v % 0x100 == buf[0] && v / 0x100_0000 == buf[3]
  {
    buf[0] as int + 0x100 * buf[1] as int + 0x1_0000 * buf[2] as int + 0x100_0000 * buf[3] as int
  }

  /** Putuint32: writes `val` into `buf[0..4)` and leaves the rest of `buf` alone. */
  method PutUint32(buf: array<byte>, val: u32)
    requires buf.Length >= 4
    modifies buf
    ensures buf[..4] == EncodeU32(val)
    ensures buf[4..] == old(buf[4..])
    ensures GetUint32(buf[..]) == val
    ensures val == old(GetUint32(buf[..])) ==> buf[..] == old(buf[..])
  {
    ghost var before := buf[..];
    buf[0] := val % 0x100;
    buf[1] := (val / 0x100) % 0x100;
    buf[2] := (val / 0x1_0000) % 0x100;
    buf[3] := (val / 0x100_0000) % 0x100;
    assert buf[..4] == EncodeU32(val);
    assert buf[..] == buf[..4] + buf[4..];
    DecodeEncode(val, buf[4..]);
    if val == GetUint32(before) {
      EncodeDecode(before);
      assert before == before[..4] + before[4..];
    }
  }

  /** Reading back what was written gives the value written, whatever follows it. */
  lemma DecodeEncode(v: u32, rest: Bytes)
    ensures GetUint32(EncodeU32(v) + rest) == v
  {
    var q1 := v / 0x100;
    var q2 := q1 / 0x100;
    var q3 := q2 / 0x100;
    assert v / 0x1_0000 == q2;
    assert v / 0x100_0000 == q3;
    assert v == v % 0x100 + 0x100 * q1;
    assert q1 == q1 % 0x100 + 0x100 * q2;
    assert q2 == q2 % 0x100 + 0x100 * q3;
  }

  /** Writing back what was read leaves the first four bytes as they were. */
  lemma EncodeDecode(buf: Bytes)
    requires |buf| >= 4
    ensures EncodeU32(GetUint32(buf)) == buf[..4]
  {
    var v: int := GetUint32(buf);
    var q1: int := buf[1] as int + 0x100 * buf[2] as int + 0x1_0000 * buf[3] as int;
    var q2: int := buf[2] as int + 0x100 * buf[3] as int;
    assert v == buf[0] as int + 0x100 * q1;
    assert v % 0x100 == buf[0] && v / 0x100 == q1;
    assert q1 == buf[1] as int + 0x100 * q2;
    assert q1 % 0x100 == buf[1] && q1 / 0x100 == q2;
    assert v / 0x1_0000 == q2;
    assert q2 % 0x100 == buf[2] && q2 / 0x100 == buf[3];
    assert v / 0x100_0000 == buf[3];
  }

  /** Only the first four bytes matter. */
  lemma DecodePrefixOnly(buf: Bytes, other: Bytes)
    requires |buf| >= 4 && |other| >= 4 && buf[..4] == other[..4]
    ensures GetUint32(buf) == GetUint32(other)
  {
  }
}
