/** The versioned slot header of python/peercache/slotmap.py and the reader's gate. */
module SlotHeader {
  import opened Bytes

  const U32: nat := 0x1_0000_0000
  const U64: nat := 0x1_0000_0000_0000_0000

  /** key_hash128(key): two unsigned 64-bit halves. */
  type Digest = d: (nat, nat) | d.0 < U64 && d.1 < U64 witness (0, 0)

  const MAGIC: nat := 0x50434B31
  const VERSION: nat := 1
  const HEADER_SIZE: nat := 64
  const PACKED_SIZE: nat := 40

  /** struct.pack raises unless every field fits its width. */
  predicate Packable(length: nat, seqno: nat) {
    length < U32 && seqno < U64
  }

  /** Struct("<IHHQQIIQ").pack, padded to the header size. */
  function Pack(magic: nat, version: nat, hi: nat, lo: nat, length: nat, seqno: nat): (r: seq<Byte>)
    ensures |r| == HEADER_SIZE
  {
    LittleEndian(magic, 4) + LittleEndian(version, 2) + LittleEndian(0, 2)
    + LittleEndian(hi, 8) + LittleEndian(lo, 8)
    + LittleEndian(length, 4) + LittleEndian(0, 4) + LittleEndian(seqno, 8)
    + Zeros(HEADER_SIZE - PACKED_SIZE)
  }

  function Encode(id: Digest, length: nat, seqno: nat): (r: seq<Byte>)
    ensures |r| == HEADER_SIZE
  {
    Pack(MAGIC, VERSION, id.0, id.1, length, seqno)
  }

  /** What decode_header reports; Blank covers a short buffer, a wrong magic number and a
      wrong version, which every caller treats alike. */
  datatype Slot = Blank | Page(id: Digest, length: nat, seqno: nat)

  function Field(buf: seq<Byte>, at: nat, n: nat): nat
    requires at + n <= |buf|
  {
    FromLittleEndian(buf[at..at + n])
  }

  function Decode(buf: seq<Byte>): Slot {
    if |buf| < PACKED_SIZE then Blank
    else if Field(buf, 0, 4) != MAGIC || Field(buf, 4, 2) != VERSION then Blank
    else
      var hi, lo := Field(buf, 8, 8), Field(buf, 16, 8);
      FieldBound(buf, 8, 8); FieldBound(buf, 16, 8);
      Page((hi, lo), Field(buf, 24, 4), Field(buf, 32, 8))
  }

  lemma {:induction false} LittleEndianBound(s: seq<Byte>)
    ensures FromLittleEndian(s) < Pow256(|s|)
  {
    if s != [] {
      LittleEndianBound(s[1..]);
    }
  }

  lemma FieldBound(buf: seq<Byte>, at: nat, n: nat)
    requires at + n <= |buf| && n == 8
    ensures Field(buf, at, n) < U64
  {
    LittleEndianBound(buf[at..at + n]);
    Widths();
  }

  lemma Widths()
    ensures Pow256(2) == 0x1_0000 && Pow256(4) == U32 && Pow256(8) == U64
  {
    assert Pow256(1) == 256;
    assert Pow256(2) == 0x1_0000;
    assert Pow256(3) == 0x100_0000;
    assert Pow256(4) == U32;
    assert Pow256(5) == 256 * U32;
    assert Pow256(6) == 0x1_0000 * U32;
    assert Pow256(7) == 0x100_0000 * U32;
  }

  /** Where the packed fields lie. */
  lemma PackSlices(a: seq<Byte>, b: seq<Byte>, p: seq<Byte>, c: seq<Byte>, d: seq<Byte>,
                   e: seq<Byte>, q: seq<Byte>, f: seq<Byte>, rest: seq<Byte>, buf: seq<Byte>)
    requires |a| == 4 && |b| == 2 && |p| == 2 && |c| == 8 && |d| == 8 && |e| == 4 && |q| == 4 && |f| == 8
    requires buf == a + b + p + c + d + e + q + f + rest
    ensures |buf| >= 40 && buf[0..4] == a && buf[4..6] == b && buf[8..16] == c
    ensures buf[16..24] == d && buf[24..28] == e && buf[32..40] == f
  {
  }

  lemma PackFields(magic: nat, version: nat, hi: nat, lo: nat, length: nat, seqno: nat)
    requires magic < Pow256(4) && version < Pow256(2) && hi < Pow256(8) && lo < Pow256(8)
    requires length < Pow256(4) && seqno < Pow256(8)
    ensures
      var buf := Pack(magic, version, hi, lo, length, seqno);
      && Field(buf, 0, 4) == magic && Field(buf, 4, 2) == version
      && Field(buf, 8, 8) == hi && Field(buf, 16, 8) == lo
      && Field(buf, 24, 4) == length && Field(buf, 32, 8) == seqno
  {
    var buf := Pack(magic, version, hi, lo, length, seqno);
    PackSlices(LittleEndian(magic, 4), LittleEndian(version, 2), LittleEndian(0, 2), LittleEndian(hi, 8), LittleEndian(lo, 8),
               LittleEndian(length, 4), LittleEndian(0, 4), LittleEndian(seqno, 8), Zeros(HEADER_SIZE - PACKED_SIZE), buf);
    LittleEndianRoundTrip(magic, 4);
    LittleEndianRoundTrip(version, 2);
    LittleEndianRoundTrip(hi, 8);
    LittleEndianRoundTrip(lo, 8);
    LittleEndianRoundTrip(length, 4);
    LittleEndianRoundTrip(seqno, 8);
  }

  /** decode_header undoes encode_header, field by field. */
  lemma HeaderRoundTrip(id: Digest, length: nat, seqno: nat)
    requires Packable(length, seqno)
    ensures Decode(Encode(id, length, seqno)) == Page(id, length, seqno)
  {
    Widths();
    PackFields(MAGIC, VERSION, id.0, id.1, length, seqno);
  }

  /** A slot decoded from zeroed memory is blank. */
  lemma ZeroIsBlank(buf: seq<Byte>)
    requires forall i | 0 <= i < |buf| :: buf[i] == 0
    ensures Decode(buf) == Blank
  {
    if |buf| >= PACKED_SIZE {
      var m := buf[0..4];
      assert m == [0, 0, 0, 0];
      assert m[1..] == [0, 0, 0] && m[1..][1..] == [0, 0] && m[1..][1..][1..] == [0];
    }
  }

  /** slot_matches on a decoded header. */
  predicate Matches(s: Slot, id: Digest, expected: nat) {
    s.Page? && s.seqno % 2 == 0 && s.length == expected && s.id == id
  }

  /** slot_present: the stored length, or -1 for None. */
  function Present(s: Slot, id: Digest): int {
    if s.Page? && s.seqno % 2 == 0 && s.id == id then s.length else -1
  }
}
