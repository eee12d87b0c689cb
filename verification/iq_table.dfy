/**
 The lookup table of the I/Q converter: every unsigned capture byte is read as
 a two's-complement signed 8-bit value and scaled by 1/128, giving a value in
 the half-open range [-1, 1).

 Table values are modelled as `real`. Every value is k/128 for an integer k in
 [-128, 127], which single-precision floating point represents exactly, so the
 model loses nothing by using exact arithmetic.
 */
module IqTable {

  /** An unsigned 8-bit capture byte. */
  type Byte = b: int | 0 <= b < 256

  /** Number of entries in the lookup table: one per byte value. */
  const TableSize: nat := 0x100

  /** The byte reinterpreted as a two's-complement signed 8-bit value
      (the `i as i8` cast of a table index `i` below 256). The result is the unique value of the signed
      range that is congruent to the byte modulo 256. */
  function AsSigned(b: Byte): (v: int)
    ensures -128 <= v < 128
    ensures (v - b) % 256 == 0
    ensures v < 0 <==> b >= 128
  {
    if b < 128 then b else b - 256
  }

  /** The inverse cast, from a signed 8-bit value back to its byte. */
  function AsUnsigned(v: int): (b: Byte)
    requires -128 <= v < 128
    ensures (v - b) % 256 == 0
  {
    if v < 0 then v + 256 else v
  }

  /** Reading a byte as signed and back gives the byte. */
  lemma SignedRoundTrip(b: Byte)
    ensures AsUnsigned(AsSigned(b)) == b
  {
  }

  /** Writing a signed value as a byte and reading it back gives the value;
      with `SignedRoundTrip`, the casts are inverse bijections between
      [0, 256) and [-128, 128). */
  lemma UnsignedRoundTrip(v: int)
    requires -128 <= v < 128
    ensures AsSigned(AsUnsigned(v)) == v
  {
  }

  /** Any signed 8-bit value congruent to `b` modulo 256 is `AsSigned(b)`:
      the congruence and the range characterise the cast independently of
      how it is computed. */
  lemma AsSignedUnique(b: Byte, v: int)
    requires -128 <= v < 128
    requires (v - b) % 256 == 0
    ensures v == AsSigned(b)
  {
    var d := v - b;
    assert -384 < d < 256;
    assert d == 256 * (d / 256);
    assert d / 256 == 0 || d / 256 == -1;
  }

  /** Table entry for byte `b`: the signed value over 128. */
  function Entry(b: Byte): (r: real)
    ensures -1.0 <= r < 1.0
    ensures r < 0.0 <==> b >= 128
    ensures r * 128.0 == AsSigned(b) as real
  {
    AsSigned(b) as real / 128.0
  }

  /** Table entry `b` is `b/128` for bytes below 128 and `(b - 256)/128` above. */
  lemma EntryByCases(b: Byte)
    ensures b < 128 ==> Entry(b) == b as real / 128.0
    ensures b >= 128 ==> Entry(b) == (b - 256) as real / 128.0
  {
  }

  /** The four corner entries of the table. */
  lemma EntryAnchors()
    ensures Entry(0x00) == 0.0
    ensures Entry(0x7F) == 127.0 / 128.0
    ensures Entry(0x80) == -1.0
    ensures Entry(0xFF) == -1.0 / 128.0
  {
  }

  /** The value is a table value: in [-1, 1) and a whole multiple of 1/128. */
  predicate IsTableValue(v: real)
  {
    -1.0 <= v < 1.0 && (v * 128.0).Floor as real == v * 128.0
  }

  /** The fraction k/128. */
  function Fraction(k: int): real
  {
    k as real / 128.0
  }

  /** The table values are exactly the fractions k/128 with k in [-128, 127]. */
  lemma TableValueIsFraction(v: real)
    ensures IsTableValue(v) <==> exists k :: -128 <= k < 128 && v == Fraction(k)
  {
    if IsTableValue(v) {
      var k := (v * 128.0).Floor;
      assert v == Fraction(k);
    }
  }

  /** The byte whose entry is closest below `v`; on table values it inverts
      `Entry`. */
  function ByteOf(v: real): (b: Byte)
    requires -1.0 <= v < 1.0
    ensures Entry(b) <= v < Entry(b) + 1.0 / 128.0
  {
    var k := (v * 128.0).Floor;
    assert -128 <= k < 128;
    UnsignedRoundTrip(k);
    AsUnsigned(k)
  }

  /** `ByteOf` is a left inverse of `Entry`, so distinct bytes have distinct
      entries. */
  lemma ByteOfEntry(b: Byte)
    ensures ByteOf(Entry(b)) == b
  {
    var k := AsSigned(b);
    assert Entry(b) * 128.0 == k as real;
    assert (Entry(b) * 128.0).Floor == k;
    SignedRoundTrip(b);
  }

  /** The table is injective: the signed reading of a byte is a bijection. */
  lemma EntryInjective(a: Byte, b: Byte)
    ensures Entry(a) == Entry(b) <==> a == b
  {
    if Entry(a) == Entry(b) {
      ByteOfEntry(a);
      ByteOfEntry(b);
    }
  }

  /** Every entry is a table value k/128. */
  lemma EntryIsTableValue(b: Byte)
    ensures IsTableValue(Entry(b))
  {
    var k := AsSigned(b);
    assert Entry(b) * 128.0 == k as real;
  }

  /** Every table value is the entry of its `ByteOf`; with
      `EntryIsTableValue`, the entries are exactly the table values. */
  lemma EntryOfByteOf(v: real)
    requires IsTableValue(v)
    ensures Entry(ByteOf(v)) == v
  {
    var n := (v * 128.0).Floor;
    UnsignedRoundTrip(n);
  }

  /** True when `t` holds `Entry(b)` at every index `b` of the 256. */
  predicate IsLookupTable(t: seq<real>)
  {
    |t| == TableSize && forall b :: 0 <= b < |t| ==> t[b] == Entry(b)
  }

  /** Builds the lookup table one entry at a time, index 0 through 255. */
  method GenLookupTable() returns (table: seq<real>)
    ensures IsLookupTable(table)
    ensures forall b :: 0 <= b < |table| ==> -1.0 <= table[b] < 1.0
    ensures table[0x00] == 0.0 && table[0x7F] == 127.0 / 128.0
    ensures table[0x80] == -1.0 && table[0xFF] == -1.0 / 128.0
  {
    table := [];
    var i := 0;
    while i < TableSize
      invariant 0 <= i <= TableSize
      invariant |table| == i
      invariant forall b :: 0 <= b < i ==> table[b] == Entry(b)
    {
      table := table + [Entry(i)];
      i := i + 1;
    }
  }
}
