/**
 The I/Q converter: a pull-based iterator that turns a stream of capture bytes
 into complex samples. Bytes are taken two at a time, the first as the
 in-phase (I) component and the second as the quadrature (Q) component, each
 mapped through the lookup table. Iteration ends as soon as a full pair is not
 available, so a trailing unpaired byte is dropped without error.
 */
module IqConverter {
  import opened IqTable

  /** One decoded complex sample. */
  datatype Sample = Sample(i: real, q: real)

  datatype Option<T> = None | Some(value: T)

  /** The sample a pair of bytes decodes to: the first byte gives the I
      component and the second the Q component, each read as a signed byte
      over 128. */
  function DecodePair(i: Byte, q: Byte): (s: Sample)
    ensures s.i * 128.0 == AsSigned(i) as real && s.q * 128.0 == AsSigned(q) as real
    ensures -1.0 <= s.i < 1.0 && -1.0 <= s.q < 1.0
  {
    Sample(Entry(i), Entry(q))
  }

  /** Decoding of a whole byte buffer, one pair at a time from the front. */
  function Decode(bytes: seq<Byte>): (r: seq<Sample>)
    ensures |r| == |bytes| / 2
    decreases |bytes|
  {
    if |bytes| < 2 then []
    else [DecodePair(bytes[0], bytes[1])] + Decode(bytes[2..])
  }

  /** Reference decoding, stated index by index: sample k comes from bytes
      2k (I) and 2k + 1 (Q). */
  function DecodeSpec(bytes: seq<Byte>): (r: seq<Sample>)
  {
    seq(|bytes| / 2, k requires 0 <= k < |bytes| / 2 => DecodePair(bytes[2 * k], bytes[2 * k + 1]))
  }

  /** The pairwise decoder agrees with the index-by-index reference. */
  lemma {:induction false} DecodeIsSpec(bytes: seq<Byte>)
    ensures Decode(bytes) == DecodeSpec(bytes)
    decreases |bytes|
  {
    if |bytes| >= 2 {
      var rest := bytes[2..];
      DecodeIsSpec(rest);
      var r := Decode(bytes);
      var s := DecodeSpec(bytes);
      assert |r| == |s|;
      forall k | 0 <= k < |r|
        ensures r[k] == s[k]
      {
        if k > 0 {
          assert r[k] == Decode(rest)[k - 1];
          assert rest[2 * (k - 1)] == bytes[2 * k];
          assert rest[2 * (k - 1) + 1] == bytes[2 * k + 1];
        }
      }
    }
  }

  /** Sample k of the decoding holds the table values of bytes 2k and 2k + 1,
      in input order, and lies in [-1, 1) on both components. */
  lemma {:induction false} DecodeAt(bytes: seq<Byte>, k: int)
    requires 0 <= k < |bytes| / 2
    ensures Decode(bytes)[k] == Sample(Entry(bytes[2 * k]), Entry(bytes[2 * k + 1]))
    ensures -1.0 <= Decode(bytes)[k].i < 1.0 && -1.0 <= Decode(bytes)[k].q < 1.0
  {
    DecodeIsSpec(bytes);
  }

  /** Decoding distributes over concatenation when the first part has even
      length. */
  lemma {:induction false} DecodeAppend(a: seq<Byte>, c: seq<Byte>)
    requires |a| % 2 == 0
    ensures Decode(a + c) == Decode(a) + Decode(c)
    decreases |a|
  {
    if |a| >= 2 {
      assert (a + c)[2..] == a[2..] + c;
      DecodeAppend(a[2..], c);
    } else {
      assert a + c == c;
    }
  }

  /** A trailing unpaired byte is ignored. */
  lemma {:induction false} DecodeDropsTrailingByte(a: seq<Byte>, b: Byte)
    requires |a| % 2 == 0
    ensures Decode(a + [b]) == Decode(a)
  {
    DecodeAppend(a, [b]);
  }

  /** Decoding an odd-length buffer is decoding it without its last byte. */
  lemma {:induction false} DecodeOddLength(bytes: seq<Byte>)
    requires |bytes| % 2 == 1
    ensures Decode(bytes) == Decode(bytes[..|bytes| - 1])
  {
    var n := |bytes| - 1;
    var a := bytes[..n];
    assert |a| == n && n % 2 == 0;
    assert bytes == a + [bytes[n]];
    DecodeDropsTrailingByte(a, bytes[n]);
  }

  /** The first k samples depend only on the first 2k bytes. */
  lemma {:induction false} DecodePrefix(bytes: seq<Byte>, k: int)
    requires 0 <= k <= |bytes| / 2
    ensures Decode(bytes[..2 * k]) == Decode(bytes)[..k]
  {
    assert bytes == bytes[..2 * k] + bytes[2 * k..];
    DecodeAppend(bytes[..2 * k], bytes[2 * k..]);
  }

  /** Both components of the sample are table values k/128. */
  predicate OnTable(s: Sample)
  {
    IsTableValue(s.i) && IsTableValue(s.q)
  }

  /** Every decoded sample is on the table. */
  lemma {:induction false} DecodeValues(bytes: seq<Byte>)
    ensures forall s :: s in Decode(bytes) ==> OnTable(s)
  {
    forall s | s in Decode(bytes)
      ensures OnTable(s)
    {
      var k :| 0 <= k < |Decode(bytes)| && Decode(bytes)[k] == s;
      DecodeAt(bytes, k);
      EntryIsTableValue(bytes[2 * k]);
      EntryIsTableValue(bytes[2 * k + 1]);
    }
  }

  /** Small buffers: zero, the most negative and the most positive pair, and
      an odd trailing byte that is dropped. */
  lemma {:induction false} DecodeExamples()
    ensures Decode([0x00, 0x00]) == [Sample(0.0, 0.0)]
    ensures Decode([0x80, 0x80]) == [Sample(-1.0, -1.0)]
    ensures Decode([0x7F, 0x7F]) == [Sample(127.0 / 128.0, 127.0 / 128.0)]
    ensures Decode([0x00, 0x00, 0x00, 0x00]) == [Sample(0.0, 0.0), Sample(0.0, 0.0)]
    ensures Decode([0x01, 0xFF, 0x80]) == [Sample(1.0 / 128.0, -1.0 / 128.0)]
  {
    EntryAnchors();
    assert [0x00, 0x00, 0x00, 0x00][2..] == [0x00, 0x00];
    assert [0x01, 0xFF, 0x80][2..] == [0x80];
  }

  /** The byte pairs a sequence of samples decodes from: inverse of `Decode`
      on table values. */
  function Encode(samples: seq<Sample>): (bytes: seq<Byte>)
    requires forall s :: s in samples ==> OnTable(s)
    ensures |bytes| == 2 * |samples|
  {
    if samples == [] then []
    else
      assert samples[0] in samples && OnTable(samples[0]);
      [ByteOf(samples[0].i), ByteOf(samples[0].q)] + Encode(samples[1..])
  }

  /** Decoding loses nothing: re-encoding the samples gives back every byte
      that was paired. */
  lemma {:induction false} EncodeDecode(bytes: seq<Byte>)
    ensures forall s :: s in Decode(bytes) ==> OnTable(s)
    ensures Encode(Decode(bytes)) == bytes[..|bytes| / 2 * 2]
    decreases |bytes|
  {
    DecodeValues(bytes);
    if |bytes| >= 2 {
      EncodeDecode(bytes[2..]);
      ByteOfEntry(bytes[0]);
      ByteOfEntry(bytes[1]);
      assert Decode(bytes)[1..] == Decode(bytes[2..]);
      assert bytes[..|bytes| / 2 * 2] == bytes[..2] + bytes[2..][..|bytes[2..]| / 2 * 2];
    }
  }

  /** Decoding every encoded sequence of table values gives it back. */
  lemma {:induction false} DecodeEncode(samples: seq<Sample>)
    requires forall s :: s in samples ==> OnTable(s)
    ensures Decode(Encode(samples)) == samples
    decreases |samples|
  {
    if samples != [] {
      DecodeEncode(samples[1..]);
      assert samples[0] in samples;
      EntryOfByteOf(samples[0].i);
      EntryOfByteOf(samples[0].q);
      assert Encode(samples)[2..] == Encode(samples[1..]);
      assert samples == [samples[0]] + samples[1..];
    }
  }

  /** Buffers of even length decode to the same samples only if they are equal. */
  lemma {:induction false} DecodeInjective(a: seq<Byte>, b: seq<Byte>)
    requires |a| % 2 == 0 && |b| % 2 == 0
    requires Decode(a) == Decode(b)
    ensures a == b
  {
    EncodeDecode(a);
    EncodeDecode(b);
    assert a[..|a| / 2 * 2] == a;
    assert b[..|b| / 2 * 2] == b;
  }

  /** State of the converter: the bytes not yet pulled from the input, and
      the lookup table built when the converter was created. */
  datatype Converter = Converter(rest: seq<Byte>, table: seq<real>)
  {
    predicate Valid()
    {
      IsLookupTable(table)
    }
  }

  /** Creates a converter over the whole input, building its lookup table. */
  method New(input: seq<Byte>) returns (c: Converter)
    ensures c.Valid()
    ensures c.rest == input
  {
    var table := GenLookupTable();
    c := Converter(input, table);
  }

  /** One call of `next`: two bytes are pulled from the input, whether or not
      the first one exists; a sample is produced only when both were there. */
  function Next(c: Converter): (r: (Option<Sample>, Converter))
    requires c.Valid()
    ensures r.1.Valid() && r.1.table == c.table
    ensures r.0.Some? <==> |c.rest| >= 2
    ensures r.0.Some? ==> r.0.value == DecodePair(c.rest[0], c.rest[1]) && r.1.rest == c.rest[2..]
    ensures r.0.None? ==> r.1.rest == []
  {
    if |c.rest| >= 2 then
      (Some(Sample(c.table[c.rest[0]], c.table[c.rest[1]])), c.(rest := c.rest[2..]))
    else
      (None, c.(rest := []))
  }

  /** Each step of the iterator emits the head of the decoding of the bytes
      still to be pulled, and the remaining decoding continues from there;
      once exhausted, the iterator stays exhausted. */
  lemma {:induction false} NextDecodes(c: Converter)
    requires c.Valid()
    ensures Next(c).0.Some? ==> Decode(c.rest) == [Next(c).0.value] + Decode(Next(c).1.rest)
    ensures Next(c).0.None? ==> Decode(c.rest) == [] && Next(Next(c).1).0.None?
  {
  }

  /** Decoding the first pos + 2 bytes appends the pair at pos to decoding
      the first pos. */
  lemma {:induction false} DecodeExtend(bytes: seq<Byte>, pos: nat)
    requires pos % 2 == 0 && pos + 2 <= |bytes|
    ensures Decode(bytes[..pos + 2]) == Decode(bytes[..pos]) + [DecodePair(bytes[pos], bytes[pos + 1])]
  {
    var pair := [bytes[pos], bytes[pos + 1]];
    assert bytes[..pos + 2] == bytes[..pos] + pair;
    DecodeAppend(bytes[..pos], pair);
    assert Decode(pair) == [DecodePair(bytes[pos], bytes[pos + 1])] + Decode(pair[2..]);
  }

  /** Pulls samples from a fresh converter until it reports the end, as
      callers that collect or loop over the iterator do. After each pull the
      samples produced are the decoding of the bytes consumed so far. */
  method Collect(input: seq<Byte>) returns (samples: seq<Sample>)
    ensures |samples| == |input| / 2
    ensures forall k :: 0 <= k < |samples| ==> samples[k] == DecodePair(input[2 * k], input[2 * k + 1])
  {
    var it := New(input);
    samples := [];
    var done := false;
    ghost var pos := 0;
    while !done
      invariant it.Valid()
      invariant pos % 2 == 0 && pos <= |input|
      invariant samples == Decode(input[..pos])
      invariant !done ==> it.rest == input[pos..]
      invariant done ==> it.rest == [] && |input| - pos < 2
      decreases |it.rest|, !done
    {
      var step := Next(it);
      match step.0 {
        case Some(s) =>
          DecodeExtend(input, pos);
          samples := samples + [s];
          pos := pos + 2;
        case None =>
          done := true;
      }
      it := step.1;
    }
    assert input == input[..pos] + input[pos..];
    DecodeAppend(input[..pos], input[pos..]);
    assert Decode(input[pos..]) == [];
    assert samples == Decode(input);
    DecodeIsSpec(input);
  }
}
