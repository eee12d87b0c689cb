# I/Q converter model

A Dafny model of the I/Q byte decoder of the trackerbots tools. A software-defined
radio capture is a buffer of unsigned 8-bit bytes. Each byte read as a signed 8-bit
value is one component of a complex sample. The decoder:

- builds a 256-entry lookup table once, where entry `i` is `(i as i8) / 128` for each index `i` below 256;
- pulls bytes two at a time through an iterator, the first as the in-phase (I)
  component and the second as the quadrature (Q) component;
- maps each byte through the table;
- stops as soon as a full pair is not available, so a trailing odd byte is
  dropped without error.

Files:

- `iq_table.dfy` (module `IqTable`) covers the signed reading of a byte (the
  `i as i8` cast of a table index below 256), the table entry,
  the table builder, and the inverse of the table on its image.
- `iq_converter.dfy` (module `IqConverter`) has the pairwise decoder `Decode`, an
  index-by-index reference decoder `DecodeSpec`, the algebraic laws of decoding,
  and the iterator. The iterator is modelled as the converter state (`New`), one
  `next` step (`Next`), and a draining loop (`Collect`). Each pull of `Collect` is
  tied to `Decode` by a loop invariant.

Table values are `real`. Every entry is `k/128` for an integer `k` in
[-128, 127], and single precision represents each of them exactly, so nothing
is lost by exact arithmetic. Bytes are the subset type `Byte` (0 to 255) over `int`.
The signed cast is written out explicitly (`b` below 128, `b - 256` from 128 on).

## Model

| member | source | states |
|---|---|---|
| IqTable.AsSigned | iq_converter/src/lib.rs:6 | the `i as i8` cast of an index below 256 gives a value in [-128, 127] that is congruent to the byte modulo 256; it is negative exactly when the byte is 128 or more |
| IqTable.AsSignedUnique | iq_converter/src/lib.rs:6 | any signed 8-bit value congruent to the byte modulo 256 is the cast of that byte, so the cast is determined by two's-complement arithmetic alone |
| IqTable.SignedRoundTrip | iq_converter/src/lib.rs:6 | reading a byte as a signed value and converting back gives the byte |
| IqTable.UnsignedRoundTrip | iq_converter/src/lib.rs:6 | converting a signed value in [-128, 127] to a byte and reading it back gives the value, so with the previous row the signed reading is a bijection |
| IqTable.Entry | iq_converter/src/lib.rs:6 | every table entry lies in [-1, 1); it is negative exactly when the byte's sign bit is set; 128 times it is the signed byte |
| IqTable.EntryByCases | iq_converter/src/lib.rs:5-7 | entry `b` is `b/128` for `b < 128` and `(b - 256)/128` for `b >= 128` |
| IqTable.EntryAnchors | iq_converter/src/lib.rs:6 | entry 0x00 is 0, entry 0x7F is 127/128, entry 0x80 is -1, entry 0xFF is -1/128 |
| IqTable.ByteOf | iq_converter/src/lib.rs:6 | for a value in [-1, 1), the byte whose entry is the greatest table entry not above it, within 1/128 below the value |
| IqTable.ByteOfEntry | iq_converter/src/lib.rs:6 | reading a table entry back gives the byte it came from, so the table loses no information |
| IqTable.EntryInjective | iq_converter/src/lib.rs:6 | two bytes have the same table entry if and only if they are the same byte |
| IqTable.TableValueIsFraction | iq_converter/src/lib.rs:6 | a value lies in [-1, 1) and is a whole multiple of 1/128 if and only if it is k/128 for an integer k in [-128, 127] |
| IqTable.EntryIsTableValue | iq_converter/src/lib.rs:6 | every table entry is a value k/128 with k in [-128, 127] |
| IqTable.EntryOfByteOf | iq_converter/src/lib.rs:6 | every value k/128 with k in [-128, 127] is the table entry of a byte, namely its `ByteOf` |
| IqTable.GenLookupTable | iq_converter/src/lib.rs:3-9 | the table built by the loop over 0..0x100 has 256 entries, each in [-1, 1) and equal to the entry of its index, with the four corner values 0, 127/128, -1 and -1/128 |
| IqConverter.DecodePair | iq_converter/src/lib.rs:31 | a pair of bytes gives the sample whose I component is the first byte read as signed over 128 and whose Q component is the second; both lie in [-1, 1) |
| IqConverter.Decode | iq_converter/src/lib.rs:28-35 | decoding a buffer yields exactly floor(len/2) samples, whatever the byte values |
| IqConverter.DecodeIsSpec | iq_converter/src/lib.rs:29-31 | decoding pair by pair from the front equals the reference in which sample k is the table values of bytes 2k (I) and 2k + 1 (Q) |
| IqConverter.DecodeAt | iq_converter/src/lib.rs:29-31 | sample k is `(table[bytes[2k]], table[bytes[2k+1]])`: I comes first, input order is kept, and both components lie in [-1, 1) |
| IqConverter.DecodeAppend | iq_converter/src/lib.rs:28-35 | when the first buffer has even length, decoding a concatenation is the concatenation of the decodings |
| IqConverter.DecodeDropsTrailingByte | iq_converter/src/lib.rs:29-33 | one extra byte after an even-length buffer changes nothing: a lone I byte yields no sample |
| IqConverter.DecodeOddLength | iq_converter/src/lib.rs:29-33 | an odd-length buffer decodes like the same buffer without its last byte |
| IqConverter.DecodePrefix | iq_converter/src/lib.rs:28-35 | the first k samples depend only on the first 2k bytes, so the stream can be consumed lazily |
| IqConverter.DecodeValues | iq_converter/src/lib.rs:31 | both components of every decoded sample are table values k/128 |
| IqConverter.DecodeExamples | iq_converter/src/lib.rs:28-35 | the pairs 00 00, 80 80 and 7F 7F decode to (0, 0), (-1, -1) and (127/128, 127/128); four zero bytes give two (0, 0) samples; a third, unpaired byte is dropped |
| IqConverter.EncodeDecode | iq_converter/src/lib.rs:29-31 | turning every decoded sample back into its byte pair gives back the input up to its last full pair |
| IqConverter.DecodeEncode | iq_converter/src/lib.rs:29-31 | every sequence of samples whose components are table values is the decoding of some byte buffer |
| IqConverter.DecodeInjective | iq_converter/src/lib.rs:29-31 | two even-length buffers decode to the same samples only if they are equal |
| IqConverter.New | iq_converter/src/lib.rs:17-22 | a new converter holds the whole input still to be read and a lookup table whose every entry is the table value of its index |
| IqConverter.Next | iq_converter/src/lib.rs:28-35 | one `next` call yields a sample exactly when two bytes remain; the sample is the decoded pair, and the two bytes are consumed; otherwise it yields nothing and the input is exhausted, including a single leftover byte |
| IqConverter.NextDecodes | iq_converter/src/lib.rs:28-35 | each `next` call emits the head of the decoding of the unread bytes, and the rest of the decoding continues from the new state; once it yields nothing it keeps yielding nothing |
| IqConverter.Collect | iq_converter/src/lib.rs:25-36 | draining a new converter with `next` until it ends gives floor(len/2) samples, sample k being the table values of bytes 2k and 2k + 1 |

## Left out

- The rest of the repository is not modelled: the GUI viewer, the loader, the WAV writer and the converter's command-line front end. They are file I/O, windowing and rendering, and calls into crates whose source is not part of this model.
- The Goertzel filter, the edge filter and the sample-rate converter live in the `dsp_filters` and `sample` crates, which are not part of this model.
- Writing samples as little-endian or big-endian binary32, or as text, is left out. It is serialisation through the `byteorder` crate and Rust's float formatting.
- The generic input iterator is modelled as a finite sequence of bytes. An infinite or non-fused input iterator is not modelled.
- Single-precision floating point is modelled by `real`. This is exact for every table value, and the decoder does no arithmetic on the values.
- IqConverter.New: the ensures states that the table is valid, not that it is computed once per converter. Sharing and recomputation are not observable in a pure model.
