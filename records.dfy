/**
 * The three fixed-layout records `createZip` writes (zip.js:16-28, 34-52, 60-69):
 * the local file header, the central directory file header and the end of
 * central directory record of PKWARE's APPNOTE.TXT (sections 4.3.7, 4.3.12 and 4.3.16).
 */
module ZipRecords {
  import opened LittleEndian

  /** One input file: its name and its content, both already encoded as bytes. */
  datatype Entry = Entry(name: seq<byte>, content: seq<byte>)

  /**
   * How the length fields are written.
   * `Masked` is what zip.js does: a 4-byte size field holds only the low 16 bits of the
   * length followed by `00 00` (zip.js:24-25, 43-44), and the central-directory size holds
   * only its low 8 bits followed by `00 00 00` (zip.js:66).
   * `Full` writes both as full 32-bit little-endian values, as the format intends.
   */
  datatype Layout = Masked | Full

  const LOCAL_SIGNATURE: seq<byte> := [0x50, 0x4b, 0x03, 0x04]
  const CENTRAL_SIGNATURE: seq<byte> := [0x50, 0x4b, 0x01, 0x02]
  const EOCD_SIGNATURE: seq<byte> := [0x50, 0x4b, 0x05, 0x06]
  /** Version 2.0, written both as "version needed to extract" and as "version made by". */
  const VERSION: seq<byte> := [0x14, 0x00]

  const LOCAL_HEADER_SIZE: nat := 30
  const CENTRAL_HEADER_SIZE: nat := 46
  const EOCD_SIZE: nat := 22

  function Zeros(n: nat): (r: seq<byte>)
    ensures |r| == n
    ensures forall i | 0 <= i < n :: r[i] == 0
  {
    seq(n, _ => 0)
  }

  /** The modulus a 4-byte size field keeps of a length. */
  function SizeModulus(w: Layout): nat
  {
    match w
    case Masked => TWO_16
    case Full => TWO_32
  }

  /** The modulus the central-directory-size field keeps of its value. */
  function CdSizeModulus(w: Layout): nat
  {
    match w
    case Masked => TWO_8
    case Full => TWO_32
  }

  /** A compressed- or uncompressed-size field for a length `n`. */
  function SizeField(w: Layout, n: nat): (r: seq<byte>)
    ensures |r| == 4
  {
    match w
    case Masked => U16Le(n) + Zeros(2)
    case Full => U32Le(n)
  }

  /** The size-of-central-directory field for a directory of `n` bytes. */
  function CdSizeField(w: Layout, n: nat): (r: seq<byte>)
    ensures |r| == 4
  {
    match w
    case Masked => LeBytes(n, 1) + Zeros(3)
    case Full => U32Le(n)
  }

  /** A size field decodes to the length modulo the field's reach: 2^16 as written, 2^32 in full. */
  lemma {:induction false} SizeFieldValue(w: Layout, n: nat)
    ensures Le(SizeField(w, n)) == n % SizeModulus(w)
  {
    match w
    case Masked =>
      LeZeroExtend(U16Le(n), 2);
      U16LeValue(n);
    case Full =>
      U32LeValue(n);
  }

  /** The central-directory size field decodes to the size modulo 2^8 as written, 2^32 in full. */
  lemma {:induction false} CdSizeFieldValue(w: Layout, n: nat)
    ensures Le(CdSizeField(w, n)) == n % CdSizeModulus(w)
  {
    match w
    case Masked =>
      LeZeroExtend(LeBytes(n, 1), 3);
      LeBytesValue(n, 1);
    case Full =>
      U32LeValue(n);
  }

  /**
   * The fields a local header and a central header share, from "version needed
   * to extract" to "extra field length": version 2.0, no flags, method 0 (stored),
   * time and date 0, CRC-32 written as zero, the two size fields, the name length
   * and an empty extra field.
   */
  function CommonFields(w: Layout, e: Entry): seq<byte>
  {
    VERSION          // version needed to extract
    + Zeros(2)       // general purpose bit flag
    + Zeros(2)       // compression method: stored
    + Zeros(2)       // last modification time
    + Zeros(2)       // last modification date
    + Zeros(4)       // CRC-32, not computed
    + SizeField(w, |e.content|)  // compressed size
    + SizeField(w, |e.content|)  // uncompressed size
    + U16Le(|e.name|)            // file name length
    + Zeros(2)       // extra field length
  }

  /** The local file header of an entry (zip.js:16-28). */
  function LocalHeader(w: Layout, e: Entry): (h: seq<byte>)
    ensures |h| == LOCAL_HEADER_SIZE
  {
    LOCAL_SIGNATURE + CommonFields(w, e)
  }

  /** The central directory header of an entry whose local header starts at `offset` (zip.js:34-52). */
  function CentralHeader(w: Layout, e: Entry, offset: nat): (h: seq<byte>)
    ensures |h| == CENTRAL_HEADER_SIZE
  {
    CENTRAL_SIGNATURE
    + VERSION        // version made by
    + CommonFields(w, e)
    + Zeros(2)       // file comment length
    + Zeros(2)       // disk number start
    + Zeros(2)       // internal file attributes
    + Zeros(4)       // external file attributes
    + U32Le(offset)  // relative offset of local header
  }

  /** The end of central directory record (zip.js:60-69). */
  function Eocd(w: Layout, count: nat, cdSize: nat, cdStart: nat): (r: seq<byte>)
    ensures |r| == EOCD_SIZE
  {
    EOCD_SIGNATURE
    + Zeros(2)       // number of this disk
    + Zeros(2)       // disk where the central directory starts
    + U16Le(count)   // central directory records on this disk
    + U16Le(count)   // total central directory records
    + CdSizeField(w, cdSize)  // size of the central directory
    + U32Le(cdStart) // offset of the start of the central directory
    + Zeros(2)       // comment length
  }

  /**
   * The local header is 30 bytes: the signature `50 4B 03 04`, version `14 00`,
   * zero flag, method, time, date and CRC, two identical size fields holding the
   * content length (modulo the field's reach), the name length and a zero extra length.
   */
  lemma {:induction false} LocalHeaderFields(w: Layout, e: Entry)
    ensures var h := LocalHeader(w, e);
      && h[0..4] == LOCAL_SIGNATURE
      && h[4..6] == VERSION
      && (forall k | 6 <= k < 18 :: h[k] == 0)
      && h[18..22] == h[22..26]
      && Le(h[18..22]) == |e.content| % SizeModulus(w)
      && Le(h[22..26]) == |e.content| % SizeModulus(w)
      && Le(h[26..28]) == |e.name| % TWO_16
      && Le(h[28..30]) == 0
  {
    var h := LocalHeader(w, e);
    var s := SizeField(w, |e.content|);
    var z := h[6..18];
    assert z == Zeros(2) + Zeros(2) + Zeros(2) + Zeros(2) + Zeros(4);
    assert forall k | 6 <= k < 18 :: h[k] == z[k - 6];
    assert h[18..22] == s;
    assert h[22..26] == s;
    assert h[26..28] == U16Le(|e.name|);
    assert h[28..30] == [0, 0];
    Le2(h[28..30]);
    SizeFieldValue(w, |e.content|);
    U16LeValue(|e.name|);
  }

  /**
   * The central header is 46 bytes: the signature `50 4B 01 02`, version made by
   * `14 00`, then exactly the fields of the local header after its signature, zero
   * comment length, disk number and attributes, and the local header's offset as a
   * 32-bit little-endian value.
   */
  lemma {:induction false} CentralHeaderFields(w: Layout, e: Entry, offset: nat)
    ensures var h := CentralHeader(w, e, offset);
      && h[0..4] == CENTRAL_SIGNATURE
      && h[4..6] == VERSION
      && h[6..32] == LocalHeader(w, e)[4..30]
      && Le(h[28..30]) == |e.name| % TWO_16
      && Le(h[30..32]) == 0
      && (forall k | 32 <= k < 42 :: h[k] == 0)
      && Le(h[32..34]) == 0
      && h[42..46] == U32Le(offset)
      && Le(h[42..46]) == offset % TWO_32
  {
    var h := CentralHeader(w, e, offset);
    assert h[6..32] == CommonFields(w, e);
    assert LocalHeader(w, e)[4..30] == CommonFields(w, e);
    assert h[28..30] == U16Le(|e.name|);
    U16LeValue(|e.name|);
    assert h[30..32] == [0, 0];
    Le2(h[30..32]);
    assert h[32..34] == [0, 0];
    Le2(h[32..34]);
    assert h[42..46] == U32Le(offset);
    U32LeValue(offset);
  }

  /**
   * The end record is 22 bytes: the signature `50 4B 05 06`, zero disk numbers,
   * two equal entry-count fields holding the count's low 16 bits, the directory
   * size (modulo the field's reach), the directory's start offset and a zero comment length.
   */
  lemma {:induction false} EocdFields(w: Layout, count: nat, cdSize: nat, cdStart: nat)
    ensures var r := Eocd(w, count, cdSize, cdStart);
      && r[0..4] == EOCD_SIGNATURE
      && (forall k | 4 <= k < 8 :: r[k] == 0)
      && r[8..10] == r[10..12]
      && Le(r[8..10]) == count % TWO_16
      && Le(r[10..12]) == count % TWO_16
      && Le(r[12..16]) == cdSize % CdSizeModulus(w)
      && Le(r[16..20]) == cdStart % TWO_32
      && Le(r[20..22]) == 0
  {
    var r := Eocd(w, count, cdSize, cdStart);
    assert r[8..10] == U16Le(count);
    assert r[10..12] == U16Le(count);
    assert r[12..16] == CdSizeField(w, cdSize);
    assert r[16..20] == U32Le(cdStart);
    assert r[20..22] == [0, 0];
    Le2(r[20..22]);
    U16LeValue(count);
    CdSizeFieldValue(w, cdSize);
    U32LeValue(cdStart);
  }
}
