/**
 * A reader for the archives `createZip` writes, the inverse the writer is checked
 * against: it finds the end record at the end of the bytes, walks the central
 * directory it points to, and follows each central header's offset to the local
 * record holding the entry's content.
 */
module ZipReader {
  import opened LittleEndian
  import opened ZipRecords
  import opened Chunks
  import opened ZipArchive

  datatype Option<T> = None | Some(value: T)

  /** What a local header says: the stored size and the lengths of the name and extra fields. */
  datatype LocalInfo = LocalInfo(size: nat, nameLength: nat, extraLength: nat)

  /** What a central header says: the lengths of its variable fields and the local header's offset. */
  datatype CentralInfo = CentralInfo(nameLength: nat, extraLength: nat, commentLength: nat, offset: nat)

  /** What the end record says: the entry count, the directory's size and its start. */
  datatype EocdInfo = EocdInfo(count: nat, cdSize: nat, cdStart: nat)

  /**
   * A 30-byte local header, accepted when it has the local signature, method 0
   * (stored) and equal compressed and uncompressed sizes.
   */
  function ParseLocalHeader(h: seq<byte>): Option<LocalInfo>
    requires |h| == LOCAL_HEADER_SIZE
  {
    if h[0..4] != LOCAL_SIGNATURE || h[8..10] != [0, 0] || h[18..22] != h[22..26] then None
    else Some(LocalInfo(Le(h[18..22]), Le(h[26..28]), Le(h[28..30])))
  }

  /** A 46-byte central header, accepted when it has the central signature. */
  function ParseCentralHeader(h: seq<byte>): Option<CentralInfo>
    requires |h| == CENTRAL_HEADER_SIZE
  {
    if h[0..4] != CENTRAL_SIGNATURE then None
    else Some(CentralInfo(Le(h[28..30]), Le(h[30..32]), Le(h[32..34]), Le(h[42..46])))
  }

  /**
   * A 22-byte end record, accepted when it has the end signature, equal entry
   * counts and no comment.
   */
  function ParseEocd(r: seq<byte>): Option<EocdInfo>
    requires |r| == EOCD_SIZE
  {
    if r[0..4] != EOCD_SIGNATURE || r[8..10] != r[10..12] || Le(r[20..22]) != 0 then None
    else Some(EocdInfo(Le(r[10..12]), Le(r[12..16]), Le(r[16..20])))
  }

  /** The entry whose local record starts at `off` of `a`: its name and its stored content. */
  function ReadLocal(a: seq<byte>, off: nat): Option<Entry>
  {
    if off + LOCAL_HEADER_SIZE > |a| then None
    else match ParseLocalHeader(a[off..off + LOCAL_HEADER_SIZE])
      case None => None
      case Some(info) =>
        var start := off + LOCAL_HEADER_SIZE + info.nameLength + info.extraLength;
        if start + info.size > |a| then None
        else Some(Entry(a[off + LOCAL_HEADER_SIZE..off + LOCAL_HEADER_SIZE + info.nameLength], a[start..start + info.size]))
  }

  /** One central record read at `pos`: the entry it leads to and the position just past it. */
  datatype CentralRead = CentralRead(entry: Entry, next: nat)

  /**
   * The central record at `pos`, which must end by `end`: its header, its name,
   * which must be the name in the local record the header points to, and the
   * extra and comment fields the header announces.
   */
  function ReadCentralRecord(a: seq<byte>, pos: nat, end: nat): Option<CentralRead>
    requires end <= |a|
  {
    if pos + CENTRAL_HEADER_SIZE > end then None
    else match ParseCentralHeader(a[pos..pos + CENTRAL_HEADER_SIZE])
      case None => None
      case Some(info) =>
        var next := pos + CENTRAL_HEADER_SIZE + info.nameLength + info.extraLength + info.commentLength;
        if next > end then None
        else match ReadLocal(a, info.offset)
          case None => None
          case Some(e) =>
            if e.name != a[pos + CENTRAL_HEADER_SIZE..pos + CENTRAL_HEADER_SIZE + info.nameLength] then None
            else Some(CentralRead(e, next))
  }

  /** The `n` entries whose central records run from `pos` to exactly `end`. */
  function ReadCentral(a: seq<byte>, pos: nat, n: nat, end: nat): Option<seq<Entry>>
    requires end <= |a|
    decreases n
  {
    if n == 0 then (if pos == end then Some([]) else None)
    else match ReadCentralRecord(a, pos, end)
      case None => None
      case Some(r) =>
        match ReadCentral(a, r.next, n - 1, end)
        case None => None
        case Some(rest) => Some([r.entry] + rest)
  }

  /**
   * The entries of the archive `a`: the end record is its last 22 bytes, and the
   * central directory must end exactly where the end record starts.
   */
  function ReadArchive(a: seq<byte>): Option<seq<Entry>>
  {
    if |a| < EOCD_SIZE then None
    else
      var e := |a| - EOCD_SIZE;
      match ParseEocd(a[e..])
      case None => None
      case Some(info) =>
        if info.cdStart + info.cdSize != e then None
        else ReadCentral(a, info.cdStart, info.count, e)
  }

  /**
   * The inputs whose count, offsets, directory size and name lengths all fit
   * their fields in layout `w`; only the content lengths may be cut.
   */
  predicate Readable(w: Layout, files: seq<Entry>)
  {
    && |files| < TWO_16
    && Offset(files) < TWO_32
    && CentralSize(files) < CdSizeModulus(w)
    && forall i | 0 <= i < |files| :: |files[i].name| < TWO_16
  }

  /** The inputs whose every length field holds its true value in layout `w`. */
  predicate Fits(w: Layout, files: seq<Entry>)
  {
    Readable(w, files) && forall i | 0 <= i < |files| :: |files[i].content| < SizeModulus(w)
  }

  /**
   * What a reader gets back of `e` from an archive of layout `w`: the name, and
   * as much of the content as the size field keeps of its length.
   */
  function Stored(w: Layout, e: Entry): Entry
  {
    Entry(e.name, e.content[..|e.content| % SizeModulus(w)])
  }

  /** `Stored` of every entry, in input order. */
  function StoredEntries(w: Layout, files: seq<Entry>): seq<Entry>
  {
    seq(|files|, i requires 0 <= i < |files| => Stored(w, files[i]))
  }

  /** An entry whose content length fits its size field is stored whole. */
  lemma {:induction false} StoredEntriesOfFits(w: Layout, files: seq<Entry>)
    requires Fits(w, files)
    ensures StoredEntries(w, files) == files
  {
    forall i | 0 <= i < |files|
      ensures StoredEntries(w, files)[i] == files[i]
    {
      ModSmall(|files[i].content|, SizeModulus(w));
      assert files[i].content[..|files[i].content|] == files[i].content;
    }
  }

  /** The reader takes back from a local header the lengths it holds, each modulo its field's reach. */
  lemma {:induction false} ParseLocalHeaderOf(w: Layout, e: Entry)
    ensures ParseLocalHeader(LocalHeader(w, e))
      == Some(LocalInfo(|e.content| % SizeModulus(w), |e.name| % TWO_16, 0))
  {
    var h := LocalHeader(w, e);
    LocalHeaderFields(w, e);
    assert h[8..10] == [0, 0];
  }

  /** The reader takes back from a central header its name length and the local header's offset modulo 2^32. */
  lemma {:induction false} ParseCentralHeaderOf(w: Layout, e: Entry, offset: nat)
    ensures ParseCentralHeader(CentralHeader(w, e, offset))
      == Some(CentralInfo(|e.name| % TWO_16, 0, 0, offset % TWO_32))
  {
    CentralHeaderFields(w, e, offset);
  }

  /** The reader takes back from an end record its count, size and start, each modulo its field's reach. */
  lemma {:induction false} ParseEocdOf(w: Layout, count: nat, cdSize: nat, cdStart: nat)
    ensures ParseEocd(Eocd(w, count, cdSize, cdStart))
      == Some(EocdInfo(count % TWO_16, cdSize % CdSizeModulus(w), cdStart % TWO_32))
  {
    EocdFields(w, count, cdSize, cdStart);
  }

  /**
   * A local record of `e` found at `o` of any byte sequence reads back with `e`'s
   * name while the name length fits, and with only as much of the content as the
   * size field keeps of its length: all of it in full, the first `|content| % 2^16`
   * bytes as written.
   */
  lemma {:induction false} ReadLocalOf(a: seq<byte>, o: nat, q: nat, w: Layout, e: Entry)
    requires q == o + |LocalRecord(w, e)| && q <= |a| && a[o..q] == LocalRecord(w, e)
    requires |e.name| < TWO_16
    ensures ReadLocal(a, o) == Some(Entry(e.name, e.content[..|e.content| % SizeModulus(w)]))
  {
    var r := LocalRecord(w, e);
    var n, m := |e.name|, |e.content|;
    var s := m % SizeModulus(w);
    ModAtMost(m, SizeModulus(w));
    SubSlice(a, r, o, 0, LOCAL_HEADER_SIZE);
    assert r[0..LOCAL_HEADER_SIZE] == LocalHeader(w, e);
    SubSlice(a, r, o, LOCAL_HEADER_SIZE, LOCAL_HEADER_SIZE + n);
    assert r[LOCAL_HEADER_SIZE..LOCAL_HEADER_SIZE + n] == e.name;
    SubSlice(a, r, o, LOCAL_HEADER_SIZE + n, LOCAL_HEADER_SIZE + n + s);
    assert r[LOCAL_HEADER_SIZE + n..LOCAL_HEADER_SIZE + n + s] == e.content[..s];
    ParseLocalHeaderOf(w, e);
    ModSmall(n, TWO_16);
  }

  /** The header and name of a central record of `e` found from `p` to `q`, as the reader parses them. */
  lemma {:induction false} CentralRecordParts(a: seq<byte>, p: nat, q: nat, w: Layout, e: Entry, o: nat)
    requires q == p + |CentralRecord(w, e, o)| && q <= |a| && a[p..q] == CentralRecord(w, e, o)
    requires |e.name| < TWO_16 && o < TWO_32
    ensures q == p + CENTRAL_HEADER_SIZE + |e.name|
    ensures ParseCentralHeader(a[p..p + CENTRAL_HEADER_SIZE]) == Some(CentralInfo(|e.name|, 0, 0, o))
    ensures a[p + CENTRAL_HEADER_SIZE..q] == e.name
  {
    var r := CentralRecord(w, e, o);
    var k := |e.name|;
    SubSlice(a, r, p, 0, CENTRAL_HEADER_SIZE);
    assert r[0..CENTRAL_HEADER_SIZE] == CentralHeader(w, e, o);
    SubSlice(a, r, p, CENTRAL_HEADER_SIZE, CENTRAL_HEADER_SIZE + k);
    assert r[CENTRAL_HEADER_SIZE..CENTRAL_HEADER_SIZE + k] == e.name;
    ParseCentralHeaderOf(w, e, o);
    ModSmall(k, TWO_16);
    ModSmall(o, TWO_32);
  }

  /** A central header at `p` naming `e` and pointing at a local record that reads back as `e`. */
  lemma {:induction false} ReadCentralRecordOf(a: seq<byte>, p: nat, q: nat, end: nat, e: Entry, o: nat)
    requires q == p + CENTRAL_HEADER_SIZE + |e.name| && q <= end <= |a|
    requires ParseCentralHeader(a[p..p + CENTRAL_HEADER_SIZE]) == Some(CentralInfo(|e.name|, 0, 0, o))
    requires a[p + CENTRAL_HEADER_SIZE..q] == e.name
    requires ReadLocal(a, o) == Some(e)
    ensures ReadCentralRecord(a, p, end) == Some(CentralRead(e, q))
  {
  }

  /**
   * The central records from `p` to exactly `end` of `a` read back, one after the
   * other, as the entries `es`.
   */
  predicate ReadsBack(a: seq<byte>, es: seq<Entry>, p: nat, end: nat)
    requires end <= |a|
    decreases |es|
  {
    if es == [] then p == end
    else match ReadCentralRecord(a, p, end)
      case None => false
      case Some(r) => r.entry == es[0] && ReadsBack(a, es[1..], r.next, end)
  }

  /** Records that read back one by one as `es` make up a central directory of `es`. */
  lemma {:induction false} ReadCentralOf(a: seq<byte>, es: seq<Entry>, p: nat, end: nat)
    requires end <= |a| && ReadsBack(a, es, p, end)
    ensures ReadCentral(a, p, |es|, end) == Some(es)
    decreases |es|
  {
    if es != [] {
      match ReadCentralRecord(a, p, end)
      case Some(r) =>
        ReadCentralOf(a, es[1..], r.next, end);
        assert es == [r.entry] + es[1..];
    }
  }

  /**
   * Bytes ending with an end record that counts `es` and points at a central
   * directory ending where the end record starts read back as `es`.
   */
  lemma {:induction false} ReadArchiveOf(a: seq<byte>, es: seq<Entry>, base: nat, size: nat, end: nat)
    requires |a| == end + EOCD_SIZE && end == base + size
    requires ParseEocd(a[end..]) == Some(EocdInfo(|es|, size, base))
    requires ReadsBack(a, es, base, end)
    ensures ReadArchive(a) == Some(es)
  {
    ReadCentralOf(a, es, base, end);
  }

  /**
   * The central record of entry `j`, from `p` to `q` of the archive `a`, reads back
   * as what is stored of the entry.
   */
  lemma {:induction false} EntryReadable(w: Layout, files: seq<Entry>, j: nat, a: seq<byte>, p: nat, q: nat, end: nat)
    requires j < |files| && a == Archive(w, files)
    requires |files[j].name| < TWO_16 && Offset(files) < TWO_32
    requires p == Offset(files) + CentralSize(files[..j]) && q == Offset(files) + CentralSize(files[..j + 1])
    requires end == Offset(files) + CentralSize(files) && end <= |a|
    ensures ReadCentralRecord(a, p, end) == Some(CentralRead(Stored(w, files[j]), q))
  {
    var o, o' := Offset(files[..j]), Offset(files[..j + 1]);
    CentralRecordAt(w, files, j, p, q);
    LocalRecordAt(w, files, j, o, o');
    OffsetMonotone(files, j);
    ReadLocalOf(a, o, o', w, files[j]);
    CentralRecordParts(a, p, q, w, files[j], o);
    ReadCentralRecordOf(a, p, q, end, Stored(w, files[j]), o);
  }

  /**
   * The central records of the entries from `k` onward of an archive whose names
   * and offsets fit read back as what is stored of those entries.
   */
  lemma {:induction false} ArchiveReadsBack(w: Layout, files: seq<Entry>, k: nat, a: seq<byte>, p: nat, end: nat)
    requires Readable(w, files) && k <= |files| && a == Archive(w, files)
    requires p == Offset(files) + CentralSize(files[..k])
    requires end == Offset(files) + CentralSize(files) && end <= |a|
    ensures ReadsBack(a, StoredEntries(w, files)[k..], p, end)
    decreases |files| - k
  {
    var es := StoredEntries(w, files);
    if k == |files| {
      assert files[..k] == files;
      assert es[k..] == [];
    } else {
      var q := Offset(files) + CentralSize(files[..k + 1]);
      assert |files[k].name| < TWO_16;
      EntryReadable(w, files, k, a, p, q, end);
      ArchiveReadsBack(w, files, k + 1, a, q, end);
      assert es[k..][1..] == es[k + 1..];
    }
  }

  /**
   * An archive whose count, offsets, directory size and name lengths fit reads
   * back as its entries, in order, each with its name and with its content cut
   * to the length its size field keeps.
   */
  lemma {:induction false} ReadArchiveStored(w: Layout, files: seq<Entry>)
    requires Readable(w, files)
    ensures ReadArchive(Archive(w, files)) == Some(StoredEntries(w, files))
  {
    var a := Archive(w, files);
    var es := StoredEntries(w, files);
    var end := Offset(files) + CentralSize(files);
    EocdTail(w, files, end);
    ParseEocdOf(w, |files|, CentralSize(files), Offset(files));
    ModSmall(|files|, TWO_16);
    ModSmall(CentralSize(files), CdSizeModulus(w));
    ModSmall(Offset(files), TWO_32);
    assert files[..0] == [];
    ArchiveReadsBack(w, files, 0, a, Offset(files), end);
    assert es[0..] == es;
    ReadArchiveOf(a, es, Offset(files), CentralSize(files), end);
  }

  /**
   * Reading back an archive whose lengths all fit their fields gives back exactly
   * the entries it was built from, names and contents, in order.
   */
  lemma {:induction false} ReadArchiveRoundTrip(w: Layout, files: seq<Entry>)
    requires Fits(w, files)
    ensures ReadArchive(Archive(w, files)) == Some(files)
  {
    ReadArchiveStored(w, files);
    StoredEntriesOfFits(w, files);
  }

  /**
   * As written, an archive whose central directory reaches 256 bytes is rejected:
   * the end record keeps only the size's low 8 bits, so the directory it describes
   * no longer ends where the end record starts.
   */
  lemma {:induction false} MaskedCentralSizeRejected(files: seq<Entry>)
    requires Offset(files) < TWO_32 && CentralSize(files) >= TWO_8
    ensures ReadArchive(Archive(Masked, files)) == None
  {
    var end := Offset(files) + CentralSize(files);
    EocdTail(Masked, files, end);
    ParseEocdOf(Masked, |files|, CentralSize(files), Offset(files));
    ModSmall(Offset(files), TWO_32);
  }
}
