/**
 * The archive `createZip` builds (zip.js:1-73): every local record in input order,
 * then every central directory record in the same order, then the end record.
 */
module ZipArchive {
  import opened LittleEndian
  import opened ZipRecords
  import opened Chunks

  /** The entries before the last one. */
  function Init(files: seq<Entry>): seq<Entry>
    requires files != []
  {
    files[..|files| - 1]
  }

  function Last(files: seq<Entry>): Entry
    requires files != []
  {
    files[|files| - 1]
  }

  /**
   * The running offset after `files` have been written: `offset` starts at 0 (zip.js:8)
   * and each entry adds its 30-byte header, its name and its content (zip.js:56).
   */
  function Offset(files: seq<Entry>): nat
  {
    if files == [] then 0
    else Offset(Init(files)) + LOCAL_HEADER_SIZE + |Last(files).name| + |Last(files).content|
  }

  /** The bytes of the central directory records of `files`: 46 header bytes and the name, per entry. */
  function CentralSize(files: seq<Entry>): nat
  {
    if files == [] then 0
    else CentralSize(Init(files)) + CENTRAL_HEADER_SIZE + |Last(files).name|
  }

  /** What `chunks.push(localHeader, nameBytes, contentBytes)` adds for one entry (zip.js:31). */
  function LocalRecord(w: Layout, e: Entry): seq<byte>
  {
    LocalHeader(w, e) + e.name + e.content
  }

  /** What `centralDirectory.push(centralHeader, nameBytes)` adds for one entry (zip.js:55). */
  function CentralRecord(w: Layout, e: Entry, offset: nat): seq<byte>
  {
    CentralHeader(w, e, offset) + e.name
  }

  /** The local record of every entry, in input order. */
  function LocalRecords(w: Layout, files: seq<Entry>): seq<seq<byte>>
  {
    seq(|files|, i requires 0 <= i < |files| => LocalRecord(w, files[i]))
  }

  /**
   * The central record of every entry, in input order, each carrying the running
   * offset reached after the entries before it.
   */
  function CentralRecords(w: Layout, files: seq<Entry>): seq<seq<byte>>
  {
    seq(|files|, i requires 0 <= i < |files| => CentralRecord(w, files[i], Offset(files[..i])))
  }

  /**
   * The archive: the local records, the central records and the end record, which
   * counts the entries, gives the size of the central directory and says it starts
   * at the final running offset (zip.js:60-72).
   */
  function Archive(w: Layout, files: seq<Entry>): seq<byte>
  {
    Flatten(LocalRecords(w, files)) + Flatten(CentralRecords(w, files))
    + Eocd(w, |files|, CentralSize(files), Offset(files))
  }

  /** The taken-apart form of the step from the first `k` entries to the first `k + 1`. */
  lemma {:induction false} PrefixStep(files: seq<Entry>, k: nat)
    requires k < |files|
    ensures files[..k + 1] != []
    ensures Init(files[..k + 1]) == files[..k]
    ensures Last(files[..k + 1]) == files[k]
  {
    assert files[..k + 1][..k] == files[..k];
  }

  /** The local records of the first `k` entries take up exactly the running offset reached after them. */
  lemma {:induction false} LocalPosition(w: Layout, files: seq<Entry>, k: nat)
    requires k <= |files|
    ensures |Flatten(LocalRecords(w, files)[..k])| == Offset(files[..k])
  {
    var rs := LocalRecords(w, files);
    if k == 0 {
      assert rs[..0] == [];
      assert files[..0] == [];
    } else {
      var j := k - 1;
      LocalPosition(w, files, j);
      FlattenPrefixLength(rs, j);
      PrefixStep(files, j);
      assert rs[j] == LocalRecord(w, files[j]);
    }
  }

  /** The central records of the first `k` entries take up `CentralSize` of them. */
  lemma {:induction false} CentralPosition(w: Layout, files: seq<Entry>, k: nat)
    requires k <= |files|
    ensures |Flatten(CentralRecords(w, files)[..k])| == CentralSize(files[..k])
  {
    var rs := CentralRecords(w, files);
    if k == 0 {
      assert rs[..0] == [];
      assert files[..0] == [];
    } else {
      var j := k - 1;
      CentralPosition(w, files, j);
      FlattenPrefixLength(rs, j);
      PrefixStep(files, j);
      assert rs[j] == CentralRecord(w, files[j], Offset(files[..j]));
    }
  }

  /** The local region is exactly as long as the final running offset. */
  lemma {:induction false} LocalRegionLength(w: Layout, files: seq<Entry>)
    ensures |Flatten(LocalRecords(w, files))| == Offset(files)
  {
    LocalPosition(w, files, |files|);
    assert LocalRecords(w, files)[..|files|] == LocalRecords(w, files);
    assert files[..|files|] == files;
  }

  /**
   * The central directory holds 46 header bytes and the name per entry and none
   * of the contents: its length is the sum of `46 + |name|`, the value the reduce
   * at zip.js:66 computes.
   */
  lemma {:induction false} CentralRegionLength(w: Layout, files: seq<Entry>)
    ensures |Flatten(CentralRecords(w, files))| == CentralSize(files)
  {
    CentralPosition(w, files, |files|);
    assert CentralRecords(w, files)[..|files|] == CentralRecords(w, files);
    assert files[..|files|] == files;
  }

  /** The running offset and the central directory size only grow from one entry to the next. */
  lemma {:induction false} OffsetMonotone(files: seq<Entry>, k: nat)
    requires k <= |files|
    ensures Offset(files[..k]) <= Offset(files)
    ensures CentralSize(files[..k]) <= CentralSize(files)
    decreases |files|
  {
    if k < |files| {
      assert files[..k] == Init(files)[..k];
      OffsetMonotone(Init(files), k);
    } else {
      assert files[..k] == files;
    }
  }

  /** The archive is the local region, then the central region, then the 22-byte end record. */
  lemma {:induction false} ArchiveLength(w: Layout, files: seq<Entry>)
    ensures |Flatten(LocalRecords(w, files))| == Offset(files)
    ensures |Flatten(CentralRecords(w, files))| == CentralSize(files)
    ensures |Archive(w, files)| == Offset(files) + CentralSize(files) + EOCD_SIZE
  {
    LocalRegionLength(w, files);
    CentralRegionLength(w, files);
  }

  /** The fields of a 22-byte end record found at position `e` of `a`. */
  lemma {:induction false} EocdAt(a: seq<byte>, e: nat, r: seq<byte>)
    requires |r| == EOCD_SIZE && e + |r| == |a| && a[e..] == r
    ensures a[e..e + 4] == r[0..4]
    ensures a[e + 8..e + 10] == r[8..10]
    ensures a[e + 10..e + 12] == r[10..12]
    ensures a[e + 12..e + 16] == r[12..16]
    ensures a[e + 16..e + 20] == r[16..20]
    ensures a[e + 20..e + 22] == r[20..22]
  {
    assert a[e..e + |r|] == r;
    SubSlice(a, r, e, 0, 4);
    SubSlice(a, r, e, 8, 10);
    SubSlice(a, r, e, 10, 12);
    SubSlice(a, r, e, 12, 16);
    SubSlice(a, r, e, 16, 20);
    SubSlice(a, r, e, 20, 22);
  }

  /** The fields of the end record closing `a == l + c + r`, which starts at `e`. */
  lemma {:induction false} EocdFieldsAt(a: seq<byte>, l: seq<byte>, c: seq<byte>, e: nat, w: Layout, count: nat, cdSize: nat, cdStart: nat)
    requires a == l + c + Eocd(w, count, cdSize, cdStart) && e == |l| + |c|
    ensures |a| == e + EOCD_SIZE
    ensures a[e..e + 4] == EOCD_SIGNATURE
    ensures a[e + 8..e + 10] == a[e + 10..e + 12]
    ensures Le(a[e + 8..e + 10]) == count % TWO_16
    ensures Le(a[e + 12..e + 16]) == cdSize % CdSizeModulus(w)
    ensures Le(a[e + 16..e + 20]) == cdStart % TWO_32
    ensures Le(a[e + 20..e + 22]) == 0
  {
    var r := Eocd(w, count, cdSize, cdStart);
    assert a[e..] == r;
    EocdFields(w, count, cdSize, cdStart);
    EocdAt(a, e, r);
  }

  /**
   * The end record closing the archive: signature `50 4B 05 06`, two equal entry
   * counts holding the low 16 bits of the number of entries, the central directory's
   * size (modulo the field's reach), its start at the final running offset, which
   * is the length of the local region, and a zero comment length.
   */
  lemma {:induction false} EocdAtEnd(w: Layout, files: seq<Entry>, e: nat)
    requires e == Offset(files) + CentralSize(files)
    ensures |Flatten(LocalRecords(w, files))| == Offset(files)
    ensures var a := Archive(w, files);
      && |a| == e + EOCD_SIZE
      && a[e..e + 4] == EOCD_SIGNATURE
      && a[e + 8..e + 10] == a[e + 10..e + 12]
      && Le(a[e + 8..e + 10]) == |files| % TWO_16
      && Le(a[e + 12..e + 16]) == CentralSize(files) % CdSizeModulus(w)
      && Le(a[e + 16..e + 20]) == Offset(files) % TWO_32
      && Le(a[e + 20..e + 22]) == 0
  {
    LocalRegionLength(w, files);
    CentralRegionLength(w, files);
    EocdFieldsAt(Archive(w, files), Flatten(LocalRecords(w, files)), Flatten(CentralRecords(w, files)),
      e, w, |files|, CentralSize(files), Offset(files));
  }

  /** The archive ends with the end record, which starts at `e`, just past the central directory. */
  lemma {:induction false} EocdTail(w: Layout, files: seq<Entry>, e: nat)
    requires e == Offset(files) + CentralSize(files)
    ensures |Archive(w, files)| == e + EOCD_SIZE
    ensures Archive(w, files)[e..] == Eocd(w, |files|, CentralSize(files), Offset(files))
  {
    LocalRegionLength(w, files);
    CentralRegionLength(w, files);
    BackSlice(Archive(w, files), Flatten(LocalRecords(w, files)), Flatten(CentralRecords(w, files)),
      Eocd(w, |files|, CentralSize(files), Offset(files)), e);
  }

  /** Entry `k`'s local record within the local region, from `o` to `o'`. */
  lemma {:induction false} LocalInRegion(w: Layout, files: seq<Entry>, k: nat, o: nat, o': nat)
    requires k < |files| && o == Offset(files[..k]) && o' == Offset(files[..k + 1])
    ensures o' == o + |LocalRecord(w, files[k])|
    ensures o' <= |Flatten(LocalRecords(w, files))|
    ensures Flatten(LocalRecords(w, files))[o..o'] == LocalRecord(w, files[k])
  {
    var rs := LocalRecords(w, files);
    PrefixStep(files, k);
    LocalPosition(w, files, k);
    assert rs[k] == LocalRecord(w, files[k]);
    FlattenAtPos(rs, k, o, o');
  }

  /** Slices of the local region are slices of the archive at the same positions. */
  lemma {:induction false} LocalRegionInArchive(w: Layout, files: seq<Entry>, i: nat, j: nat)
    requires i <= j <= Offset(files)
    ensures |Archive(w, files)| == Offset(files) + CentralSize(files) + EOCD_SIZE
    ensures |Flatten(LocalRecords(w, files))| == Offset(files)
    ensures Archive(w, files)[i..j] == Flatten(LocalRecords(w, files))[i..j]
  {
    LocalRegionLength(w, files);
    CentralRegionLength(w, files);
    FrontSlice(Archive(w, files), Flatten(LocalRecords(w, files)), Flatten(CentralRecords(w, files)),
      Eocd(w, |files|, CentralSize(files), Offset(files)), i, j);
  }

  /**
   * Entry `k`'s local record, header then name then content, starts at the offset `o`
   * reached after the entries before it, that is at the sum of `30 + |name| + |content|`
   * over them, and ends at the next entry's offset `o'`.
   */
  lemma {:induction false} LocalRecordAt(w: Layout, files: seq<Entry>, k: nat, o: nat, o': nat)
    requires k < |files| && o == Offset(files[..k]) && o' == Offset(files[..k + 1])
    ensures o' == o + |LocalRecord(w, files[k])|
    ensures o' <= Offset(files)
    ensures |Archive(w, files)| == Offset(files) + CentralSize(files) + EOCD_SIZE
    ensures Archive(w, files)[o..o'] == LocalRecord(w, files[k])
  {
    LocalInRegion(w, files, k, o, o');
    LocalRegionLength(w, files);
    LocalRegionInArchive(w, files, o, o');
  }

  /** Entry `k`'s central record within the central region, from `c` to `c'`. */
  lemma {:induction false} CentralInRegion(w: Layout, files: seq<Entry>, k: nat, c: nat, c': nat)
    requires k < |files| && c == CentralSize(files[..k]) && c' == CentralSize(files[..k + 1])
    ensures c' == c + |CentralRecord(w, files[k], Offset(files[..k]))|
    ensures c' <= |Flatten(CentralRecords(w, files))|
    ensures Flatten(CentralRecords(w, files))[c..c'] == CentralRecord(w, files[k], Offset(files[..k]))
  {
    var rs := CentralRecords(w, files);
    PrefixStep(files, k);
    CentralPosition(w, files, k);
    assert rs[k] == CentralRecord(w, files[k], Offset(files[..k]));
    FlattenAtPos(rs, k, c, c');
  }

  /** Slices of the central region are slices of the archive, shifted by the local region's length. */
  lemma {:induction false} CentralRegionInArchive(w: Layout, files: seq<Entry>, i: nat, j: nat, p: nat, q: nat)
    requires i <= j <= CentralSize(files) && p == Offset(files) + i && q == Offset(files) + j
    ensures |Archive(w, files)| == Offset(files) + CentralSize(files) + EOCD_SIZE
    ensures |Flatten(CentralRecords(w, files))| == CentralSize(files)
    ensures Archive(w, files)[p..q] == Flatten(CentralRecords(w, files))[i..j]
  {
    LocalRegionLength(w, files);
    CentralRegionLength(w, files);
    MiddleSlice(Archive(w, files), Flatten(LocalRecords(w, files)), Flatten(CentralRecords(w, files)),
      Eocd(w, |files|, CentralSize(files), Offset(files)), i, j, p, q);
  }

  /**
   * Entry `k`'s central record, header then name, sits from `p`, just past the local
   * region and the central records of the entries before it, to `q`, and carries
   * entry `k`'s local-header offset.
   */
  lemma {:induction false} CentralRecordAt(w: Layout, files: seq<Entry>, k: nat, p: nat, q: nat)
    requires k < |files|
    requires p == Offset(files) + CentralSize(files[..k]) && q == Offset(files) + CentralSize(files[..k + 1])
    ensures q == p + |CentralRecord(w, files[k], Offset(files[..k]))|
    ensures q <= Offset(files) + CentralSize(files)
    ensures |Archive(w, files)| == Offset(files) + CentralSize(files) + EOCD_SIZE
    ensures Archive(w, files)[p..q] == CentralRecord(w, files[k], Offset(files[..k]))
  {
    CentralInRegion(w, files, k, CentralSize(files[..k]), CentralSize(files[..k + 1]));
    CentralRegionLength(w, files);
    CentralRegionInArchive(w, files, CentralSize(files[..k]), CentralSize(files[..k + 1]), p, q);
  }

  /** A local record starts with its 30-byte header and the local header signature. */
  lemma {:induction false} LocalRecordPrefix(w: Layout, e: Entry)
    ensures |LocalRecord(w, e)| >= LOCAL_HEADER_SIZE
    ensures LocalRecord(w, e)[0..4] == LOCAL_SIGNATURE
  {
    LocalHeaderFields(w, e);
    assert LocalRecord(w, e)[0..4] == LocalHeader(w, e)[0..4];
  }

  /** A central record starts with its 46-byte header: the signature, and the offset field at 42. */
  lemma {:induction false} CentralRecordPrefix(w: Layout, e: Entry, offset: nat)
    ensures |CentralRecord(w, e, offset)| >= CENTRAL_HEADER_SIZE
    ensures CentralRecord(w, e, offset)[0..4] == CENTRAL_SIGNATURE
    ensures CentralRecord(w, e, offset)[42..46] == U32Le(offset)
  {
    var ch := CentralHeader(w, e, offset);
    CentralHeaderFields(w, e, offset);
    assert CentralRecord(w, e, offset)[0..4] == ch[0..4];
    assert CentralRecord(w, e, offset)[42..46] == ch[42..46];
  }

  /** Entry `k`'s local header signature within the local region, at `o`. */
  lemma {:induction false} LocalSignatureInRegion(w: Layout, files: seq<Entry>, k: nat, o: nat)
    requires k < |files| && o == Offset(files[..k])
    ensures o + LOCAL_HEADER_SIZE <= |Flatten(LocalRecords(w, files))|
    ensures Flatten(LocalRecords(w, files))[o..o + 4] == LOCAL_SIGNATURE
  {
    var lr := LocalRecord(w, files[k]);
    LocalInRegion(w, files, k, o, Offset(files[..k + 1]));
    LocalRecordPrefix(w, files[k]);
    SubSlice(Flatten(LocalRecords(w, files)), lr, o, 0, 4);
  }

  /** Entry `k`'s local header starts with the local header signature, at its running offset `o`. */
  lemma {:induction false} LocalSignatureAt(w: Layout, files: seq<Entry>, k: nat, o: nat)
    requires k < |files| && o == Offset(files[..k])
    ensures |Archive(w, files)| == Offset(files) + CentralSize(files) + EOCD_SIZE
    ensures o + LOCAL_HEADER_SIZE <= Offset(files)
    ensures Archive(w, files)[o..o + 4] == LOCAL_SIGNATURE
  {
    LocalSignatureInRegion(w, files, k, o);
    LocalRegionLength(w, files);
    LocalRegionInArchive(w, files, o, o + 4);
  }

  /** Entry `k`'s central header signature and offset field within the central region, at `c`. */
  lemma {:induction false} CentralHeaderInRegion(w: Layout, files: seq<Entry>, k: nat, c: nat)
    requires k < |files| && c == CentralSize(files[..k])
    ensures c + CENTRAL_HEADER_SIZE <= |Flatten(CentralRecords(w, files))|
    ensures Flatten(CentralRecords(w, files))[c..c + 4] == CENTRAL_SIGNATURE
    ensures Flatten(CentralRecords(w, files))[c + 42..c + 46] == U32Le(Offset(files[..k]))
  {
    var cr := CentralRecord(w, files[k], Offset(files[..k]));
    var f := Flatten(CentralRecords(w, files));
    CentralInRegion(w, files, k, c, CentralSize(files[..k + 1]));
    CentralRecordPrefix(w, files[k], Offset(files[..k]));
    SubSlice(f, cr, c, 0, 4);
    SubSlice(f, cr, c, 42, 46);
  }

  /** `a` is `l + f + r`, and `f` holds at `c` a central header signature and the offset field `x`. */
  predicate CentralHeaderInMiddle(a: seq<byte>, l: seq<byte>, f: seq<byte>, r: seq<byte>, c: nat, x: seq<byte>)
  {
    && a == l + f + r
    && c + CENTRAL_HEADER_SIZE <= |f|
    && f[c..c + 4] == CENTRAL_SIGNATURE
    && f[c + 42..c + 46] == x
  }

  /** The signature and offset field of a central header carry over from the middle part to the whole. */
  lemma {:induction false} CentralFieldsLift(a: seq<byte>, l: seq<byte>, f: seq<byte>, r: seq<byte>, c: nat, p: nat, x: seq<byte>)
    requires CentralHeaderInMiddle(a, l, f, r, c, x) && p == |l| + c
    ensures |a| == |l| + |f| + |r| && p + CENTRAL_HEADER_SIZE <= |l| + |f|
    ensures a[p..p + 4] == CENTRAL_SIGNATURE
    ensures a[p + 42..p + 46] == x
  {
    MiddleSlice(a, l, f, r, c, c + 4, p, p + 4);
    MiddleSlice(a, l, f, r, c + 42, c + 46, p + 42, p + 46);
  }

  /** The archive split into its three parts, with entry `k`'s central header fields at `c` of the middle one. */
  lemma {:induction false} CentralHeaderSplit(w: Layout, files: seq<Entry>, k: nat, c: nat)
    requires k < |files| && c == CentralSize(files[..k])
    ensures CentralHeaderInMiddle(Archive(w, files), Flatten(LocalRecords(w, files)), Flatten(CentralRecords(w, files)),
      Eocd(w, |files|, CentralSize(files), Offset(files)), c, U32Le(Offset(files[..k])))
    ensures |Flatten(LocalRecords(w, files))| == Offset(files)
    ensures |Flatten(CentralRecords(w, files))| == CentralSize(files)
  {
    CentralHeaderInRegion(w, files, k, c);
    ArchiveLength(w, files);
  }

  /**
   * Entry `k`'s central header, at position `p` just past the local region and the
   * central records before it, starts with its signature and carries the offset of
   * its local header.
   */
  lemma {:induction false} CentralHeaderAt(w: Layout, files: seq<Entry>, k: nat, p: nat)
    requires k < |files| && p == Offset(files) + CentralSize(files[..k])
    ensures |Archive(w, files)| == Offset(files) + CentralSize(files) + EOCD_SIZE
    ensures p + CENTRAL_HEADER_SIZE <= Offset(files) + CentralSize(files)
    ensures Archive(w, files)[p..p + 4] == CENTRAL_SIGNATURE
    ensures Archive(w, files)[p + 42..p + 46] == U32Le(Offset(files[..k]))
  {
    var c := CentralSize(files[..k]);
    CentralHeaderSplit(w, files, k, c);
    CentralFieldsLift(Archive(w, files), Flatten(LocalRecords(w, files)), Flatten(CentralRecords(w, files)),
      Eocd(w, |files|, CentralSize(files), Offset(files)), c, p, U32Le(Offset(files[..k])));
  }

  /**
   * The offset invariant: the relative-offset field of entry `k`'s central header
   * at `p` decodes to the running offset `o` reached before entry `k`, the sum of
   * `30 + |name| + |content|` over the entries before it (modulo 2^32), and while
   * the local region stays below 4 GiB it points exactly at entry `k`'s local header.
   */
  lemma {:induction false} CentralOffsetPointsToLocal(w: Layout, files: seq<Entry>, k: nat, p: nat, o: nat)
    requires k < |files| && p == Offset(files) + CentralSize(files[..k]) && o == Offset(files[..k])
    ensures var a := Archive(w, files);
      && |a| == Offset(files) + CentralSize(files) + EOCD_SIZE
      && p + CENTRAL_HEADER_SIZE <= |a|
      && a[p..p + 4] == CENTRAL_SIGNATURE
      && Le(a[p + 42..p + 46]) == o % TWO_32
      && o + LOCAL_HEADER_SIZE <= |a|
      && a[o..o + 4] == LOCAL_SIGNATURE
      && (Offset(files) < TWO_32 ==> Le(a[p + 42..p + 46]) == o)
  {
    CentralHeaderAt(w, files, k, p);
    U32LeValue(o);
    LocalSignatureAt(w, files, k, o);
    if Offset(files) < TWO_32 {
      ModSmall(o, TWO_32);
    }
  }

  /**
   * The first entry's local header opens the archive, and the first central
   * header, at the start `p` of the central directory, records offset 0 for it.
   */
  lemma {:induction false} FirstEntryAtStart(w: Layout, files: seq<Entry>, p: nat)
    requires files != [] && p == Offset(files)
    ensures var a := Archive(w, files);
      && p + CENTRAL_HEADER_SIZE <= |a|
      && a[0..4] == LOCAL_SIGNATURE
      && a[p..p + 4] == CENTRAL_SIGNATURE
      && Le(a[p + 42..p + 46]) == 0
  {
    assert files[..0] == [];
    CentralOffsetPointsToLocal(w, files, 0, p, 0);
  }
}
