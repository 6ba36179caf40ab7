/**
 * Two kinds of input on which the masked length fields of zip.js lose information,
 * each set beside the full-width layout, which keeps it.
 */
module ZipFindings {
  import opened LittleEndian
  import opened ZipRecords
  import opened ZipArchive
  import opened ZipReader

  /**
   * One entry with a 210-byte name and no content has a central record of
   * 46 + 210 = 256 bytes. The size field of the end record written as in zip.js:66
   * then holds 0, and a reader rejects the archive; written in full, the same
   * input reads back whole.
   */
  lemma CentralSizeTruncated(files: seq<Entry>)
    requires |files| == 1 && |files[0].name| == 210 && files[0].content == []
    ensures var a := Archive(Masked, files);
      var e := Offset(files) + CentralSize(files);
      && CentralSize(files) == 256
      && |a| == e + EOCD_SIZE
      && Le(a[e + 12..e + 16]) == 0
      && ReadArchive(a) == None
      && ReadArchive(Archive(Full, files)) == Some(files)
  {
    assert Init(files) == [];
    assert Offset(files) == 240;
    assert CentralSize(files) == 256;
    EocdAtEnd(Masked, files, 496);
    MaskedCentralSizeRejected(files);
    assert Fits(Full, files);
    ReadArchiveRoundTrip(Full, files);
  }

  /**
   * One entry with 65536 bytes of content: both size fields of its local header,
   * written as in zip.js:24-25, hold 0.
   */
  lemma ContentSizeFieldsZero(files: seq<Entry>)
    requires |files| == 1 && |files[0].content| == TWO_16
    ensures var a := Archive(Masked, files);
      && |a| >= LOCAL_HEADER_SIZE
      && Le(a[18..22]) == 0 && Le(a[22..26]) == 0
  {
    var a := Archive(Masked, files);
    var h, r := LocalHeader(Masked, files[0]), LocalRecord(Masked, files[0]);
    assert files[..0] == [] && files[..1] == files;
    LocalRecordAt(Masked, files, 0, 0, Offset(files[..1]));
    LocalHeaderFields(Masked, files[0]);
    assert a[18..22] == r[18..22] == h[18..22];
    assert a[22..26] == r[22..26] == h[22..26];
  }

  /**
   * One entry with an empty name and 65536 bytes of content reads back, as
   * written, with empty content; written in full, it reads back whole.
   */
  lemma ContentSizeTruncated(files: seq<Entry>)
    requires |files| == 1 && files[0].name == [] && |files[0].content| == TWO_16
    ensures ReadArchive(Archive(Masked, files)) == Some([Entry([], [])])
    ensures ReadArchive(Archive(Full, files)) == Some(files)
  {
    assert Init(files) == [];
    assert Offset(files) == LOCAL_HEADER_SIZE + TWO_16;
    assert CentralSize(files) == CENTRAL_HEADER_SIZE;
    assert Readable(Masked, files);
    ReadArchiveStored(Masked, files);
    assert StoredEntries(Masked, files) == [Entry([], [])];
    assert Fits(Full, files);
    ReadArchiveRoundTrip(Full, files);
  }
}
