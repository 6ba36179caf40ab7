/** The archives zip.js builds for no files and for the two files of its example (zip.js:76-80). */
module ZipSamples {
  import opened LittleEndian
  import opened ZipRecords
  import opened Chunks
  import opened ZipArchive
  import opened ZipReader

  /** The bytes of a string of ASCII characters, which is what UTF-8 makes of it. */
  function Ascii(s: string): (r: seq<byte>)
    requires forall i | 0 <= i < |s| :: s[i] as int < 128
    ensures |r| == |s|
  {
    seq(|s|, i requires 0 <= i < |s| => s[i] as int)
  }

  /** The two files of the example (zip.js:77-80). */
  function ExampleFiles(): seq<Entry>
  {
    [ Entry(Ascii("file1.txt"), Ascii("Hello, world!")),
      Entry(Ascii("file2.csv"), Ascii("Name,Age\nAlice,30\nBob,25")) ]
  }

  /** With no files, the archive is only the end record: its signature and 18 zero bytes. */
  lemma EmptyArchive(w: Layout)
    ensures Archive(w, []) == EOCD_SIGNATURE + Zeros(18)
  {
    assert LocalRecords(w, []) == [] && CentralRecords(w, []) == [];
    assert LeBytes(0, 1) == [0];
    assert U16Le(0) == [0, 0];
    assert U32Le(0) == [0, 0, 0, 0];
    assert CdSizeField(w, 0) == [0, 0, 0, 0];
    assert Eocd(w, 0, 0, 0) == EOCD_SIGNATURE + Zeros(18);
  }

  /** With no files, the archive reads back as no files. */
  lemma EmptyReadBack(w: Layout)
    ensures ReadArchive(Archive(w, [])) == Some([])
  {
    ReadArchiveRoundTrip(w, []);
  }

  /** The running offsets and directory sizes of two files shaped like the example's. */
  lemma ExampleSizes(files: seq<Entry>)
    requires |files| == 2
    requires |files[0].name| == 9 && |files[0].content| == 13
    requires |files[1].name| == 9 && |files[1].content| == 24
    ensures Offset(files[..1]) == 52 && CentralSize(files[..1]) == 55
    ensures Offset(files) == 115 && CentralSize(files) == 110
  {
    var f1 := files[..1];
    assert Init(f1) == [] && Last(f1) == files[0];
    assert Init(files) == f1 && Last(files) == files[1];
  }

  /**
   * Two files with 9-byte names and contents of 13 and 24 bytes, as in the example:
   * the second local header starts at 30 + 9 + 13 = 52, the central directory at
   * 52 + 30 + 9 + 24 = 115, and the central directory is 2 * (46 + 9) = 110 bytes.
   * The second central header points at 52, and the end record counts 2 entries
   * and says the directory starts at 115.
   */
  lemma ExampleLayout(files: seq<Entry>)
    requires |files| == 2
    requires |files[0].name| == 9 && |files[0].content| == 13
    requires |files[1].name| == 9 && |files[1].content| == 24
    ensures var a := Archive(Masked, files);
      && Offset(files[..1]) == 52 && Offset(files) == 115 && CentralSize(files) == 110
      && |a| == 247
      && a[52..56] == LOCAL_SIGNATURE
      && a[170..174] == CENTRAL_SIGNATURE
      && Le(a[212..216]) == 52
      && a[225..229] == EOCD_SIGNATURE
      && Le(a[233..235]) == 2
      && Le(a[241..245]) == 115
  {
    ExampleSizes(files);
    ModSmall(2, TWO_16);
    ModSmall(115, TWO_32);
    CentralOffsetPointsToLocal(Masked, files, 1, 170, 52);
    EocdAtEnd(Masked, files, 225);
  }

  /** The example's archive reads back as its two files. */
  lemma ExampleReadBack(files: seq<Entry>)
    requires |files| == 2
    requires |files[0].name| == 9 && |files[0].content| == 13
    requires |files[1].name| == 9 && |files[1].content| == 24
    ensures ReadArchive(Archive(Masked, files)) == Some(files)
  {
    ExampleSizes(files);
    assert Fits(Masked, files);
    ReadArchiveRoundTrip(Masked, files);
  }

  /**
   * The example itself: the second local header at 52, the central directory at
   * 115, and the archive reads back as the two files.
   */
  lemma ExampleArchive()
    ensures var files := ExampleFiles();
      var a := Archive(Masked, files);
      && Offset(files[..1]) == 52 && Offset(files) == 115
      && |a| == 247
      && Le(a[212..216]) == 52
      && Le(a[241..245]) == 115
      && ReadArchive(a) == Some(files)
  {
    ExampleLayout(ExampleFiles());
    ExampleReadBack(ExampleFiles());
  }
}
