/**
 * `createZip` itself (zip.js:1-73), and the full-width builder the format intends,
 * which refuses inputs whose lengths its fields cannot hold instead of truncating them.
 */
module ZipWriter {
  import opened LittleEndian
  import opened ZipRecords
  import opened Chunks
  import opened ZipArchive
  import opened ZipReader

  /**
   * `createZip` (zip.js:1-73) on already-encoded names and contents: one pass over
   * the entries pushing chunks and advancing the running offset, then the end record,
   * then the concatenation of every chunk. The result is the archive of the
   * as-written layout, and it reads back as the input whenever every length fits
   * the masked fields.
   */
  method CreateZip(files: seq<Entry>) returns (zip: seq<byte>)
    ensures zip == Archive(Masked, files)
    ensures Fits(Masked, files) ==> ReadArchive(zip) == Some(files)
  {
    ghost var locals := LocalRecords(Masked, files);
    ghost var centrals := CentralRecords(Masked, files);
    var chunks: seq<seq<byte>> := [];
    var centralDirectory: seq<seq<byte>> := [];
    var offset: nat := 0;
    for i := 0 to |files|
      invariant Flatten(chunks) == Flatten(locals[..i])
      invariant Flatten(centralDirectory) == Flatten(centrals[..i])
      invariant offset == Offset(files[..i])
    {
      var nameBytes := files[i].name;
      var contentBytes := files[i].content;
      var localHeader := LocalHeader(Masked, files[i]);
      FlattenAppend(chunks, [localHeader, nameBytes, contentBytes]);
      Flatten3(localHeader, nameBytes, contentBytes);
      FlattenAt(locals, i);
      chunks := chunks + [localHeader, nameBytes, contentBytes];
      var centralHeader := CentralHeader(Masked, files[i], offset);
      FlattenAppend(centralDirectory, [centralHeader, nameBytes]);
      Flatten2(centralHeader, nameBytes);
      FlattenAt(centrals, i);
      centralDirectory := centralDirectory + [centralHeader, nameBytes];
      offset := offset + |localHeader| + |nameBytes| + |contentBytes|;
      PrefixStep(files, i);
    }
    assert locals[..|files|] == locals;
    assert centrals[..|files|] == centrals;
    assert files[..|files|] == files;
    var cdSize := SumLengths(centralDirectory);
    SumLengthsIsFlattenLength(centralDirectory);
    CentralRegionLength(Masked, files);
    var endOfCentralDir := Eocd(Masked, |files|, cdSize, offset);
    FlattenAppend(chunks + centralDirectory, [endOfCentralDir]);
    FlattenAppend(chunks, centralDirectory);
    Flatten1(endOfCentralDir);
    zip := Flatten(chunks + centralDirectory + [endOfCentralDir]);
    if Fits(Masked, files) {
      ReadArchiveRoundTrip(Masked, files);
    }
  }

  datatype BuildError = SizeLimitExceeded

  datatype Result<T> = Ok(value: T) | Err(error: BuildError)

  /**
   * The archive with every length field written in full, or `SizeLimitExceeded`
   * when a name is 2^16 bytes or longer, a content or the whole local region is
   * 2^32 bytes or longer, the central directory is, or there are 2^16 entries or
   * more. No field of an archive it returns has wrapped, so it reads back as the input.
   */
  function BuildArchive(files: seq<Entry>): (r: Result<seq<byte>>)
    ensures r.Err? <==> !Fits(Full, files)
    ensures r.Ok? ==> r.value == Archive(Full, files) && ReadArchive(r.value) == Some(files)
  {
    if Fits(Full, files) then
      ReadArchiveRoundTrip(Full, files);
      Ok(Archive(Full, files))
    else
      Err(SizeLimitExceeded)
  }
}
