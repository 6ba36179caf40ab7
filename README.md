# createZip, modelled in Dafny

`createZip` (zip.js:1-73) builds an uncompressed ZIP archive in memory. It takes a
list of `{ name, content }` files and walks them in order. For each file it pushes
three chunks onto `chunks`: a 30-byte local file header, the name bytes and the
content bytes. It pushes a 46-byte central directory header and the name bytes onto
`centralDirectory`. It then advances a running `offset` by the length of what it
pushed onto `chunks`. After the loop it builds the 22-byte end of central directory
record and returns the blob made of every local chunk, every central chunk and the
end record, in that order. The record layouts are those of PKWARE's APPNOTE.TXT,
sections 4.3.7 (local file header), 4.3.12 (central directory header) and 4.3.16
(end of central directory record).

The model has these modules:

- `LittleEndian` (little_endian.dfy): bytes and the `x & 0xff, (x >> 8) & 0xff, …`
  fields, with their decoding and round trips.
- `ZipRecords` (records.dfy): the three records as functions of an `Entry` (name
  and content as bytes).
  - They are parameterised by a `Layout`.
  - `Masked` writes the length fields as zip.js does.
  - `Full` writes them as full 32-bit values.
- `Chunks` (chunks.dfy): the list of chunks and the join.
- `ZipArchive` (archive.dfy): the archive as a function of the input, `Archive(w,
  files)`, with the running offset and the central-directory size as functions. It
  also proves where every record and every field of the archive lies.
- `ZipWriter` (writer.dfy): `CreateZip`, the loop itself.
  - It is a method with the two sequence accumulators and the offset counter of
    the source.
  - It is proved to return `Archive(Masked, files)`.
  - It is also proved to read back as its input whenever every length fits the
    masked fields.
- `ZipWriter` also holds `BuildArchive`, the full-width builder. It refuses inputs
  with `SizeLimitExceeded` instead of letting a field wrap.
- `ZipReader` (reader.dfy): a reader for such archives, the inverse the writer is
  checked against.
  - It parses the end record at the end of the bytes and walks the central
    directory it points to.
  - It follows each central header's offset to its local record.
  - It checks the signatures, the stored method, equal sizes, the names and the
    region boundaries.
- `ZipFindings` (findings.dfy): inputs on which the masked fields lose
  information.
- `ZipSamples` (samples.dfy): the empty archive and the example of zip.js:76-80.

Where the design of the format and the code disagree, the model follows the code.

- The CRC-32 fields are written as four zero bytes, as zip.js:23 and zip.js:42 do.
- The size fields never hold more than 16 bits of a length.
- The directory-size field keeps only 8 bits (zip.js:66).
- Both masks are modelled literally in `Masked`. The design requirement that no
  field may wrap, and that oversized inputs fail with `SizeLimitExceeded`, is
  modelled separately by `BuildArchive`.

## Model

| member | source | states |
|---|---|---|
| LittleEndian.LeBytesValue | zip.js:51 | the bytes `(n >> 8i) & 0xff` for `i < count` decode, low byte first, to `n` modulo `256^count` |
| LittleEndian.LeBytesRoundTrip | zip.js:51 | any byte string decodes to a value below `256^len` that encodes back to the same bytes |
| LittleEndian.U16LeValue | zip.js:26 | a two-byte field `n & 0xff, (n >> 8) & 0xff` decodes to `n mod 2^16` |
| LittleEndian.U32LeValue | zip.js:51 | a four-byte field decodes to `n mod 2^32` |
| LittleEndian.U32LeRoundTrip | zip.js:67 | the four-byte encoding is lossless: decoding it gives `n` back for `n < 2^32` |
| LittleEndian.LeU32RoundTrip | zip.js:51 | any four bytes decode to a value below 2^32 whose encoding is those bytes |
| LittleEndian.LeU16RoundTrip | zip.js:26 | any two bytes decode to a value below 2^16 whose encoding is those bytes |
| LittleEndian.LeZeroExtend | zip.js:24 | trailing `0x00` bytes do not change a little-endian value |
| ZipRecords.SizeField | zip.js:24 | a size field is 4 bytes |
| ZipRecords.CdSizeField | zip.js:66 | the central-directory-size field is 4 bytes |
| ZipRecords.SizeFieldValue | zip.js:24-25 | a size field decodes to the length mod 2^16 as written (low two bytes, then `00 00`), mod 2^32 in full |
| ZipRecords.CdSizeFieldValue | zip.js:66 | the directory-size field decodes to the size mod 2^8 as written (`& 0xff`, then three zeros), mod 2^32 in full |
| ZipRecords.LocalHeader | zip.js:16-28 | the local header is 30 bytes |
| ZipRecords.CentralHeader | zip.js:34-52 | the central header is 46 bytes |
| ZipRecords.Eocd | zip.js:60-69 | the end record is 22 bytes |
| ZipRecords.LocalHeaderFields | zip.js:16-28 | signature `50 4B 03 04`; version `14 00`; zero flag, method, time, date and CRC; compressed size byte-identical to uncompressed size, both the content length mod the field's reach; name length mod 2^16; zero extra length |
| ZipRecords.CentralHeaderFields | zip.js:34-52 | signature `50 4B 01 02`; version made by `14 00`; bytes 6-32 identical to the local header's bytes 4-30; name length mod 2^16; zero extra, comment, disk and attribute fields; offset field the 32-bit encoding of the offset, decoding to it mod 2^32 |
| ZipRecords.EocdFields | zip.js:60-69 | signature `50 4B 05 06`; zero disk numbers; two byte-identical count fields holding the count mod 2^16; directory size mod the field's reach; start mod 2^32; zero comment length |
| Chunks.FlattenAppend | zip.js:72 | joining two lists of chunks joins their bytes |
| Chunks.SumLengthsIsFlattenLength | zip.js:66 | the reduce over the chunk lengths is the length of the joined chunks |
| ZipArchive.LocalPosition | zip.js:56 | the local records of the first `k` entries take up exactly the running offset reached after them |
| ZipArchive.CentralPosition | zip.js:55 | the central records of the first `k` entries take up 46 + name length each and nothing else |
| ZipArchive.LocalRegionLength | zip.js:56 | the local region is exactly as long as the final running offset |
| ZipArchive.CentralRegionLength | zip.js:66 | the central directory is as long as the sum of 46 + the name length, with no content bytes in it |
| ZipArchive.OffsetMonotone | zip.js:56 | the running offset and the directory size reached after a prefix never exceed those after all entries |
| ZipArchive.ArchiveLength | zip.js:72 | the archive is local region + central region + 22 bytes long, the regions having the final offset and the directory size as lengths |
| ZipArchive.EocdAtEnd | zip.js:60-69 | the archive ends with the end record right after the central directory: signature, equal counts of `files.length mod 2^16`, directory size mod the field's reach, start field decoding to the final offset (mod 2^32) which is the local region's length, zero comment |
| ZipArchive.EocdTail | zip.js:72 | the last 22 bytes of the archive, from the end of the central directory, are exactly the end record |
| ZipArchive.LocalRecordAt | zip.js:31 | entry `k`'s header, name and content sit, in that order, from its running offset to the next entry's, inside the local region |
| ZipArchive.CentralRecordAt | zip.js:55 | entry `k`'s central header and its name, carrying entry `k`'s running offset, sit right after the local region and the earlier central records |
| ZipArchive.LocalRecordPrefix | zip.js:17 | a local record opens with the local signature |
| ZipArchive.CentralRecordPrefix | zip.js:51 | a central record opens with the central signature and holds the encoded offset at bytes 42-46 |
| ZipArchive.LocalSignatureAt | zip.js:17 | at entry `k`'s running offset the archive holds a local header signature |
| ZipArchive.CentralHeaderAt | zip.js:51 | entry `k`'s central header in the archive starts with its signature and holds the encoding of entry `k`'s running offset |
| ZipArchive.CentralOffsetPointsToLocal | zip.js:51 | entry `k`'s offset field decodes to the sum of 30 + name length + content length over the earlier entries (mod 2^32); a local signature sits there; below 4 GiB the field is exact |
| ZipArchive.FirstEntryAtStart | zip.js:8 | the archive opens with the first local header, and the first central header records offset 0 |
| ZipReader.ParseLocalHeaderOf | zip.js:16-28 | a reader parses back from a local header the content length and name length (each mod its field's reach) and a zero extra length |
| ZipReader.ParseCentralHeaderOf | zip.js:34-52 | a reader parses back from a central header the name length mod 2^16, zero extra and comment lengths and the offset mod 2^32 |
| ZipReader.ParseEocdOf | zip.js:60-69 | a reader parses back from the end record the count, the directory size and the start, each mod its field's reach |
| ZipReader.ReadLocalOf | zip.js:24-31 | a local record read back gives the name, and only the first content length mod 2^16 content bytes as written (all of them in full) |
| ZipReader.CentralRecordParts | zip.js:34-55 | a central record read back gives its name length, offset and exactly its name |
| ZipReader.StoredEntriesOfFits | zip.js:24-25 | when every content length fits its field, nothing of any content is cut |
| ZipReader.EntryReadable | zip.js:55 | entry `k`'s central record reads back as the entry's name with its stored content, and ends where entry `k + 1`'s starts |
| ZipReader.ArchiveReadsBack | zip.js:10-57 | the central records from entry `k` to the end read back, in order, as the entries' stored forms, ending exactly at the end record |
| ZipReader.ReadArchiveStored | zip.js:1-73 | an archive whose count, offsets, directory size and names fit reads back as its entries in order, each content cut to the length its size field keeps |
| ZipReader.ReadArchiveRoundTrip | zip.js:1-73 | an archive whose every length fits its field reads back exactly as its input, names and contents, in order |
| ZipReader.MaskedCentralSizeRejected | zip.js:66 | as written, an archive whose central directory reaches 256 bytes is rejected by a reader |
| ZipWriter.CreateZip | zip.js:1-73 | the loop's result is the local records, then the central records, then the end record, each as written; it reads back as the input when every length fits the masked fields |
| ZipWriter.BuildArchive | zip.js:16-69 | fails with `SizeLimitExceeded` exactly when some length does not fit its full-width field, and otherwise returns the full-width archive, which reads back as the input |
| ZipFindings.CentralSizeTruncated | zip.js:66 | one entry with a 210-byte name: the directory is 256 bytes, its size field decodes to 0, a reader rejects the archive as written and reads the full-width one back whole |
| ZipFindings.ContentSizeFieldsZero | zip.js:24-25 | with 65536 bytes of content both size fields of the local header decode to 0 |
| ZipFindings.ContentSizeTruncated | zip.js:24-25 | one entry with 65536 bytes of content reads back with empty content as written, and whole in full width |
| ZipSamples.EmptyArchive | zip.js:60-69 | with no files the archive is only the end record: its signature and 18 zero bytes (count 0, size 0, start 0) |
| ZipSamples.EmptyReadBack | zip.js:10 | the empty archive reads back as no files |
| ZipSamples.ExampleSizes | zip.js:77-80 | for two files shaped like the example the offsets are 52 and 115 and the directory sizes 55 and 110 |
| ZipSamples.ExampleLayout | zip.js:77-80 | the second local header is at 52, the central directory at 115, the second central header records 52, and the end record counts 2 and records 115 |
| ZipSamples.ExampleReadBack | zip.js:77-80 | the example's archive reads back as its two files |
| ZipSamples.ExampleArchive | zip.js:77-80 | the example files themselves: second local header at 52, directory at 115, archive of 247 bytes that reads back as the files |

## Left out

- `TextEncoder` (zip.js:11-13) is a platform call. Names and contents are taken as
  byte sequences. `ZipSamples.Ascii` gives the UTF-8 bytes of the example's ASCII
  strings only.
- `Blob` and its MIME type (zip.js:72) are a platform wrapper. The result is the
  joined byte sequence.
- The example's download code (zip.js:82-92) is browser plumbing with no logic.
- CRC-32 is not computed. The code writes four zero bytes (zip.js:23, zip.js:42),
  and so does the model.
- Compression, ZIP64, encryption and timestamps do not exist in the source.
- JavaScript numbers lose precision above 2^53. Lengths and offsets here are
  unbounded integers, so an archive larger than 2^53 bytes is not modelled as the
  engine would compute it. Below that bound `>>` and `& 0xff` agree with the
  division and remainder used here, because the 32-bit conversion before `>>`
  changes no bit that `& 0xff` keeps.
- ZipReader.ReadArchiveRoundTrip: proves that an archive whose every length fits
  reads back as its input, but not the converse for every field. That an oversized
  field spoils the read-back is proved only for the directory size
  (`MaskedCentralSizeRejected`) and the content lengths (`ReadArchiveStored`). It is
  not proved for the entry count, the offsets or the name lengths.
- `ZipReader` itself is not part of zip.js. It is the independent partner the
  writer is checked against, so it reads only what a stored archive needs.
  - It accepts only method 0 with equal sizes.
  - It does not check CRC-32.
  - It supports neither data descriptors, multiple disks nor an archive comment.
- `ZipWriter.BuildArchive` is a function over values. The source has no
  full-width builder, so there is no loop to mirror.

## Findings

| source | as written | input that shows it | evidently intended | confidence | as-written member | corrected member |
|---|---|---|---|---|---|---|
| zip.js:66 | the size of the central directory is written as `sum & 0xff` followed by three zero bytes | one file with a 210-byte name and no content, whose central directory is 256 bytes: the field holds 0 and the archive no longer describes its own directory | the 32-bit little-endian size of the central directory | not executed | ZipFindings.CentralSizeTruncated | ZipWriter.BuildArchive |
| zip.js:24-25 | both size fields keep only the low 16 bits of the content length, with the upper two bytes `00 00` | one file with an empty name and 65536 bytes of content: both fields hold 0 and a reader takes back empty content | the 32-bit little-endian content length | not executed | ZipFindings.ContentSizeTruncated | ZipWriter.BuildArchive |
