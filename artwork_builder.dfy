/** `ArtworkDBBuilder.generateArtworkDB`: writes the file top-down into one
    growing buffer, appending field after field. */
module ArtworkBuilder {
  import opened Bytes
  import opened ArtworkLayout

  /** The buffer after appending the words one by one, as the builder does. */
  function AppendedWords(p: seq<byte>, ws: seq<u32>): (r: seq<byte>)
    ensures |r| == |p| + 4 * |ws|
    decreases ws
  {
    if ws == [] then p else AppendedWords(p + LE32(ws[0]), ws[1..])
  }

  lemma {:induction false} AppendedWordsAreWords(p: seq<byte>, ws: seq<u32>)
    ensures AppendedWords(p, ws) == p + Words(ws)
    decreases ws
  {
    if ws == [] {
      assert p + Words(ws) == p;
    } else {
      AppendedWordsAreWords(p + LE32(ws[0]), ws[1..]);
      ConcatAssoc(p, LE32(ws[0]), Words(ws[1..]));
    }
  }

  /** Appending a chunk's tag, fields and padding after `p` gives `p`
      followed by the chunk. */
  lemma AppendedChunk(p: seq<byte>, tag: seq<byte>, ws: seq<u32>, headerLength: nat)
    requires |tag| == 4 && 4 + 4 * |ws| <= headerLength
    ensures AppendedWords(p + tag, ws) + Zeros(headerLength - 4 - 4 * |ws|)
         == p + Encode(ChunkHeader(tag, ws, headerLength))
  {
    AppendedWordsAreWords(p + tag, ws);
    var z := Zeros(headerLength - 4 - 4 * |ws|);
    ConcatAssoc(p, tag, Words(ws));
    ConcatAssoc(p, tag + Words(ws), z);
  }

  // Each lemma below says that the appends the builder performs for one chunk,
  // after whatever is already in the buffer, produce that chunk of the layout.

  lemma FileHeaderAsAppended(p: seq<byte>, totalLength: u32, nextImageID: u32)
    ensures p + MhfdTag + LE32(MhfdSize) + LE32(totalLength) + LE32(0) + LE32(0) + LE32(2) + LE32(0) + LE32(nextImageID) + Zeros(MhfdSize - 32)
         == p + Encode(FileHeader(totalLength, nextImageID))
  {
    var ws: seq<u32> := [MhfdSize, totalLength, 0, 0, 2, 0, nextImageID];
    var q0 := p + MhfdTag;
    var q1 := q0 + LE32(MhfdSize);
    var q2 := q1 + LE32(totalLength);
    var q3 := q2 + LE32(0);
    var q4 := q3 + LE32(0);
    var q5 := q4 + LE32(2);
    var q6 := q5 + LE32(0);
    var q7 := q6 + LE32(nextImageID);
    assert AppendedWords(q0, [MhfdSize, totalLength, 0, 0, 2, 0, nextImageID]) == AppendedWords(q1, [totalLength, 0, 0, 2, 0, nextImageID]);
    assert AppendedWords(q1, [totalLength, 0, 0, 2, 0, nextImageID]) == AppendedWords(q2, [0, 0, 2, 0, nextImageID]);
    assert AppendedWords(q2, [0, 0, 2, 0, nextImageID]) == AppendedWords(q3, [0, 2, 0, nextImageID]);
    assert AppendedWords(q3, [0, 2, 0, nextImageID]) == AppendedWords(q4, [2, 0, nextImageID]);
    assert AppendedWords(q4, [2, 0, nextImageID]) == AppendedWords(q5, [0, nextImageID]);
    assert AppendedWords(q5, [0, nextImageID]) == AppendedWords(q6, [nextImageID]);
    assert AppendedWords(q6, [nextImageID]) == AppendedWords(q7, []);
    AppendedChunk(p, MhfdTag, ws, MhfdSize);
  }

  lemma SectionHeaderAsAppended(p: seq<byte>, totalLength: u32, sectionType: u32)
    ensures p + MhsdTag + LE32(MhsdSize) + LE32(totalLength) + LE32(sectionType) + Zeros(MhsdSize - 16)
         == p + Encode(SectionHeader(totalLength, sectionType))
  {
    var ws: seq<u32> := [MhsdSize, totalLength, sectionType];
    var q0 := p + MhsdTag;
    var q1 := q0 + LE32(MhsdSize);
    var q2 := q1 + LE32(totalLength);
    var q3 := q2 + LE32(sectionType);
    assert AppendedWords(q0, [MhsdSize, totalLength, sectionType]) == AppendedWords(q1, [totalLength, sectionType]);
    assert AppendedWords(q1, [totalLength, sectionType]) == AppendedWords(q2, [sectionType]);
    assert AppendedWords(q2, [sectionType]) == AppendedWords(q3, []);
    AppendedChunk(p, MhsdTag, ws, MhsdSize);
  }

  lemma ImageListAsAppended(p: seq<byte>, imageCount: u32)
    ensures p + MhliTag + LE32(MhliSize) + LE32(imageCount) + Zeros(MhliSize - 12)
         == p + Encode(ImageList(imageCount))
  {
    var ws: seq<u32> := [MhliSize, imageCount];
    var q0 := p + MhliTag;
    var q1 := q0 + LE32(MhliSize);
    var q2 := q1 + LE32(imageCount);
    assert AppendedWords(q0, [MhliSize, imageCount]) == AppendedWords(q1, [imageCount]);
    assert AppendedWords(q1, [imageCount]) == AppendedWords(q2, []);
    AppendedChunk(p, MhliTag, ws, MhliSize);
  }

  lemma ImageItemAsAppended(p: seq<byte>, e: ArtworkEntry)
    ensures p + MhiiTag + LE32(MhiiHeaderSize) + LE32(ImageBlockSize) + LE32(1) + LE32(e.imageID) + LE64(e.songDBID) + LE32(0) + LE32(e.fileSize) + Zeros(MhiiHeaderSize - 36)
         == p + Encode(ImageItem(e))
  {
    var lo, hi := e.songDBID % U32Limit, e.songDBID / U32Limit;
    var ws: seq<u32> := [MhiiHeaderSize, ImageBlockSize, 1, e.imageID, lo, hi, 0, e.fileSize];
    var q0 := p + MhiiTag;
    var q1 := q0 + LE32(MhiiHeaderSize);
    var q2 := q1 + LE32(ImageBlockSize);
    var q3 := q2 + LE32(1);
    var q4 := q3 + LE32(e.imageID);
    var q5 := q4 + LE32(lo);
    var q6 := q5 + LE32(hi);
    var q7 := q6 + LE32(0);
    var q8 := q7 + LE32(e.fileSize);
    assert AppendedWords(q0, [MhiiHeaderSize, ImageBlockSize, 1, e.imageID, lo, hi, 0, e.fileSize]) == AppendedWords(q1, [ImageBlockSize, 1, e.imageID, lo, hi, 0, e.fileSize]);
    assert AppendedWords(q1, [ImageBlockSize, 1, e.imageID, lo, hi, 0, e.fileSize]) == AppendedWords(q2, [1, e.imageID, lo, hi, 0, e.fileSize]);
    assert AppendedWords(q2, [1, e.imageID, lo, hi, 0, e.fileSize]) == AppendedWords(q3, [e.imageID, lo, hi, 0, e.fileSize]);
    assert AppendedWords(q3, [e.imageID, lo, hi, 0, e.fileSize]) == AppendedWords(q4, [lo, hi, 0, e.fileSize]);
    assert AppendedWords(q4, [lo, hi, 0, e.fileSize]) == AppendedWords(q5, [hi, 0, e.fileSize]);
    assert AppendedWords(q5, [hi, 0, e.fileSize]) == AppendedWords(q6, [0, e.fileSize]);
    assert AppendedWords(q6, [0, e.fileSize]) == AppendedWords(q7, [e.fileSize]);
    assert AppendedWords(q7, [e.fileSize]) == AppendedWords(q8, []);
    // The 64-bit append is the low word followed by the high word.
    LE64Split(e.songDBID);
    ConcatAssoc(q4, LE32(lo), LE32(hi));
    AppendedChunk(p, MhiiTag, ws, MhiiHeaderSize);
  }

  lemma FileInfoAsAppended(p: seq<byte>, fileSize: u32)
    ensures p + MhifTag + LE32(MhifSize) + LE32(MhifSize) + LE32(0) + LE32(fileSize) + Zeros(MhifSize - 20)
         == p + Encode(FileInfo(fileSize))
  {
    var ws: seq<u32> := [MhifSize, MhifSize, 0, fileSize];
    var q0 := p + MhifTag;
    var q1 := q0 + LE32(MhifSize);
    var q2 := q1 + LE32(MhifSize);
    var q3 := q2 + LE32(0);
    var q4 := q3 + LE32(fileSize);
    assert AppendedWords(q0, [MhifSize, MhifSize, 0, fileSize]) == AppendedWords(q1, [MhifSize, 0, fileSize]);
    assert AppendedWords(q1, [MhifSize, 0, fileSize]) == AppendedWords(q2, [0, fileSize]);
    assert AppendedWords(q2, [0, fileSize]) == AppendedWords(q3, [fileSize]);
    assert AppendedWords(q3, [fileSize]) == AppendedWords(q4, []);
    AppendedChunk(p, MhifTag, ws, MhifSize);
  }

  lemma AlbumListAsAppended(p: seq<byte>)
    ensures p + MhlaTag + LE32(MhlaSize) + LE32(0) + Zeros(MhlaSize - 12)
         == p + Encode(AlbumList())
  {
    var ws: seq<u32> := [MhlaSize, 0];
    var q0 := p + MhlaTag;
    var q1 := q0 + LE32(MhlaSize);
    var q2 := q1 + LE32(0);
    assert AppendedWords(q0, [MhlaSize, 0]) == AppendedWords(q1, [0]);
    assert AppendedWords(q1, [0]) == AppendedWords(q2, []);
    AppendedChunk(p, MhlaTag, ws, MhlaSize);
  }

  // The builder's blocks of appends, one method per chunk.

  method WriteFileHeader(buf: ByteBuffer, totalFileSize: u32, nextImageID: u32)
    modifies buf
    ensures buf.bytes == old(buf.bytes) + Encode(FileHeader(totalFileSize, nextImageID))
  {
    ghost var p := buf.bytes;
    buf.AppendBytes(MhfdTag);
    buf.AppendU32LE(MhfdSize);
    buf.AppendU32LE(totalFileSize);
    buf.AppendU32LE(0);
    buf.AppendU32LE(0);
    buf.AppendU32LE(2);
    buf.AppendU32LE(0);
    buf.AppendU32LE(nextImageID);
    buf.AppendZeros(MhfdSize - 32);
    FileHeaderAsAppended(p, totalFileSize, nextImageID);
  }

  method WriteSectionHeader(buf: ByteBuffer, totalLength: u32, sectionType: u32)
    modifies buf
    ensures buf.bytes == old(buf.bytes) + Encode(SectionHeader(totalLength, sectionType))
  {
    ghost var p := buf.bytes;
    buf.AppendBytes(MhsdTag);
    buf.AppendU32LE(MhsdSize);
    buf.AppendU32LE(totalLength);
    buf.AppendU32LE(sectionType);
    buf.AppendZeros(MhsdSize - 16);
    SectionHeaderAsAppended(p, totalLength, sectionType);
  }

  method WriteImageList(buf: ByteBuffer, imageCount: u32)
    modifies buf
    ensures buf.bytes == old(buf.bytes) + Encode(ImageList(imageCount))
  {
    ghost var p := buf.bytes;
    buf.AppendBytes(MhliTag);
    buf.AppendU32LE(MhliSize);
    buf.AppendU32LE(imageCount);
    buf.AppendZeros(MhliSize - 12);
    ImageListAsAppended(p, imageCount);
  }

  method WriteImageItem(buf: ByteBuffer, entry: ArtworkEntry)
    modifies buf
    ensures buf.bytes == old(buf.bytes) + Encode(ImageItem(entry))
  {
    ghost var p := buf.bytes;
    buf.AppendBytes(MhiiTag);
    buf.AppendU32LE(MhiiHeaderSize);
    buf.AppendU32LE(ImageBlockSize);
    buf.AppendU32LE(1);
    buf.AppendU32LE(entry.imageID);
    buf.AppendU64LE(entry.songDBID);
    buf.AppendU32LE(0);
    buf.AppendU32LE(entry.fileSize);
    buf.AppendZeros(MhiiHeaderSize - 36);
    ImageItemAsAppended(p, entry);
  }

  method WriteFileInfo(buf: ByteBuffer, fileSize: u32)
    modifies buf
    ensures buf.bytes == old(buf.bytes) + Encode(FileInfo(fileSize))
  {
    ghost var p := buf.bytes;
    buf.AppendBytes(MhifTag);
    buf.AppendU32LE(MhifSize);
    buf.AppendU32LE(MhifSize);
    buf.AppendU32LE(0);
    buf.AppendU32LE(fileSize);
    buf.AppendZeros(MhifSize - 20);
    FileInfoAsAppended(p, fileSize);
  }

  /** The loop over the entries: one mhii with its nested mhif per entry, in
      input order. */
  method WriteImageBlocks(buf: ByteBuffer, entries: seq<ArtworkEntry>)
    modifies buf
    ensures buf.bytes == old(buf.bytes) + Serialize(ImageChunks(entries))
  {
    ghost var head := buf.bytes;
    assert entries[..0] == [];
    for index := 0 to |entries|
      invariant buf.bytes == head + Serialize(ImageChunks(entries[..index]))
    {
      ghost var before := buf.bytes;
      ghost var done := ImageChunks(entries[..index]);
      var entry := entries[index];
      WriteImageItem(buf, entry);
      WriteFileInfo(buf, entry.fileSize);
      assert entries[..index + 1][..index] == entries[..index];
      assert ImageChunks(entries[..index + 1]) == done + [ImageItem(entry), FileInfo(entry.fileSize)];
      SerializePair(ImageItem(entry), FileInfo(entry.fileSize));
      SerializeAppend(done, [ImageItem(entry), FileInfo(entry.fileSize)]);
      ConcatAssoc(before, Encode(ImageItem(entry)), Encode(FileInfo(entry.fileSize)));
      ConcatAssoc(head, Serialize(done), Serialize([ImageItem(entry), FileInfo(entry.fileSize)]));
    }
    assert entries[..|entries|] == entries;
  }

  method WriteAlbumList(buf: ByteBuffer)
    modifies buf
    ensures buf.bytes == old(buf.bytes) + Encode(AlbumList())
  {
    ghost var p := buf.bytes;
    buf.AppendBytes(MhlaTag);
    buf.AppendU32LE(MhlaSize);
    buf.AppendU32LE(0);
    buf.AppendZeros(MhlaSize - 12);
    AlbumListAsAppended(p);
  }

  /** The builder. Swift's UInt32 arithmetic traps on overflow, so callers
      must stay within NoTrap; every size and ID below is a 32-bit value, as
      in the source, and each assignment is checked to fit. The output is
      the reference layout, byte for byte. */
  method GenerateArtworkDB(entries: seq<ArtworkEntry>) returns (data: seq<byte>)
    requires NoTrap(entries)
    ensures data == ArtworkDB(entries)
    ensures |data| == 508 + 276 * |entries|
  {
    var buf := new ByteBuffer();

    var imageCount: u32 := |entries|;
    var section1TotalSize: u32 := MhsdSize + MhliSize + ImageBlockSize * imageCount;
    var section2TotalSize: u32 := MhsdSize + MhlaSize;
    var totalFileSize: u32 := MhfdSize + section1TotalSize + section2TotalSize;
    var maxId: u32 := if entries == [] then DefaultMaxImageID else MaxImageID(entries);
    assert section1TotalSize == Section1TotalSize(|entries|);
    assert totalFileSize == TotalFileSize(|entries|);

    WriteFileHeader(buf, totalFileSize, maxId + 1);
    assert buf.bytes == Encode(FileHeader(totalFileSize, maxId + 1));
    WriteSectionHeader(buf, section1TotalSize, ImageListSection);
    WriteImageList(buf, imageCount);
    WriteImageBlocks(buf, entries);
    WriteSectionHeader(buf, section2TotalSize, AlbumListSection);
    WriteAlbumList(buf);
    data := buf.bytes;

    assert maxId + 1 == NextImageID(entries);
    ArtworkDBParts(entries);
  }

  /** `generateEmptyArtworkDB`: the skeleton with no images. */
  method GenerateEmptyArtworkDB() returns (data: seq<byte>)
    ensures data == ArtworkDB([])
    ensures |data| == 508
  {
    data := GenerateArtworkDB([]);
  }
}
