/** Where the builder's values sit in the bytes of the file: each chunk's
    bytes start at the offset the header lengths before it add up to, and
    each field can be read there as a 32-bit little-endian word. */
module ArtworkPlacement {
  import opened Bytes
  import opened ArtworkLayout

  // ---------------------------------------------------------------------
  // Generic placement

  /** Chunk k of the serialized chunks s is encoded at its offset o. */
  lemma {:induction false} ChunkAt(s: seq<byte>, cs: seq<ChunkHeader>, k: nat, o: nat)
    requires AllValid(cs) && k < |cs|
    requires s == Serialize(cs) && o == Offset(cs, k)
    ensures cs[k].Valid() && o + cs[k].headerLength <= |s|
    ensures s[o..o + cs[k].headerLength] == Encode(cs[k])
    decreases k
  {
    OffsetWithin(cs, k);
    var e, tail := Encode(cs[0]), cs[1..];
    assert AllValid(tail) by {
      forall j | 0 <= j < |tail| ensures tail[j].Valid() {
        assert tail[j] == cs[j + 1];
      }
    }
    var rest, h := Serialize(tail), cs[k].headerLength;
    assert s == e + rest;
    if k == 0 {
      SliceLeft(e, rest, 0, |e|);
    } else {
      var o' := Offset(tail, k - 1);
      ChunkAt(rest, tail, k - 1, o');
      assert tail[k - 1] == cs[k];
      SliceRight(e, rest, o', o' + h);
    }
  }

  /** A word read inside a slice is the word read at the shifted offset. */
  lemma WordInSlice(s: seq<byte>, o: nat, h: nat, i: nat)
    requires o + h <= |s| && i + 4 <= h
    ensures U32At(s, o + i) == U32At(s[o..o + h], i)
  {
    SliceOfSlice(s, o, h, i, i + 4);
  }

  /** Field j of a chunk encoded at o is the word at p, 4 + 4j bytes past o. */
  lemma FieldInChunk(s: seq<byte>, o: nat, c: ChunkHeader, j: nat, p: nat)
    requires c.Valid() && j < |c.fields| && p == o + 4 + 4 * j
    requires o + c.headerLength <= |s| && s[o..o + c.headerLength] == Encode(c)
    ensures p + 4 <= |s|
    ensures U32At(s, p) == c.fields[j]
  {
    var i := 4 + 4 * j;
    EncodeField(c, j);
    WordInSlice(s, o, c.headerLength, i);
  }

  /** A chunk's tag is the first four of its bytes. */
  lemma TagInChunk(s: seq<byte>, o: nat, c: ChunkHeader)
    requires c.Valid() && o + c.headerLength <= |s| && s[o..o + c.headerLength] == Encode(c)
    ensures s[o..o + 4] == c.tag
  {
    EncodeTag(c);
    SliceOfSlice(s, o, c.headerLength, 0, 4);
  }

  /** Between the end of a chunk's fields and the end of its header every
      byte is zero. */
  lemma PaddingInChunk(s: seq<byte>, o: nat, c: ChunkHeader)
    requires c.Valid() && o + c.headerLength <= |s| && s[o..o + c.headerLength] == Encode(c)
    ensures forall j | o + 4 + 4 * |c.fields| <= j < o + c.headerLength :: s[j] == 0
  {
    EncodePadding(c);
    forall j | o + 4 + 4 * |c.fields| <= j < o + c.headerLength
      ensures s[j] == 0
    {
      assert s[j] == s[o .. o + c.headerLength][j - o];
    }
  }

  // ---------------------------------------------------------------------
  // Each kind of chunk, wherever it is encoded

  lemma FileHeaderAt(s: seq<byte>, o: nat, total: u32, next: u32)
    requires o + 132 <= |s| && s[o..o + 132] == Encode(FileHeader(total, next))
    ensures s[o..o + 4] == MhfdTag
    ensures U32At(s, o + 4) == 132 && U32At(s, o + 8) == total
    ensures U32At(s, o + 12) == 0 && U32At(s, o + 16) == 0 && U32At(s, o + 20) == 2 && U32At(s, o + 24) == 0
    ensures U32At(s, o + 28) == next
    ensures forall j | o + 32 <= j < o + 132 :: s[j] == 0
  {
    var c := FileHeader(total, next);
    TagInChunk(s, o, c);
    FieldInChunk(s, o, c, 0, o + 4);
    FieldInChunk(s, o, c, 1, o + 8);
    FieldInChunk(s, o, c, 2, o + 12);
    FieldInChunk(s, o, c, 3, o + 16);
    FieldInChunk(s, o, c, 4, o + 20);
    FieldInChunk(s, o, c, 5, o + 24);
    FieldInChunk(s, o, c, 6, o + 28);
    PaddingInChunk(s, o, c);
  }

  lemma SectionHeaderAt(s: seq<byte>, o: nat, total: u32, kind: u32)
    requires o + 96 <= |s| && s[o..o + 96] == Encode(SectionHeader(total, kind))
    ensures s[o..o + 4] == MhsdTag
    ensures U32At(s, o + 4) == 96 && U32At(s, o + 8) == total && U32At(s, o + 12) == kind
    ensures forall j | o + 16 <= j < o + 96 :: s[j] == 0
  {
    var c := SectionHeader(total, kind);
    TagInChunk(s, o, c);
    FieldInChunk(s, o, c, 0, o + 4);
    FieldInChunk(s, o, c, 1, o + 8);
    FieldInChunk(s, o, c, 2, o + 12);
    PaddingInChunk(s, o, c);
  }

  lemma ImageListAt(s: seq<byte>, o: nat, count: u32)
    requires o + 92 <= |s| && s[o..o + 92] == Encode(ImageList(count))
    ensures s[o..o + 4] == MhliTag
    ensures U32At(s, o + 4) == 92 && U32At(s, o + 8) == count
    ensures forall j | o + 12 <= j < o + 92 :: s[j] == 0
  {
    var c := ImageList(count);
    TagInChunk(s, o, c);
    FieldInChunk(s, o, c, 0, o + 4);
    FieldInChunk(s, o, c, 1, o + 8);
    PaddingInChunk(s, o, c);
  }

  lemma ImageItemAt(s: seq<byte>, o: nat, e: ArtworkEntry)
    requires o + 152 <= |s| && s[o..o + 152] == Encode(ImageItem(e))
    ensures s[o..o + 4] == MhiiTag
    ensures U32At(s, o + 4) == 152 && U32At(s, o + 8) == 276 && U32At(s, o + 12) == 1
    ensures U32At(s, o + 16) == e.imageID
    ensures U64At(s, o + 20) == e.songDBID
    ensures U32At(s, o + 28) == 0
    ensures U32At(s, o + 32) == e.fileSize
    ensures forall j | o + 36 <= j < o + 152 :: s[j] == 0
  {
    var c := ImageItem(e);
    TagInChunk(s, o, c);
    FieldInChunk(s, o, c, 0, o + 4);
    FieldInChunk(s, o, c, 1, o + 8);
    FieldInChunk(s, o, c, 2, o + 12);
    FieldInChunk(s, o, c, 3, o + 16);
    FieldInChunk(s, o, c, 4, o + 20);
    FieldInChunk(s, o, c, 5, o + 20 + 4);
    FieldInChunk(s, o, c, 6, o + 28);
    FieldInChunk(s, o, c, 7, o + 32);
    WordSplit(e.songDBID);
    PaddingInChunk(s, o, c);
  }

  lemma FileInfoAt(s: seq<byte>, o: nat, size: u32)
    requires o + 124 <= |s| && s[o..o + 124] == Encode(FileInfo(size))
    ensures s[o..o + 4] == MhifTag
    ensures U32At(s, o + 4) == 124 && U32At(s, o + 8) == 124 && U32At(s, o + 12) == 0
    ensures U32At(s, o + 16) == size
    ensures forall j | o + 20 <= j < o + 124 :: s[j] == 0
  {
    var c := FileInfo(size);
    TagInChunk(s, o, c);
    FieldInChunk(s, o, c, 0, o + 4);
    FieldInChunk(s, o, c, 1, o + 8);
    FieldInChunk(s, o, c, 2, o + 12);
    FieldInChunk(s, o, c, 3, o + 16);
    PaddingInChunk(s, o, c);
  }

  lemma AlbumListAt(s: seq<byte>, o: nat)
    requires o + 92 <= |s| && s[o..o + 92] == Encode(AlbumList())
    ensures s[o..o + 4] == MhlaTag
    ensures U32At(s, o + 4) == 92 && U32At(s, o + 8) == 0
    ensures forall j | o + 12 <= j < o + 92 :: s[j] == 0
  {
    var c := AlbumList();
    TagInChunk(s, o, c);
    FieldInChunk(s, o, c, 0, o + 4);
    FieldInChunk(s, o, c, 1, o + 8);
    PaddingInChunk(s, o, c);
  }

  // ---------------------------------------------------------------------
  // The builder's file

  /** The chunks of the file and where they start: mhfd at 0, mhsd(1) at 132,
      mhli at 228, mhsd(2) at 320 + 276n and mhla at 416 + 276n. */
  lemma FrameChunks(entries: seq<ArtworkEntry>)
    requires NoTrap(entries)
    ensures var cs, n := ArtworkChunks(entries), |entries|;
      && |cs| == 5 + 2 * n
      && cs[0] == FileHeader(TotalFileSize(n), NextImageID(entries)) && Offset(cs, 0) == 0
      && cs[1] == SectionHeader(Section1TotalSize(n), ImageListSection) && Offset(cs, 1) == 132
      && cs[2] == ImageList(n) && Offset(cs, 2) == 228
      && cs[3 + 2 * n] == SectionHeader(Section2TotalSize, AlbumListSection)
      && Offset(cs, 3 + 2 * n) == 320 + 276 * n
      && cs[4 + 2 * n] == AlbumList() && Offset(cs, 4 + 2 * n) == 416 + 276 * n
  {
    var n := |entries|;
    var mid := ImageChunks(entries);
    var a, b, c := FileHeader(TotalFileSize(n), NextImageID(entries)),
                   SectionHeader(Section1TotalSize(n), ImageListSection), ImageList(n);
    var d, e := SectionHeader(Section2TotalSize, AlbumListSection), AlbumList();
    var cs := [a, b, c] + mid + [d, e];
    assert ArtworkChunks(entries) == cs;
    FrameOffsets(a, b, c, mid, d, e, 0);
    ImageChunksOffsets(entries, n);
    assert cs[3 + 2 * n] == d && cs[4 + 2 * n] == e;
  }

  /** Entry i's mhii is chunk 3 + 2i and starts at 320 + 276i; its mhif
      follows 152 bytes later. */
  lemma EntryChunks(entries: seq<ArtworkEntry>, i: nat)
    requires NoTrap(entries) && i < |entries|
    ensures var cs := ArtworkChunks(entries);
      && 4 + 2 * i < |cs|
      && cs[3 + 2 * i] == ImageItem(entries[i]) && Offset(cs, 3 + 2 * i) == 320 + 276 * i
      && cs[4 + 2 * i] == FileInfo(entries[i].fileSize) && Offset(cs, 4 + 2 * i) == 472 + 276 * i
  {
    EntryKinds(entries, i);
    EntryOffsets(entries, i);
  }

  lemma EntryKinds(entries: seq<ArtworkEntry>, i: nat)
    requires NoTrap(entries) && i < |entries|
    ensures var cs := ArtworkChunks(entries);
      && 4 + 2 * i < |cs|
      && cs[3 + 2 * i] == ImageItem(entries[i])
      && cs[4 + 2 * i] == FileInfo(entries[i].fileSize)
  {
    var n := |entries|;
    var mid := ImageChunks(entries);
    var a, b, c := FileHeader(TotalFileSize(n), NextImageID(entries)),
                   SectionHeader(Section1TotalSize(n), ImageListSection), ImageList(n);
    var d, e := SectionHeader(Section2TotalSize, AlbumListSection), AlbumList();
    assert ArtworkChunks(entries) == [a, b, c] + mid + [d, e];
    ImageChunksAt(entries, i);
    FrameIndex(a, b, c, mid, d, e, 2 * i);
    FrameIndex(a, b, c, mid, d, e, 2 * i + 1);
  }

  lemma EntryOffsets(entries: seq<ArtworkEntry>, i: nat)
    requires NoTrap(entries) && i < |entries|
    ensures var cs := ArtworkChunks(entries);
      && 4 + 2 * i < |cs|
      && Offset(cs, 3 + 2 * i) == 320 + 276 * i
      && Offset(cs, 4 + 2 * i) == 472 + 276 * i
  {
    var n := |entries|;
    var mid := ImageChunks(entries);
    var a, b, c := FileHeader(TotalFileSize(n), NextImageID(entries)),
                   SectionHeader(Section1TotalSize(n), ImageListSection), ImageList(n);
    var d, e := SectionHeader(Section2TotalSize, AlbumListSection), AlbumList();
    assert ArtworkChunks(entries) == [a, b, c] + mid + [d, e];
    assert a.headerLength + b.headerLength + c.headerLength == 320;
    FrameOffsets(a, b, c, mid, d, e, 2 * i);
    FrameOffsets(a, b, c, mid, d, e, 2 * i + 1);
    ImageChunksOffsets(entries, i);
  }

  /** Chunk j of the image run is chunk 3 + j of the file. */
  lemma FrameIndex(a: ChunkHeader, b: ChunkHeader, c: ChunkHeader,
                   mid: seq<ChunkHeader>, d: ChunkHeader, e: ChunkHeader, j: nat)
    requires j < |mid|
    ensures ([a, b, c] + mid + [d, e])[3 + j] == mid[j]
  {
  }

  /** mhfd, at offset 0: its tag, header length 132, the file length, two
      zero words, the section count 2, a zero word, the next image ID at 28,
      and zeros up to byte 132. */
  lemma FileHeaderBytes(entries: seq<ArtworkEntry>)
    requires NoTrap(entries)
    ensures var db := ArtworkDB(entries);
      && |db| == 508 + 276 * |entries|
      && db[0..4] == MhfdTag
      && U32At(db, 4) == 132 && U32At(db, 8) == |db|
      && U32At(db, 12) == 0 && U32At(db, 16) == 0 && U32At(db, 20) == 2 && U32At(db, 24) == 0
      && U32At(db, 28) == NextImageID(entries)
      && forall j | 32 <= j < 132 :: db[j] == 0
  {
    var db, cs := ArtworkDB(entries), ArtworkChunks(entries);
    FrameChunks(entries);
    ChunkAt(db, cs, 0, 0);
    FileHeaderAt(db, 0, TotalFileSize(|entries|), NextImageID(entries));
  }

  /** mhsd(1), at offset 132: header length 96, the section length
      188 + 276n, type 1, then zeros up to byte 228. */
  lemma ImageSectionBytes(entries: seq<ArtworkEntry>)
    requires NoTrap(entries)
    ensures var db := ArtworkDB(entries);
      && 228 <= |db|
      && db[132..136] == MhsdTag
      && U32At(db, 136) == 96 && U32At(db, 140) == 188 + 276 * |entries| && U32At(db, 144) == 1
      && forall j | 148 <= j < 228 :: db[j] == 0
  {
    var db, cs := ArtworkDB(entries), ArtworkChunks(entries);
    FrameChunks(entries);
    ChunkAt(db, cs, 1, 132);
    SectionHeaderAt(db, 132, Section1TotalSize(|entries|), ImageListSection);
  }

  /** mhli, at offset 228: header length 92, the image count, then zeros up
      to byte 320. */
  lemma ImageListBytes(entries: seq<ArtworkEntry>)
    requires NoTrap(entries)
    ensures var db := ArtworkDB(entries);
      && 320 <= |db|
      && db[228..232] == MhliTag
      && U32At(db, 232) == 92 && U32At(db, 236) == |entries|
      && forall j | 240 <= j < 320 :: db[j] == 0
  {
    var db, cs := ArtworkDB(entries), ArtworkChunks(entries);
    FrameChunks(entries);
    ChunkAt(db, cs, 2, 228);
    ImageListAt(db, 228, |entries|);
  }

  /** Entry i's mhii, at offset 320 + 276i: header length 152, total length
      276, one child, the image ID at +16, the song ID as eight bytes at +20,
      a zero word at +28, the file size at +32, then zeros up to +152. */
  lemma ImageItemBytes(entries: seq<ArtworkEntry>, i: nat)
    requires NoTrap(entries) && i < |entries|
    ensures var db, o, e := ArtworkDB(entries), 320 + 276 * i, entries[i];
      && o + 152 <= |db|
      && db[o..o + 4] == MhiiTag
      && U32At(db, o + 4) == 152 && U32At(db, o + 8) == 276 && U32At(db, o + 12) == 1
      && U32At(db, o + 16) == e.imageID
      && U64At(db, o + 20) == e.songDBID
      && U32At(db, o + 28) == 0
      && U32At(db, o + 32) == e.fileSize
      && forall j | o + 36 <= j < o + 152 :: db[j] == 0
  {
    var db, cs, o := ArtworkDB(entries), ArtworkChunks(entries), 320 + 276 * i;
    EntryChunks(entries, i);
    ChunkAt(db, cs, 3 + 2 * i, o);
    ImageItemAt(db, o, entries[i]);
  }

  /** Entry i's mhif, at offset 472 + 276i: header and total length 124, a
      zero correlation ID, the same file size as the mhii, then zeros up to
      +124. */
  lemma FileInfoBytes(entries: seq<ArtworkEntry>, i: nat)
    requires NoTrap(entries) && i < |entries|
    ensures var db, o := ArtworkDB(entries), 472 + 276 * i;
      && o + 124 <= |db|
      && db[o..o + 4] == MhifTag
      && U32At(db, o + 4) == 124 && U32At(db, o + 8) == 124 && U32At(db, o + 12) == 0
      && U32At(db, o + 16) == entries[i].fileSize
      && forall j | o + 20 <= j < o + 124 :: db[j] == 0
  {
    var db, cs, o := ArtworkDB(entries), ArtworkChunks(entries), 472 + 276 * i;
    EntryChunks(entries, i);
    ChunkAt(db, cs, 4 + 2 * i, o);
    FileInfoAt(db, o, entries[i].fileSize);
  }

  /** mhsd(2), at offset 320 + 276n: header length 96, section length 188,
      type 2, then zeros up to +96. */
  lemma AlbumSectionBytes(entries: seq<ArtworkEntry>)
    requires NoTrap(entries)
    ensures var db, o := ArtworkDB(entries), 320 + 276 * |entries|;
      && o + 96 <= |db|
      && db[o..o + 4] == MhsdTag
      && U32At(db, o + 4) == 96 && U32At(db, o + 8) == 188 && U32At(db, o + 12) == 2
      && forall j | o + 16 <= j < o + 96 :: db[j] == 0
  {
    var db, cs, o := ArtworkDB(entries), ArtworkChunks(entries), 320 + 276 * |entries|;
    FrameChunks(entries);
    ChunkAt(db, cs, 3 + 2 * |entries|, o);
    SectionHeaderAt(db, o, Section2TotalSize, AlbumListSection);
  }

  /** mhla, at offset 416 + 276n: header length 92, no albums, then zeros up
      to the end of the file. */
  lemma AlbumListBytes(entries: seq<ArtworkEntry>)
    requires NoTrap(entries)
    ensures var db, o := ArtworkDB(entries), 416 + 276 * |entries|;
      && o + 92 == |db|
      && db[o..o + 4] == MhlaTag
      && U32At(db, o + 4) == 92 && U32At(db, o + 8) == 0
      && forall j | o + 12 <= j < o + 92 :: db[j] == 0
  {
    var db, cs, o := ArtworkDB(entries), ArtworkChunks(entries), 416 + 276 * |entries|;
    FrameChunks(entries);
    ChunkAt(db, cs, 4 + 2 * |entries|, o);
    AlbumListAt(db, o);
  }
}
