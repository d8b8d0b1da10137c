/** Reading an ArtworkDB file back. The program only writes these files; the
    parser here is the builder's inverse. It walks the chunks, using each
    chunk's tag to know how many fields it has and its header length to know
    where the next chunk starts, and checks that the padding is zero. The
    main theorem is that parsing the bytes of any list of readable chunks
    (a format tag, its field count, and the header length as the first
    field) gives back that list; for the builder's output this means the whole file
    reads back as its chunks, so every field, length and padding byte is
    pinned down. */
module ArtworkReader {
  import opened Wrappers
  import opened Bytes
  import opened ArtworkLayout

  /** The chunk tags of the format, and how many 32-bit fields a chunk with
      the tag at the same position carries. */
  const ChunkTags: seq<seq<byte>> := [MhfdTag, MhsdTag, MhliTag, MhiiTag, MhifTag, MhlaTag]
  const ChunkFieldCounts: seq<nat> := [7, 3, 2, 8, 4, 2]

  function Lookup(tags: seq<seq<byte>>, counts: seq<nat>, tag: seq<byte>): Option<nat>
    requires |tags| == |counts|
  {
    if tags == [] then None
    else if tags[0] == tag then Some(counts[0])
    else Lookup(tags[1..], counts[1..], tag)
  }

  /** How many fields a chunk with this tag carries; None for a tag that is
      not part of the format. */
  function FieldCount(tag: seq<byte>): Option<nat>
  {
    Lookup(ChunkTags, ChunkFieldCounts, tag)
  }

  /** The field counts of the six chunk kinds. */
  lemma KnownFieldCounts()
    ensures FieldCount(MhfdTag) == Some(7) && FieldCount(MhsdTag) == Some(3)
    ensures FieldCount(MhliTag) == Some(2) && FieldCount(MhiiTag) == Some(8)
    ensures FieldCount(MhifTag) == Some(4) && FieldCount(MhlaTag) == Some(2)
  {
    var t0, n0 := ChunkTags, ChunkFieldCounts;
    var t1, t2, t3, t4, t5 := t0[1..], t0[2..], t0[3..], t0[4..], t0[5..];
    var n1, n2, n3, n4, n5 := n0[1..], n0[2..], n0[3..], n0[4..], n0[5..];
    assert t1 == t0[1..] && t2 == t1[1..] && t3 == t2[1..] && t4 == t3[1..] && t5 == t4[1..];
    assert n1 == n0[1..] && n2 == n1[1..] && n3 == n2[1..] && n4 == n3[1..] && n5 == n4[1..];
    // The tags differ from each other in their third or fourth letter.
    assert MhfdTag[2] != MhsdTag[2] && MhfdTag[2] != MhliTag[2] && MhfdTag[2] != MhiiTag[2];
    assert MhfdTag[2] != MhifTag[2] && MhfdTag[2] != MhlaTag[2];
    assert MhsdTag[2] != MhliTag[2] && MhsdTag[2] != MhiiTag[2] && MhsdTag[2] != MhifTag[2];
    assert MhsdTag[2] != MhlaTag[2];
    assert MhliTag[2] != MhiiTag[2] && MhliTag[2] != MhifTag[2] && MhliTag[3] != MhlaTag[3];
    assert MhiiTag[3] != MhifTag[3] && MhiiTag[2] != MhlaTag[2];
    assert MhifTag[2] != MhlaTag[2];
    assert Lookup(t5, n5, MhlaTag) == Some(2);
    assert Lookup(t4, n4, MhifTag) == Some(4) && Lookup(t4, n4, MhlaTag) == Some(2);
    assert Lookup(t3, n3, MhiiTag) == Some(8) && Lookup(t3, n3, MhifTag) == Some(4) && Lookup(t3, n3, MhlaTag) == Some(2);
    assert Lookup(t2, n2, MhliTag) == Some(2) && Lookup(t2, n2, MhiiTag) == Some(8);
    assert Lookup(t2, n2, MhifTag) == Some(4) && Lookup(t2, n2, MhlaTag) == Some(2);
    assert Lookup(t1, n1, MhsdTag) == Some(3) && Lookup(t1, n1, MhliTag) == Some(2) && Lookup(t1, n1, MhiiTag) == Some(8);
    assert Lookup(t1, n1, MhifTag) == Some(4) && Lookup(t1, n1, MhlaTag) == Some(2);
  }

  /** A chunk the parser can read back: a known tag with its number of
      fields, and the header length stored as the first field. */
  ghost predicate Parseable(c: ChunkHeader)
  {
    && c.Valid()
    && FieldCount(c.tag) == Some(|c.fields|)
    && |c.fields| > 0
    && c.fields[0] == c.headerLength
  }

  /** `n` consecutive 32-bit little-endian fields starting at `off`. */
  function ReadWords(s: seq<byte>, off: nat, n: nat): (ws: seq<u32>)
    requires off + 4 * n <= |s|
    ensures |ws| == n
    decreases n
  {
    if n == 0 then [] else [U32At(s, off) as u32] + ReadWords(s, off + 4, n - 1)
  }

  /** Bytes `lo` up to `hi` of `s` are all zero. */
  predicate AllZero(s: seq<byte>, lo: nat, hi: nat)
    requires lo <= hi <= |s|
    decreases hi - lo
  {
    lo == hi || (s[lo] == 0 && AllZero(s, lo + 1, hi))
  }

  lemma {:induction false} AllZeroOf(s: seq<byte>, lo: nat, hi: nat)
    requires lo <= hi <= |s|
    requires forall j | lo <= j < hi :: s[j] == 0
    ensures AllZero(s, lo, hi)
    decreases hi - lo
  {
    if lo < hi {
      AllZeroOf(s, lo + 1, hi);
    }
  }

  /** The chunk starting at `off`, or None if there is no readable chunk
      there: an unknown tag, a header length too short for the fields or
      running past the end, or non-zero padding. */
  function ParseChunk(s: seq<byte>, off: nat): (r: Option<ChunkHeader>)
    requires off <= |s|
    ensures r.Some? ==> r.value.Valid() && off + r.value.headerLength <= |s|
  {
    if off + 4 > |s| then None
    else
      var tag := s[off..off + 4];
      match FieldCount(tag)
      case None => None
      case Some(n) =>
        if n == 0 || off + 4 + 4 * n > |s| then None
        else
          var fields := ReadWords(s, off + 4, n);
          var headerLength := fields[0] as nat;
          if headerLength < 4 + 4 * n || off + headerLength > |s| then None
          else if !AllZero(s, off + 4 + 4 * n, off + headerLength) then None
          else Some(ChunkHeader(tag, fields, headerLength))
  }

  /** All chunks from `off` to the end of `s`. */
  function Parse(s: seq<byte>, off: nat): Option<seq<ChunkHeader>>
    requires off <= |s|
    decreases |s| - off, 1
  {
    if off == |s| then Some([]) else ParseAt(s, off)
  }

  /** The chunk at `off`, then the chunks after it. */
  function ParseAt(s: seq<byte>, off: nat): Option<seq<ChunkHeader>>
    requires off < |s|
    decreases |s| - off, 0
  {
    match ParseChunk(s, off)
    case None => None
    case Some(c) =>
      match Parse(s, off + c.headerLength)
      case None => None
      case Some(rest) => Some([c] + rest)
  }

  // ---------------------------------------------------------------------
  // Parsing is the inverse of serializing

  lemma {:induction false} ReadWordsOfWords(s: seq<byte>, off: nat, ws: seq<u32>)
    requires off + 4 * |ws| <= |s| && s[off..off + 4 * |ws|] == Words(ws)
    ensures ReadWords(s, off, |ws|) == ws
    decreases |ws|
  {
    if ws != [] {
      var n := |ws|;
      var t := Words(ws[1..]);
      assert Words(ws) == LE32(ws[0]) + t;
      assert s[off..off + 4] == LE32(ws[0]) by {
        SliceOfSlice(s, off, 4 * n, 0, 4);
        SliceLeft(LE32(ws[0]), t, 0, 4);
      }
      ReadLE32(s, off, ws[0]);
      assert s[off + 4 .. off + 4 + 4 * (n - 1)] == t by {
        SliceOfSlice(s, off, 4 * n, 4, 4 * n);
        SliceRight(LE32(ws[0]), t, 0, 4 * (n - 1));
      }
      ReadWordsOfWords(s, off + 4, ws[1..]);
      assert [ws[0]] + ws[1..] == ws;
    }
  }

  /** What can be read from a chunk's bytes wherever they are placed. */
  lemma EncodedAt(s: seq<byte>, off: nat, c: ChunkHeader)
    requires c.Valid() && off + c.headerLength <= |s|
    requires s[off..off + c.headerLength] == Encode(c)
    ensures s[off..off + 4] == c.tag
    ensures s[off + 4 .. off + 4 + 4 * |c.fields|] == Words(c.fields)
    ensures AllZero(s, off + 4 + 4 * |c.fields|, off + c.headerLength)
  {
    var h, w := c.headerLength, 4 * |c.fields|;
    var z := Zeros(h - 4 - w);
    SliceOfSlice(s, off, h, 0, 4);
    SliceLeft(c.tag + Words(c.fields), z, 0, 4);
    SliceLeft(c.tag, Words(c.fields), 0, 4);
    SliceOfSlice(s, off, h, 4, 4 + w);
    SliceLeft(c.tag + Words(c.fields), z, 4, 4 + w);
    SliceRight(c.tag, Words(c.fields), 0, w);
    forall j | off + 4 + w <= j < off + h
      ensures s[j] == 0
    {
      assert s[j] == s[off..off + h][j - off];
    }
    AllZeroOf(s, off + 4 + w, off + h);
  }

  /** A readable chunk's bytes, wherever they sit, parse as that chunk. */
  lemma ParseChunkAt(s: seq<byte>, off: nat, c: ChunkHeader)
    requires Parseable(c) && off + c.headerLength <= |s|
    requires s[off..off + c.headerLength] == Encode(c)
    ensures ParseChunk(s, off) == Some(c)
  {
    EncodedAt(s, off, c);
    ReadWordsOfWords(s, off + 4, c.fields);
  }

  /** The chunks `cs` lie one after the other in `s` from `off` to the end:
      each chunk's bytes start where the previous chunk's header length
      ends. */
  ghost predicate SerializedAt(s: seq<byte>, off: nat, cs: seq<ChunkHeader>)
    decreases |cs|
  {
    if cs == [] then off == |s|
    else
      && cs[0].Valid()
      && off + cs[0].headerLength <= |s|
      && s[off..off + cs[0].headerLength] == Encode(cs[0])
      && SerializedAt(s, off + cs[0].headerLength, cs[1..])
  }

  /** The bytes Serialize writes for `cs` lie as SerializedAt describes. */
  lemma {:induction false} SerializedAtSuffix(s: seq<byte>, off: nat, cs: seq<ChunkHeader>)
    requires AllValid(cs) && off <= |s| && s[off..] == Serialize(cs)
    ensures SerializedAt(s, off, cs)
    decreases |cs|
  {
    if cs == [] {
      assert |s[off..]| == 0;
    } else {
      var c, e, tail := cs[0], Encode(cs[0]), Serialize(cs[1..]);
      var h := c.headerLength;
      assert AllValid(cs[1..]) by {
        forall k | 0 <= k < |cs[1..]| ensures cs[1..][k].Valid() {
          assert cs[1..][k] == cs[k + 1];
        }
      }
      assert s[off..] == e + tail;
      SuffixSplit(s, off, h);
      SliceLeft(e, tail, 0, h);
      assert (e + tail)[h..] == tail;
      SerializedAtSuffix(s, off + c.headerLength, cs[1..]);
    }
  }

  /** Each of the chunks `cs` parses at the offset where the previous one
      ends, and the last one ends with `s`. */
  ghost predicate ParsedAt(s: seq<byte>, off: nat, cs: seq<ChunkHeader>)
    decreases |cs|
  {
    if cs == [] then off == |s|
    else
      && off < |s|
      && ParseChunk(s, off) == Some(cs[0])
      && ParsedAt(s, off + cs[0].headerLength, cs[1..])
  }

  /** Well-formed chunks laid out one after the other each parse in place. */
  lemma {:induction false} ParsedAtOf(s: seq<byte>, off: nat, cs: seq<ChunkHeader>)
    requires forall k | 0 <= k < |cs| :: Parseable(cs[k])
    requires SerializedAt(s, off, cs)
    ensures ParsedAt(s, off, cs)
    decreases |cs|
  {
    if cs != [] {
      var c := cs[0];
      ParseChunkAt(s, off, c);
      assert forall k | 0 <= k < |cs[1..]| :: Parseable(cs[1..][k]) by {
        forall k | 0 <= k < |cs[1..]| ensures Parseable(cs[1..][k]) {
          assert cs[1..][k] == cs[k + 1];
        }
      }
      ParsedAtOf(s, off + c.headerLength, cs[1..]);
    }
  }

  /** Chunks that parse one after the other up to the end are what the
      parser returns. */
  lemma {:induction false} ParseParsed(s: seq<byte>, off: nat, cs: seq<ChunkHeader>)
    requires off <= |s|
    ensures ParsedAt(s, off, cs) ==> Parse(s, off) == Some(cs)
    decreases |cs|
  {
    if cs != [] && ParsedAt(s, off, cs) {
      ParseParsed(s, off + cs[0].headerLength, cs[1..]);
      assert [cs[0]] + cs[1..] == cs;
    }
  }

  /** Parsing readable chunks laid out one after the other, wherever they
      start, gives back exactly those chunks. */
  lemma ParseSerialize(s: seq<byte>, off: nat, cs: seq<ChunkHeader>)
    requires forall k | 0 <= k < |cs| :: Parseable(cs[k])
    requires off <= |s| && SerializedAt(s, off, cs)
    ensures Parse(s, off) == Some(cs)
  {
    ParsedAtOf(s, off, cs);
    ParseParsed(s, off, cs);
  }

  // ---------------------------------------------------------------------
  // What a reader finds in the builder's output

  /** One image record as a reader sees it; the song ID is rebuilt from its
      two 32-bit words. */
  datatype Image = Image(imageID: u32, songDBID: nat, fileSize: u32)

  /** The values a reader takes out of an ArtworkDB file. */
  datatype ArtworkContents = ArtworkContents(
    totalLength: nat,
    nextImageID: nat,
    imageSectionLength: nat,
    imageCount: nat,
    images: seq<Image>,
    albumSectionLength: nat,
    albumCount: nat)

  function ImageOf(e: ArtworkEntry): Image
  {
    Image(e.imageID, e.songDBID, e.fileSize)
  }

  function Images(entries: seq<ArtworkEntry>): (r: seq<Image>)
    ensures |r| == |entries|
    ensures forall i | 0 <= i < |entries| :: r[i] == ImageOf(entries[i])
  {
    seq(|entries|, i requires 0 <= i < |entries| => ImageOf(entries[i]))
  }

  /** The image records of a run of mhii/mhif pairs; None if the run is not
      made of such pairs or a pair disagrees on the file size. */
  function ReadImages(cs: seq<ChunkHeader>): Option<seq<Image>>
    decreases |cs|
  {
    if cs == [] then Some([])
    else if |cs| < 2 then None
    else
      var item, info := cs[|cs| - 2], cs[|cs| - 1];
      if item.tag != MhiiTag || |item.fields| != 8 || info.tag != MhifTag || |info.fields| != 4 then None
      else if item.fields[7] != info.fields[3] then None
      else
        match ReadImages(cs[..|cs| - 2])
        case None => None
        case Some(front) =>
          Some(front + [Image(item.fields[3], item.fields[4] + U32Limit * item.fields[5], item.fields[7])])
  }

  /** The file's values, from its chunks: the mhfd, the image section with its
      mhli and image pairs, then the album section with its mhla. */
  function ReadContents(cs: seq<ChunkHeader>): Option<ArtworkContents>
  {
    if |cs| < 5 then None
    else
      var file, images, list := cs[0], cs[1], cs[2];
      var albums, albumList := cs[|cs| - 2], cs[|cs| - 1];
      if file.tag != MhfdTag || |file.fields| != 7 then None
      else if images.tag != MhsdTag || |images.fields| != 3 || images.fields[2] != ImageListSection then None
      else if list.tag != MhliTag || |list.fields| != 2 then None
      else if albums.tag != MhsdTag || |albums.fields| != 3 || albums.fields[2] != AlbumListSection then None
      else if albumList.tag != MhlaTag || |albumList.fields| != 2 then None
      else
        match ReadImages(cs[3..|cs| - 2])
        case None => None
        case Some(found) =>
          Some(ArtworkContents(file.fields[1], file.fields[6], images.fields[1], list.fields[1],
                               found, albums.fields[1], albumList.fields[1]))
  }

  /** Reading a whole file: its chunks, then their values. */
  function ReadArtworkDB(db: seq<byte>): Option<ArtworkContents>
  {
    match Parse(db, 0)
    case None => None
    case Some(cs) => ReadContents(cs)
  }

  /** Reading the bytes of readable chunks is reading those chunks. */
  lemma ReadSerialized(db: seq<byte>, cs: seq<ChunkHeader>)
    requires AllValid(cs) && forall k | 0 <= k < |cs| :: Parseable(cs[k])
    requires db == Serialize(cs)
    ensures ReadArtworkDB(db) == ReadContents(cs)
  {
    assert db[0..] == db;
    SerializedAtSuffix(db, 0, cs);
    ParseSerialize(db, 0, cs);
  }

  /** Every chunk the builder writes can be read back. */
  lemma ArtworkChunksParseable(entries: seq<ArtworkEntry>)
    requires NoTrap(entries)
    ensures forall k | 0 <= k < |ArtworkChunks(entries)| :: Parseable(ArtworkChunks(entries)[k])
  {
    var n := |entries|;
    var mid := ImageChunks(entries);
    var cs := ArtworkChunks(entries);
    KnownFieldCounts();
    forall k | 0 <= k < |cs|
      ensures Parseable(cs[k])
    {
      if 3 <= k < 3 + |mid| {
        var i := (k - 3) / 2;
        ImageChunksAt(entries, i);
        assert cs[k] == mid[k - 3];
      }
    }
  }

  lemma ImagesSnoc(entries: seq<ArtworkEntry>)
    requires entries != []
    ensures Images(entries) == Images(entries[..|entries| - 1]) + [ImageOf(entries[|entries| - 1])]
  {
    var front := entries[..|entries| - 1];
    var r := Images(front) + [ImageOf(entries[|entries| - 1])];
    assert forall i | 0 <= i < |entries| :: Images(entries)[i] == r[i];
  }

  /** One more mhii/mhif pair adds one image record at the end. */
  lemma ReadImagesSnoc(done: seq<ChunkHeader>, item: ChunkHeader, info: ChunkHeader, front: seq<Image>)
    requires ReadImages(done) == Some(front)
    requires item.tag == MhiiTag && |item.fields| == 8
    requires info.tag == MhifTag && |info.fields| == 4
    requires item.fields[7] == info.fields[3]
    ensures ReadImages(done + [item, info])
         == Some(front + [Image(item.fields[3], item.fields[4] + U32Limit * item.fields[5], item.fields[7])])
  {
    var cs := done + [item, info];
    assert cs[..|cs| - 2] == done;
    assert cs[|cs| - 2] == item && cs[|cs| - 1] == info;
  }

  /** The image pairs read back as the entries' records, in input order. */
  lemma {:induction false} ReadImageChunks(entries: seq<ArtworkEntry>)
    ensures ReadImages(ImageChunks(entries)) == Some(Images(entries))
    decreases |entries|
  {
    if entries != [] {
      var front, last := entries[..|entries| - 1], entries[|entries| - 1];
      var item, info := ImageItem(last), FileInfo(last.fileSize);
      assert ImageChunks(entries) == ImageChunks(front) + [item, info];
      ReadImageChunks(front);
      ReadImagesSnoc(ImageChunks(front), item, info, Images(front));
      WordSplit(last.songDBID);
      ImagesSnoc(entries);
    }
  }

  /** A file of the builder's shape reads as the fields of its chunks. */
  lemma ReadFrame(total: u32, next: u32, imageSection: u32, imageCount: u32,
                  mid: seq<ChunkHeader>, albumSection: u32, found: seq<Image>)
    requires ReadImages(mid) == Some(found)
    ensures ReadContents([FileHeader(total, next), SectionHeader(imageSection, ImageListSection), ImageList(imageCount)]
                         + mid + [SectionHeader(albumSection, AlbumListSection), AlbumList()])
         == Some(ArtworkContents(total, next, imageSection, imageCount, found, albumSection, 0))
  {
    var file, images, list := FileHeader(total, next), SectionHeader(imageSection, ImageListSection), ImageList(imageCount);
    var albums, albumList := SectionHeader(albumSection, AlbumListSection), AlbumList();
    var cs := [file, images, list] + mid + [albums, albumList];
    assert cs[0] == file && cs[1] == images && cs[2] == list;
    assert cs[|cs| - 2] == albums && cs[|cs| - 1] == albumList;
    assert cs[3..|cs| - 2] == mid;
  }

  /** The builder's chunks read as the values it was given. */
  lemma ReadArtworkChunks(entries: seq<ArtworkEntry>)
    requires NoTrap(entries)
    ensures var n := |entries|;
      ReadContents(ArtworkChunks(entries)) == Some(ArtworkContents(
        TotalFileSize(n), NextImageID(entries), Section1TotalSize(n), n, Images(entries),
        Section2TotalSize, 0))
  {
    var n := |entries|;
    ReadImageChunks(entries);
    ReadFrame(TotalFileSize(n), NextImageID(entries), Section1TotalSize(n), n,
              ImageChunks(entries), Section2TotalSize, Images(entries));
  }

  /** Reading the builder's output gives back what it was built from: the
      file length, the next free image ID, the section lengths, one image
      record per entry in order, and an empty album list. */
  lemma ReadBuilderOutput(entries: seq<ArtworkEntry>)
    requires NoTrap(entries)
    ensures ReadArtworkDB(ArtworkDB(entries)) == Some(ArtworkContents(
      |ArtworkDB(entries)|, NextImageID(entries),
      188 + 276 * |entries|, |entries|, Images(entries),
      188, 0))
  {
    var n := |entries|;
    var cs := ArtworkChunks(entries);
    var db := ArtworkDB(entries);
    ArtworkChunksParseable(entries);
    ReadSerialized(db, cs);
    ReadArtworkChunks(entries);
    var found := ArtworkContents(
      TotalFileSize(n), NextImageID(entries), Section1TotalSize(n), n, Images(entries),
      Section2TotalSize, 0);
    assert ReadArtworkDB(db) == Some(found);
    assert found == ArtworkContents(|db|, NextImageID(entries), 188 + 276 * n, n, Images(entries), 188, 0);
  }

  /** The empty file reads as no images, next image ID 1001, and the fixed
      section sizes. */
  lemma EmptyArtworkDBReads()
    ensures NoTrap([])
    ensures ReadArtworkDB(ArtworkDB([])) == Some(ArtworkContents(508, 1001, 188, 0, [], 188, 0))
  {
    var none: seq<ArtworkEntry> := [];
    NextImageIDEmpty();
    ReadBuilderOutput(none);
    var db := ArtworkDB(none);
    var found := ArtworkContents(|db|, NextImageID(none), 188 + 276 * |none|, |none|, Images(none), 188, 0);
    assert ReadArtworkDB(db) == Some(found);
    assert Images(none) == [];
    assert found == ArtworkContents(508, 1001, 188, 0, [], 188, 0);
  }

  /** Two entry lists that give the same file agree on everything the file
      records: the number of entries and each entry's image ID, song ID and
      file size, in order. (The artwork hash is not written.) */
  lemma ArtworkDBInjective(a: seq<ArtworkEntry>, b: seq<ArtworkEntry>)
    requires NoTrap(a) && NoTrap(b) && ArtworkDB(a) == ArtworkDB(b)
    ensures |a| == |b|
    ensures forall i | 0 <= i < |a| ::
      && a[i].imageID == b[i].imageID
      && a[i].songDBID == b[i].songDBID
      && a[i].fileSize == b[i].fileSize
  {
    ReadBuilderOutput(a);
    ReadBuilderOutput(b);
    assert Images(a) == Images(b);
    forall i | 0 <= i < |a|
      ensures a[i].imageID == b[i].imageID && a[i].songDBID == b[i].songDBID && a[i].fileSize == b[i].fileSize
    {
      assert Images(a)[i] == ImageOf(a[i]) && Images(b)[i] == ImageOf(b[i]);
    }
  }
}
