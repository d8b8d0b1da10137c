/** The reference layout of an ArtworkDB file: what `generateArtworkDB`
    (MusicManager/ArtworkDBBuilder.swift) must emit, described as a tree of
    fixed-size chunks rather than as a sequence of appends.

    Every chunk starts with a four-letter ASCII tag followed by 32-bit
    little-endian fields, and is zero-padded up to its header length; nested
    chunks follow the padding. The tree is
      mhfd -> mhsd(1) -> mhli -> [mhii -> mhif]* -> mhsd(2) -> mhla. */
module ArtworkLayout {
  import opened Wrappers
  import opened Bytes

  /** One artwork to index. `artworkHash` is carried for the caller and is
      never written to the file. */
  datatype ArtworkEntry = ArtworkEntry(imageID: u32, songDBID: u64, artworkHash: string, fileSize: u32)

  // Header lengths fixed by the format.
  const MhfdSize: u32 := 0x84        // 132
  const MhsdSize: u32 := 0x60        // 96
  const MhliSize: u32 := 0x5C        // 92
  const MhlaSize: u32 := 0x5C        // 92
  const MhiiHeaderSize: u32 := 0x98  // 152
  const MhifSize: u32 := 0x7C        // 124

  /** One image item together with its nested file-info chunk. */
  const ImageBlockSize: u32 := MhiiHeaderSize + MhifSize

  /** The largest image ID assumed when there are no entries. */
  const DefaultMaxImageID: u32 := 1000

  const MhfdTag: seq<byte> := [0x6D, 0x68, 0x66, 0x64]  // "mhfd"
  const MhsdTag: seq<byte> := [0x6D, 0x68, 0x73, 0x64]  // "mhsd"
  const MhliTag: seq<byte> := [0x6D, 0x68, 0x6C, 0x69]  // "mhli"
  const MhiiTag: seq<byte> := [0x6D, 0x68, 0x69, 0x69]  // "mhii"
  const MhifTag: seq<byte> := [0x6D, 0x68, 0x69, 0x66]  // "mhif"
  const MhlaTag: seq<byte> := [0x6D, 0x68, 0x6C, 0x61]  // "mhla"

  /** Section types of the two mhsd chunks. */
  const ImageListSection: u32 := 1
  const AlbumListSection: u32 := 2

  /** The four-letter tags are the ASCII spellings of the chunk names. */
  lemma TagsAreAscii()
    ensures MhfdTag == AsciiBytes("mhfd") && MhsdTag == AsciiBytes("mhsd")
    ensures MhliTag == AsciiBytes("mhli") && MhiiTag == AsciiBytes("mhii")
    ensures MhifTag == AsciiBytes("mhif") && MhlaTag == AsciiBytes("mhla")
  {
  }

  // ---------------------------------------------------------------------
  // Generic chunks

  /** A chunk's own part: its tag, its 32-bit fields in order (the header
      length first), and the header length they are padded to. Nested chunks
      are separate values that follow it in the file. */
  datatype ChunkHeader = ChunkHeader(tag: seq<byte>, fields: seq<u32>, headerLength: nat)
  {
    ghost predicate Valid()
    {
      |tag| == 4 && 4 + 4 * |fields| <= headerLength
    }
  }

  ghost predicate AllValid(cs: seq<ChunkHeader>)
  {
    forall k | 0 <= k < |cs| :: cs[k].Valid()
  }

  /** 32-bit little-endian fields, one after the other. */
  function Words(ws: seq<u32>): (r: seq<byte>)
    ensures |r| == 4 * |ws|
  {
    if ws == [] then [] else LE32(ws[0]) + Words(ws[1..])
  }

  /** Field k of a run of words occupies bytes 4k .. 4k+4. */
  lemma {:induction false} WordAt(ws: seq<u32>, k: nat)
    requires k < |ws|
    ensures Words(ws)[4 * k .. 4 * k + 4] == LE32(ws[k])
  {
    if k > 0 {
      WordAt(ws[1..], k - 1);
      assert Words(ws) == LE32(ws[0]) + Words(ws[1..]);
    }
  }

  /** A chunk's bytes: tag, fields, then zero padding up to its header length. */
  function Encode(c: ChunkHeader): (r: seq<byte>)
    requires c.Valid()
    ensures |r| == c.headerLength
  {
    c.tag + Words(c.fields) + Zeros(c.headerLength - 4 - 4 * |c.fields|)
  }

  /** A chunk's bytes start with its tag, */
  lemma EncodeTag(c: ChunkHeader)
    requires c.Valid()
    ensures Encode(c)[..4] == c.tag
  {
    var r := Encode(c);
    assert r == c.tag + (Words(c.fields) + Zeros(c.headerLength - 4 - 4 * |c.fields|));
  }

  /** hold field k at 4 + 4k, */
  lemma EncodeField(c: ChunkHeader, k: nat)
    requires c.Valid() && k < |c.fields|
    ensures U32At(Encode(c), 4 + 4 * k) == c.fields[k]
  {
    var r := Encode(c);
    WordAt(c.fields, k);
    assert r[4 + 4 * k .. 4 + 4 * k + 4] == Words(c.fields)[4 * k .. 4 * k + 4];
    ReadLE32(r, 4 + 4 * k, c.fields[k]);
  }

  /** and are zero from the end of the fields to the header length. */
  lemma EncodePadding(c: ChunkHeader)
    requires c.Valid()
    ensures forall j | 4 + 4 * |c.fields| <= j < c.headerLength :: Encode(c)[j] == 0
  {
  }

  /** Chunks written one after the other. */
  function Serialize(cs: seq<ChunkHeader>): (r: seq<byte>)
    requires AllValid(cs)
    ensures |r| == Offset(cs, |cs|)
  {
    if cs == [] then [] else Encode(cs[0]) + Serialize(cs[1..])
  }

  /** Where chunk k starts: the header lengths of the chunks before it. */
  function Offset(cs: seq<ChunkHeader>, k: nat): nat
    requires k <= |cs|
  {
    if k == 0 then 0 else cs[0].headerLength + Offset(cs[1..], k - 1)
  }

  lemma {:induction false} SerializeAppend(xs: seq<ChunkHeader>, ys: seq<ChunkHeader>)
    requires AllValid(xs) && AllValid(ys)
    ensures AllValid(xs + ys)
    ensures Serialize(xs + ys) == Serialize(xs) + Serialize(ys)
  {
    assert AllValid(xs + ys) by {
      forall k | 0 <= k < |xs + ys| ensures (xs + ys)[k].Valid() {
        if k >= |xs| { assert (xs + ys)[k] == ys[k - |xs|]; }
      }
    }
    if xs == [] {
      assert xs + ys == ys;
    } else {
      assert (xs + ys)[1..] == xs[1..] + ys;
      SerializeAppend(xs[1..], ys);
      ConcatAssoc(Encode(xs[0]), Serialize(xs[1..]), Serialize(ys));
    }
  }

  lemma {:induction false} OffsetAppend(xs: seq<ChunkHeader>, ys: seq<ChunkHeader>, k: nat)
    requires k <= |ys|
    ensures Offset(xs + ys, |xs| + k) == Offset(xs, |xs|) + Offset(ys, k)
  {
    if xs == [] {
      assert xs + ys == ys;
    } else {
      assert (xs + ys)[1..] == xs[1..] + ys;
      OffsetAppend(xs[1..], ys, k);
    }
  }

  /** Chunks appended later do not move earlier ones. */
  lemma {:induction false} OffsetPrefix(xs: seq<ChunkHeader>, ys: seq<ChunkHeader>, k: nat)
    requires k <= |xs|
    ensures Offset(xs + ys, k) == Offset(xs, k)
  {
    if k > 0 {
      assert (xs + ys)[1..] == xs[1..] + ys;
      OffsetPrefix(xs[1..], ys, k - 1);
    }
  }

  lemma {:induction false} OffsetWithin(cs: seq<ChunkHeader>, k: nat)
    requires k < |cs|
    ensures Offset(cs, k) + cs[k].headerLength <= Offset(cs, |cs|)
  {
    if k > 0 {
      OffsetWithin(cs[1..], k - 1);
    }
  }

  lemma SerializeCons(c: ChunkHeader, cs: seq<ChunkHeader>)
    requires c.Valid() && AllValid(cs)
    ensures AllValid([c] + cs)
    ensures Serialize([c] + cs) == Encode(c) + Serialize(cs)
  {
    assert ([c] + cs)[1..] == cs;
    assert AllValid([c] + cs) by {
      forall k | 0 <= k < |[c] + cs| ensures ([c] + cs)[k].Valid() {
        if k > 0 { assert ([c] + cs)[k] == cs[k - 1]; }
      }
    }
  }

  lemma OffsetCons(c: ChunkHeader, cs: seq<ChunkHeader>, k: nat)
    requires k <= |cs|
    ensures Offset([c] + cs, k + 1) == c.headerLength + Offset(cs, k)
  {
    assert ([c] + cs)[1..] == cs;
  }

  lemma SerializePair(a: ChunkHeader, b: ChunkHeader)
    requires a.Valid() && b.Valid()
    ensures AllValid([a, b])
    ensures Serialize([a, b]) == Encode(a) + Encode(b)
  {
    assert [a, b] == [a] + [b];
    assert [b] == [b] + [];
    SerializeCons(b, []);
    SerializeCons(a, [b]);
  }

  /** The file's shape: three chunks, a run of chunks, two chunks. */
  lemma SerializeFrame(a: ChunkHeader, b: ChunkHeader, c: ChunkHeader,
                       mid: seq<ChunkHeader>, d: ChunkHeader, e: ChunkHeader)
    requires a.Valid() && b.Valid() && c.Valid() && AllValid(mid) && d.Valid() && e.Valid()
    ensures AllValid([a, b, c] + mid + [d, e])
    ensures Serialize([a, b, c] + mid + [d, e])
         == Encode(a) + Encode(b) + Encode(c) + Serialize(mid) + Encode(d) + Encode(e)
  {
    var tail := mid + [d, e];
    assert [a, b, c] + mid + [d, e] == [a] + ([b] + ([c] + tail));
    SerializePair(d, e);
    SerializeAppend(mid, [d, e]);
    SerializeCons(c, tail);
    SerializeCons(b, [c] + tail);
    SerializeCons(a, [b] + ([c] + tail));
    Regroup(Encode(a), Encode(b), Encode(c), Serialize(mid), Encode(d), Encode(e));
  }

  // ---------------------------------------------------------------------
  // Derived values

  /** mhsd(1) spans its own header, the mhli header and one block per image. */
  function Section1TotalSize(imageCount: nat): (r: nat)
    ensures r == 188 + 276 * imageCount
  {
    MhsdSize + MhliSize + ImageBlockSize * imageCount
  }

  /** mhsd(2) spans its own header and the empty mhla. */
  const Section2TotalSize: nat := MhsdSize + MhlaSize

  function TotalFileSize(imageCount: nat): (r: nat)
    ensures r == 508 + 276 * imageCount
  {
    MhfdSize + Section1TotalSize(imageCount) + Section2TotalSize
  }

  /** The largest image ID among the entries. */
  function MaxImageID(entries: seq<ArtworkEntry>): (m: u32)
    requires entries != []
    ensures forall i | 0 <= i < |entries| :: entries[i].imageID <= m
    ensures exists i | 0 <= i < |entries| :: entries[i].imageID == m
  {
    var last := entries[|entries| - 1];
    if |entries| == 1 then last.imageID
    else
      var m := MaxImageID(entries[..|entries| - 1]);
      if m < last.imageID then last.imageID else m
  }

  /** Inputs on which the builder's UInt32 arithmetic does not trap: the file
      size fits in 32 bits and the largest image ID can be incremented. */
  predicate NoTrap(entries: seq<ArtworkEntry>): (r: bool)
    ensures r <==> SwiftSizes(|entries|).Some? && forall i | 0 <= i < |entries| :: entries[i].imageID < U32Limit - 1
  {
    && TotalFileSize(|entries|) < U32Limit
    && forall i | 0 <= i < |entries| :: entries[i].imageID < U32Limit - 1
  }

  /** The next free image ID: one more than the largest one used, or than the
      default when there are none. */
  function NextImageID(entries: seq<ArtworkEntry>): (r: u32)
    requires NoTrap(entries)
    ensures forall i | 0 <= i < |entries| :: entries[i].imageID < r
    ensures entries == [] ==> r == DefaultMaxImageID + 1
    ensures entries != [] ==> exists i | 0 <= i < |entries| :: entries[i].imageID + 1 == r
  {
    (if entries == [] then DefaultMaxImageID else MaxImageID(entries)) + 1
  }

  /** With no entries the next image ID is 1001. */
  lemma NextImageIDEmpty()
    ensures NoTrap([]) && NextImageID([]) == 1001
  {
  }

  /** The largest ID does not depend on the order of the entries. */
  lemma MaxImageIDOrder(a: seq<ArtworkEntry>, b: seq<ArtworkEntry>)
    requires a != [] && multiset(a) == multiset(b)
    ensures b != [] && MaxImageID(a) == MaxImageID(b)
  {
    assert |a| == |multiset(a)| == |multiset(b)| == |b|;
    var i :| 0 <= i < |a| && a[i].imageID == MaxImageID(a);
    assert a[i] in multiset(b);
    var j :| 0 <= j < |b| && b[j] == a[i];
    var k :| 0 <= k < |b| && b[k].imageID == MaxImageID(b);
    assert b[k] in multiset(a);
    var l :| 0 <= l < |a| && a[l] == b[k];
  }

  /** Reordering the entries keeps the builder within its limits and gives
      the same next image ID. */
  lemma NextImageIDOrder(a: seq<ArtworkEntry>, b: seq<ArtworkEntry>)
    requires NoTrap(a) && multiset(a) == multiset(b)
    ensures NoTrap(b) && NextImageID(a) == NextImageID(b)
  {
    assert |a| == |multiset(a)| == |multiset(b)| == |b|;
    forall j | 0 <= j < |b| ensures b[j].imageID < U32Limit - 1 {
      assert b[j] in multiset(a);
      var i :| 0 <= i < |a| && a[i] == b[j];
    }
    if a != [] {
      MaxImageIDOrder(a, b);
    }
  }

  // ---------------------------------------------------------------------
  // Swift's trapping UInt32 arithmetic, in the order the builder evaluates it

  /** `a + b` on UInt32: traps exactly when the sum does not fit. */
  function AddU32(a: u32, b: u32): (r: Option<u32>)
    ensures r.Some? <==> a + b <= 0xFFFF_FFFF
    ensures r.Some? ==> r.value == a + b
  {
    if a + b < U32Limit then Some(a + b) else None
  }

  /** `a * b` on UInt32: traps exactly when the product does not fit. */
  function MulU32(a: u32, b: u32): (r: Option<u32>)
    ensures r.Some? <==> a * b <= 0xFFFF_FFFF
    ensures r.Some? ==> r.value == a * b
  {
    if a * b < U32Limit then Some(a * b) else None
  }

  /** `UInt32(entries.count)`: traps exactly when the count does not fit. */
  function CountU32(n: nat): (r: Option<u32>)
    ensures r.Some? <==> n <= 0xFFFF_FFFF
    ensures r.Some? ==> r.value == n
  {
    if n < U32Limit then Some(n) else None
  }

  datatype Sizes = Sizes(imageCount: u32, section1: u32, section2: u32, total: u32)

  /** The size computations of the builder; None where one of them traps.
      They succeed exactly when the file fits in 32 bits, and then give the
      layout's section and file sizes. */
  function SwiftSizes(n: nat): (r: Option<Sizes>)
    ensures r.Some? <==> TotalFileSize(n) < U32Limit
    ensures r.Some? ==> r.value == Sizes(n, Section1TotalSize(n), Section2TotalSize, TotalFileSize(n))
  {
    match CountU32(n)
    case None => None
    case Some(count) =>
      match MulU32(ImageBlockSize, count)
      case None => None
      case Some(blocks) =>
        match AddU32(MhsdSize + MhliSize, blocks)
        case None => None
        case Some(section1) =>
          var section2 := MhsdSize + MhlaSize;
          match AddU32(MhfdSize, section1)
          case None => None
          case Some(partial) =>
            match AddU32(partial, section2)
            case None => None
            case Some(total) => Some(Sizes(count, section1, section2, total))
  }

  /** `(entries.map { $0.imageID }.max() ?? 1000) + 1`; None where it traps,
      which is when some image ID is already the largest 32-bit value. */
  function SwiftNextImageID(entries: seq<ArtworkEntry>): (r: Option<u32>)
    ensures r.Some? <==> forall i | 0 <= i < |entries| :: entries[i].imageID < U32Limit - 1
  {
    AddU32(if entries == [] then DefaultMaxImageID else MaxImageID(entries), 1)
  }

  /** So NoTrap is exactly the condition under which the builder runs to the end. */
  lemma NoTrapIsSwiftSuccess(entries: seq<ArtworkEntry>)
    ensures NoTrap(entries) <==> SwiftSizes(|entries|).Some? && SwiftNextImageID(entries).Some?
  {
  }

  /** Where the builder does not trap, its increment is NextImageID. */
  lemma SwiftNextImageIDIsNextImageID(entries: seq<ArtworkEntry>)
    requires NoTrap(entries)
    ensures SwiftNextImageID(entries) == Some(NextImageID(entries))
  {
  }

  // ---------------------------------------------------------------------
  // The chunks of the file, in file order

  function FileHeader(totalLength: u32, nextImageID: u32): (c: ChunkHeader)
    ensures c.Valid()
  {
    ChunkHeader(MhfdTag, [MhfdSize, totalLength, 0, 0, 2, 0, nextImageID], MhfdSize)
  }

  function SectionHeader(totalLength: u32, sectionType: u32): (c: ChunkHeader)
    ensures c.Valid()
  {
    ChunkHeader(MhsdTag, [MhsdSize, totalLength, sectionType], MhsdSize)
  }

  function ImageList(imageCount: u32): (c: ChunkHeader)
    ensures c.Valid()
  {
    ChunkHeader(MhliTag, [MhliSize, imageCount], MhliSize)
  }

  /** The mhii header; the 64-bit songDBID takes two words, low word first. */
  function ImageItem(e: ArtworkEntry): (c: ChunkHeader)
    ensures c.Valid()
  {
    ChunkHeader(MhiiTag,
                [MhiiHeaderSize, ImageBlockSize, 1, e.imageID,
                 e.songDBID % U32Limit, e.songDBID / U32Limit, 0, e.fileSize],
                MhiiHeaderSize)
  }

  function FileInfo(fileSize: u32): (c: ChunkHeader)
    ensures c.Valid()
  {
    ChunkHeader(MhifTag, [MhifSize, MhifSize, 0, fileSize], MhifSize)
  }

  function AlbumList(): (c: ChunkHeader)
    ensures c.Valid()
  {
    ChunkHeader(MhlaTag, [MhlaSize, 0], MhlaSize)
  }

  /** Each entry's mhii followed by its nested mhif, in input order. */
  function ImageChunks(entries: seq<ArtworkEntry>): (cs: seq<ChunkHeader>)
    ensures |cs| == 2 * |entries|
    ensures AllValid(cs)
  {
    if entries == [] then []
    else
      var last := entries[|entries| - 1];
      ImageChunks(entries[..|entries| - 1]) + [ImageItem(last), FileInfo(last.fileSize)]
  }

  /** All chunks of the file in the order they are written. */
  function ArtworkChunks(entries: seq<ArtworkEntry>): (cs: seq<ChunkHeader>)
    requires NoTrap(entries)
    ensures AllValid(cs)
  {
    var n := |entries|;
    [FileHeader(TotalFileSize(n), NextImageID(entries)),
     SectionHeader(Section1TotalSize(n), ImageListSection),
     ImageList(n)]
    + ImageChunks(entries)
    + [SectionHeader(Section2TotalSize, AlbumListSection), AlbumList()]
  }

  /** The whole file. It is as long as its mhfd says: 508 bytes plus 276
      per image. */
  function ArtworkDB(entries: seq<ArtworkEntry>): (r: seq<byte>)
    requires NoTrap(entries)
    ensures |r| == TotalFileSize(|entries|) == 508 + 276 * |entries|
  {
    ArtworkChunksLength(entries);
    Serialize(ArtworkChunks(entries))
  }

  // ---------------------------------------------------------------------
  // Where things are

  /** Offsets around a pair of chunks appended at the end. */
  lemma OffsetsAroundPair(xs: seq<ChunkHeader>, a: ChunkHeader, b: ChunkHeader)
    ensures Offset(xs + [a, b], |xs|) == Offset(xs, |xs|)
    ensures Offset(xs + [a, b], |xs| + 1) == Offset(xs, |xs|) + a.headerLength
    ensures Offset(xs + [a, b], |xs| + 2) == Offset(xs, |xs|) + a.headerLength + b.headerLength
  {
    OffsetAppend(xs, [a, b], 0);
    OffsetAppend(xs, [a, b], 1);
    OffsetAppend(xs, [a, b], 2);
    assert [a, b][1..] == [b];
    assert Offset([b], 1) == b.headerLength + Offset([b][1..], 0) == b.headerLength;
  }

  /** Entry i contributes chunks 2i (its mhii) and 2i + 1 (its mhif). */
  lemma {:induction false} ImageChunksAt(entries: seq<ArtworkEntry>, i: nat)
    requires i < |entries|
    ensures ImageChunks(entries)[2 * i] == ImageItem(entries[i])
    ensures ImageChunks(entries)[2 * i + 1] == FileInfo(entries[i].fileSize)
    decreases |entries|
  {
    var front := entries[..|entries| - 1];
    var last := entries[|entries| - 1];
    assert ImageChunks(entries) == ImageChunks(front) + [ImageItem(last), FileInfo(last.fileSize)];
    if i < |front| {
      ImageChunksAt(front, i);
      assert front[i] == entries[i];
    }
  }

  /** Entry i's mhii starts 276 * i bytes into the image chunks, and its mhif
      152 bytes later. */
  lemma {:induction false} ImageChunksOffsets(entries: seq<ArtworkEntry>, i: nat)
    requires i <= |entries|
    ensures Offset(ImageChunks(entries), 2 * i) == 276 * i
    ensures i < |entries| ==> Offset(ImageChunks(entries), 2 * i + 1) == 276 * i + 152
    decreases |entries|
  {
    if entries != [] {
      var front := entries[..|entries| - 1];
      var last := entries[|entries| - 1];
      var done := ImageChunks(front);
      assert ImageChunks(entries) == done + [ImageItem(last), FileInfo(last.fileSize)];
      if i < |front| {
        ImageChunksOffsets(front, i);
        OffsetPrefix(done, [ImageItem(last), FileInfo(last.fileSize)], 2 * i);
        OffsetPrefix(done, [ImageItem(last), FileInfo(last.fileSize)], 2 * i + 1);
      } else {
        ImageChunksOffsets(front, |front|);
        OffsetsAroundPair(done, ImageItem(last), FileInfo(last.fileSize));
      }
    }
  }

  /** Where each part of the file's shape starts. */
  lemma FrameOffsets(a: ChunkHeader, b: ChunkHeader, c: ChunkHeader,
                     mid: seq<ChunkHeader>, d: ChunkHeader, e: ChunkHeader, k: nat)
    requires k <= |mid|
    ensures var cs := [a, b, c] + mid + [d, e];
      var base := a.headerLength + b.headerLength + c.headerLength;
      && Offset(cs, 0) == 0
      && Offset(cs, 1) == a.headerLength
      && Offset(cs, 2) == a.headerLength + b.headerLength
      && Offset(cs, 3 + k) == base + Offset(mid, k)
      && Offset(cs, 3 + |mid|) == base + Offset(mid, |mid|)
      && Offset(cs, 4 + |mid|) == base + Offset(mid, |mid|) + d.headerLength
      && Offset(cs, 5 + |mid|) == base + Offset(mid, |mid|) + d.headerLength + e.headerLength
  {
    var tail := mid + [d, e];
    var cs := [a] + ([b] + ([c] + tail));
    assert [a, b, c] + mid + [d, e] == cs;
    OffsetPrefix(mid, [d, e], k);
    OffsetsAroundPair(mid, d, e);
    forall j: nat | j <= |tail|
      ensures Offset(cs, 3 + j) == a.headerLength + b.headerLength + c.headerLength + Offset(tail, j)
    {
      OffsetCons(c, tail, j);
      OffsetCons(b, [c] + tail, j + 1);
      OffsetCons(a, [b] + ([c] + tail), j + 2);
    }
    OffsetCons(a, [b] + ([c] + tail), 0);
    OffsetCons(a, [b] + ([c] + tail), 1);
    OffsetCons(b, [c] + tail, 0);
  }

  /** The file is its chunks' bytes in order. */
  lemma ArtworkDBParts(entries: seq<ArtworkEntry>)
    requires NoTrap(entries)
    ensures var n := |entries|;
      ArtworkDB(entries)
      == Encode(FileHeader(TotalFileSize(n), NextImageID(entries)))
       + Encode(SectionHeader(Section1TotalSize(n), ImageListSection))
       + Encode(ImageList(n))
       + Serialize(ImageChunks(entries))
       + Encode(SectionHeader(Section2TotalSize, AlbumListSection))
       + Encode(AlbumList())
  {
    var n := |entries|;
    SerializeFrame(FileHeader(TotalFileSize(n), NextImageID(entries)),
                   SectionHeader(Section1TotalSize(n), ImageListSection),
                   ImageList(n), ImageChunks(entries),
                   SectionHeader(Section2TotalSize, AlbumListSection), AlbumList());
  }

  /** The header lengths of the file's chunks add up to 508 bytes plus 276
      per image. */
  lemma ArtworkChunksLength(entries: seq<ArtworkEntry>)
    requires NoTrap(entries)
    ensures Offset(ArtworkChunks(entries), |ArtworkChunks(entries)|) == TotalFileSize(|entries|)
  {
    var n := |entries|;
    var mid := ImageChunks(entries);
    FrameOffsets(FileHeader(TotalFileSize(n), NextImageID(entries)),
                 SectionHeader(Section1TotalSize(n), ImageListSection),
                 ImageList(n), mid,
                 SectionHeader(Section2TotalSize, AlbumListSection), AlbumList(), 0);
    ImageChunksOffsets(entries, n);
  }
}
