# ByeTunes ArtworkDB builder and grouping key, in Dafny

This project covers two pieces of the ByeTunes music manager. Both are modelled and proved.

1. **`ArtworkDBBuilder.generateArtworkDB`** writes the legacy iPod ArtworkDB binary file.
   - The file is a chunk tree: `mhfd → mhsd(1) → mhli → [mhii → mhif]* → mhsd(2) → mhla`.
   - Each chunk is a four-letter ASCII tag, then 32-bit little-endian fields, then zero padding up to the chunk's fixed header length.
   - The builder fills one growing `Data` buffer, append by append, with a loop over the entries.
2. **`SongMetadata.generateGroupingKey`** turns a title into sort-key bytes. It uppercases the text. Each letter becomes its alphabet position (1 to 26), a space becomes 0x04, a slash becomes 0x0A, and every other character is dropped.

Files, one module each:

- `bytes.dfy` (`Bytes`):
  - the byte and fixed-width integer types;
  - little-endian encoding and decoding, with their round trip;
  - the `Data.append(uint32LE:)` / `append(uint64LE:)` helpers;
  - `ByteBuffer`, a class whose `bytes` field the append methods extend in place.
- `artwork_layout.dfy` (`ArtworkLayout`): the reference layout of the file.
  - `ArtworkEntry`;
  - the header-size constants;
  - a `ChunkHeader` value per chunk (tag, fields, header length);
  - `Encode`/`Serialize` of chunks;
  - the section and file sizes, and the next image ID;
  - Swift's trapping `UInt32` arithmetic, in the order the builder evaluates it.
- `artwork_builder.dfy` (`ArtworkBuilder`): the builder itself, one method per block of appends and a `for` loop over the entries. It is proved to emit exactly the layout, byte for byte.
- `artwork_placement.dfy` (`ArtworkPlacement`): where every value lands in the output. Each chunk's offset, tag, field words and zero padding are stated as byte-level facts about `ArtworkDB(entries)`.
- `artwork_reader.dfy` (`ArtworkReader`): a parser for the format, which is the builder's inverse.
  - Parsing the bytes of any list of readable chunks gives that list back. A readable chunk has a format tag, its field count, and the header length as its first field.
  - Reading the builder's output gives back the entries' image ID, song ID and file size, in order, plus every length field.
- `grouping_key.dfy` (`GroupingKey`): the grouping key. The loop method is proved equal to a per-character recursive specification, and the lemmas about that specification follow.
- `wrappers.dfy` (`Wrappers`): `Option`.

Integers are unbounded in Dafny. The source's `UInt32`/`UInt64` values are the subset types `u32`/`u64`. The builder's overflow traps are described by the `NoTrap` precondition; `ArtworkLayout.NoTrapIsSwiftSuccess` proves that precondition is exactly the condition under which the Swift arithmetic does not trap.

## Model

| member | source | states |
|---|---|---|
| Bytes.EncodeLE | MusicManager/ArtworkDBBuilder.swift:119-127 | The little-endian encoding of a value below 256^width has exactly `width` bytes. |
| Bytes.EncodeDecode | MusicManager/ArtworkDBBuilder.swift:119-127 | Decoding the little-endian bytes of a value gives the value back. |
| Bytes.DecodeBound | MusicManager/ArtworkDBBuilder.swift:119-127 | k little-endian bytes always read as a value below 256^k. |
| Bytes.DecodeInjective | MusicManager/ArtworkDBBuilder.swift:119-127 | Two byte runs of the same width with the same little-endian value are equal, so the encoding is unique. |
| Bytes.LE32 | MusicManager/ArtworkDBBuilder.swift:119-122 | `append(uint32LE:)` writes exactly four bytes. |
| Bytes.LE64 | MusicManager/ArtworkDBBuilder.swift:124-127 | `append(uint64LE:)` writes exactly eight bytes. |
| Bytes.LE32Decodes | MusicManager/ArtworkDBBuilder.swift:119-122 | The four bytes written for a `UInt32` read back little-endian as that value. |
| Bytes.LE64Decodes | MusicManager/ArtworkDBBuilder.swift:124-127 | The eight bytes written for a `UInt64` read back as that value. |
| Bytes.AppendedLE32 | MusicManager/ArtworkDBBuilder.swift:119-122 | Appending a 32-bit value adds exactly 4 bytes, leaves the existing prefix unchanged, and the new bytes decode to the value. |
| Bytes.AppendedLE64 | MusicManager/ArtworkDBBuilder.swift:124-127 | Appending a 64-bit value adds exactly 8 bytes, leaves the prefix unchanged, and the new bytes decode to the value. |
| Bytes.LE64Split | MusicManager/ArtworkDBBuilder.swift:124-127 | The 8 bytes of a 64-bit value are the 4 bytes of its low word followed by the 4 bytes of its high word. |
| Bytes.ReadLE32 | MusicManager/ArtworkDBBuilder.swift:119-122 | Wherever the 4 bytes of `v` sit in a buffer, the 32-bit word read there is `v`. |
| Bytes.ReadLE64 | MusicManager/ArtworkDBBuilder.swift:124-127 | Wherever the 8 bytes of `v` sit, the 64-bit value read there (low word + 2^32 × high word) is `v`. |
| Bytes.U32AtDecode | MusicManager/ArtworkDBBuilder.swift:119-122 | The closed-form 32-bit word reader agrees with little-endian decoding of those four bytes. |
| Bytes.Zeros | MusicManager/ArtworkDBBuilder.swift:56 | `Data(count: n)` is n bytes, all zero. |
| Bytes.AsciiBytes | MusicManager/ArtworkDBBuilder.swift:46 | The UTF-8 bytes of an ASCII tag are its character codes, one byte per character. |
| Bytes.ByteBuffer.constructor | MusicManager/ArtworkDBBuilder.swift:21 | `Data()` starts empty. |
| Bytes.ByteBuffer.AppendBytes | MusicManager/ArtworkDBBuilder.swift:46 | `append(contentsOf:)` puts the bytes after the existing ones and changes nothing else. |
| Bytes.ByteBuffer.AppendZeros | MusicManager/ArtworkDBBuilder.swift:56 | Appending `Data(count: n)` adds n zero bytes at the end. |
| Bytes.ByteBuffer.AppendU32LE | MusicManager/ArtworkDBBuilder.swift:119-122 | The buffer becomes its old bytes followed by the four little-endian bytes of the value. |
| Bytes.ByteBuffer.AppendU64LE | MusicManager/ArtworkDBBuilder.swift:124-127 | The buffer becomes its old bytes followed by the eight little-endian bytes of the value. |
| ArtworkLayout.TagsAreAscii | MusicManager/ArtworkDBBuilder.swift:46-101 | The six tag byte constants are the UTF-8 spellings of "mhfd", "mhsd", "mhli", "mhii", "mhif" and "mhla". |
| ArtworkLayout.Encode | MusicManager/ArtworkDBBuilder.swift:46-56 | A chunk's bytes (tag, fields, padding) span exactly its declared header length. |
| ArtworkLayout.EncodeTag | MusicManager/ArtworkDBBuilder.swift:46 | A chunk's bytes start with its four-byte tag. |
| ArtworkLayout.EncodeField | MusicManager/ArtworkDBBuilder.swift:47-55 | Field k of a chunk is the 32-bit little-endian word at byte 4 + 4k of its bytes. |
| ArtworkLayout.EncodePadding | MusicManager/ArtworkDBBuilder.swift:56 | Every byte from the end of a chunk's fields up to its header length is zero. |
| ArtworkLayout.WordAt | MusicManager/ArtworkDBBuilder.swift:47-55 | In a run of words appended one after another, word k occupies bytes 4k to 4k + 4. |
| ArtworkLayout.Serialize | MusicManager/ArtworkDBBuilder.swift:20-107 | Chunks written one after the other take as many bytes as their header lengths add up to. |
| ArtworkLayout.SerializeAppend | MusicManager/ArtworkDBBuilder.swift:20-107 | Serializing two chunk lists one after the other is serializing their concatenation. |
| ArtworkLayout.Section1TotalSize | MusicManager/ArtworkDBBuilder.swift:40 | The image section spans 96 + 92 + 276 bytes per image, that is 188 + 276n. |
| ArtworkLayout.TotalFileSize | MusicManager/ArtworkDBBuilder.swift:43 | The file size is 132 + (188 + 276n) + 188 = 508 + 276n. |
| ArtworkLayout.MaxImageID | MusicManager/ArtworkDBBuilder.swift:54 | `max()` of the image IDs bounds every ID and is one of them. |
| ArtworkLayout.NextImageIDEmpty | MusicManager/ArtworkDBBuilder.swift:54-55 | With no entries the next image ID is 1000 + 1 = 1001. |
| ArtworkLayout.NextImageID | MusicManager/ArtworkDBBuilder.swift:54-55 | `(maxId ?? 1000) + 1`: the next image ID is above every ID in use; with no entries it is 1001, and otherwise it is exactly one more than one of the IDs (the maximum). |
| ArtworkLayout.MaxImageIDOrder | MusicManager/ArtworkDBBuilder.swift:54 | The maximum image ID does not depend on the order of the entries. |
| ArtworkLayout.NextImageIDOrder | MusicManager/ArtworkDBBuilder.swift:54-55 | Any reordering of the entries stays within the no-trap bounds and writes the same next image ID. |
| ArtworkLayout.AddU32 | MusicManager/ArtworkDBBuilder.swift:40-43 | Swift's `+` on `UInt32`: it traps exactly when the sum exceeds 2^32 − 1, and otherwise gives the sum. |
| ArtworkLayout.MulU32 | MusicManager/ArtworkDBBuilder.swift:40 | Swift's `*` on `UInt32`: it traps exactly when the product exceeds 2^32 − 1, and otherwise gives the product. |
| ArtworkLayout.CountU32 | MusicManager/ArtworkDBBuilder.swift:37 | `UInt32(entries.count)`: it traps exactly when the count exceeds 2^32 − 1, and otherwise gives the count. |
| ArtworkLayout.SwiftSizes | MusicManager/ArtworkDBBuilder.swift:35-43 | The trapping UInt32 size computations, in source order, run to the end exactly when 508 + 276n < 2^32, and then give the layout's sizes. |
| ArtworkLayout.SwiftNextImageID | MusicManager/ArtworkDBBuilder.swift:54-55 | The trapping `maxId + 1` runs exactly when every image ID is below 2^32 − 1. |
| ArtworkLayout.SwiftNextImageIDIsNextImageID | MusicManager/ArtworkDBBuilder.swift:54-55 | Where the builder does not trap, `maxId + 1` gives NextImageID. |
| ArtworkLayout.NoTrap | MusicManager/ArtworkDBBuilder.swift:35-55 | The builder's precondition holds exactly when the size computations run to the end and every image ID can be incremented. |
| ArtworkLayout.NoTrapIsSwiftSuccess | MusicManager/ArtworkDBBuilder.swift:35-55 | The builder's precondition is exactly "none of the builder's UInt32 operations traps". |
| ArtworkLayout.FileHeader | MusicManager/ArtworkDBBuilder.swift:45-56 | The mhfd chunk (header length 132; fields 132, total length, 0, 0, 2, 0, next image ID) is well-formed. |
| ArtworkLayout.SectionHeader | MusicManager/ArtworkDBBuilder.swift:58-63 | The mhsd chunk (header length 96; fields 96, section length, type) is well-formed. |
| ArtworkLayout.ImageList | MusicManager/ArtworkDBBuilder.swift:65-69 | The mhli chunk (header length 92; fields 92, image count) is well-formed. |
| ArtworkLayout.ImageItem | MusicManager/ArtworkDBBuilder.swift:73-82 | The mhii chunk (header length 152; fields 152, 276, 1, image ID, song ID low and high words, 0, file size) is well-formed. |
| ArtworkLayout.FileInfo | MusicManager/ArtworkDBBuilder.swift:84-90 | The mhif chunk (header length 124; fields 124, 124, 0, file size) is well-formed. |
| ArtworkLayout.AlbumList | MusicManager/ArtworkDBBuilder.swift:100-104 | The mhla chunk (header length 92; fields 92, 0 albums) is well-formed. |
| ArtworkLayout.ImageChunks | MusicManager/ArtworkDBBuilder.swift:72-91 | The loop produces two well-formed chunks per entry. |
| ArtworkLayout.ImageChunksAt | MusicManager/ArtworkDBBuilder.swift:72-91 | Entry i contributes chunk 2i (its mhii) and chunk 2i + 1 (its mhif), in input order. |
| ArtworkLayout.ImageChunksOffsets | MusicManager/ArtworkDBBuilder.swift:72-91 | Within the image blocks, entry i's mhii starts at 276i and its mhif at 276i + 152. |
| ArtworkLayout.ArtworkChunks | MusicManager/ArtworkDBBuilder.swift:23-104 | Every chunk of the file is well-formed. |
| ArtworkLayout.ArtworkDBParts | MusicManager/ArtworkDBBuilder.swift:20-107 | The file is the six parts (mhfd, mhsd(1), mhli, image blocks, mhsd(2), mhla) in this order. |
| ArtworkLayout.ArtworkChunksLength | MusicManager/ArtworkDBBuilder.swift:26-43 | The header lengths of the file's chunks add up to 508 + 276n, the total length the mhfd records. |
| ArtworkLayout.ArtworkDB | MusicManager/ArtworkDBBuilder.swift:20-107 | The reference layout: the file's chunks in write order, serialized. It has exactly 508 + 276n bytes, the total length it records. Every placement and reader lemma is stated about it. |
| ArtworkLayout.FrameOffsets | MusicManager/ArtworkDBBuilder.swift:20-107 | The start offset of each part of the file's shape. |
| ArtworkBuilder.AppendedWordsAreWords | MusicManager/ArtworkDBBuilder.swift:47-55 | Appending 32-bit words one by one gives the prefix followed by the words' encoding. |
| ArtworkBuilder.AppendedChunk | MusicManager/ArtworkDBBuilder.swift:46-56 | Appending a tag, its words and the padding gives the prefix followed by the chunk's bytes. |
| ArtworkBuilder.FileHeaderAsAppended | MusicManager/ArtworkDBBuilder.swift:46-56 | The mhfd appends produce exactly the mhfd chunk after the existing bytes. |
| ArtworkBuilder.SectionHeaderAsAppended | MusicManager/ArtworkDBBuilder.swift:59-63 | The mhsd appends produce exactly the mhsd chunk. |
| ArtworkBuilder.ImageListAsAppended | MusicManager/ArtworkDBBuilder.swift:66-69 | The mhli appends produce exactly the mhli chunk. |
| ArtworkBuilder.ImageItemAsAppended | MusicManager/ArtworkDBBuilder.swift:74-82 | The mhii appends, with the 64-bit song ID written as eight bytes, produce exactly the mhii chunk. |
| ArtworkBuilder.FileInfoAsAppended | MusicManager/ArtworkDBBuilder.swift:85-90 | The mhif appends produce exactly the mhif chunk. |
| ArtworkBuilder.AlbumListAsAppended | MusicManager/ArtworkDBBuilder.swift:101-104 | The mhla appends produce exactly the mhla chunk. |
| ArtworkBuilder.WriteFileHeader | MusicManager/ArtworkDBBuilder.swift:45-56 | The buffer gains exactly the mhfd chunk at its end. |
| ArtworkBuilder.WriteSectionHeader | MusicManager/ArtworkDBBuilder.swift:58-63 | The buffer gains exactly an mhsd chunk. This block is also used for section 2 at lines 93-98. |
| ArtworkBuilder.WriteImageList | MusicManager/ArtworkDBBuilder.swift:65-69 | The buffer gains exactly the mhli chunk. |
| ArtworkBuilder.WriteImageItem | MusicManager/ArtworkDBBuilder.swift:73-82 | The buffer gains exactly the entry's mhii chunk. |
| ArtworkBuilder.WriteFileInfo | MusicManager/ArtworkDBBuilder.swift:84-90 | The buffer gains exactly the nested mhif chunk. |
| ArtworkBuilder.WriteImageBlocks | MusicManager/ArtworkDBBuilder.swift:72-91 | After the loop, the buffer is its old bytes followed by one mhii/mhif pair per entry, in input order. |
| ArtworkBuilder.WriteAlbumList | MusicManager/ArtworkDBBuilder.swift:100-104 | The buffer gains exactly the empty mhla chunk. |
| ArtworkBuilder.GenerateArtworkDB | MusicManager/ArtworkDBBuilder.swift:20-107 | On inputs where no UInt32 operation traps, the output is the reference layout byte for byte (so equal inputs give identical bytes) and is 508 + 276n bytes long. |
| ArtworkBuilder.GenerateEmptyArtworkDB | MusicManager/ArtworkDBBuilder.swift:111-113 | The empty database is the layout for no entries, 508 bytes. |
| ArtworkPlacement.ChunkAt | MusicManager/ArtworkDBBuilder.swift:20-107 | Chunk k's bytes lie in the serialized file at the sum of the header lengths before it. |
| ArtworkPlacement.FieldInChunk | MusicManager/ArtworkDBBuilder.swift:47-55 | Field j of a chunk encoded at offset o is the 32-bit word at o + 4 + 4j. |
| ArtworkPlacement.TagInChunk | MusicManager/ArtworkDBBuilder.swift:46 | A chunk encoded at o has its tag at bytes o to o + 4. |
| ArtworkPlacement.PaddingInChunk | MusicManager/ArtworkDBBuilder.swift:56 | A chunk encoded at o is zero from the end of its fields to o + its header length. |
| ArtworkPlacement.FileHeaderAt | MusicManager/ArtworkDBBuilder.swift:45-56 | The mhfd's tag, its seven fields at +4 to +28, and zero padding from +32 to +132. |
| ArtworkPlacement.SectionHeaderAt | MusicManager/ArtworkDBBuilder.swift:58-63 | An mhsd's tag, its header length 96, section length and type, and zeros from +16 to +96. |
| ArtworkPlacement.ImageListAt | MusicManager/ArtworkDBBuilder.swift:65-69 | The mhli's tag, 92, the image count, and zeros from +12 to +92. |
| ArtworkPlacement.ImageItemAt | MusicManager/ArtworkDBBuilder.swift:73-82 | An mhii holds 152, 276, 1, the image ID at +16, the song ID at +20 as a 64-bit value, 0 at +28, the file size at +32, and zeros from +36 to +152. |
| ArtworkPlacement.FileInfoAt | MusicManager/ArtworkDBBuilder.swift:84-90 | An mhif holds 124, 124, 0, the file size at +16, and zeros from +20 to +124. |
| ArtworkPlacement.AlbumListAt | MusicManager/ArtworkDBBuilder.swift:100-104 | The mhla holds 92, album count 0, and zeros from +12 to +92. |
| ArtworkPlacement.FrameChunks | MusicManager/ArtworkDBBuilder.swift:23-104 | The file has 5 + 2n chunks: mhfd at offset 0, mhsd(1) at 132, mhli at 228, mhsd(2) at 320 + 276n and mhla at 416 + 276n. |
| ArtworkPlacement.EntryChunks | MusicManager/ArtworkDBBuilder.swift:72-91 | Entry i's mhii is chunk 3 + 2i at offset 320 + 276i, and its mhif is chunk 4 + 2i at 472 + 276i. |
| ArtworkPlacement.EntryKinds | MusicManager/ArtworkDBBuilder.swift:72-91 | Chunks 3 + 2i and 4 + 2i of the file are entry i's mhii and mhif. |
| ArtworkPlacement.EntryOffsets | MusicManager/ArtworkDBBuilder.swift:72-91 | Entry i's pair starts at 320 + 276i, and its mhif 152 bytes later. |
| ArtworkPlacement.FileHeaderBytes | MusicManager/ArtworkDBBuilder.swift:45-56 | The output is 508 + 276n bytes. It begins "mhfd" with 132 at offset 4 and the output's own length at 8. It has 0, 0, 2, 0 at 12 to 24, the next image ID at 28, and zeros up to 132. |
| ArtworkPlacement.ImageSectionBytes | MusicManager/ArtworkDBBuilder.swift:58-63 | "mhsd" at 132, then 96, 188 + 276n and type 1, then zeros up to 228. |
| ArtworkPlacement.ImageListBytes | MusicManager/ArtworkDBBuilder.swift:65-69 | "mhli" at 228 with 92 and the image count n, then zeros up to 320. |
| ArtworkPlacement.ImageItemBytes | MusicManager/ArtworkDBBuilder.swift:72-82 | At 320 + 276i, entry i's mhii holds 152, 276, 1, its image ID, its song ID as eight little-endian bytes at +20, 0, and its file size, then zeros up to +152. |
| ArtworkPlacement.FileInfoBytes | MusicManager/ArtworkDBBuilder.swift:84-90 | At 472 + 276i, entry i's mhif holds 124, 124, a zero correlation ID and the same file size, then zeros up to +124. |
| ArtworkPlacement.AlbumSectionBytes | MusicManager/ArtworkDBBuilder.swift:93-98 | "mhsd" at 320 + 276n, then 96, section length 188 and type 2, then zeros. |
| ArtworkPlacement.AlbumListBytes | MusicManager/ArtworkDBBuilder.swift:100-104 | "mhla" at 416 + 276n with 92 and album count 0, zero-padded to the last byte of the file. |
| ArtworkReader.KnownFieldCounts | MusicManager/ArtworkDBBuilder.swift:46-104 | The reader's field-count table gives each of the six chunk kinds the number of fields the builder writes for it. |
| ArtworkReader.ReadWords | MusicManager/ArtworkDBBuilder.swift:47-55 | Reading n words gives n fields. |
| ArtworkReader.ParseChunk | MusicManager/ArtworkDBBuilder.swift:46-56 | A chunk the parser accepts is well-formed and lies inside the input. |
| ArtworkReader.ParseChunkAt | MusicManager/ArtworkDBBuilder.swift:46-56 | A readable chunk's bytes parse back as that chunk, wherever they sit. |
| ArtworkReader.ParseSerialize | MusicManager/ArtworkDBBuilder.swift:20-107 | Parsing the bytes of readable chunks written one after the other gives back exactly that chunk list. |
| ArtworkReader.ReadSerialized | MusicManager/ArtworkDBBuilder.swift:20-107 | Reading the bytes of readable chunks is reading those chunks. |
| ArtworkReader.ArtworkChunksParseable | MusicManager/ArtworkDBBuilder.swift:23-104 | Every chunk the builder writes has a known tag, its field count, and its header length as its first field. |
| ArtworkReader.ReadImageChunks | MusicManager/ArtworkDBBuilder.swift:72-91 | The image pairs read back as one record per entry, in input order. Each record holds the image ID, the 64-bit song ID and the file size. |
| ArtworkReader.ReadArtworkChunks | MusicManager/ArtworkDBBuilder.swift:20-107 | The builder's chunks read back as the file size, next image ID, section lengths, image count, image records and album count it wrote. |
| ArtworkReader.ReadBuilderOutput | MusicManager/ArtworkDBBuilder.swift:20-107 | Reading the output gives its own length, the next image ID, 188 + 276n, n, each entry's record in order, 188 and 0 albums. |
| ArtworkReader.EmptyArtworkDBReads | MusicManager/ArtworkDBBuilder.swift:111-113 | The empty database reads as 508 bytes long, next image ID 1001, no images and no albums. |
| ArtworkReader.ArtworkDBInjective | MusicManager/ArtworkDBBuilder.swift:20-107 | Two entry lists that give the same bytes have the same length and agree, entry by entry, on image ID, song ID and file size. |
| GroupingKey.Upper | MusicManager/SongMetadata.swift:48 | `uppercased()` on one ASCII character: the result is never a lowercase letter. A lowercase letter becomes the capital whose lowercase it is, and any other character is kept. |
| GroupingKey.CharKey | MusicManager/SongMetadata.swift:49-55 | The per-character branches: at most one byte, exactly one for a capital, a space or a slash, and every byte between 1 and 26. |
| GroupingKey.GroupingKey | MusicManager/SongMetadata.swift:44-58 | The specification of `generateGroupingKey`: the empty title gives the empty key, the key is no longer than the title, and every byte is between 1 and 26. |
| GroupingKey.Uppercased | MusicManager/SongMetadata.swift:48 | Uppercasing keeps the length and maps each character on its own. |
| GroupingKey.GenerateGroupingKey | MusicManager/SongMetadata.swift:44-58 | The loop, with its empty-input guard, returns exactly the per-character specification GroupingKey. |
| GroupingKey.LetterKey | MusicManager/SongMetadata.swift:48-50 | A letter in either case gives exactly one byte, its position in the alphabet, between 1 and 26. |
| GroupingKey.AlphabetEnds | MusicManager/SongMetadata.swift:49-50 | "A"/"a" give [1] and "Z"/"z" give [26]. |
| GroupingKey.SeparatorKeys | MusicManager/SongMetadata.swift:51-54 | A space gives [0x04] and a slash gives [0x0A]. |
| GroupingKey.KeptCharacters | MusicManager/SongMetadata.swift:49-56 | A character contributes a byte if and only if it is a letter of either case, a space or a slash, so digits and punctuation contribute nothing. |
| GroupingKey.CaseInsensitive | MusicManager/SongMetadata.swift:48 | The lowercased and the uppercased forms of a text have the same key as the text. |
| GroupingKey.KeyOfAppend | MusicManager/SongMetadata.swift:48-56 | The per-character map sends a concatenation of uppercased texts to the concatenation of their bytes. |
| GroupingKey.KeyOfBounds | MusicManager/SongMetadata.swift:48-56 | The per-character map gives no more bytes than characters, each between 1 and 26. |
| GroupingKey.GroupingKeySnoc | MusicManager/SongMetadata.swift:48-56 | One more character at the end of a title adds its byte, if any, at the end of the key. |
| GroupingKey.GroupingKeyAppend | MusicManager/SongMetadata.swift:48-56 | The key of a concatenation is the concatenation of the keys. |
| GroupingKey.KeptPositions | MusicManager/SongMetadata.swift:48-56 | The positions of the kept characters lie inside the text. |
| GroupingKey.KeptPositionsExact | MusicManager/SongMetadata.swift:48-56 | The list of kept positions is strictly increasing and contains exactly the positions of letters, spaces and slashes. |
| GroupingKey.ExactlyKeptSnoc | MusicManager/SongMetadata.swift:48-56 | Adding a character preserves "lists exactly the kept positions, in order". |
| GroupingKey.KeyListsSnoc | MusicManager/SongMetadata.swift:48-56 | Adding a character preserves "byte k is the byte of the k-th kept character". |
| GroupingKey.KeyIsKeptCharacters | MusicManager/SongMetadata.swift:47-57 | The key has one byte per kept character, and byte k is the byte of the k-th kept character, so the output order follows the input order. |

## Left out

- The I/O around the two functions is not part of this model. This covers `SongMetadata.fromURL`, which loads AVFoundation assets, reads file attributes and defaults to the current year. It also covers the iTunes and Deezer network searches with their JSON decoding and artwork downloads, and `iTunesSearchSheet.swift`, which is SwiftUI view state, tasks and rendering.
- `generateRemoteFilename` and `generatePersistentId` are not modelled: their output is random.
- `ArtworkEntry.artworkHash` is kept in the datatype, but the builder never writes it, so no property mentions it. `ArtworkReader.ArtworkDBInjective` accordingly speaks only of the three written fields.
- The builder does not check for duplicate image IDs, and neither does the model.
- `ArtworkBuilder.GenerateArtworkDB`: Swift traps on `UInt32` overflow inputs; the model does not represent the trap. The method requires `NoTrap` instead, and the `ArtworkLayout.Swift*` functions and lemmas show that `NoTrap` is exactly the non-trapping case.
- The representation of Foundation's `Data` is not modelled, and neither is the `withUnsafeBytes` copy inside the append helpers. A `ByteBuffer` holds a `seq` of bytes, and `littleEndian` is written out as an explicit byte order.
- `GroupingKey.Upper` maps only a–z to A–Z, so the model is faithful on ASCII text. Swift's `uppercased()` also maps non-ASCII letters, for example "ß" to "SS", which would then give bytes. The model passes such characters through unchanged, and they are dropped.
- `GroupingKey.GenerateGroupingKey` follows the ASCII reading of `char >= "A" && char <= "Z"`. Swift compares `Character`s as Unicode strings, so a grapheme cluster such as a letter followed by a combining mark may compare between "A" and "Z" while `asciiValue` is nil, and `asciiValue!` would then trap. Text is taken as Unicode scalars, so this case is not modelled.
- The parser in `ArtworkReader` is not part of the program, which only writes the file. It is a reference reader used to state what the written bytes mean.
