/**
  The "DST" texture container that DSTexture::SaveToFile writes: a 32-byte
  DSTHeader, one 16-byte DSTMipInfo per level, then the level bytes in chain
  order. Records are written field by field in host byte order, taken here as
  little-endian, with no padding (every field after the 4-byte magic is a
  uint32_t). ParseDst reads a file back; it is a proof device for the layout
  lemmas, not a model of a loader.
*/
module DstFormat {
  import opened Options

  /** uint8_t */
  type Byte = x: int | 0 <= x < 256

  /** uint32_t */
  type U32 = x: int | 0 <= x < 0x1_0000_0000

  const U32Modulus: int := 0x1_0000_0000

  /** Conversion to uint32_t: reduction modulo 2^32. */
  function Wrap32(x: nat): (r: U32)
    ensures x < U32Modulus ==> r == x
  {
    x % U32Modulus
  }

  /** Adding to a uint32_t and wrapping is adding and wrapping once at the end. */
  lemma Wrap32Add(a: nat, b: nat)
    ensures Wrap32(Wrap32(a) + b) == Wrap32(a + b)
  {
    var q := a / U32Modulus;
    assert a == q * U32Modulus + Wrap32(a);
    assert a + b == q * U32Modulus + (Wrap32(a) + b);
  }

  /** A uint32_t sum of two wrapped values is the wrapped sum. */
  lemma Wrap32AddBoth(a: nat, b: nat)
    ensures Wrap32(Wrap32(a) + Wrap32(b)) == Wrap32(a + b)
  {
    Wrap32Add(a, Wrap32(b));
    Wrap32Add(b, a);
    assert Wrap32(b) + a == a + Wrap32(b);
  }

  /** sizeof(DSTHeader) */
  const HeaderSize: nat := 32
  /** sizeof(DSTMipInfo) */
  const MipInfoSize: nat := 16
  /** The default magic 'D', 'S', 'T', '\0'. */
  const DefaultMagic: seq<Byte> := [0x44, 0x53, 0x54, 0x00]
  /** The default format version. */
  const DefaultVersion: U32 := 1

  /** DSTHeader: the magic, then seven uint32_t fields in declaration order. */
  datatype DstHeader = DstHeader(
    magic: seq<Byte>,
    version: U32,
    width: U32,
    height: U32,
    channels: U32,
    mipLevels: U32,
    flags: U32,
    dataOffset: U32)

  /** DSTMipInfo: four uint32_t fields; `offset` counts from the header's dataOffset. */
  datatype DstMipInfo = DstMipInfo(width: U32, height: U32, size: U32, offset: U32)

  // ---------------------------------------------------------------------------
  // Little-endian words

  function EncodeU32(x: U32): (b: seq<Byte>)
    ensures |b| == 4
  {
    var x1 := x / 256;
    var x2 := x1 / 256;
    [x % 256, x1 % 256, x2 % 256, x2 / 256]
  }

  function DecodeU32(b: seq<Byte>): U32
    requires |b| == 4
  {
    var b0: int, b1: int, b2: int, b3: int := b[0], b[1], b[2], b[3];
    b0 + 256 * (b1 + 256 * (b2 + 256 * b3))
  }

  lemma DecodeEncodeU32(x: U32)
    ensures DecodeU32(EncodeU32(x)) == x
  {
    var x1 := x / 256;
    var x2 := x1 / 256;
    assert x2 == x2 % 256 + 256 * (x2 / 256);
    assert x1 == x1 % 256 + 256 * x2;
    assert x == x % 256 + 256 * x1;
  }

  // ---------------------------------------------------------------------------
  // Records

  function EncodeHeader(h: DstHeader): (b: seq<Byte>)
    requires |h.magic| == 4
    ensures |b| == HeaderSize
  {
    h.magic + EncodeU32(h.version) + EncodeU32(h.width) + EncodeU32(h.height)
      + EncodeU32(h.channels) + EncodeU32(h.mipLevels) + EncodeU32(h.flags)
      + EncodeU32(h.dataOffset)
  }

  function DecodeHeader(b: seq<Byte>): DstHeader
    requires |b| == HeaderSize
  {
    DstHeader(b[0..4], DecodeU32(b[4..8]), DecodeU32(b[8..12]), DecodeU32(b[12..16]),
              DecodeU32(b[16..20]), DecodeU32(b[20..24]), DecodeU32(b[24..28]),
              DecodeU32(b[28..32]))
  }

  /** Every header field sits at its offset and reads back as written. */
  lemma HeaderRoundTrip(h: DstHeader)
    requires |h.magic| == 4
    ensures DecodeHeader(EncodeHeader(h)) == h
  {
    var b := EncodeHeader(h);
    assert b == b[..28] + EncodeU32(h.dataOffset);
    assert b[0..4] == h.magic;
    assert b[4..8] == EncodeU32(h.version);
    assert b[8..12] == EncodeU32(h.width);
    assert b[12..16] == EncodeU32(h.height);
    assert b[16..20] == EncodeU32(h.channels);
    assert b[20..24] == EncodeU32(h.mipLevels);
    assert b[24..28] == EncodeU32(h.flags);
    assert b[28..32] == EncodeU32(h.dataOffset);
    DecodeEncodeU32(h.version);
    DecodeEncodeU32(h.width);
    DecodeEncodeU32(h.height);
    DecodeEncodeU32(h.channels);
    DecodeEncodeU32(h.mipLevels);
    DecodeEncodeU32(h.flags);
    DecodeEncodeU32(h.dataOffset);
  }

  function EncodeMipInfo(m: DstMipInfo): (b: seq<Byte>)
    ensures |b| == MipInfoSize
  {
    EncodeU32(m.width) + EncodeU32(m.height) + EncodeU32(m.size) + EncodeU32(m.offset)
  }

  function DecodeMipInfo(b: seq<Byte>): DstMipInfo
    requires |b| == MipInfoSize
  {
    DstMipInfo(DecodeU32(b[0..4]), DecodeU32(b[4..8]), DecodeU32(b[8..12]), DecodeU32(b[12..16]))
  }

  /** Every mip-table field sits at its offset and reads back as written. */
  lemma MipInfoRoundTrip(m: DstMipInfo)
    ensures DecodeMipInfo(EncodeMipInfo(m)) == m
  {
    var b := EncodeMipInfo(m);
    assert b[0..4] == EncodeU32(m.width);
    assert b[4..8] == EncodeU32(m.height);
    assert b[8..12] == EncodeU32(m.size);
    assert b[12..16] == EncodeU32(m.offset);
    DecodeEncodeU32(m.width);
    DecodeEncodeU32(m.height);
    DecodeEncodeU32(m.size);
    DecodeEncodeU32(m.offset);
  }

  // ---------------------------------------------------------------------------
  // Table and data region

  /** The mip table: the entries' bytes one after the other. */
  function EncodeTable(infos: seq<DstMipInfo>): seq<Byte>
  {
    if infos == [] then []
    else EncodeTable(infos[..|infos| - 1]) + EncodeMipInfo(infos[|infos| - 1])
  }

  /** The data region: the levels' bytes one after the other. */
  function Concat(levels: seq<seq<Byte>>): seq<Byte>
  {
    if levels == [] then []
    else Concat(levels[..|levels| - 1]) + levels[|levels| - 1]
  }

  /** The total byte count of `levels`. */
  function SumLengths(levels: seq<seq<Byte>>): nat
  {
    if levels == [] then 0
    else SumLengths(levels[..|levels| - 1]) + |levels[|levels| - 1]|
  }

  /** Entry `i` of the table occupies bytes [16 i, 16 i + 16). */
  lemma {:induction false} TableEntryAt(infos: seq<DstMipInfo>, i: nat)
    requires i < |infos|
    ensures |EncodeTable(infos)| == MipInfoSize * |infos|
    ensures EncodeTable(infos)[MipInfoSize * i..MipInfoSize * i + MipInfoSize] == EncodeMipInfo(infos[i])
    decreases |infos|
  {
    var init := infos[..|infos| - 1];
    TableLength(infos);
    TableLength(init);
    var a := EncodeTable(init);
    var lo := MipInfoSize * i;
    if i < |infos| - 1 {
      TableEntryAt(init, i);
      assert init[i] == infos[i];
      assert (a + EncodeMipInfo(infos[|infos| - 1]))[lo..lo + MipInfoSize] == a[lo..lo + MipInfoSize];
    } else {
      assert lo == |a|;
    }
  }

  /** The table of `n` entries is 16 n bytes long. */
  lemma {:induction false} TableLength(infos: seq<DstMipInfo>)
    ensures |EncodeTable(infos)| == MipInfoSize * |infos|
    decreases |infos|
  {
    if infos != [] {
      TableLength(infos[..|infos| - 1]);
    }
  }

  /** The data region is as long as the levels together. */
  lemma {:induction false} ConcatLength(levels: seq<seq<Byte>>)
    ensures |Concat(levels)| == SumLengths(levels)
    decreases |levels|
  {
    if levels != [] {
      ConcatLength(levels[..|levels| - 1]);
    }
  }

  /** Level `i` starts where the levels before it end: its bytes are found at the
      prefix sum of the sizes before it. */
  lemma {:induction false} ConcatAt(levels: seq<seq<Byte>>, i: nat)
    requires i < |levels|
    ensures SumLengths(levels[..i]) + |levels[i]| <= SumLengths(levels)
    ensures |Concat(levels)| == SumLengths(levels)
    ensures Concat(levels)[SumLengths(levels[..i])..SumLengths(levels[..i]) + |levels[i]|] == levels[i]
    decreases |levels|
  {
    var init := levels[..|levels| - 1];
    ConcatLength(levels);
    ConcatLength(init);
    if i < |levels| - 1 {
      ConcatAt(init, i);
      assert init[..i] == levels[..i];
      assert init[i] == levels[i];
    } else {
      assert levels[..i] == init;
    }
  }

  /** The sizes before level `i + 1` are those before level `i` plus level i's. */
  lemma SumLengthsStep(levels: seq<seq<Byte>>, i: nat)
    requires i < |levels|
    ensures SumLengths(levels[..i + 1]) == SumLengths(levels[..i]) + |levels[i]|
  {
    assert levels[..i + 1][..i] == levels[..i];
  }

  /** Appending is associative. */
  lemma AppendAssoc<T>(a: seq<T>, b: seq<T>, c: seq<T>)
    ensures a + (b + c) == (a + b) + c
  {
  }

  /** The table of the first i + 1 entries is that of the first i, then entry i. */
  lemma EncodeTableSnoc(infos: seq<DstMipInfo>, i: nat)
    requires i < |infos|
    ensures EncodeTable(infos[..i + 1]) == EncodeTable(infos[..i]) + EncodeMipInfo(infos[i])
  {
    assert infos[..i + 1][..i] == infos[..i];
  }

  /** The data region of the first j + 1 levels is that of the first j, then level j. */
  lemma ConcatSnoc(levels: seq<seq<Byte>>, j: nat)
    requires j < |levels|
    ensures Concat(levels[..j + 1]) == Concat(levels[..j]) + levels[j]
  {
    assert levels[..j + 1][..j] == levels[..j];
  }

  /** The running offset of SaveToFile's table loop: adding level i's size to
      the wrapped size of the levels before it gives the wrapped size of the
      levels up to and including level i. */
  lemma OffsetStep(levels: seq<seq<Byte>>, i: nat, offset: U32, size: U32)
    requires i < |levels|
    requires offset == Wrap32(SumLengths(levels[..i]))
    requires size == Wrap32(|levels[i]|)
    ensures Wrap32(offset + size) == Wrap32(SumLengths(levels[..i + 1]))
  {
    Wrap32AddBoth(SumLengths(levels[..i]), |levels[i]|);
    SumLengthsStep(levels, i);
  }

  /** Slicing past a prefix slices the rest. */
  lemma SliceAfterPrefix(p: seq<Byte>, c: seq<Byte>, x: nat, y: nat)
    requires x <= y <= |c|
    ensures (p + c)[|p| + x..|p| + y] == c[x..y]
  {
  }

  /** An entry that locates `level` within `data` locates it |prefix| bytes
      further on in `prefix + data`. */
  lemma LocatedAfterPrefix(prefix: seq<Byte>, data: seq<Byte>, e: DstMipInfo, level: seq<Byte>)
    requires e.offset + e.size <= |data|
    requires e.size == |level| && data[e.offset..e.offset + e.size] == level
    ensures |prefix| + e.offset + e.size <= |prefix + data|
    ensures (prefix + data)[|prefix| + e.offset..|prefix| + e.offset + e.size] == level
  {
    assert (prefix + data)[|prefix| + e.offset..|prefix| + e.offset + e.size] == data[e.offset..e.offset + e.size];
  }

  // ---------------------------------------------------------------------------
  // What SaveToFile writes

  /** x >> i on a uint32_t, for shift counts below 32: i shifts by one bit. */
  function Shr(x: U32, i: nat): (r: U32)
    ensures r <= x
  {
    if i == 0 then x else Shr(x, i - 1) / 2
  }

  /** std::max(1u, x): the larger of 1 and x. */
  function MaxOne(x: U32): (r: U32)
    ensures 1 <= r && x <= r
    ensures r == x || r == 1
  {
    if x < 1 then 1 else x
  }

  /** The header SaveToFile writes for a chain of `count` levels: default magic and
      version, mip_levels the level count as a uint32_t, data_offset the size of
      the header and the table as a uint32_t, and the never-assigned `flags`. */
  function SavedHeader(width: U32, height: U32, channels: U32, flags: U32, count: nat): (h: DstHeader)
    ensures |h.magic| == 4 && h.version == DefaultVersion
    ensures h.width == width && h.height == height && h.channels == channels && h.flags == flags
    ensures h.mipLevels == count % U32Modulus
    ensures h.dataOffset == (HeaderSize + MipInfoSize * h.mipLevels) % U32Modulus
  {
    var mipLevels := Wrap32(count);
    DstHeader(DefaultMagic, DefaultVersion, width, height, channels, mipLevels, flags,
              Wrap32(HeaderSize + mipLevels * MipInfoSize))
  }

  /** The mip table SaveToFile writes: entry `i` has the base dimensions shifted
      right `i` times (at least 1), the level's byte count, and the running uint32_t
      sum of the sizes before it. */
  function MipTable(width: U32, height: U32, levels: seq<seq<Byte>>): (t: seq<DstMipInfo>)
    ensures |t| == |levels|
    ensures |t| > 0 ==> t[0].offset == 0 && t[0].width == MaxOne(width) && t[0].height == MaxOne(height)
  {
    seq(|levels|, i requires 0 <= i < |levels| =>
      MipEntry(width, height, levels, i))
  }

  /** Table entry `i`: level i's dimensions width >> i and height >> i, at least 1,
      its byte count, and the byte count of the levels before it as its offset. */
  function MipEntry(width: U32, height: U32, levels: seq<seq<Byte>>, i: nat): (e: DstMipInfo)
    requires i < |levels|
    ensures 1 <= e.width <= MaxOne(width) && 1 <= e.height <= MaxOne(height)
    ensures |levels[i]| < U32Modulus ==> e.size == |levels[i]|
    ensures SumLengths(levels[..i]) < U32Modulus ==> e.offset == SumLengths(levels[..i])
  {
      DstMipInfo(MaxOne(Shr(width, i)), MaxOne(Shr(height, i)),
                 Wrap32(|levels[i]|), Wrap32(SumLengths(levels[..i])))
  }

  /** The bytes of a saved file: header, mip table, level bytes in chain order. */
  function DstFile(width: U32, height: U32, channels: U32, flags: U32, levels: seq<seq<Byte>>): (b: seq<Byte>)
    ensures HeaderSize + MipInfoSize * |levels| <= |b|
    ensures b[..HeaderSize] == EncodeHeader(SavedHeader(width, height, channels, flags, |levels|))
    ensures b[HeaderSize + MipInfoSize * |levels|..] == Concat(levels)
  {
    var prefix := SavedPrefix(width, height, channels, flags, levels);
    TableLength(MipTable(width, height, levels));
    assert (prefix + Concat(levels))[..HeaderSize] == prefix[..HeaderSize];
    prefix + Concat(levels)
  }

  /** What precedes the level bytes in a saved file: the header and the mip table. */
  function SavedPrefix(width: U32, height: U32, channels: U32, flags: U32, levels: seq<seq<Byte>>): seq<Byte> {
    EncodeHeader(SavedHeader(width, height, channels, flags, |levels|))
      + EncodeTable(MipTable(width, height, levels))
  }

  /** The whole file fits the uint32_t fields that describe it. */
  predicate FitsU32(levels: seq<seq<Byte>>) {
    HeaderSize + MipInfoSize * |levels| + SumLengths(levels) < U32Modulus
  }

  /** The saved header: magic "DST\0", version 1, mip_levels the level count and
      data_offset 32 + 16 * mip_levels, when these fit a uint32_t. */
  lemma SavedHeaderFields(width: U32, height: U32, channels: U32, flags: U32, count: nat)
    requires HeaderSize + MipInfoSize * count < U32Modulus
    ensures var h := SavedHeader(width, height, channels, flags, count);
            && h.magic == DefaultMagic && h.version == 1
            && h.width == width && h.height == height && h.channels == channels
            && h.mipLevels == count && h.dataOffset == HeaderSize + MipInfoSize * count
  {
  }

  /** The total file length is data_offset plus the sum of the level sizes. */
  lemma DstFileLength(width: U32, height: U32, channels: U32, flags: U32, levels: seq<seq<Byte>>)
    ensures |DstFile(width, height, channels, flags, levels)|
            == HeaderSize + MipInfoSize * |levels| + SumLengths(levels)
  {
    TableLength(MipTable(width, height, levels));
    ConcatLength(levels);
  }

  /** The offsets are prefix sums: entry 0 starts at 0, each later entry where the
      one before it ends, and each size is the level's byte count, when the data
      fit a uint32_t. */
  lemma MipTableOffsets(width: U32, height: U32, levels: seq<seq<Byte>>, i: nat)
    requires i < |levels|
    requires SumLengths(levels) < U32Modulus
    ensures var t := MipTable(width, height, levels);
            && t[i].size == |levels[i]|
            && t[i].offset == SumLengths(levels[..i])
            && (i == 0 ==> t[i].offset == 0)
            && (i + 1 < |levels| ==> t[i + 1].offset == t[i].offset + t[i].size)
  {
    ConcatAt(levels, i);
    if i + 1 < |levels| {
      SumLengthsStep(levels, i);
      ConcatAt(levels, i + 1);
    }
  }

  /** The header and the table take exactly data_offset bytes. */
  lemma SavedPrefixLength(width: U32, height: U32, channels: U32, flags: U32, levels: seq<seq<Byte>>)
    requires FitsU32(levels)
    ensures |SavedPrefix(width, height, channels, flags, levels)|
            == SavedHeader(width, height, channels, flags, |levels|).dataOffset
  {
    TableLength(MipTable(width, height, levels));
    SavedHeaderFields(width, height, channels, flags, |levels|);
  }

  /** Entry `i` of the table locates level `i` within the data region. */
  lemma EntryLocatesLevel(width: U32, height: U32, levels: seq<seq<Byte>>, i: nat)
    requires i < |levels|
    requires SumLengths(levels) < U32Modulus
    ensures var e := MipTable(width, height, levels)[i];
            && e.offset + e.size <= |Concat(levels)| && e.size == |levels[i]|
            && Concat(levels)[e.offset..e.offset + e.size] == levels[i]
  {
    ConcatAt(levels, i);
    MipTableOffsets(width, height, levels, i);
  }

  /** Level `i` is found at data_offset + offset for size bytes: the table entry's
      offset is relative to data_offset, not to the start of the file. */
  lemma LevelAtTableOffset(width: U32, height: U32, channels: U32, flags: U32,
                           levels: seq<seq<Byte>>, i: nat)
    requires i < |levels|
    requires FitsU32(levels)
    ensures var f := DstFile(width, height, channels, flags, levels);
            var h := SavedHeader(width, height, channels, flags, |levels|);
            var e := MipTable(width, height, levels)[i];
            && h.dataOffset + e.offset + e.size <= |f|
            && f[h.dataOffset + e.offset..h.dataOffset + e.offset + e.size] == levels[i]
  {
    var p := SavedPrefix(width, height, channels, flags, levels);
    var e := MipTable(width, height, levels)[i];
    assert |p| == SavedHeader(width, height, channels, flags, |levels|).dataOffset by {
      SavedPrefixLength(width, height, channels, flags, levels);
    }
    assert e.offset + e.size <= |Concat(levels)| && e.size == |levels[i]|
           && Concat(levels)[e.offset..e.offset + e.size] == levels[i] by {
      EntryLocatesLevel(width, height, levels, i);
    }
    LocatedAfterPrefix(p, Concat(levels), e, levels[i]);
  }

  // ---------------------------------------------------------------------------
  // Reading a file back

  /** A parsed file: its header, its table and the level bytes the table locates. */
  datatype DstContents = DstContents(header: DstHeader, table: seq<DstMipInfo>, levels: seq<seq<Byte>>)

  function DecodeTable(b: seq<Byte>, n: nat): (t: seq<DstMipInfo>)
    requires |b| == MipInfoSize * n
    ensures |t| == n
  {
    seq(n, i requires 0 <= i < n => DecodeMipInfo(b[MipInfoSize * i..MipInfoSize * i + MipInfoSize]))
  }

  /** Decoding an encoded table gives the table back. */
  lemma DecodeTableRoundTrip(table: seq<DstMipInfo>)
    ensures |EncodeTable(table)| == MipInfoSize * |table|
    ensures DecodeTable(EncodeTable(table), |table|) == table
  {
    TableLength(table);
    var b := EncodeTable(table);
    forall i | 0 <= i < |table|
      ensures DecodeMipInfo(b[MipInfoSize * i..MipInfoSize * i + MipInfoSize]) == table[i]
    {
      TableEntryAt(table, i);
      MipInfoRoundTrip(table[i]);
    }
  }

  /** Every level the table describes lies within a file of `fileLength` bytes. */
  predicate LevelsInFile(table: seq<DstMipInfo>, dataOffset: nat, fileLength: nat) {
    forall i :: 0 <= i < |table| ==> dataOffset + table[i].offset + table[i].size <= fileLength
  }

  /** The table a file's header announces, read from the bytes after the header. */
  function ReadTable(b: seq<Byte>, h: DstHeader): (t: seq<DstMipInfo>)
    requires HeaderSize + MipInfoSize * h.mipLevels <= |b|
    ensures |t| == h.mipLevels
  {
    DecodeTable(b[HeaderSize..HeaderSize + MipInfoSize * h.mipLevels], h.mipLevels)
  }

  /** The level bytes a table locates, `dataOffset` bytes into the file. */
  function ReadLevels(b: seq<Byte>, dataOffset: nat, table: seq<DstMipInfo>): (levels: seq<seq<Byte>>)
    requires LevelsInFile(table, dataOffset, |b|)
    ensures |levels| == |table|
  {
    seq(|table|, i requires 0 <= i < |table| =>
      b[dataOffset + table[i].offset..dataOffset + table[i].offset + table[i].size])
  }

  /** Reads a file: None when it is shorter than its header or table, has another
      magic, or has a level that reaches past its end. */
  function ParseDst(b: seq<Byte>): Option<DstContents> {
    if |b| < HeaderSize then None
    else
      var h := DecodeHeader(b[..HeaderSize]);
      if h.magic != DefaultMagic || |b| < HeaderSize + MipInfoSize * h.mipLevels then None
      else
        var table := ReadTable(b, h);
        if !LevelsInFile(table, h.dataOffset, |b|) then None
        else Some(DstContents(h, table, ReadLevels(b, h.dataOffset, table)))
  }

  /** A header followed by anything reads back as that header. */
  lemma HeaderPrefixReads(h: DstHeader, rest: seq<Byte>)
    requires |h.magic| == 4
    ensures HeaderSize <= |EncodeHeader(h) + rest|
    ensures DecodeHeader((EncodeHeader(h) + rest)[..HeaderSize]) == h
  {
    assert (EncodeHeader(h) + rest)[..HeaderSize] == EncodeHeader(h);
    HeaderRoundTrip(h);
  }

  /** The first 32 bytes of a saved file read back as the header written. */
  lemma SavedHeaderReads(width: U32, height: U32, channels: U32, flags: U32, levels: seq<seq<Byte>>)
    ensures var f := DstFile(width, height, channels, flags, levels);
            HeaderSize <= |f| && DecodeHeader(f[..HeaderSize]) == SavedHeader(width, height, channels, flags, |levels|)
  {
    var header := SavedHeader(width, height, channels, flags, |levels|);
    var rest := EncodeTable(MipTable(width, height, levels)) + Concat(levels);
    assert DstFile(width, height, channels, flags, levels) == EncodeHeader(header) + rest;
    HeaderPrefixReads(header, rest);
  }

  /** The table of a saved file reads back as the table written. */
  lemma SavedTableReads(width: U32, height: U32, channels: U32, flags: U32, levels: seq<seq<Byte>>)
    requires FitsU32(levels)
    ensures var f := DstFile(width, height, channels, flags, levels);
            var h := SavedHeader(width, height, channels, flags, |levels|);
            && HeaderSize + MipInfoSize * h.mipLevels <= |f|
            && ReadTable(f, h) == MipTable(width, height, levels)
  {
    var f := DstFile(width, height, channels, flags, levels);
    var header := SavedHeader(width, height, channels, flags, |levels|);
    var table := MipTable(width, height, levels);
    var n := |levels|;
    SavedHeaderFields(width, height, channels, flags, n);
    TableLength(table);
    DstFileLength(width, height, channels, flags, levels);
    SliceAfterPrefix(EncodeHeader(header), EncodeTable(table) + Concat(levels), 0, MipInfoSize * n);
    assert f == EncodeHeader(header) + (EncodeTable(table) + Concat(levels));
    assert f[HeaderSize..HeaderSize + MipInfoSize * n] == EncodeTable(table);
    DecodeTableRoundTrip(table);
  }

  /** ReadLevels gives back `levels` when each table entry locates the matching level. */
  lemma ReadLevelsLocated(b: seq<Byte>, dataOffset: nat, table: seq<DstMipInfo>, levels: seq<seq<Byte>>)
    requires |table| == |levels|
    requires forall i :: 0 <= i < |table| ==>
               && dataOffset + table[i].offset + table[i].size <= |b|
               && b[dataOffset + table[i].offset..dataOffset + table[i].offset + table[i].size] == levels[i]
    ensures LevelsInFile(table, dataOffset, |b|)
    ensures ReadLevels(b, dataOffset, table) == levels
  {
  }

  /** The levels a saved file's table locates are the levels written. */
  lemma SavedLevelsRead(width: U32, height: U32, channels: U32, flags: U32, levels: seq<seq<Byte>>)
    requires FitsU32(levels)
    ensures var f := DstFile(width, height, channels, flags, levels);
            var h := SavedHeader(width, height, channels, flags, |levels|);
            var t := MipTable(width, height, levels);
            && LevelsInFile(t, h.dataOffset, |f|)
            && ReadLevels(f, h.dataOffset, t) == levels
  {
    var f := DstFile(width, height, channels, flags, levels);
    var off := SavedHeader(width, height, channels, flags, |levels|).dataOffset;
    var table := MipTable(width, height, levels);
    forall i | 0 <= i < |levels|
      ensures off + table[i].offset + table[i].size <= |f|
      ensures f[off + table[i].offset..off + table[i].offset + table[i].size] == levels[i]
    {
      LevelAtTableOffset(width, height, channels, flags, levels, i);
    }
    ReadLevelsLocated(f, off, table, levels);
  }

  /** Reading a saved file back gives the header and the table that were written
      and every level's bytes, when the file fits the uint32_t fields. */
  lemma SaveParseRoundTrip(width: U32, height: U32, channels: U32, flags: U32, levels: seq<seq<Byte>>)
    requires FitsU32(levels)
    ensures ParseDst(DstFile(width, height, channels, flags, levels))
            == Some(DstContents(SavedHeader(width, height, channels, flags, |levels|),
                                MipTable(width, height, levels), levels))
  {
    SavedHeaderReads(width, height, channels, flags, levels);
    SavedHeaderFields(width, height, channels, flags, |levels|);
    SavedTableReads(width, height, channels, flags, levels);
    SavedLevelsRead(width, height, channels, flags, levels);
  }
}
