/**
  DSTexture: a texture's base dimensions, its channel count and its mip chain,
  one byte buffer per level. CreateFromFile wraps what the image decoder
  returns as the base level, GenerateMipmaps appends the halved levels and
  SaveToFile produces the bytes of a "DST" file. The decoder's and the
  resampler's pixel values are not modelled: the decoder's result is a
  parameter and each resampled level is some buffer of the right length.
*/
module Textures {
  import opened Options
  import opened DstFormat
  import opened Mips

  /** What stbi_load returns when it succeeds: dimensions, channel count and
      pixel buffer. */
  datatype DecodedImage = DecodedImage(width: int, height: int, channels: int, pixels: seq<Byte>) {
    /** What the decoder guarantees: positive dimensions, one to four channels,
        a byte count that fits an int, and a buffer of exactly that many bytes. */
    predicate Valid()
      ensures Valid() ==> 1 <= |pixels| <= IntMax
    {
      && 1 <= width && 1 <= height && 1 <= channels <= 4
      && width * height * channels <= IntMax
      && |pixels| == width * height * channels
    }
  }

  /** The byte count of every level. */
  function Sizes(levels: seq<seq<Byte>>): (r: seq<nat>)
    ensures |r| == |levels|
  {
    seq(|levels|, i requires 0 <= i < |levels| => |levels[i]|)
  }

  /** The levels form the chain GenerateMipmaps builds from a single base level:
      the base and one level per step, level k holding the bytes of the
      dimensions after k steps. */
  ghost predicate IsChain(width: nat, height: nat, channels: nat, levels: seq<seq<Byte>>) {
    && |levels| == 1 + MipSteps(width, height)
    && forall k :: 0 <= k < |levels| ==> |levels[k]| == LevelBytes(width, height, channels, k)
  }

  class DSTexture {
    var width: U32
    var height: U32
    var channels: U32
    var mipmaps: seq<seq<Byte>>

    /** Once there is a base level it holds width * height * channels bytes for
        the dimensions and the channel count the decoder reported. */
    ghost predicate Valid()
      reads this
    {
      mipmaps != [] ==>
        && 1 <= width && 1 <= height && 1 <= channels <= 4
        && width * height * channels <= IntMax
        && |mipmaps[0]| == width * height * channels
    }

    /** Null when the decoder fails; otherwise a new texture with the decoder's
        dimensions and channel count and its pixels as the only level. */
    static method CreateFromFile(decoded: Option<DecodedImage>) returns (tex: DSTexture?)
      requires decoded.Some? ==> decoded.value.Valid()
      ensures tex == null <==> decoded.None?
      ensures tex != null ==>
        && fresh(tex) && tex.Valid()
        && tex.width == decoded.value.width && tex.height == decoded.value.height
        && tex.channels == decoded.value.channels
        && tex.mipmaps == [decoded.value.pixels]
    {
      if decoded.None? {
        return null;
      }
      var image := decoded.value;
      tex := new DSTexture;
      tex.width := image.width;
      tex.height := image.height;
      tex.channels := image.channels;
      var size := image.width * image.height * image.channels;
      assert |image.pixels| == size;
      assert image.pixels[..size] == image.pixels;
      tex.mipmaps := [image.pixels[..size]];
    }

    function GetWidth(): (r: U32)
      reads this
      ensures r == width
    {
      width
    }

    function GetHeight(): (r: U32)
      reads this
      ensures r == height
    {
      height
    }

    function GetChannels(): (r: U32)
      reads this
      ensures r == channels
    {
      channels
    }

    /** False, changing nothing, when there is no base level. Otherwise true,
        with one level appended per mip step, after the levels already there,
        each of LevelBytes for the dimensions of its step; from a single base
        level this builds the whole chain. */
    method GenerateMipmaps() returns (ok: bool)
      requires Valid()
      modifies this
      ensures Valid()
      ensures width == old(width) && height == old(height) && channels == old(channels)
      ensures ok <==> old(mipmaps) != []
      ensures !ok ==> mipmaps == old(mipmaps)
      ensures ok ==>
        && |mipmaps| >= |old(mipmaps)|
        && mipmaps[..|old(mipmaps)|] == old(mipmaps)
        && Sizes(mipmaps) == Sizes(old(mipmaps)) + StepSizes(width, height, channels)
    {
      if mipmaps == [] {
        return false;
      }
      var w: nat := width;
      var h: nat := height;
      var levels := mipmaps;
      while w > 1 || h > 1
        invariant |levels| >= |mipmaps| && levels[..|mipmaps|] == mipmaps
        invariant Sizes(levels) + StepSizes(w, h, channels)
                  == Sizes(mipmaps) + StepSizes(width, height, channels)
        modifies {}
        decreases Max(w, h)
      {
        w := Halve(w);
        h := Halve(h);
        // No level is larger than the base (LevelBytesBound), so w * h fits an
        // int and the product with the channel count does not wrap.
        var size := w * h * channels;
        ProductNonNegative(w, h, channels);
        assert |seq(size, _ => 0)| == size;
        var level: seq<Byte> :| |level| == size;
        SizesSnoc(levels, level);
        AppendAssoc(Sizes(levels), [size], StepSizes(w, h, channels));
        levels := levels + [level];
      }
      mipmaps := levels;
      ok := true;
    }

    /** False, writing nothing, when the file cannot be opened; otherwise true,
        having written the header, the mip table and the level bytes. `flags`
        stands for the header field SaveToFile never assigns. */
    method SaveToFile(isOpen: bool, flags: U32) returns (ok: bool, written: seq<Byte>)
      ensures ok == isOpen
      ensures written == if isOpen then DstFile(width, height, channels, flags, mipmaps) else []
    {
      if !isOpen {
        return false, [];
      }
      var mipLevels := Wrap32(|mipmaps|);
      var header := DstHeader(DefaultMagic, DefaultVersion, width, height, channels, mipLevels,
                              flags, Wrap32(HeaderSize + mipLevels * MipInfoSize));
      assert header == SavedHeader(width, height, channels, flags, |mipmaps|);
      written := EncodeHeader(header);
      var table := WriteMipTable(width, height, mipmaps);
      written := written + table;
      var data := WriteLevels(mipmaps);
      written := written + data;
      ok := true;
    }
  }

  /** SaveToFile's table loop: one entry per level, with the base dimensions
      shifted right by the level index (at least 1), the level's byte count and
      the running uint32_t offset of the level after data_offset. */
  method WriteMipTable(width: U32, height: U32, levels: seq<seq<Byte>>) returns (written: seq<Byte>)
    ensures written == EncodeTable(MipTable(width, height, levels))
  {
    written := [];
    ghost var table := MipTable(width, height, levels);
    var offset: U32 := 0;
    for i := 0 to |levels|
      invariant offset == Wrap32(SumLengths(levels[..i]))
      invariant written == EncodeTable(table[..i])
    {
      var info := DstMipInfo(MaxOne(Shr(width, i)), MaxOne(Shr(height, i)),
                             Wrap32(|levels[i]|), offset);
      TableStep(width, height, levels, i, offset, info);
      OffsetStep(levels, i, offset, info.size);
      written := written + EncodeMipInfo(info);
      offset := Wrap32(offset + info.size);
    }
    assert table[..|levels|] == table;
  }

  /** SaveToFile's data loop: the level buffers one after the other. */
  method WriteLevels(levels: seq<seq<Byte>>) returns (written: seq<Byte>)
    ensures written == Concat(levels)
  {
    written := [];
    for j := 0 to |levels|
      invariant written == Concat(levels[..j])
    {
      ConcatSnoc(levels, j);
      written := written + levels[j];
    }
    assert levels[..|levels|] == levels;
  }

  /** One turn of SaveToFile's table loop: the entry computed from the running
      offset is entry i of the table, so the bytes written so far are the first
      i + 1 entries. */
  lemma TableStep(width: U32, height: U32, levels: seq<seq<Byte>>, i: nat, offset: U32, info: DstMipInfo)
    requires i < |levels|
    requires offset == Wrap32(SumLengths(levels[..i]))
    requires info == DstMipInfo(MaxOne(Shr(width, i)), MaxOne(Shr(height, i)), Wrap32(|levels[i]|), offset)
    ensures EncodeTable(MipTable(width, height, levels)[..i + 1])
            == EncodeTable(MipTable(width, height, levels)[..i]) + EncodeMipInfo(info)
  {
    var t := MipTable(width, height, levels);
    assert t[i] == info;
    EncodeTableSnoc(t, i);
  }

  /** Appending a level appends its byte count. */
  lemma SizesSnoc(levels: seq<seq<Byte>>, level: seq<Byte>)
    ensures Sizes(levels + [level]) == Sizes(levels) + [|level|]
  {
  }

  /** GenerateMipmaps on a texture whose only level is its base builds a chain. */
  lemma {:induction false} GeneratedChain(width: nat, height: nat, channels: nat, levels: seq<seq<Byte>>)
    requires |levels| >= 1 && |levels[0]| == width * height * channels
    requires Sizes(levels) == Sizes(levels[..1]) + StepSizes(width, height, channels)
    ensures IsChain(width, height, channels, levels)
  {
    StepSizesAreLevels(width, height, channels);
    forall k | 0 <= k < |levels|
      ensures |levels[k]| == LevelBytes(width, height, channels, k)
    {
      if k > 0 {
        assert Sizes(levels)[k] == |levels[k]|;
      }
    }
  }

  /** Every table entry SaveToFile writes for a chain describes its level: the
      dimensions max(1, W >> k) and max(1, H >> k) are those of step k, the size
      is the level's byte count, and no shift reaches 32. */
  lemma ChainTable(width: U32, height: U32, channels: U32, levels: seq<seq<Byte>>)
    requires 1 <= width && 1 <= height && 1 <= channels
    requires width * height * channels <= IntMax
    requires IsChain(width, height, channels, levels)
    ensures |levels| <= 31
    ensures forall k :: 0 <= k < |levels| ==>
              && MipTable(width, height, levels)[k].width == HalveN(width, k)
              && MipTable(width, height, levels)[k].height == HalveN(height, k)
              && MipTable(width, height, levels)[k].size == |levels[k]|
              == LevelBytes(width, height, channels, k)
  {
    BaseDimensionsBound(width, height, channels);
    MipStepsBound(width, height);
    forall k | 0 <= k < |levels|
      ensures MipTable(width, height, levels)[k].width == HalveN(width, k)
      ensures MipTable(width, height, levels)[k].height == HalveN(height, k)
      ensures MipTable(width, height, levels)[k].size == |levels[k]|
    {
      ChainEntry(width, height, channels, levels, k);
    }
  }

  /** Each dimension of a base that fits an int fits an int. */
  lemma BaseDimensionsBound(width: nat, height: nat, channels: nat)
    requires 1 <= width && 1 <= height && 1 <= channels
    requires width * height * channels <= IntMax
    ensures width <= IntMax && height <= IntMax
  {
    ProductMonotone(1, 1, channels, width, height);
    ProductMonotone(1, height, 1, width, height);
    ProductMonotone(width, 1, 1, width, height);
    ProductMonotone(width, height, 1, width, height * channels);
  }

  /** Entry k of the table SaveToFile writes for a chain. */
  lemma ChainEntry(width: U32, height: U32, channels: U32, levels: seq<seq<Byte>>, k: nat)
    requires 1 <= width && 1 <= height && 1 <= channels
    requires width * height * channels <= IntMax
    requires IsChain(width, height, channels, levels)
    requires k < |levels|
    ensures MipTable(width, height, levels)[k].width == HalveN(width, k)
    ensures MipTable(width, height, levels)[k].height == HalveN(height, k)
    ensures MipTable(width, height, levels)[k].size == |levels[k]|
  {
    HalveNIsShift(width, k);
    HalveNIsShift(height, k);
    LevelBytesBound(width, height, channels, k);
  }

  /** A chain ends in a 1 x 1 level, and every level before the last is larger
      than 1 x 1 in at least one dimension. */
  lemma ChainEndsAtOnePixel(width: nat, height: nat, channels: nat, levels: seq<seq<Byte>>)
    requires 1 <= width && 1 <= height
    requires IsChain(width, height, channels, levels)
    ensures HalveN(width, |levels| - 1) == 1 && HalveN(height, |levels| - 1) == 1
    ensures |levels[|levels| - 1]| == channels
    ensures forall k :: 0 <= k < |levels| - 1 ==> HalveN(width, k) > 1 || HalveN(height, k) > 1
  {
    var n := |levels| - 1;
    MipStepsReachUnit(width, height);
    MipStepsBeforeUnit(width, height);
    HalveNBounds(width, n);
    HalveNBounds(height, n);
    assert HalveN(width, n) == 1 && HalveN(height, n) == 1;
    assert |levels[n]| == LevelBytes(width, height, channels, n);
  }
}
