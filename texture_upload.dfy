/** `DeviceExt::create_texture_with_data`: one tightly packed byte buffer cut
    into one `write_texture` call per (layer, mip level), layer-major with mips
    ascending. Each call is recorded as a `TextureWrite`; the slice it passes is
    `data[start .. end]`. */
module TextureUpload {
  import opened Common

  /** `u8::MAX`: the largest mip level count the walk accepts. */
  const MAX_MIP_LEVEL_COUNT: nat := 255

  /** Products of `u32` operands must stay below this. */
  const U32_LIMIT: nat := 0x1_0000_0000

  datatype TextureDimension = D1 | D2 | D3

  datatype Extent3d = Extent3d(width: nat, height: nat, depth: nat)

  datatype Origin3d = Origin3d(x: nat, y: nat, z: nat)

  datatype TextureDataLayout = TextureDataLayout(offset: nat, bytesPerRow: nat, rowsPerImage: nat)

  /** The parts of a `TextureDescriptor` the upload reads. */
  datatype TextureDescriptor = TextureDescriptor(size: Extent3d, mipLevelCount: nat, dimension: TextureDimension)

  /** `desc.format.describe()`: block dimensions in texels and bytes per block. */
  datatype FormatInfo = FormatInfo(blockWidth: nat, blockHeight: nat, blockSize: nat)

  /** Every format has blocks of at least one texel; all three fields are `u8`. */
  predicate ValidFormatInfo(info: FormatInfo)
  {
    1 <= info.blockWidth <= 255 && 1 <= info.blockHeight <= 255 && info.blockSize <= 255
  }

  /** `Extent3d::at_mip_level` and `Extent3d::physical_size` for the texture's
      format: the extent of a mip level (none when the level does not exist)
      and that extent rounded up to whole blocks. */
  datatype ExtentRules = ExtentRules(atMipLevel: (Extent3d, nat) -> Option<Extent3d>, physicalSize: Extent3d -> Extent3d)

  /** One `queue.write_texture` call. */
  datatype TextureWrite = TextureWrite(
    mipLevel: nat, origin: Origin3d, start: nat, end: nat, layout: TextureDataLayout, size: Extent3d)

  /** The panics of the walk, as values. */
  datatype UploadError =
    | MipCountOverflow(count: nat)              // `u8::try_from(..).expect(..)`
    | MipLevelMissing(mip: nat)                 // `at_mip_level(mip).unwrap()`
    | ArithmeticOverflow(mip: nat)              // a `u32` product overflows
    | OutOfBounds(start: nat, end: nat, length: nat)  // `&data[binary_offset..end_offset]`

  /** A 3D texture is walked as one layer of full depth; any other texture as
      one layer per depth slice, each slice one texel deep. */
  function IterationShape(desc: TextureDescriptor): (nat, Extent3d)
  {
    if desc.dimension == D3 then (1, desc.size) else (desc.size.depth, desc.size.(depth := 1))
  }

  /** The layers of the walk, each of the depth `IterationShape` gives it,
      span exactly the texture's depth, and every layer has the texture's
      width and height: a 3D texture is one layer, any other texture has
      layers one texel deep. */
  lemma IterationShapeSpansDepth(desc: TextureDescriptor)
    ensures var (layers, mipExtent) := IterationShape(desc);
            layers * mipExtent.depth == desc.size.depth
            && mipExtent.width == desc.size.width && mipExtent.height == desc.size.height
            && (desc.dimension == D3 ==> layers == 1)
            && (desc.dimension != D3 ==> mipExtent.depth == 1)
  {
  }

  /** What one mip level contributes: its physical extent, its row pitch and
      its byte size. */
  datatype MipLayout = MipLayout(physical: Extent3d, bytesPerRow: nat, dataSize: nat)

  /** A count of blocks times a size per block. The two products of the
      per-mip arithmetic go through this one function so that the layout, its
      contract and the lemmas about it name the same term. */
  function Product(a: nat, b: nat): nat
  {
    a * b
  }

  /** The per-mip arithmetic of one loop iteration, on the physical size:
      whole blocks per row times block size, times block rows. */
  function MipLayoutOf(info: FormatInfo, rules: ExtentRules, mipExtent: Extent3d, mip: nat): (r: Result<MipLayout, UploadError>)
    requires ValidFormatInfo(info)
    ensures rules.atMipLevel(mipExtent, mip).None? <==> r == Err(MipLevelMissing(mip))
    ensures r.Ok? ==> r.value.bytesPerRow < U32_LIMIT && r.value.dataSize < U32_LIMIT
    ensures r.Err? ==> r.error == MipLevelMissing(mip) || r.error == ArithmeticOverflow(mip)
  {
    match rules.atMipLevel(mipExtent, mip)
    case None => Err(MipLevelMissing(mip))
    case Some(mipSize) =>
      var physical := rules.physicalSize(mipSize);
      var widthBlocks := physical.width / info.blockWidth;
      var heightBlocks := physical.height / info.blockHeight;
      var bytesPerRow := Product(widthBlocks, info.blockSize);
      if bytesPerRow >= U32_LIMIT then Err(ArithmeticOverflow(mip))
      else
        var dataSize := Product(bytesPerRow, heightBlocks);
        if dataSize >= U32_LIMIT then Err(ArithmeticOverflow(mip))
        else Ok(MipLayout(physical, bytesPerRow, dataSize))
  }

  /** The per-mip arithmetic succeeds exactly when the mip level exists and
      both the row pitch and the level size fit in `u32`. */
  lemma MipLayoutSucceedsIff(info: FormatInfo, rules: ExtentRules, mipExtent: Extent3d, mip: nat)
    requires ValidFormatInfo(info)
    ensures MipLayoutOf(info, rules, mipExtent, mip).Ok?
            <==> rules.atMipLevel(mipExtent, mip).Some?
                 && var p := rules.physicalSize(rules.atMipLevel(mipExtent, mip).value);
                    (p.width / info.blockWidth) * info.blockSize < U32_LIMIT
                    && (p.width / info.blockWidth) * info.blockSize * (p.height / info.blockHeight) < U32_LIMIT
  {
  }

  /** A mip level that exists is uploaded at its physical size, with a row
      pitch of whole blocks per row times the block size, and a byte size of
      the row pitch times the block rows. */
  lemma MipLayoutArithmetic(info: FormatInfo, rules: ExtentRules, mipExtent: Extent3d, mip: nat)
    requires ValidFormatInfo(info)
    requires MipLayoutOf(info, rules, mipExtent, mip).Ok?
    ensures rules.atMipLevel(mipExtent, mip).Some?
    ensures var l := MipLayoutOf(info, rules, mipExtent, mip).value;
            l.physical == rules.physicalSize(rules.atMipLevel(mipExtent, mip).value)
            && l.bytesPerRow == (l.physical.width / info.blockWidth) * info.blockSize
            && l.dataSize == l.bytesPerRow * (l.physical.height / info.blockHeight)
  {
  }

  /** When the physical extent is made of whole blocks, a mip level's bytes are
      exactly its blocks times the block size, and a row of blocks is
      `bytesPerRow` bytes. */
  lemma MipLayoutCoversBlocks(info: FormatInfo, rules: ExtentRules, mipExtent: Extent3d, mip: nat)
    requires ValidFormatInfo(info)
    requires MipLayoutOf(info, rules, mipExtent, mip).Ok?
    requires var p := MipLayoutOf(info, rules, mipExtent, mip).value.physical;
             p.width % info.blockWidth == 0 && p.height % info.blockHeight == 0
    ensures var l := MipLayoutOf(info, rules, mipExtent, mip).value;
            l.bytesPerRow * info.blockWidth == l.physical.width * info.blockSize
            && l.dataSize * (info.blockWidth * info.blockHeight) == l.physical.width * l.physical.height * info.blockSize
  {
    var l := MipLayoutOf(info, rules, mipExtent, mip).value;
    MipLayoutArithmetic(info, rules, mipExtent, mip);
    var bw, bh, bs := info.blockWidth, info.blockHeight, info.blockSize;
    var wb, hb := l.physical.width / bw, l.physical.height / bh;
    assert l.physical.width == wb * bw;
    assert l.physical.height == hb * bh;
    assert l.bytesPerRow == wb * bs;
    assert l.dataSize == wb * bs * hb;
    calc {
      l.dataSize * (bw * bh);
      (wb * bs * hb) * (bw * bh);
      { MulRearrange(wb, bs, hb, bw, bh); }
      (wb * bw) * (hb * bh) * bs;
    }
  }

  lemma MulRearrange(a: nat, b: nat, c: nat, d: nat, e: nat)
    ensures (a * b * c) * (d * e) == (a * d) * (c * e) * b
  {
  }

  /** The layouts of mips `0 .. count`, stopping at the first level whose
      arithmetic fails. */
  function MipChain(info: FormatInfo, rules: ExtentRules, mipExtent: Extent3d, count: nat): (chain: seq<MipLayout>)
    requires ValidFormatInfo(info)
    ensures |chain| <= count
    ensures forall m :: 0 <= m < |chain| ==> MipLayoutOf(info, rules, mipExtent, m) == Ok(chain[m])
    ensures |chain| < count ==> MipLayoutOf(info, rules, mipExtent, |chain|).Err?
  {
    if count == 0 then []
    else
      var chain := MipChain(info, rules, mipExtent, count - 1);
      if |chain| < count - 1 then chain
      else match MipLayoutOf(info, rules, mipExtent, count - 1)
        case Ok(layout) => chain + [layout]
        case Err(_) => chain
  }

  /** The bytes of a run of mip levels. */
  function SumSizes(chain: seq<MipLayout>): nat
  {
    if chain == [] then 0 else SumSizes(chain[..|chain| - 1]) + chain[|chain| - 1].dataSize
  }

  lemma {:induction false} SumSizesPrefix(chain: seq<MipLayout>, m: nat)
    requires m < |chain|
    ensures SumSizes(chain[..m + 1]) == SumSizes(chain[..m]) + chain[m].dataSize
  {
    assert chain[..m + 1][..m] == chain[..m];
  }

  /** Where a layer's data begins: after `layer` whole layers of mips. */
  function LayerStart(chain: seq<MipLayout>, layer: nat): nat
  {
    if layer == 0 then 0 else LayerStart(chain, layer - 1) + SumSizes(chain)
  }

  /** Every layer holds the same bytes, so layer `layer` starts at
      `layer * LayerBytes`. */
  lemma {:induction false} LayerStartIsProduct(chain: seq<MipLayout>, layer: nat)
    ensures LayerStart(chain, layer) == layer * SumSizes(chain)
  {
    if layer > 0 {
      LayerStartIsProduct(chain, layer - 1);
      assert layer * SumSizes(chain) == (layer - 1) * SumSizes(chain) + SumSizes(chain);
    }
  }

  /** The write for (layer, mip): its slice starts after all earlier layers and
      all lower mips of this layer. */
  function PlannedWrite(chain: seq<MipLayout>, layer: nat, mip: nat): TextureWrite
    requires mip < |chain|
  {
    var start := LayerStart(chain, layer) + SumSizes(chain[..mip]);
    TextureWrite(mip, Origin3d(0, 0, layer), start, start + chain[mip].dataSize,
                 TextureDataLayout(0, chain[mip].bytesPerRow, 0), chain[mip].physical)
  }

  /** The slices of a log of writes follow one another from offset 0. */
  ghost predicate Contiguous(writes: seq<TextureWrite>)
  {
    (|writes| > 0 ==> writes[0].start == 0)
    && (forall i :: 0 <= i < |writes| ==> writes[i].start <= writes[i].end)
    && (forall i :: 0 < i < |writes| ==> writes[i].start == writes[i - 1].end)
  }

  /** How far into the data buffer a log of writes has read. */
  function Consumed(writes: seq<TextureWrite>): nat
  {
    if writes == [] then 0 else writes[|writes| - 1].end
  }

  /** Every slice of a log lies inside a data buffer of `dataLength` bytes. */
  ghost predicate WithinData(writes: seq<TextureWrite>, dataLength: nat)
  {
    forall i :: 0 <= i < |writes| ==> writes[i].end <= dataLength
  }

  /** The bytes the slices of a log hold, all together. */
  function SliceBytes(writes: seq<TextureWrite>): int
  {
    if writes == [] then 0 else SliceBytes(writes[..|writes| - 1]) + writes[|writes| - 1].end - writes[|writes| - 1].start
  }

  /** Appending a write that starts where the log ends keeps it contiguous. */
  lemma ContiguousStep(writes: seq<TextureWrite>, w: TextureWrite)
    requires Contiguous(writes)
    requires w.start == Consumed(writes) <= w.end
    ensures Contiguous(writes + [w]) && Consumed(writes + [w]) == w.end
  {
  }

  /** Slices of a contiguous log come in increasing order and do not overlap. */
  lemma {:induction false} ContiguousOrdered(writes: seq<TextureWrite>, i: nat, j: nat)
    requires Contiguous(writes)
    requires i < j < |writes|
    ensures writes[i].end <= writes[j].start
    decreases j - i
  {
    if i + 1 < j {
      ContiguousOrdered(writes, i + 1, j);
    }
  }

  /** Every byte below the end of a contiguous log lies in exactly one slice. */
  lemma {:induction false} ContiguousCovers(writes: seq<TextureWrite>, b: nat)
    requires Contiguous(writes)
    requires b < Consumed(writes)
    ensures exists i :: 0 <= i < |writes| && writes[i].start <= b < writes[i].end
    ensures forall i, j ::
              (0 <= i < |writes| && 0 <= j < |writes|
               && writes[i].start <= b < writes[i].end && writes[j].start <= b < writes[j].end)
              ==> i == j
  {
    var last := |writes| - 1;
    if b < writes[last].start {
      var front := writes[..last];
      assert Contiguous(front);
      ContiguousCovers(front, b);
      var i :| 0 <= i < |front| && front[i].start <= b < front[i].end;
      assert writes[i] == front[i];
    } else {
      assert writes[last].start <= b < writes[last].end;
    }
    forall i, j | 0 <= i < |writes| && 0 <= j < |writes|
        && writes[i].start <= b < writes[i].end && writes[j].start <= b < writes[j].end
      ensures i == j
    {
      if i < j {
        ContiguousOrdered(writes, i, j);
      } else if j < i {
        ContiguousOrdered(writes, j, i);
      }
    }
  }

  /** The end of a contiguous log is the sum of its slices' sizes. */
  lemma {:induction false} ContiguousConsumedIsSum(writes: seq<TextureWrite>)
    requires Contiguous(writes)
    ensures Consumed(writes) == SliceBytes(writes)
  {
    if |writes| > 1 {
      var front := writes[..|writes| - 1];
      assert Contiguous(front);
      ContiguousConsumedIsSum(front);
    }
  }

  /** The writes for every mip of one layer, mips ascending. */
  function LayerLog(chain: seq<MipLayout>, layer: nat): (log: seq<TextureWrite>)
    ensures |log| == |chain|
    ensures forall mip :: 0 <= mip < |chain| ==> log[mip] == PlannedWrite(chain, layer, mip)
  {
    seq(|chain|, mip requires 0 <= mip < |chain| => PlannedWrite(chain, layer, mip))
  }

  /** The writes for the first `layers` layers, layer-major. */
  function PlannedLog(chain: seq<MipLayout>, layers: nat): seq<TextureWrite>
  {
    if layers == 0 then [] else PlannedLog(chain, layers - 1) + LayerLog(chain, layers - 1)
  }

  /** The plan has one write per (layer, mip). */
  lemma {:induction false} PlannedLogLength(chain: seq<MipLayout>, layers: nat)
    ensures |PlannedLog(chain, layers)| == layers * |chain|
  {
    if layers > 0 {
      PlannedLogLength(chain, layers - 1);
      assert layers * |chain| == (layers - 1) * |chain| + |chain|;
    }
  }

  /** Entry `i` of the plan is the write for layer `i / |chain|`, mip `i % |chain|`. */
  lemma {:induction false} PlannedLogAt(chain: seq<MipLayout>, layers: nat, i: nat)
    requires i < |PlannedLog(chain, layers)|
    ensures |chain| > 0 && i % |chain| < |chain|
    ensures PlannedLog(chain, layers)[i] == PlannedWrite(chain, i / |chain|, i % |chain|)
  {
    var n := |chain|;
    var before := PlannedLog(chain, layers - 1);
    if i < |before| {
      PlannedLogAt(chain, layers - 1, i);
    } else {
      PlannedLogLength(chain, layers - 1);
      var j := i - |before|;
      QuotientRemainder(i, layers - 1, j, n);
    }
  }

  /** The plan up to (layer, mip) is contiguous from offset 0 and ends after
      `layer` whole layers and the mips of this layer below `mip`. */
  lemma {:induction false} PlanPrefix(chain: seq<MipLayout>, layer: nat, mip: nat)
    requires mip <= |chain|
    ensures var writes := PlannedLog(chain, layer) + LayerLog(chain, layer)[..mip];
            Contiguous(writes) && Consumed(writes) == LayerStart(chain, layer) + SumSizes(chain[..mip])
    decreases layer, mip
  {
    if mip > 0 {
      PlanPrefix(chain, layer, mip - 1);
      PlanPrefixNextMip(chain, layer, mip);
    } else if layer > 0 {
      PlanPrefix(chain, layer - 1, |chain|);
      PlanPrefixNextLayer(chain, layer);
    }
  }

  /** One more mip of the same layer keeps the plan contiguous. */
  lemma PlanPrefixNextMip(chain: seq<MipLayout>, layer: nat, mip: nat)
    requires 0 < mip <= |chain|
    requires var before := PlannedLog(chain, layer) + LayerLog(chain, layer)[..mip - 1];
             Contiguous(before) && Consumed(before) == LayerStart(chain, layer) + SumSizes(chain[..mip - 1])
    ensures var writes := PlannedLog(chain, layer) + LayerLog(chain, layer)[..mip];
            Contiguous(writes) && Consumed(writes) == LayerStart(chain, layer) + SumSizes(chain[..mip])
  {
    var log := LayerLog(chain, layer);
    assert log[mip - 1] == PlannedWrite(chain, layer, mip - 1);
    SumSizesPrefix(chain, mip - 1);
    ContiguousExtend(PlannedLog(chain, layer), log, mip);
  }

  /** A contiguous log that a further slice of the same log continues stays
      contiguous. */
  lemma ContiguousExtend(prefix: seq<TextureWrite>, log: seq<TextureWrite>, n: nat)
    requires 0 < n <= |log|
    requires Contiguous(prefix + log[..n - 1])
    requires Consumed(prefix + log[..n - 1]) == log[n - 1].start <= log[n - 1].end
    ensures Contiguous(prefix + log[..n]) && Consumed(prefix + log[..n]) == log[n - 1].end
  {
    assert prefix + log[..n] == (prefix + log[..n - 1]) + [log[n - 1]];
    ContiguousStep(prefix + log[..n - 1], log[n - 1]);
  }

  /** The whole of one layer is the start of the next. */
  lemma PlanPrefixNextLayer(chain: seq<MipLayout>, layer: nat)
    requires layer > 0
    requires var before := PlannedLog(chain, layer - 1) + LayerLog(chain, layer - 1)[..|chain|];
             Contiguous(before) && Consumed(before) == LayerStart(chain, layer - 1) + SumSizes(chain[..|chain|])
    ensures var writes := PlannedLog(chain, layer) + LayerLog(chain, layer)[..0];
            Contiguous(writes) && Consumed(writes) == LayerStart(chain, layer) + SumSizes(chain[..0])
  {
    assert LayerLog(chain, layer - 1)[..|chain|] == LayerLog(chain, layer - 1);
    assert chain[..|chain|] == chain && chain[..0] == [];
    assert PlannedLog(chain, layer) + LayerLog(chain, layer)[..0] == PlannedLog(chain, layer - 1) + LayerLog(chain, layer - 1);
  }

  /** The plan for `layers` layers tiles `[0, layers * LayerBytes)`. */
  lemma PlannedLogContiguous(chain: seq<MipLayout>, layers: nat)
    ensures Contiguous(PlannedLog(chain, layers))
    ensures Consumed(PlannedLog(chain, layers)) == layers * SumSizes(chain)
  {
    PlanPrefix(chain, layers, 0);
    LayerStartIsProduct(chain, layers);
    assert PlannedLog(chain, layers) + LayerLog(chain, layers)[..0] == PlannedLog(chain, layers);
    assert chain[..0] == [];
  }

  /** Write `i` of the log is the planned write for layer `i / count`, mip
      `i % count`: layer-major order, mips ascending. */
  ghost predicate FollowsPlan(chain: seq<MipLayout>, count: nat, writes: seq<TextureWrite>)
  {
    count > 0
    && forall i :: 0 <= i < |writes| ==> PlannedAt(chain, count, writes, i)
  }

  /** Write `i` is the planned write for layer `i / count`, mip `i % count`. */
  ghost predicate PlannedAt(chain: seq<MipLayout>, count: nat, writes: seq<TextureWrite>, i: nat)
    requires count > 0 && i < |writes|
  {
    i % count < |chain| && writes[i] == PlannedWrite(chain, i / count, i % count)
  }

  /** Why a walk stopped after `|writes|` writes: the next (layer, mip) either
      has a slice running past the data or, in the first layer, arithmetic
      that fails. */
  ghost predicate StoppedEarly(info: FormatInfo, rules: ExtentRules, mipExtent: Extent3d, chain: seq<MipLayout>,
                               count: nat, dataLength: nat, writes: seq<TextureWrite>, err: UploadError)
    requires ValidFormatInfo(info)
    requires count > 0
  {
    var layer, mip := |writes| / count, |writes| % count;
    if mip < |chain| then
      var next := PlannedWrite(chain, layer, mip);
      dataLength < next.end && err == OutOfBounds(next.start, next.end, dataLength)
    else
      layer == 0 && mip == |chain| && Err(err) == MipLayoutOf(info, rules, mipExtent, mip)
  }

  /** What the walk issues and how it ends once the mip count is known to fit
      in a `u8`: the planned writes in order, then either every layer done or
      a stop at the first (layer, mip) that fails. */
  ghost predicate UploadOutcome(desc: TextureDescriptor, info: FormatInfo, rules: ExtentRules, dataLength: nat,
                                writes: seq<TextureWrite>, err: Option<UploadError>)
    requires ValidFormatInfo(info)
  {
    var (layers, mipExtent) := IterationShape(desc);
    var count := desc.mipLevelCount;
    var chain := MipChain(info, rules, mipExtent, count);
    if count == 0 || layers == 0 then writes == [] && err == None
    else
      FollowsPlan(chain, count, writes)
      && WithinData(writes, dataLength)
      && |writes| <= layers * count
      && (err == None <==> |writes| == layers * count)
      && (err == None ==> |chain| == count && Consumed(writes) == layers * SumSizes(chain))
      && (err != None ==> StoppedEarly(info, rules, mipExtent, chain, count, dataLength, writes, err.value))
  }

  /** The state of the walk before (layer, mip): the log holds the plan for
      every earlier (layer, mip), and `offset` is where it ends. */
  ghost predicate WalkedTo(chain: seq<MipLayout>, count: nat, dataLength: nat,
                           layer: nat, mip: nat, writes: seq<TextureWrite>, offset: nat)
  {
    mip <= |chain| <= count && (layer > 0 ==> |chain| == count)
    && writes == PlannedLog(chain, layer) + LayerLog(chain, layer)[..mip]
    && offset == Consumed(writes)
    && WithinData(writes, dataLength)
  }

  /** Entry `i` of the plan up to (layer, mip) is the write for layer
      `i / count`, mip `i % count`. */
  lemma PlanPrefixAt(chain: seq<MipLayout>, count: nat, layer: nat, mip: nat, i: nat)
    requires mip <= |chain| <= count && (layer > 0 ==> |chain| == count)
    requires i < |PlannedLog(chain, layer) + LayerLog(chain, layer)[..mip]|
    ensures count > 0 && i % count < |chain|
    ensures (PlannedLog(chain, layer) + LayerLog(chain, layer)[..mip])[i] == PlannedWrite(chain, i / count, i % count)
  {
    var before := PlannedLog(chain, layer);
    var plan := before + LayerLog(chain, layer)[..mip];
    PlannedLogLength(chain, layer);
    if i < |before| {
      PlannedLogAt(chain, layer, i);
      assert plan[i] == before[i];
    } else {
      var j := i - |before|;
      assert |before| == layer * count by {
        if layer == 0 {
          assert |before| == 0;
        }
      }
      assert plan[i] == PlannedWrite(chain, layer, j);
      QuotientRemainder(i, layer, j, count);
    }
  }

  /** The plan up to (layer, mip) holds `layer * count + mip` writes. */
  lemma PlanPrefixLength(chain: seq<MipLayout>, count: nat, layer: nat, mip: nat)
    requires mip <= |chain| <= count && (layer > 0 ==> |chain| == count)
    ensures |PlannedLog(chain, layer) + LayerLog(chain, layer)[..mip]| == layer * count + mip
  {
    PlannedLogLength(chain, layer);
    if layer == 0 {
      assert |PlannedLog(chain, layer)| == 0;
    }
  }

  /** A log walked up to (layer, mip) is contiguous and follows the plan's closed form. */
  lemma WalkedLog(chain: seq<MipLayout>, count: nat, dataLength: nat,
                  layer: nat, mip: nat, writes: seq<TextureWrite>, offset: nat)
    requires WalkedTo(chain, count, dataLength, layer, mip, writes, offset)
    ensures |writes| == layer * count + mip
    ensures Contiguous(writes) && offset == LayerStart(chain, layer) + SumSizes(chain[..mip])
    ensures count > 0 ==> FollowsPlan(chain, count, writes)
    ensures count == 0 ==> writes == []
  {
    PlanPrefix(chain, layer, mip);
    PlanPrefixLength(chain, count, layer, mip);
    if count == 0 {
      assert mip == 0 && layer * count == 0;
    } else {
      PlanPrefixFollowsPlan(chain, count, layer, mip);
    }
  }

  /** The plan up to (layer, mip) has the closed form of `FollowsPlan`. */
  lemma PlanPrefixFollowsPlan(chain: seq<MipLayout>, count: nat, layer: nat, mip: nat)
    requires count > 0
    requires mip <= |chain| <= count && (layer > 0 ==> |chain| == count)
    ensures FollowsPlan(chain, count, PlannedLog(chain, layer) + LayerLog(chain, layer)[..mip])
  {
    var writes := PlannedLog(chain, layer) + LayerLog(chain, layer)[..mip];
    forall i | 0 <= i < |writes|
      ensures PlannedAt(chain, count, writes, i)
    {
      PlanPrefixAt(chain, count, layer, mip, i);
    }
  }

  /** Issuing the write for (layer, mip) moves the walk on to the next mip. */
  lemma WalkStep(info: FormatInfo, rules: ExtentRules, mipExtent: Extent3d, count: nat, dataLength: nat,
                 layer: nat, mip: nat, writes: seq<TextureWrite>, offset: nat, write: TextureWrite)
    requires ValidFormatInfo(info)
    requires WalkedTo(MipChain(info, rules, mipExtent, count), count, dataLength, layer, mip, writes, offset)
    requires mip < count && MipLayoutOf(info, rules, mipExtent, mip).Ok?
    requires var l := MipLayoutOf(info, rules, mipExtent, mip).value;
             write == TextureWrite(mip, Origin3d(0, 0, layer), offset, offset + l.dataSize,
                                   TextureDataLayout(0, l.bytesPerRow, 0), l.physical)
    requires write.end <= dataLength
    ensures WalkedTo(MipChain(info, rules, mipExtent, count), count, dataLength, layer, mip + 1, writes + [write], write.end)
  {
    var chain := MipChain(info, rules, mipExtent, count);
    assert mip < |chain|;
    PlanPrefix(chain, layer, mip);
    assert write == PlannedWrite(chain, layer, mip);
    WalkAppend(chain, count, dataLength, layer, mip, writes, offset);
  }

  /** Appending the planned write for (layer, mip), when its slice fits in the
      data, moves the walk on to the next mip. */
  lemma WalkAppend(chain: seq<MipLayout>, count: nat, dataLength: nat,
                   layer: nat, mip: nat, writes: seq<TextureWrite>, offset: nat)
    requires WalkedTo(chain, count, dataLength, layer, mip, writes, offset)
    requires mip < |chain| && PlannedWrite(chain, layer, mip).end <= dataLength
    ensures var write := PlannedWrite(chain, layer, mip);
            WalkedTo(chain, count, dataLength, layer, mip + 1, writes + [write], write.end)
  {
    var write := PlannedWrite(chain, layer, mip);
    assert LayerLog(chain, layer)[..mip + 1] == LayerLog(chain, layer)[..mip] + [write];
    assert writes + [write] == PlannedLog(chain, layer) + LayerLog(chain, layer)[..mip + 1];
  }

  /** Finishing the mips of a layer moves the walk on to the next layer. */
  lemma WalkNextLayer(chain: seq<MipLayout>, count: nat, dataLength: nat, layer: nat, writes: seq<TextureWrite>, offset: nat)
    requires WalkedTo(chain, count, dataLength, layer, count, writes, offset)
    ensures WalkedTo(chain, count, dataLength, layer + 1, 0, writes, offset)
  {
    assert LayerLog(chain, layer)[..count] == LayerLog(chain, layer);
  }

  /** A walk interrupted at (layer, mip) for the reason `err` ends as the
      outcome predicate says. */
  lemma StopOutcome(desc: TextureDescriptor, info: FormatInfo, rules: ExtentRules, dataLength: nat,
                    writes: seq<TextureWrite>, offset: nat, layer: nat, mip: nat, err: UploadError)
    requires ValidFormatInfo(info)
    requires var (layers, mipExtent) := IterationShape(desc);
             var count := desc.mipLevelCount;
             var chain := MipChain(info, rules, mipExtent, count);
             layer < layers && mip < count
             && WalkedTo(chain, count, dataLength, layer, mip, writes, offset)
             && match MipLayoutOf(info, rules, mipExtent, mip)
                case Err(e) => err == e
                case Ok(l) => dataLength < offset + l.dataSize && err == OutOfBounds(offset, offset + l.dataSize, dataLength)
    ensures UploadOutcome(desc, info, rules, dataLength, writes, Some(err))
    ensures Contiguous(writes)
  {
    var (layers, mipExtent) := IterationShape(desc);
    var count := desc.mipLevelCount;
    var chain := MipChain(info, rules, mipExtent, count);
    WalkedLog(chain, count, dataLength, layer, mip, writes, offset);
    QuotientRemainder(|writes|, layer, mip, count);
    IndexBelow(layer, mip, layers, count);
  }

  /** A walk through every layer ends as the outcome predicate says. */
  lemma CompleteOutcome(desc: TextureDescriptor, info: FormatInfo, rules: ExtentRules, dataLength: nat,
                        writes: seq<TextureWrite>, offset: nat)
    requires ValidFormatInfo(info)
    requires var (layers, mipExtent) := IterationShape(desc);
             var count := desc.mipLevelCount;
             WalkedTo(MipChain(info, rules, mipExtent, count), count, dataLength, layers, 0, writes, offset)
    ensures UploadOutcome(desc, info, rules, dataLength, writes, None)
    ensures Contiguous(writes)
  {
    var (layers, mipExtent) := IterationShape(desc);
    var count := desc.mipLevelCount;
    var chain := MipChain(info, rules, mipExtent, count);
    WalkedLog(chain, count, dataLength, layers, 0, writes, offset);
    LayerStartIsProduct(chain, layers);
    assert chain[..0] == [];
  }

  /** A run of mip levels holds no more bytes than the whole chain. */
  lemma {:induction false} SumSizesPrefixBound(chain: seq<MipLayout>, m: nat)
    requires m <= |chain|
    ensures SumSizes(chain[..m]) <= SumSizes(chain)
    decreases |chain| - m
  {
    if m < |chain| {
      SumSizesPrefix(chain, m);
      SumSizesPrefixBound(chain, m + 1);
    } else {
      assert chain[..m] == chain;
    }
  }

  /** Every write of a log that follows the plan is for a mip the chain reaches. */
  lemma PlannedMipExists(chain: seq<MipLayout>, count: nat, writes: seq<TextureWrite>, i: nat)
    requires FollowsPlan(chain, count, writes) && i < |writes|
    ensures i % count < |chain|
  {
    assert PlannedAt(chain, count, writes, i);
  }

  /** A log that follows the plan stops at a (layer, mip) the chain reaches. */
  lemma FollowsPlanBounds(chain: seq<MipLayout>, count: nat, writes: seq<TextureWrite>, layer: nat, mip: nat)
    requires FollowsPlan(chain, count, writes) && |chain| <= count
    requires |writes| == layer * count + mip && mip < count
    ensures mip <= |chain| && (layer > 0 ==> |chain| == count)
  {
    if mip > 0 {
      PlannedMipExists(chain, count, writes, |writes| - 1);
      QuotientRemainder(|writes| - 1, layer, mip - 1, count);
    }
    if layer > 0 {
      MulAtLeast(layer, count);
      PlannedMipExists(chain, count, writes, count - 1);
      QuotientRemainder(count - 1, 0, count - 1, count);
    }
  }

  /** A log that follows the plan is the plan up to the (layer, mip) after its
      last write. */
  lemma FollowsPlanIsPrefix(chain: seq<MipLayout>, count: nat, writes: seq<TextureWrite>, layer: nat, mip: nat)
    requires FollowsPlan(chain, count, writes) && |chain| <= count
    requires |writes| == layer * count + mip && mip < count
    ensures mip <= |chain| && (layer > 0 ==> |chain| == count)
    ensures writes == PlannedLog(chain, layer) + LayerLog(chain, layer)[..mip]
  {
    FollowsPlanBounds(chain, count, writes, layer, mip);
    PlanAgrees(chain, count, writes, layer, mip);
  }

  /** Write by write, a log that follows the plan agrees with the plan up to
      (layer, mip). */
  lemma PlanAgrees(chain: seq<MipLayout>, count: nat, writes: seq<TextureWrite>, layer: nat, mip: nat)
    requires FollowsPlan(chain, count, writes)
    requires mip <= |chain| <= count && (layer > 0 ==> |chain| == count)
    requires |writes| == layer * count + mip
    ensures writes == PlannedLog(chain, layer) + LayerLog(chain, layer)[..mip]
  {
    var plan := PlannedLog(chain, layer) + LayerLog(chain, layer)[..mip];
    PlanPrefixLength(chain, count, layer, mip);
    forall i | 0 <= i < |writes|
      ensures writes[i] == plan[i]
    {
      assert PlannedAt(chain, count, writes, i);
      PlanPrefixAt(chain, count, layer, mip, i);
    }
  }

  /** The slices of any outcome follow one another from offset 0. */
  lemma OutcomeContiguous(desc: TextureDescriptor, info: FormatInfo, rules: ExtentRules, dataLength: nat,
                          writes: seq<TextureWrite>, err: Option<UploadError>)
    requires ValidFormatInfo(info)
    requires UploadOutcome(desc, info, rules, dataLength, writes, err)
    ensures Contiguous(writes)
  {
    var (layers, mipExtent) := IterationShape(desc);
    var count := desc.mipLevelCount;
    var chain := MipChain(info, rules, mipExtent, count);
    if count > 0 && layers > 0 {
      FollowsPlanContiguous(chain, count, writes);
    }
  }

  /** A log that follows the plan is contiguous from offset 0. */
  lemma FollowsPlanContiguous(chain: seq<MipLayout>, count: nat, writes: seq<TextureWrite>)
    requires FollowsPlan(chain, count, writes) && |chain| <= count
    ensures Contiguous(writes)
  {
    var layer, mip := |writes| / count, |writes| % count;
    FollowsPlanIsPrefix(chain, count, writes, layer, mip);
    PlanPrefix(chain, layer, mip);
  }

  /** A finished upload issued exactly the plan, and its slices hold every mip
      level of every layer and nothing else. */
  lemma CompleteUploadIsPlan(desc: TextureDescriptor, info: FormatInfo, rules: ExtentRules, dataLength: nat,
                             writes: seq<TextureWrite>, err: Option<UploadError>)
    requires ValidFormatInfo(info)
    requires UploadOutcome(desc, info, rules, dataLength, writes, err)
    requires err == None
    ensures var (layers, mipExtent) := IterationShape(desc);
            var chain := MipChain(info, rules, mipExtent, desc.mipLevelCount);
            writes == PlannedLog(chain, layers)
            && SliceBytes(writes) == layers * SumSizes(chain) <= dataLength
  {
    var (layers, mipExtent) := IterationShape(desc);
    var count := desc.mipLevelCount;
    var chain := MipChain(info, rules, mipExtent, count);
    PlannedLogLength(chain, layers);
    if count > 0 && layers > 0 {
      var plan := PlannedLog(chain, layers);
      forall i | 0 <= i < |writes|
        ensures writes[i] == plan[i]
      {
        assert PlannedAt(chain, count, writes, i);
        PlannedLogAt(chain, layers, i);
      }
      assert writes == plan;
      assert writes[|writes| - 1].end <= dataLength;
    } else {
      assert layers * |chain| == 0;
    }
    PlannedLogContiguous(chain, layers);
    ContiguousConsumedIsSum(writes);
  }

  /** The slice of any planned write ends within the bytes of all layers. */
  lemma PlannedWriteWithinLayers(chain: seq<MipLayout>, layer: nat, mip: nat, layers: nat)
    requires mip < |chain| && layer < layers
    ensures PlannedWrite(chain, layer, mip).end <= layers * SumSizes(chain)
  {
    SumSizesPrefix(chain, mip);
    SumSizesPrefixBound(chain, mip + 1);
    LayerStartIsProduct(chain, layer + 1);
    MulMonotone(layer + 1, layers, SumSizes(chain));
  }

  /** An upload finishes exactly when every mip level's arithmetic succeeds
      and the data holds every layer's bytes. */
  lemma UploadSucceedsIff(desc: TextureDescriptor, info: FormatInfo, rules: ExtentRules, dataLength: nat,
                          writes: seq<TextureWrite>, err: Option<UploadError>)
    requires ValidFormatInfo(info)
    requires UploadOutcome(desc, info, rules, dataLength, writes, err)
    requires desc.mipLevelCount > 0 && IterationShape(desc).0 > 0
    ensures var (layers, mipExtent) := IterationShape(desc);
            var chain := MipChain(info, rules, mipExtent, desc.mipLevelCount);
            err == None <==> |chain| == desc.mipLevelCount && layers * SumSizes(chain) <= dataLength
  {
    var (layers, mipExtent) := IterationShape(desc);
    var count := desc.mipLevelCount;
    var chain := MipChain(info, rules, mipExtent, count);
    if err == None {
      CompleteUploadIsPlan(desc, info, rules, dataLength, writes, err);
    } else if |chain| == count && layers * SumSizes(chain) <= dataLength {
      var layer, mip := |writes| / count, |writes| % count;
      assert |writes| < layers * count;
      RowBelow(|writes|, layers, count);
      assert StoppedEarly(info, rules, mipExtent, chain, count, dataLength, writes, err.value);
      PlannedWriteWithinLayers(chain, layer, mip, layers);
      assert false;
    }
  }

  /** The writes of an outcome come layer-major with mips ascending, and each
      slice lies wholly before the slices that follow it. */
  lemma WritesInOrder(desc: TextureDescriptor, info: FormatInfo, rules: ExtentRules, dataLength: nat,
                      writes: seq<TextureWrite>, err: Option<UploadError>, i: nat, j: nat)
    requires ValidFormatInfo(info)
    requires UploadOutcome(desc, info, rules, dataLength, writes, err)
    requires i < j < |writes|
    ensures writes[i].origin.z < writes[j].origin.z
            || (writes[i].origin.z == writes[j].origin.z && writes[i].mipLevel < writes[j].mipLevel)
    ensures writes[i].end <= writes[j].start
  {
    var count := desc.mipLevelCount;
    var chain := MipChain(info, rules, IterationShape(desc).1, count);
    assert PlannedAt(chain, count, writes, i) && PlannedAt(chain, count, writes, j);
    RowMajorOrder(i, j, count);
    OutcomeContiguous(desc, info, rules, dataLength, writes, err);
    ContiguousOrdered(writes, i, j);
  }

  /** Every write of an outcome targets an existing mip level at origin
      `(0, 0, layer)` of an iterated layer, with offset and rows-per-image 0,
      and carries the block arithmetic of its mip level's physical size. */
  lemma WriteShape(desc: TextureDescriptor, info: FormatInfo, rules: ExtentRules, dataLength: nat,
                   writes: seq<TextureWrite>, err: Option<UploadError>, i: nat)
    requires ValidFormatInfo(info)
    requires UploadOutcome(desc, info, rules, dataLength, writes, err)
    requires i < |writes|
    ensures var (layers, mipExtent) := IterationShape(desc);
            var w := writes[i];
            w.mipLevel < desc.mipLevelCount
            && w.origin.x == 0 && w.origin.y == 0 && w.origin.z < layers
            && (desc.dimension == D3 ==> w.origin.z == 0)
            && (desc.dimension != D3 ==> w.origin.z < desc.size.depth)
            && w.layout.offset == 0 && w.layout.rowsPerImage == 0
            && rules.atMipLevel(mipExtent, w.mipLevel).Some?
            && w.size == rules.physicalSize(rules.atMipLevel(mipExtent, w.mipLevel).value)
            && w.layout.bytesPerRow == (w.size.width / info.blockWidth) * info.blockSize < U32_LIMIT
            && w.end - w.start == w.layout.bytesPerRow * (w.size.height / info.blockHeight) < U32_LIMIT
  {
    var (layers, mipExtent) := IterationShape(desc);
    var count := desc.mipLevelCount;
    var chain := MipChain(info, rules, mipExtent, count);
    assert PlannedAt(chain, count, writes, i);
    RowBelow(i, layers, count);
    var mip := i % count;
    assert MipLayoutOf(info, rules, mipExtent, mip) == Ok(chain[mip]);
    MipLayoutArithmetic(info, rules, mipExtent, mip);
  }

  /** A texel count at mip level `m`: halved per level, never below 1. */
  function Shrunk(x: nat, m: nat): nat
  {
    if m == 0 then x else var h := Shrunk(x, m - 1) / 2; if h == 0 then 1 else h
  }

  /** A count rounded up to whole 4-texel blocks. */
  function RoundUpToBlock(x: nat): nat
  {
    (x + 3) / 4 * 4
  }

  /** Example extent rules for a format with 4x4 blocks: four mip levels,
      each half the one before, padded to whole blocks. */
  function ExampleRules(): ExtentRules
  {
    ExtentRules(
      (e: Extent3d, m: nat) => if m < 4 then Some(Extent3d(Shrunk(e.width, m), Shrunk(e.height, m), e.depth)) else None,
      (e: Extent3d) => Extent3d(RoundUpToBlock(e.width), RoundUpToBlock(e.height), e.depth))
  }

  /** A 4x4-block format of 16 bytes per block. */
  const EXAMPLE_FORMAT := FormatInfo(4, 4, 16)

  /** An 8x8 two-layer 2D texture with three mip levels. */
  const EXAMPLE_TEXTURE := TextureDescriptor(Extent3d(8, 8, 2), 3, D2)

  /** The example's mip levels: 8x8 texels are 2x2 blocks of 16 bytes; 4x4
      texels are one block; the 2x2 texels of mip 2 are padded up to one
      whole 4x4 block. */
  lemma ExampleLevels()
    ensures MipLayoutOf(EXAMPLE_FORMAT, ExampleRules(), Extent3d(8, 8, 1), 0) == Ok(MipLayout(Extent3d(8, 8, 1), 32, 64))
    ensures MipLayoutOf(EXAMPLE_FORMAT, ExampleRules(), Extent3d(8, 8, 1), 1) == Ok(MipLayout(Extent3d(4, 4, 1), 16, 16))
    ensures ExampleRules().atMipLevel(Extent3d(8, 8, 1), 2) == Some(Extent3d(2, 2, 1))
    ensures MipLayoutOf(EXAMPLE_FORMAT, ExampleRules(), Extent3d(8, 8, 1), 2) == Ok(MipLayout(Extent3d(4, 4, 1), 16, 16))
  {
    var rules := ExampleRules();
    assert Shrunk(8, 1) == 4;
    assert Shrunk(8, 2) == 2;
    assert rules.physicalSize(Extent3d(2, 2, 1)) == Extent3d(4, 4, 1);
  }

  /** The layouts of the example's three mip levels. */
  const EXAMPLE_CHAIN := [MipLayout(Extent3d(8, 8, 1), 32, 64), MipLayout(Extent3d(4, 4, 1), 16, 16),
                          MipLayout(Extent3d(4, 4, 1), 16, 16)]

  lemma ExampleChain()
    ensures MipChain(EXAMPLE_FORMAT, ExampleRules(), Extent3d(8, 8, 1), 3) == EXAMPLE_CHAIN
  {
    var rules := ExampleRules();
    ExampleLevels();
    assert MipChain(EXAMPLE_FORMAT, rules, Extent3d(8, 8, 1), 1) == EXAMPLE_CHAIN[..1];
    assert MipChain(EXAMPLE_FORMAT, rules, Extent3d(8, 8, 1), 2) == EXAMPLE_CHAIN[..2];
  }

  /** Where the example's mips begin within a layer, and the bytes of a layer. */
  lemma ExampleSums()
    ensures SumSizes(EXAMPLE_CHAIN[..0]) == 0 && SumSizes(EXAMPLE_CHAIN[..1]) == 64
            && SumSizes(EXAMPLE_CHAIN[..2]) == 80 && SumSizes(EXAMPLE_CHAIN) == 96
            && LayerStart(EXAMPLE_CHAIN, 1) == 96
  {
    var chain := EXAMPLE_CHAIN;
    assert chain[..1][..0] == [];
    assert chain[..2][..1] == chain[..1];
    assert chain[..|chain| - 1] == chain[..2];
  }

  /** The example's writes for one layer: the three mips back to back from
      the layer's start. */
  lemma ExampleLayerLog(layer: nat)
    requires layer <= 1
    ensures var start := layer * 96;
            LayerLog(EXAMPLE_CHAIN, layer) == [
              TextureWrite(0, Origin3d(0, 0, layer), start, start + 64, TextureDataLayout(0, 32, 0), Extent3d(8, 8, 1)),
              TextureWrite(1, Origin3d(0, 0, layer), start + 64, start + 80, TextureDataLayout(0, 16, 0), Extent3d(4, 4, 1)),
              TextureWrite(2, Origin3d(0, 0, layer), start + 80, start + 96, TextureDataLayout(0, 16, 0), Extent3d(4, 4, 1))]
  {
    ExampleSums();
    assert LayerStart(EXAMPLE_CHAIN, layer) == layer * 96;
  }

  /** The six writes of the example with all its data present: mips 0, 1
      and 2 of layer 0, then of layer 1, 96 bytes per layer. */
  const EXAMPLE_LOG := LayerLog(EXAMPLE_CHAIN, 0) + LayerLog(EXAMPLE_CHAIN, 1)

  /** The example's planned log over both layers, written out. */
  lemma ExamplePlan()
    ensures PlannedLog(EXAMPLE_CHAIN, 2) == EXAMPLE_LOG
    ensures EXAMPLE_LOG == [
      TextureWrite(0, Origin3d(0, 0, 0), 0, 64, TextureDataLayout(0, 32, 0), Extent3d(8, 8, 1)),
      TextureWrite(1, Origin3d(0, 0, 0), 64, 80, TextureDataLayout(0, 16, 0), Extent3d(4, 4, 1)),
      TextureWrite(2, Origin3d(0, 0, 0), 80, 96, TextureDataLayout(0, 16, 0), Extent3d(4, 4, 1)),
      TextureWrite(0, Origin3d(0, 0, 1), 96, 160, TextureDataLayout(0, 32, 0), Extent3d(8, 8, 1)),
      TextureWrite(1, Origin3d(0, 0, 1), 160, 176, TextureDataLayout(0, 16, 0), Extent3d(4, 4, 1)),
      TextureWrite(2, Origin3d(0, 0, 1), 176, 192, TextureDataLayout(0, 16, 0), Extent3d(4, 4, 1))]
  {
    ExampleLayerLog(0);
    ExampleLayerLog(1);
    assert PlannedLog(EXAMPLE_CHAIN, 1) == LayerLog(EXAMPLE_CHAIN, 0);
  }

  /** An upload of the example texture, restated on its mip chain: it
      completes exactly when the data holds both 96-byte layers. */
  lemma ExampleOutcome(dataLength: nat, writes: seq<TextureWrite>, err: Option<UploadError>)
    requires UploadOutcome(EXAMPLE_TEXTURE, EXAMPLE_FORMAT, ExampleRules(), dataLength, writes, err)
    ensures FollowsPlan(EXAMPLE_CHAIN, 3, writes) && |writes| <= 6
    ensures err == None <==> 192 <= dataLength
    ensures err == None ==> writes == PlannedLog(EXAMPLE_CHAIN, 2)
    ensures err != None ==> StoppedEarly(EXAMPLE_FORMAT, ExampleRules(), Extent3d(8, 8, 1), EXAMPLE_CHAIN, 3,
                                         dataLength, writes, err.value)
  {
    ExampleChain();
    ExampleSums();
    UploadSucceedsIff(EXAMPLE_TEXTURE, EXAMPLE_FORMAT, ExampleRules(), dataLength, writes, err);
    if err == None {
      CompleteUploadIsPlan(EXAMPLE_TEXTURE, EXAMPLE_FORMAT, ExampleRules(), dataLength, writes, err);
    }
  }

  /** With 192 bytes of data the example texture gets the six writes of its
      plan. */
  lemma ExampleUploadCompletes(writes: seq<TextureWrite>, err: Option<UploadError>)
    requires UploadOutcome(EXAMPLE_TEXTURE, EXAMPLE_FORMAT, ExampleRules(), 192, writes, err)
    ensures err == None
    ensures writes == EXAMPLE_LOG
  {
    ExampleOutcome(192, writes, err);
    ExamplePlan();
  }

  /** The first five writes of the example's plan. */
  lemma ExamplePlanPrefix()
    ensures PlannedLog(EXAMPLE_CHAIN, 1) + LayerLog(EXAMPLE_CHAIN, 1)[..2] == EXAMPLE_LOG[..5]
  {
    assert PlannedLog(EXAMPLE_CHAIN, 1) == LayerLog(EXAMPLE_CHAIN, 0);
  }

  /** Of the example's planned writes, only the last one ends past byte 180. */
  lemma ExampleStopPoint(writes: seq<TextureWrite>, err: UploadError)
    requires |writes| < 6
    requires StoppedEarly(EXAMPLE_FORMAT, ExampleRules(), Extent3d(8, 8, 1), EXAMPLE_CHAIN, 3, 180, writes, err)
    ensures |writes| == 5 && err == OutOfBounds(176, 192, 180)
  {
    ExampleSums();
    ExampleLayerLog(0);
    ExampleLayerLog(1);
  }

  /** With 180 bytes the example issues the first five writes and stops at
      mip 2 of layer 1, whose slice `[176, 192)` runs past the data. */
  lemma ExampleUploadRunsOut(writes: seq<TextureWrite>, err: Option<UploadError>)
    requires UploadOutcome(EXAMPLE_TEXTURE, EXAMPLE_FORMAT, ExampleRules(), 180, writes, err)
    ensures err == Some(OutOfBounds(176, 192, 180))
    ensures writes == EXAMPLE_LOG[..5]
  {
    ExampleOutcome(180, writes, err);
    ExampleStopPoint(writes, err.value);
    FollowsPlanIsPrefix(EXAMPLE_CHAIN, 3, writes, 1, 2);
    ExamplePlanPrefix();
  }

  /** `create_texture_with_data`: the `write_texture` calls it issues, in
      order, and the panic that ends it early, if any. */
  method CreateTextureWithData(desc: TextureDescriptor, info: FormatInfo, rules: ExtentRules, data: seq<u8>)
    returns (writes: seq<TextureWrite>, err: Option<UploadError>)
    requires ValidFormatInfo(info)
    ensures desc.mipLevelCount > MAX_MIP_LEVEL_COUNT ==> writes == [] && err == Some(MipCountOverflow(desc.mipLevelCount))
    ensures desc.mipLevelCount <= MAX_MIP_LEVEL_COUNT ==> UploadOutcome(desc, info, rules, |data|, writes, err)
    ensures Contiguous(writes)
    ensures WithinData(writes, |data|)
  {
    var shape := IterationShape(desc);
    var layerIterations, mipExtent := shape.0, shape.1;
    if desc.mipLevelCount > MAX_MIP_LEVEL_COUNT {
      return [], Some(MipCountOverflow(desc.mipLevelCount));
    }
    var mipLevelCount := desc.mipLevelCount;
    ghost var chain := MipChain(info, rules, mipExtent, mipLevelCount);
    writes := [];
    var binaryOffset: nat := 0;
    for layer := 0 to layerIterations
      invariant WalkedTo(chain, mipLevelCount, |data|, layer, 0, writes, binaryOffset)
    {
      for mip := 0 to mipLevelCount
        invariant WalkedTo(chain, mipLevelCount, |data|, layer, mip, writes, binaryOffset)
      {
        var mipLayout := MipLayoutOf(info, rules, mipExtent, mip);
        if mipLayout.Err? {
          StopOutcome(desc, info, rules, |data|, writes, binaryOffset, layer, mip, mipLayout.error);
          return writes, Some(mipLayout.error);
        }
        var endOffset := binaryOffset + mipLayout.value.dataSize;
        if endOffset > |data| {
          StopOutcome(desc, info, rules, |data|, writes, binaryOffset, layer, mip, OutOfBounds(binaryOffset, endOffset, |data|));
          return writes, Some(OutOfBounds(binaryOffset, endOffset, |data|));
        }
        var write := TextureWrite(mip, Origin3d(0, 0, layer), binaryOffset, endOffset,
                                  TextureDataLayout(0, mipLayout.value.bytesPerRow, 0), mipLayout.value.physical);
        WalkStep(info, rules, mipExtent, mipLevelCount, |data|, layer, mip, writes, binaryOffset, write);
        writes := writes + [write];
        binaryOffset := endOffset;
      }
      WalkNextLayer(chain, mipLevelCount, |data|, layer, writes, binaryOffset);
    }
    CompleteOutcome(desc, info, rules, |data|, writes, binaryOffset);
    err := None;
  }
}
