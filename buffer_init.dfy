/** `DeviceExt::create_buffer_init`: a buffer created mapped, filled with the
    caller's bytes and zero-padded to the copy alignment. The device is
    represented by the descriptor it is asked for and by the array that stands
    for the buffer's mapped range. */
module BufferInit {
  import opened Common

  /** `COPY_BUFFER_ALIGNMENT`: buffer sizes handed to copies are multiples of it. */
  const COPY_BUFFER_ALIGNMENT: nat := 4

  /** `BufferUsage` flags; passed through unchanged. */
  datatype BufferUsage = BufferUsage(bits: u32)

  /** What the caller supplies: the contents fix the size. */
  datatype BufferInitDescriptor = BufferInitDescriptor(debugLabel: Option<string>, contents: seq<u8>, usage: BufferUsage)

  /** What the device is asked for by `create_buffer`. */
  datatype BufferDescriptor = BufferDescriptor(debugLabel: Option<string>, size: nat, usage: BufferUsage, mappedAtCreation: bool)

  /** `COPY_BUFFER_ALIGNMENT - unpadded_size % COPY_BUFFER_ALIGNMENT`: never zero,
      so an already aligned size still gains a whole block. */
  function Padding(unpaddedSize: nat): (padding: nat)
    ensures 1 <= padding <= COPY_BUFFER_ALIGNMENT
    ensures (unpaddedSize + padding) % COPY_BUFFER_ALIGNMENT == 0
  {
    COPY_BUFFER_ALIGNMENT - unpaddedSize % COPY_BUFFER_ALIGNMENT
  }

  /** `padding + unpadded_size`. */
  function PaddedSize(unpaddedSize: nat): (paddedSize: nat)
    ensures paddedSize % COPY_BUFFER_ALIGNMENT == 0
    ensures unpaddedSize < paddedSize <= unpaddedSize + COPY_BUFFER_ALIGNMENT
  {
    Padding(unpaddedSize) + unpaddedSize
  }

  /** The padded size is the least multiple of the alignment strictly above the
      contents' length. */
  lemma PaddedSizeIsLeast(unpaddedSize: nat, n: nat)
    requires n % COPY_BUFFER_ALIGNMENT == 0 && unpaddedSize < n
    ensures PaddedSize(unpaddedSize) <= n
  {
  }

  /** An aligned length is padded by a full alignment block. */
  lemma AlignedSizeGainsBlock(unpaddedSize: nat)
    requires unpaddedSize % COPY_BUFFER_ALIGNMENT == 0
    ensures PaddedSize(unpaddedSize) == unpaddedSize + COPY_BUFFER_ALIGNMENT
  {
  }

  /** What the mapped range holds before `unmap`: the contents, then zeros. */
  function InitialImage(contents: seq<u8>): (image: seq<u8>)
    ensures |image| == PaddedSize(|contents|)
    ensures image[..|contents|] == contents
    ensures forall i :: |contents| <= i < |image| ==> image[i] == 0
  {
    contents + seq(Padding(|contents|), _ => 0)
  }

  /** The fill of the mapped range: `copy_from_slice` into the prefix, then the
      zero loop over `unpadded_size .. padded_size`. */
  method FillMappedRange(slice: array<u8>, contents: seq<u8>)
    requires slice.Length == PaddedSize(|contents|)
    modifies slice
    ensures slice[..] == InitialImage(contents)
  {
    var unpaddedSize := |contents|;
    var paddedSize := slice.Length;
    forall i | 0 <= i < unpaddedSize {
      slice[i] := contents[i];
    }
    for i := unpaddedSize to paddedSize
      invariant slice[..unpaddedSize] == contents
      invariant forall j :: unpaddedSize <= j < i ==> slice[j] == 0
    {
      slice[i] := 0;
    }
    assert slice[..] == InitialImage(contents);
  }

  /** `create_buffer_init`: the request made to the device, and the buffer's
      bytes as they stand when it is unmapped. */
  method CreateBufferInit(descriptor: BufferInitDescriptor) returns (request: BufferDescriptor, mapped: array<u8>)
    ensures request == BufferDescriptor(descriptor.debugLabel, PaddedSize(|descriptor.contents|), descriptor.usage, true)
    ensures fresh(mapped) && mapped[..] == InitialImage(descriptor.contents)
  {
    var unpaddedSize := |descriptor.contents|;
    var padding := COPY_BUFFER_ALIGNMENT - unpaddedSize % COPY_BUFFER_ALIGNMENT;
    var paddedSize := padding + unpaddedSize;
    request := BufferDescriptor(descriptor.debugLabel, paddedSize, descriptor.usage, true);
    mapped := new u8[paddedSize];
    FillMappedRange(mapped, descriptor.contents);
  }
}
