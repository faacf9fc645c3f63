/** `make_spirv`: a byte buffer checked and read as a SPIR-V module, that is a
    sequence of 32-bit words whose first word is the module magic number
    (section 2.3 of the Khronos SPIR-V Specification). Words are read
    little-endian, the byte order of every platform the model is meant for. */
module Spirv {
  import opened Common

  /** The SPIR-V module header magic number. */
  const MAGIC_NUMBER: u32 := 0x0723_0203

  /** `size_of::<u32>()`. */
  const WORD_SIZE: nat := 4

  /** The module handed to the shader compiler. */
  datatype ShaderSource = SpirV(words: seq<u32>)

  /** The three ways `make_spirv` panics, as values. */
  datatype SpirvError =
    | LengthNotMultipleOfFour(length: nat)  // the `assert_eq!` on the length
    | MissingFirstWord                      // `words[0]` on an empty buffer
    | WrongMagic(found: u32)                // the `assert_eq!` on the magic word

  /** The four bytes of a word, least significant first. */
  function BytesOf(w: u32): (b: seq<u8>)
    ensures |b| == WORD_SIZE
  {
    var x := w as int;
    [(x % 0x100) as u8, (x / 0x100 % 0x100) as u8, (x / 0x1_0000 % 0x100) as u8, (x / 0x100_0000) as u8]
  }

  /** The word four bytes spell in little-endian order: the one word whose
      bytes, least significant first, are `b`. */
  function WordOf(b: seq<u8>): (w: u32)
    requires |b| == WORD_SIZE
    ensures BytesOf(w) == b
  {
    var b0, b1, b2, b3 := b[0] as nat, b[1] as nat, b[2] as nat, b[3] as nat;
    var high := b1 + 0x100 * b2 + 0x1_0000 * b3;
    var x := b0 + 0x100 * b1 + 0x1_0000 * b2 + 0x100_0000 * b3;
    assert x == high * 0x100 + b0;
    DivModOfSum(high, b0, 0x100);
    DivModOfSum(b2 + 0x100 * b3, b1, 0x100);
    DivModOfSum(b3, b2, 0x100);
    assert x / 0x1_0000 == (x / 0x100) / 0x100;
    assert x / 0x100_0000 == (x / 0x1_0000) / 0x100;
    x as u32
  }

  lemma WordOfBytesOf(w: u32)
    ensures WordOf(BytesOf(w)) == w
  {
    var x := w as int;
    var q1 := x / 0x100;
    var q2 := q1 / 0x100;
    var r0, r1, r2 := x % 0x100, q1 % 0x100, q2 % 0x100;
    assert x == q1 * 0x100 + r0;
    assert q1 == q2 * 0x100 + r1;
    assert x == q2 * 0x1_0000 + (r1 * 0x100 + r0);
    DivModOfSum(q2, r1 * 0x100 + r0, 0x1_0000);
    assert x == (q2 / 0x100) * 0x100_0000 + (r2 * 0x1_0000 + r1 * 0x100 + r0);
    DivModOfSum(q2 / 0x100, r2 * 0x1_0000 + r1 * 0x100 + r0, 0x100_0000);
  }

  /** A word whose byte in position `lane` is replaced by `b`. */
  function WithByte(w: u32, lane: nat, b: u8): (r: u32)
    requires lane < WORD_SIZE
    ensures BytesOf(r) == BytesOf(w)[lane := b]
  {
    WordOf(BytesOf(w)[lane := b])
  }

  /** The aligned branch: `align_to::<u32>` views the buffer in place, so word
      `i` is bytes `4i .. 4i+4`. */
  function Reinterpret(data: seq<u8>): (words: seq<u32>)
    requires |data| % WORD_SIZE == 0
    ensures |words| == |data| / WORD_SIZE
    ensures forall i :: 0 <= i < |words| ==> BytesOf(words[i]) == data[WORD_SIZE * i .. WORD_SIZE * i + WORD_SIZE]
  {
    seq(|data| / WORD_SIZE, i requires 0 <= i < |data| / WORD_SIZE => WordOf(data[WORD_SIZE * i .. WORD_SIZE * i + WORD_SIZE]))
  }

  /** Byte `j` of a word buffer as it lies in memory: position `j % 4` of
      word `j / 4`. */
  function ByteAt(words: seq<u32>, j: nat): u8
    requires j < WORD_SIZE * |words|
  {
    BytesOf(words[j / WORD_SIZE])[j % WORD_SIZE]
  }

  /** Replacing one byte of a word buffer changes that byte and no other. */
  lemma WithByteAt(words: seq<u32>, k: nat, lane: nat, b: u8, j: nat)
    requires k < |words| && lane < WORD_SIZE && j < WORD_SIZE * |words|
    ensures ByteAt(words[k := WithByte(words[k], lane, b)], j)
            == if j == k * WORD_SIZE + lane then b else ByteAt(words, j)
  {
    if j == k * WORD_SIZE + lane {
      QuotientRemainder(j, k, lane, WORD_SIZE);
    } else if j / WORD_SIZE == k {
      assert j % WORD_SIZE != lane;
    }
  }

  /** The unaligned branch after the first `n` bytes: `vec![0u32; len / 4]`
      into which `copy_nonoverlapping` has copied bytes `0 .. n`, byte `j`
      landing in word `j / 4` at position `j % 4`. Every byte below `n` then
      holds the source byte and every other still holds the zero it was
      allocated with. */
  function CopyPrefix(data: seq<u8>, n: nat): (words: seq<u32>)
    requires |data| % WORD_SIZE == 0 && n <= |data|
    ensures WORD_SIZE * |words| == |data|
    ensures forall j :: 0 <= j < |data| ==> ByteAt(words, j) == if j < n then data[j] else 0
    decreases n
  {
    if n == 0 then seq(|data| / WORD_SIZE, _ => 0)
    else
      var words := CopyPrefix(data, n - 1);
      var k, lane := (n - 1) / WORD_SIZE, (n - 1) % WORD_SIZE;
      var r := words[k := WithByte(words[k], lane, data[n - 1])];
      assert n - 1 == k * WORD_SIZE + lane;
      forall j | 0 <= j < |data|
        ensures ByteAt(r, j) == if j < n then data[j] else 0
      {
        WithByteAt(words, k, lane, data[n - 1], j);
      }
      r
  }

  /** The unaligned branch: the owned copy of the whole buffer, in which word
      `i` holds bytes `4i .. 4i+4`. */
  function CopyWords(data: seq<u8>): (words: seq<u32>)
    requires |data| % WORD_SIZE == 0
    ensures |words| == |data| / WORD_SIZE
    ensures forall i :: 0 <= i < |words| ==> BytesOf(words[i]) == data[WORD_SIZE * i .. WORD_SIZE * i + WORD_SIZE]
  {
    var words := CopyPrefix(data, |data|);
    forall i | 0 <= i < |words|
      ensures BytesOf(words[i]) == data[WORD_SIZE * i .. WORD_SIZE * i + WORD_SIZE]
    {
      forall lane | 0 <= lane < WORD_SIZE
        ensures BytesOf(words[i])[lane] == data[WORD_SIZE * i + lane]
      {
        QuotientRemainder(WORD_SIZE * i + lane, i, lane, WORD_SIZE);
        assert ByteAt(words, WORD_SIZE * i + lane) == data[WORD_SIZE * i + lane];
      }
    }
    words
  }

  /** Both branches of `make_spirv` read the same words. */
  lemma BranchesAgree(data: seq<u8>)
    requires |data| % WORD_SIZE == 0
    ensures CopyWords(data) == Reinterpret(data)
  {
    var copied, viewed := CopyWords(data), Reinterpret(data);
    forall k | 0 <= k < |copied|
      ensures copied[k] == viewed[k]
    {
      WordOfBytesOf(copied[k]);
      WordOfBytesOf(viewed[k]);
    }
  }

  /** The bytes a word sequence occupies in memory. */
  function WordsToBytes(words: seq<u32>): (data: seq<u8>)
    ensures |data| == WORD_SIZE * |words|
  {
    if words == [] then [] else BytesOf(words[0]) + WordsToBytes(words[1..])
  }

  /** Word `i` of a word sequence lies at bytes `4i .. 4i+4` of its layout. */
  lemma {:induction false} WordsToBytesAt(words: seq<u32>, i: nat)
    requires i < |words|
    ensures WordsToBytes(words)[WORD_SIZE * i .. WORD_SIZE * i + WORD_SIZE] == BytesOf(words[i])
  {
    if i > 0 {
      WordsToBytesAt(words[1..], i - 1);
      var data := WordsToBytes(words);
      assert data == BytesOf(words[0]) + WordsToBytes(words[1..]);
      assert data[WORD_SIZE * i .. WORD_SIZE * i + WORD_SIZE]
          == WordsToBytes(words[1..])[WORD_SIZE * (i - 1) .. WORD_SIZE * (i - 1) + WORD_SIZE];
    }
  }

  /** A buffer whose every 4-byte group spells the matching word is the
      layout of those words. */
  lemma {:induction false} WordsToBytesOfGroups(words: seq<u32>, data: seq<u8>)
    requires |data| == WORD_SIZE * |words|
    requires forall i :: 0 <= i < |words| ==> BytesOf(words[i]) == data[WORD_SIZE * i .. WORD_SIZE * i + WORD_SIZE]
    ensures WordsToBytes(words) == data
  {
    if words != [] {
      var rest := data[WORD_SIZE..];
      forall i | 0 <= i < |words[1..]|
        ensures BytesOf(words[1..][i]) == rest[WORD_SIZE * i .. WORD_SIZE * i + WORD_SIZE]
      {
        assert BytesOf(words[i + 1]) == data[WORD_SIZE * (i + 1) .. WORD_SIZE * (i + 1) + WORD_SIZE];
      }
      WordsToBytesOfGroups(words[1..], rest);
      assert BytesOf(words[0]) == data[..WORD_SIZE];
      assert data == data[..WORD_SIZE] + rest;
    }
  }

  /** Reading a buffer as words and laying the words back out gives the buffer. */
  lemma WordsToBytesReinterpret(data: seq<u8>)
    requires |data| % WORD_SIZE == 0
    ensures WordsToBytes(Reinterpret(data)) == data
  {
    WordsToBytesOfGroups(Reinterpret(data), data);
  }

  /** Laying words out as bytes and reading them back gives the words. */
  lemma ReinterpretWordsToBytes(words: seq<u32>)
    ensures Reinterpret(WordsToBytes(words)) == words
  {
    var data := WordsToBytes(words);
    QuotientRemainder(|data|, |words|, 0, WORD_SIZE);
    var viewed := Reinterpret(data);
    forall i | 0 <= i < |words|
      ensures viewed[i] == words[i]
    {
      WordsToBytesAt(words, i);
      WordOfBytesOf(words[i]);
    }
  }

  /** `make_spirv(data)`, where `aligned` says whether the buffer's address is
      4-byte aligned and so which branch builds the words. */
  function MakeSpirv(data: seq<u8>, aligned: bool): (r: Result<ShaderSource, SpirvError>)
    ensures |data| % WORD_SIZE != 0 <==> r == Err(LengthNotMultipleOfFour(|data|))
    ensures |data| == 0 <==> r == Err(MissingFirstWord)
    ensures r.Err? && r.error.WrongMagic?
            <==> |data| % WORD_SIZE == 0 && |data| >= WORD_SIZE && WordOf(data[..WORD_SIZE]) != MAGIC_NUMBER
    ensures r.Err? && r.error.WrongMagic? ==> |data| >= WORD_SIZE && r.error.found == WordOf(data[..WORD_SIZE])
    ensures r.Ok? <==> |data| % WORD_SIZE == 0 && |data| >= WORD_SIZE && WordOf(data[..WORD_SIZE]) == MAGIC_NUMBER
    ensures r.Ok? ==> |r.value.words| == |data| / WORD_SIZE && r.value.words[0] == MAGIC_NUMBER
    ensures r.Ok? ==> WordsToBytes(r.value.words) == data
  {
    if |data| % WORD_SIZE != 0 then Err(LengthNotMultipleOfFour(|data|))
    else
      var words := if aligned then Reinterpret(data) else CopyWords(data);
      BranchesAgree(data);
      WordsToBytesReinterpret(data);
      assert |words| > 0 ==> data[0 .. WORD_SIZE] == data[..WORD_SIZE] && words[0] == WordOf(data[..WORD_SIZE]);
      if |words| == 0 then Err(MissingFirstWord)
      else if words[0] != MAGIC_NUMBER then Err(WrongMagic(words[0]))
      else Ok(SpirV(words))
  }

  /** Word `i` of an accepted module is bytes `4i .. 4i+4` of the input. */
  lemma MakeSpirvWordAt(data: seq<u8>, aligned: bool, i: nat)
    requires MakeSpirv(data, aligned).Ok?
    requires i < |data| / WORD_SIZE
    ensures MakeSpirv(data, aligned).value.words[i] == WordOf(data[WORD_SIZE * i .. WORD_SIZE * i + WORD_SIZE])
  {
    BranchesAgree(data);
  }

  /** Where the buffer happens to sit in memory does not change the outcome. */
  lemma MakeSpirvIgnoresAlignment(data: seq<u8>)
    ensures MakeSpirv(data, true) == MakeSpirv(data, false)
  {
    if |data| % WORD_SIZE == 0 {
      BranchesAgree(data);
    }
  }

  /** Any module that starts with the magic number, laid out as bytes, is
      accepted and read back word for word. */
  lemma MakeSpirvRoundTrip(words: seq<u32>, aligned: bool)
    requires |words| > 0 && words[0] == MAGIC_NUMBER
    ensures MakeSpirv(WordsToBytes(words), aligned) == Ok(SpirV(words))
  {
    var data := WordsToBytes(words);
    ReinterpretWordsToBytes(words);
    BranchesAgree(data);
  }
}
