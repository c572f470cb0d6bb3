/** The size arithmetic of the stream encryption format: how many blocks a plaintext takes, how much
    room its ciphertext needs, and the inverse of that. */
module StreamSizes {
  import opened Base
  import opened Aead

  // Products, quotients and remainders below use the literals 32768 (MAX_BLOCK_SIZE), 32752 (BLOCKN_DATA_SIZE)
  // and 16 (EC_DATA_BLOCKS), which keeps the arithmetic linear for the verifier.
  const EC_DATA_BLOCKS := 16
  const VERSION_SIZE := 1
  const PLAINTEXT_SIZE_BYTES := 4
  const MAX_BLOCK_SIZE := 32768
  const HEADER_SIZE := VERSION_SIZE + NONCE_SIZE + PLAINTEXT_SIZE_BYTES
  const BLOCK0_DATA_SIZE := MAX_BLOCK_SIZE - HEADER_SIZE - TAG_SIZE
  const BLOCKN_DATA_SIZE := MAX_BLOCK_SIZE - TAG_SIZE
  const MIN_CIPHERTEXT_SIZE := ((HEADER_SIZE + TAG_SIZE + 1 + EC_DATA_BLOCKS - 1) / 16) * 16

  function NumBlocks(plaintextSize: nat): nat {
    if plaintextSize == 0 then 0
    else if plaintextSize <= BLOCK0_DATA_SIZE then 1
    else 1 + CeilDiv(plaintextSize - BLOCK0_DATA_SIZE, 32752)
  }

  function BlockDataSize(plaintextSize: nat, blockIndex: nat): int {
    var numBlocks := NumBlocks(plaintextSize);
    if blockIndex == 0 then
      if numBlocks == 1 then plaintextSize else BLOCK0_DATA_SIZE
    else if blockIndex < numBlocks - 1 then BLOCKN_DATA_SIZE
    else
      var filled := BLOCK0_DATA_SIZE + (blockIndex - 1) * 32752;
      plaintextSize - filled
  }

  function LastBlockPadding(numBlocks: nat, lastData: nat): nat {
    if numBlocks == 1 then
      (EC_DATA_BLOCKS - (HEADER_SIZE + lastData) % 16) % 16
    else
      (EC_DATA_BLOCKS - lastData % 16) % 16
  }

  /** Bytes sealed for the last block. */
  function LastPadded(plaintextSize: nat): int
    requires plaintextSize > 0
  {
    LastDataInRange(plaintextSize);
    var numBlocks := NumBlocks(plaintextSize);
    var lastData := BlockDataSize(plaintextSize, numBlocks - 1);
    lastData + LastBlockPadding(numBlocks, lastData)
  }

  /** The total size that Encrypt and Overhead both compute. */
  function CiphertextSize(plaintextSize: nat): int
    requires plaintextSize > 0
  {
    var numBlocks := NumBlocks(plaintextSize);
    var lastBlockCipherSize := LastPadded(plaintextSize) + TAG_SIZE;
    if numBlocks == 1 then HEADER_SIZE + lastBlockCipherSize
    else (numBlocks - 1) * 32768 + lastBlockCipherSize
  }

  function Overhead(plaintextSize: nat): int {
    if plaintextSize == 0 then 0 else CiphertextSize(plaintextSize) - plaintextSize
  }

  function MaxPlaintextSizeForTarget(targetSize: int): Outcome<int> {
    if targetSize < MIN_CIPHERTEXT_SIZE then Err(TargetTooSmall)
    else if targetSize % 16 != 0 then Err(TargetNotAligned)
    else
      var numBlocks := CeilDiv(targetSize, 32768);
      if numBlocks == 1 then Ok(Min(targetSize - HEADER_SIZE - TAG_SIZE, BLOCK0_DATA_SIZE))
      else
        var lastBlockCipherSize := targetSize - (numBlocks - 1) * 32768;
        var lastData := Min(lastBlockCipherSize - TAG_SIZE, 32752);
        Ok(BLOCK0_DATA_SIZE + (numBlocks - 2) * 32752 + lastData)
  }

  /** Where block i starts in the plaintext. */
  function PlainStart(i: nat): nat {
    if i == 0 then 0 else BLOCK0_DATA_SIZE + (i - 1) * 32752
  }

  /** Where block i starts in a plaintext of the given size, or its end when there is no block i. */
  function BlockStart(size: nat, i: nat): nat { Min(PlainStart(i), size) }

  /** Where the sealed bytes of block i start in the ciphertext. */
  function CipherStart(i: nat): nat {
    if i == 0 then HEADER_SIZE else i * 32768
  }

  /** The plaintext of length p ends inside its last block, which is never empty. */
  lemma LastDataInRange(p: nat)
    requires p > 0
    ensures NumBlocks(p) > 0
    ensures PlainStart(NumBlocks(p) - 1) < p <= PlainStart(NumBlocks(p))
    ensures BlockDataSize(p, NumBlocks(p) - 1) == p - PlainStart(NumBlocks(p) - 1) > 0
    ensures BlockStart(p, NumBlocks(p)) == p
  {
  }

  /** Every block's data size is the width of its plaintext range. */
  lemma BlockDataSizeIs(p: nat, i: nat)
    requires i < NumBlocks(p)
    ensures BlockDataSize(p, i) == Min(PlainStart(i + 1), p) - PlainStart(i) > 0
    ensures PlainStart(i) < p
    ensures PlainStart(i) == BlockStart(p, i) && PlainStart(i) + BlockDataSize(p, i) == BlockStart(p, i + 1)
  {
  }

  /** The padding is what is missing to the next multiple of 16. */
  lemma PaddingIs(numBlocks: nat, lastData: nat)
    ensures var x := if numBlocks == 1 then HEADER_SIZE + lastData else lastData;
            var y := x + LastBlockPadding(numBlocks, lastData);
            y % 16 == 0 && x <= y < x + EC_DATA_BLOCKS
  {
    UpTo16(if numBlocks == 1 then HEADER_SIZE + lastData else lastData);
  }

  lemma UpTo16(x: nat)
    ensures (x + (16 - x % 16) % 16) % 16 == 0 && 0 <= (16 - x % 16) % 16 < 16
  {
    var q, r := x / 16, x % 16;
    assert r > 0 ==> x + (16 - r) == 16 * (q + 1);
  }

  /** The ciphertext is 16-byte aligned and its last block is non-empty and fits one block. */
  lemma CiphertextSizeBounds(p: nat)
    requires p > 0
    ensures CiphertextSize(p) % 16 == 0
    ensures CiphertextSize(p) >= MIN_CIPHERTEXT_SIZE
    ensures (NumBlocks(p) - 1) * 32768 < CiphertextSize(p) <= NumBlocks(p) * 32768
    ensures CiphertextSize(p) == CipherStart(NumBlocks(p) - 1) + LastPadded(p) + TAG_SIZE
    ensures p <= PlainStart(NumBlocks(p) - 1) + LastPadded(p) <= PlainStart(NumBlocks(p))
    ensures LastPadded(p) < p - PlainStart(NumBlocks(p) - 1) + EC_DATA_BLOCKS
    ensures Overhead(p) >= HEADER_SIZE + TAG_SIZE
  {
    LastDataInRange(p);
    var n := NumBlocks(p);
    var lastData := p - PlainStart(n - 1);
    PaddingIs(n, lastData);
    AssembleSize(p, n, LastPadded(p), CiphertextSize(p));
  }

  lemma AssembleSize(p: nat, n: nat, padded: nat, size: nat)
    requires n >= 1 && PlainStart(n - 1) < p <= PlainStart(n)
    requires padded - 16 < p - PlainStart(n - 1) <= padded
    requires (if n == 1 then HEADER_SIZE + padded else padded) % 16 == 0
    requires size == CipherStart(n - 1) + padded + TAG_SIZE
    ensures size % 16 == 0 && size >= MIN_CIPHERTEXT_SIZE
    ensures (n - 1) * 32768 < size <= n * 32768
    ensures p <= PlainStart(n - 1) + padded <= PlainStart(n)
    ensures size - p >= HEADER_SIZE + TAG_SIZE
  {
  }

  /** The maximum in closed form: the plaintext before the last block and what the last block has room for. */
  lemma MaxIs(target: int)
    requires target >= MIN_CIPHERTEXT_SIZE && target % 16 == 0
    ensures var t := CeilDiv(target, 32768);
            && t >= 1 && (t - 1) * 32768 < target <= t * 32768
            && MaxPlaintextSizeForTarget(target) == Ok(PlainStart(t - 1) + target - CipherStart(t - 1) - TAG_SIZE)
  {
  }

  /** What remains of the comparison once the definitions are gone: n and t blocks, and sizes counted in sixteens. */
  lemma CompareSizes(p: nat, n: nat, size16: nat, t: nat, target16: nat)
    requires n >= 1 && t >= 1
    requires PlainStart(n - 1) < p <= PlainStart(n)
    requires (n - 1) * 32768 < 16 * size16 <= n * 32768
    requires 0 <= 16 * size16 - CipherStart(n - 1) - TAG_SIZE - (p - PlainStart(n - 1)) < 16
    requires (t - 1) * 32768 < 16 * target16 <= t * 32768
    ensures 16 * size16 <= 16 * target16 <==> p <= PlainStart(t - 1) + 16 * target16 - CipherStart(t - 1) - TAG_SIZE
  {
  }

  /** Overhead and MaxPlaintextSizeForTarget are a Galois connection: a plaintext fits a target exactly
      when it is no longer than the maximum computed for that target. */
  lemma FitsIffAtMostMax(p: nat, target: int)
    requires p >= 1
    requires target >= MIN_CIPHERTEXT_SIZE && target % 16 == 0
    ensures MaxPlaintextSizeForTarget(target).Ok? && MaxPlaintextSizeForTarget(target).value >= 1
    ensures p + Overhead(p) <= target <==> p <= MaxPlaintextSizeForTarget(target).value
  {
    CiphertextSizeBounds(p);
    LastDataInRange(p);
    MaxIs(target);
    CompareSizes(p, NumBlocks(p), CiphertextSize(p) / 16, CeilDiv(target, 32768), target / 16);
  }

  /** The targets that are refused, and why. */
  lemma TargetErrors(target: int)
    ensures MaxPlaintextSizeForTarget(target) == Err(TargetTooSmall) <==> target < 48
    ensures MaxPlaintextSizeForTarget(target) == Err(TargetNotAligned) <==> target >= 48 && target % 16 != 0
    ensures MaxPlaintextSizeForTarget(target).Ok? <==> target >= 48 && target % 16 == 0
  {
  }

  /** The targets that some plaintext fills exactly: those whose last block has room for a byte of data.
      The documentation of MaxPlaintextSizeForTarget promises an exact fit for every valid target. */
  predicate Fillable(target: int) {
    target <= MAX_BLOCK_SIZE || target % 32768 != TAG_SIZE
  }

  lemma FillsIff(m: nat, n: nat, size: nat, t: nat, target: nat)
    requires n >= 1 && t >= 1 && target >= MIN_CIPHERTEXT_SIZE
    requires m == PlainStart(t - 1) + target - CipherStart(t - 1) - TAG_SIZE
    requires PlainStart(n - 1) < m <= PlainStart(n)
    requires size % 16 == 0 && target % 16 == 0
    requires 0 <= size - CipherStart(n - 1) - TAG_SIZE - (m - PlainStart(n - 1)) < 16
    requires (t - 1) * 32768 < target <= t * 32768
    ensures size == target <==> Fillable(target)
  {
    var room := target - (t - 1) * 32768;
    RoomIsRemainder(t - 1, room);
    SixteenDivides(t - 1, room);
    if room == 16 && t > 1 {
      assert m == PlainStart(t - 1);
      assert n == t - 1;
    } else {
      assert PlainStart(t - 1) < m <= PlainStart(t);
      assert n == t;
      OneMultipleOf16(size, target);
    }
  }

  /** What the last block takes of a target is the target's remainder by the block size, or a full block. */
  lemma RoomIsRemainder(k: nat, room: nat)
    requires 0 < room <= 32768
    ensures (k * 32768 + room) % 32768 == TAG_SIZE <==> room == TAG_SIZE
  {
  }

  lemma SixteenDivides(k: nat, room: nat)
    requires (k * 32768 + room) % 16 == 0
    ensures room % 16 == 0
  {
    var q := (k * 32768 + room) / 16;
    assert room == 16 * (q - k * 2048);
  }

  lemma OneMultipleOf16(a: nat, b: nat)
    requires a % 16 == 0 && b % 16 == 0 && 0 <= a - b < 16
    ensures a == b
  {
  }

  lemma NotFilled(q: nat, n: nat, size: nat, target: nat)
    requires n >= 1 && !Fillable(target)
    requires PlainStart(n - 1) < q
    requires size >= CipherStart(n - 1) + TAG_SIZE + (q - PlainStart(n - 1))
    requires (n - 1) * 32768 < size <= n * 32768
    ensures size != target
  {
  }

  /** The returned size fills the target exactly if and only if the target is fillable, and when it is
      not, no plaintext of any size does. */
  lemma MaxFillsTargetIff(target: int)
    requires target >= MIN_CIPHERTEXT_SIZE && target % 16 == 0
    ensures MaxPlaintextSizeForTarget(target).Ok?
    ensures var p := MaxPlaintextSizeForTarget(target).value;
            p >= 1 && (p + Overhead(p) == target <==> Fillable(target))
    ensures !Fillable(target) ==> forall q: nat :: q >= 1 ==> q + Overhead(q) != target
  {
    MaxIs(target);
    var m := MaxPlaintextSizeForTarget(target).value;
    CiphertextSizeBounds(m);
    LastDataInRange(m);
    FillsIff(m, NumBlocks(m), CiphertextSize(m), CeilDiv(target, 32768), target);
    if !Fillable(target) {
      forall q: nat | q >= 1
        ensures q + Overhead(q) != target
      {
        CiphertextSizeBounds(q);
        LastDataInRange(q);
        NotFilled(q, NumBlocks(q), CiphertextSize(q), target);
      }
    }
  }

  /** 32784 = one full block and 16 bytes: a valid target that nothing fills. */
  lemma UnfillableTarget()
    ensures MaxPlaintextSizeForTarget(32784) == Ok(32735)
    ensures 32735 + Overhead(32735) == 32768
  {
  }
}
