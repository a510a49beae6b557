/** Mapping an address to the block that holds it (`handleFinish`). */
module Blocks {

  /** `Math.floor(address / blockSize) * blockSize`: for a positive divisor
      Dafny's `/` rounds down, as `Math.floor` does. */
  function BlockStart(address: int, blockSize: int): (s: int)
    requires blockSize > 0
    ensures s <= address < s + blockSize
    ensures s % blockSize == 0
  {
    var q := address / blockSize;
    MultipleHasNoRemainder(q, blockSize);
    q * blockSize
  }

  /** `blockStart + blockSize - 1`: the last address of the block. */
  function BlockEnd(address: int, blockSize: int): (e: int)
    requires blockSize > 0
    ensures BlockStart(address, blockSize) <= address <= e
    ensures e - BlockStart(address, blockSize) + 1 == blockSize
  {
    BlockStart(address, blockSize) + blockSize - 1
  }

  lemma MultipleHasNoRemainder(q: int, b: int)
    requires b > 0
    ensures (q * b) % b == 0 && (q * b) / b == q
  {
    var r := (q * b) % b;
    var d := (q * b) / b;
    assert q * b == d * b + r && 0 <= r < b;
    Distribute(q, d, b);
    NoSmallMultiple(q - d, b);
  }

  lemma Distribute(x: int, y: int, b: int)
    ensures (x - y) * b == x * b - y * b
  {
  }

  /** The only multiple of `b` strictly between `-b` and `b` is 0. */
  lemma NoSmallMultiple(k: int, b: int)
    requires b > 0 && -b < k * b < b
    ensures k == 0
  {
    if k > 0 {
      assert k * b == (k - 1) * b + b;
      MultipleSign(k - 1, b);
    } else if k < 0 {
      assert k * b == (k + 1) * b - b;
      MultipleSign(-(k + 1), b);
    }
  }

  lemma MultipleSign(k: nat, b: int)
    requires b > 0
    ensures k * b >= 0
  {
  }

  /** The block is the only aligned window of `blockSize` addresses that
      contains the address. */
  lemma BlockUnique(address: int, blockSize: int, s: int)
    requires blockSize > 0 && s % blockSize == 0 && s <= address < s + blockSize
    ensures s == BlockStart(address, blockSize)
  {
    var t := BlockStart(address, blockSize);
    var k := s / blockSize;
    var m := t / blockSize;
    assert s == k * blockSize;
    assert t == m * blockSize;
    Distribute(k, m, blockSize);
    NoSmallMultiple(k - m, blockSize);
  }

  /** Every address of a block maps back to that same block. */
  lemma SameBlock(address: int, other: int, blockSize: int)
    requires blockSize > 0
    requires BlockStart(address, blockSize) <= other <= BlockEnd(address, blockSize)
    ensures BlockStart(other, blockSize) == BlockStart(address, blockSize)
  {
    BlockUnique(other, blockSize, BlockStart(address, blockSize));
  }
}
