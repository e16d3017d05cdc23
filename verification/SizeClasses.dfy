/** Slab size classes and the layout of a node's block, src/slab.hpp:15-39 and src/database.hpp:175-310. */
module SizeClasses {

  const CLASS_SIZES: seq<nat> := [
    8, 16, 24, 32, 40, 48, 56, 64, 72, 80, 88, 96, 104, 112, 120, 128,
    160, 192, 224, 256, 320, 384, 448, 512, 640, 768, 896, 1024, 1280, 1536, 1792, 2048, 2560, 3072, 3584, 4096]

  const CLASS_COUNT: nat := 36
  const DENSE_LIMIT: nat := 128
  const DENSE_CLASSES: nat := 16
  const LARGEST_CLASS: nat := 4096

  lemma ClassesAscend()
    ensures |CLASS_SIZES| == CLASS_COUNT
    ensures forall i, j :: 0 <= i < j < CLASS_COUNT ==> CLASS_SIZES[i] < CLASS_SIZES[j]
    ensures CLASS_SIZES[CLASS_COUNT - 1] == LARGEST_CLASS
  {
  }

  /** Block `i` is the smallest that holds `size` bytes. */
  predicate Smallest(size: nat, i: nat)
  {
    |CLASS_SIZES| == CLASS_COUNT && i < CLASS_COUNT && size <= CLASS_SIZES[i] && (i > 0 ==> CLASS_SIZES[i - 1] < size)
  }

  lemma SmallestUnique(size: nat, i: nat, j: nat)
    requires Smallest(size, i) && Smallest(size, j)
    ensures i == j
  {
    ClassesAscend();
  }

  lemma DenseClass(size: nat)
    requires size <= DENSE_LIMIT
    ensures Smallest(size, if size <= 8 then 0 else (size + 7) / 8 - 1)
  {
    var i: nat := if size <= 8 then 0 else (size + 7) / 8 - 1;
    assert i < 16;
    assert forall k :: 0 <= k < 16 ==> CLASS_SIZES[k] == 8 * (k + 1);
  }

  /** The class lookup: a division for small sizes, a binary search for the rest. */
  method ClassIndex(size: nat) returns (i: nat)
    requires size <= LARGEST_CLASS
    ensures Smallest(size, i)
  {
    ClassesAscend();
    if size <= DENSE_LIMIT {
      DenseClass(size);
      return if size <= 8 then 0 else (size + 7) / 8 - 1;
    }
    assert CLASS_SIZES[15] == 128;
    var low, high := DENSE_CLASSES, CLASS_COUNT - 1;
    while low < high
      invariant DENSE_CLASSES <= low <= high < CLASS_COUNT
      invariant CLASS_SIZES[low - 1] < size <= CLASS_SIZES[high]
    {
      var middle := (low + high) / 2;
      if CLASS_SIZES[middle] < size {
        low := middle + 1;
      } else {
        high := middle;
      }
    }
    i := low;
  }

  /** The class as a function, by trying them in order. */
  function ClassFrom(size: nat, i: nat): (r: nat)
    requires size <= LARGEST_CLASS && i < CLASS_COUNT
    requires |CLASS_SIZES| == CLASS_COUNT && CLASS_SIZES[CLASS_COUNT - 1] == LARGEST_CLASS
    requires i > 0 ==> CLASS_SIZES[i - 1] < size
    ensures Smallest(size, r)
    decreases CLASS_COUNT - i
  {
    if size <= CLASS_SIZES[i] then i else ClassFrom(size, i + 1)
  }

  function BlockFor(size: nat): (block: nat)
    requires size <= LARGEST_CLASS
    ensures size <= block <= LARGEST_CLASS
  {
    ClassesAscend();
    CLASS_SIZES[ClassFrom(size, 0)]
  }

  /** A block is less than eight bytes, or less than a quarter of what was asked for, too large. */
  lemma LittleIsWasted(size: nat)
    requires 0 < size <= LARGEST_CLASS
    ensures BlockFor(size) < size + 8 || 4 * (BlockFor(size) - size) < size
    ensures BlockFor(size) % 8 == 0
  {
    ClassesAscend();
    var i := ClassFrom(size, 0);
    StepsAreSmall(i);
  }

  lemma StepsAreSmall(i: nat)
    requires i < |CLASS_SIZES|
    ensures var below := if i == 0 then 0 else CLASS_SIZES[i - 1];
            CLASS_SIZES[i] <= below + 8 || 4 * (CLASS_SIZES[i] - below) <= below
    ensures CLASS_SIZES[i] % 8 == 0
  {
  }

  // ---------- the block of a node ----------

  const NODE_BYTES: nat := 32

  function KeyStride(keyLength: nat): (n: nat)
    ensures keyLength <= n < keyLength + 8 && n % 8 == 0
  {
    (keyLength + 7) / 8 * 8
  }

  /** The body capacity of a node created for `body` bytes: its block less header, key and, if oversized, size field. */
  function BodyCapacity(keyLength: nat, body: nat): (n: nat)
    ensures body <= n
    ensures n <= LARGEST_CLASS || n == body
  {
    var fixed := NODE_BYTES + KeyStride(keyLength);
    if fixed + body <= LARGEST_CLASS then BlockFor(fixed + body) - fixed else body
  }

  /** The block asked of the pool for a key and a body, and what of a block is left for the body. */
  function BlockSize(keyLength: nat, body: nat): (n: nat)
  {
    var wanted := NODE_BYTES + KeyStride(keyLength) + body;
    if wanted <= LARGEST_CLASS then BlockFor(wanted) else wanted + 8
  }

  function Capacity(keyLength: nat, block: nat): (n: int)
  {
    block - NODE_BYTES - KeyStride(keyLength) - if block > LARGEST_CLASS then 8 else 0
  }

  lemma BlockHoldsBody(keyLength: nat, body: nat)
    ensures Capacity(keyLength, BlockSize(keyLength, body)) == BodyCapacity(keyLength, body) >= body
  {
  }

  /** The run capacity of a list node created for `bytes` of run, after the head and used fields. */
  function RunCapacity(keyLength: nat, bytes: nat): (n: nat)
    ensures bytes <= n
    ensures n <= LARGEST_CLASS || n == bytes
  {
    BodyCapacity(keyLength, 8 + bytes) - 8
  }
}
