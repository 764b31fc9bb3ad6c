/** The packed bit array under the colour log: libs/objsize/bitarray.h. */
module BitArray {

  const BITS_OF_CHAR := 8
  const SIZEOF_INT := 4

  // ---------------------------------------------------------------- sizes

  /** The rounding as written: the remainder is taken of the word size, not of `n`. */
  function WordAlign(n: nat): nat
    requires n > 0 // `n` is a divisor
  {
    var m := SIZEOF_INT % n;
    if m == 0 then n else n + SIZEOF_INT - m
  }

  /** So it changes a single size, and rounds that up. */
  lemma WordAlignIs(n: nat)
    requires n > 0
    ensures WordAlign(n) == if n == 3 then 6 else n
  {
  }

  function SizeBytes(bits: nat): nat
    requires bits >= BITS_OF_CHAR
  {
    WordAlign(bits / BITS_OF_CHAR)
  }

  /** Despite its name the rounding aligns nothing: only sizes that were aligned stay so. */
  lemma WordAlignAlignsOnlyTheAligned(n: nat)
    requires n > 0
    ensures n <= WordAlign(n)
    ensures WordAlign(n) % SIZEOF_INT == 0 <==> n % SIZEOF_INT == 0
  {
    if n > SIZEOF_INT {
      assert SIZEOF_INT % n == SIZEOF_INT;
    }
  }

  /** Exactly when the allocation holds every bit it was asked for. */
  lemma SizeBytesCovers(bits: nat)
    requires bits >= BITS_OF_CHAR
    ensures bits <= BITS_OF_CHAR * SizeBytes(bits) <==> bits % BITS_OF_CHAR == 0 || bits / BITS_OF_CHAR == 3
  {
    var n := bits / BITS_OF_CHAR;
    if n > SIZEOF_INT {
      assert SIZEOF_INT % n == SIZEOF_INT;
    } else {
      assert n == 1 || n == 2 || n == 3 || n == 4;
    }
  }

  // ---------------------------------------------------------------- bits of a byte

  /** `1 << k` */
  function Mask(k: nat): bv8
    requires k < 8
  {
    if k == 0 then 1 else if k == 1 then 2 else if k == 2 then 4 else if k == 3 then 8
    else if k == 4 then 16 else if k == 5 then 32 else if k == 6 then 64 else 128
  }

  /** Bit `k` of a byte is the one of weight 2^k. */
  lemma MaskIsShift(k: nat)
    requires k < 8
    ensures Mask(k) == 1 << k
  {
  }

  predicate ByteBit(b: bv8, k: nat)
    requires k < 8
  {
    b & Mask(k) != 0
  }

  function WithBit(b: bv8, k: nat, val: bool): bv8
    requires k < 8
  {
    if val then b | Mask(k) else b & !Mask(k)
  }

  lemma WithBitChangesOneBit(b: bv8, k: nat, j: nat, val: bool)
    requires k < 8 && j < 8
    ensures ByteBit(WithBit(b, k, val), j) == if j == k then val else ByteBit(b, j)
  {
  }

  // ---------------------------------------------------------------- the array

  /** The abstract value of a byte sequence: eight bits a byte, lowest bit first. */
  ghost function Bits(bytes: seq<bv8>): (r: seq<bool>)
    ensures |r| == BITS_OF_CHAR * |bytes|
  {
    seq(BITS_OF_CHAR * |bytes|, i requires 0 <= i < BITS_OF_CHAR * |bytes| =>
      ByteBit(bytes[i / BITS_OF_CHAR], i % BITS_OF_CHAR))
  }

  /** Storing into one byte changes one bit of the whole array and no other. */
  lemma StoreChangesOneBit(bytes: seq<bv8>, i: nat, val: bool)
    requires i < BITS_OF_CHAR * |bytes|
    ensures Bits(bytes[i / 8 := WithBit(bytes[i / 8], i % 8, val)]) == Bits(bytes)[i := val]
  {
    var stored := bytes[i / 8 := WithBit(bytes[i / 8], i % 8, val)];
    forall j | 0 <= j < BITS_OF_CHAR * |bytes|
      ensures Bits(stored)[j] == Bits(bytes)[i := val][j]
    {
      WithBitChangesOneBit(bytes[i / 8], i % 8, j % 8, val);
      assert i / 8 == j / 8 && i % 8 == j % 8 ==> i == j;
    }
  }

  method Get(arr: array<bv8>, i: nat) returns (bit: bool)
    requires i < BITS_OF_CHAR * arr.Length
    ensures bit == Bits(arr[..])[i]
  {
    bit := arr[i / BITS_OF_CHAR] & Mask(i % BITS_OF_CHAR) != 0;
  }

  method Set(arr: array<bv8>, i: nat, val: bool)
    requires i < BITS_OF_CHAR * arr.Length
    modifies arr
    ensures Bits(arr[..]) == old(Bits(arr[..]))[i := val]
  {
    var mask := Mask(i % BITS_OF_CHAR);
    StoreChangesOneBit(arr[..], i, val);
    ghost var before := arr[..];
    if val {
      arr[i / BITS_OF_CHAR] := arr[i / BITS_OF_CHAR] | mask;
    } else {
      arr[i / BITS_OF_CHAR] := arr[i / BITS_OF_CHAR] & !mask;
    }
    assert arr[..] == before[i / 8 := WithBit(before[i / 8], i % 8, val)];
  }

  /** Whole bytes first, then the last bits one by one. */
  method Init(arr: array<bv8>, size: nat, val: bool)
    requires size <= BITS_OF_CHAR * arr.Length
    modifies arr
    ensures forall j :: 0 <= j < size ==> Bits(arr[..])[j] == val
    ensures forall j :: size <= j < BITS_OF_CHAR * arr.Length ==> Bits(arr[..])[j] == old(Bits(arr[..]))[j]
  {
    var byteSize := size / BITS_OF_CHAR;
    var valByte: bv8 := if val then 255 else 0;
    var i := 0;
    while i < byteSize
      invariant i <= byteSize
      invariant forall k :: 0 <= k < i ==> arr[k] == valByte
      invariant forall k :: i <= k < arr.Length ==> arr[k] == old(arr[k])
    {
      arr[i] := valByte;
      i := i + 1;
    }
    i := i * BITS_OF_CHAR;
    assert forall j :: 0 <= j < i ==> Bits(arr[..])[j] == val by {
      assert forall k | 0 <= k < 8 :: ByteBit(valByte, k) == val;
    }
    while i < size
      invariant byteSize * BITS_OF_CHAR <= i <= size
      invariant forall j :: 0 <= j < i ==> Bits(arr[..])[j] == val
      invariant forall j :: size <= j < BITS_OF_CHAR * arr.Length ==> Bits(arr[..])[j] == old(Bits(arr[..]))[j]
    {
      Set(arr, i, val);
      i := i + 1;
    }
  }

  /** Growing the allocation keeps the bits already there. */
  lemma GrowKeepsBits(bytes: seq<bv8>, grown: seq<bv8>, n: nat)
    requires bytes <= grown && n <= BITS_OF_CHAR * |bytes|
    ensures Bits(grown)[..n] == Bits(bytes)[..n]
  {
  }
}
