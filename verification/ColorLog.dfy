/** The colour log of libs/objsize/c_objsize.c: a growable bit array with a run-length coder on top.
    Every `ASSERT` of the source is a proved assertion or a proved precondition here. */
module ColorLog {
  import opened BitArray
  import opened Powers
  import opened Rle
  import opened Sequences
  import opened Wrappers

  const COLORS_INIT_COUNT := 256
  const INT_MAX := 0x7FFF_FFFF

  lemma LargeIsUnchanged(n: nat)
    requires n > SIZEOF_INT
    ensures WordAlign(n) == n
  {
    assert SIZEOF_INT % n == SIZEOF_INT;
  }

  /** A capacity that only ever doubles from 512 is a whole number of bytes, all of them allocated. */
  lemma CapacityIsAllocated(cap: nat)
    requires cap > 0 && cap % (2 * COLORS_INIT_COUNT) == 0
    ensures BITS_OF_CHAR * SizeBytes(cap) == cap
  {
    hide WordAlign;
    var k := cap / 512;
    assert cap == 512 * k;
    var n := cap / BITS_OF_CHAR;
    assert n == 64 * k;
    LargeIsUnchanged(n);
  }

  class Log {
    var colors: array?<bv8>
    var bitCap: nat
    var writeIndex: nat
    var readIndex: nat
    var prevColor: Color
    var repeatCount: nat

    /** Between `colors_init` and `colors_deinit`. */
    ghost predicate Valid()
      reads this, colors
    {
      && colors != null
      && bitCap > 0 && bitCap % (2 * COLORS_INIT_COUNT) == 0
      && BITS_OF_CHAR * colors.Length == bitCap
      && readIndex <= writeIndex <= bitCap
      && repeatCount <= INT_MAX
    }

    /** The bits written so far. */
    ghost function Written(): (r: seq<bool>)
      requires colors != null && writeIndex <= BITS_OF_CHAR * colors.Length
      reads this`colors, this`writeIndex, colors
      ensures |r| == writeIndex
    {
      Bits(colors[..])[..writeIndex]
    }

    ghost function AsWriter(): Writer
      requires Valid()
      reads this, colors
    {
      Writer(prevColor, repeatCount, Written())
    }

    ghost function AsReader(): Reader
      requires Valid()
      reads this, colors
    {
      Reader(prevColor, repeatCount, Written(), readIndex)
    }

    constructor ()
      ensures colors == null
    {
      colors := null;
      bitCap, writeIndex, readIndex := 0, 0, 0;
      prevColor, repeatCount := WHITE, 0;
    }

    /** `colors_init` and the first `rle_init`. */
    method Open()
      requires colors == null
      modifies this
      ensures Valid() && fresh(colors)
      ensures AsWriter() == Writer(WHITE, 0, []) && readIndex == 0
    {
      bitCap := COLORS_INIT_COUNT * 2;
      CapacityIsAllocated(bitCap);
      colors := new bv8[SizeBytes(bitCap)];
      writeIndex := 0;
      readIndex := 0;
      RleInit();
    }

    method Close()
      modifies this`colors
      ensures colors == null
    {
      colors := null;
    }

    method RleInit()
      modifies this`prevColor, this`repeatCount
      ensures prevColor == WHITE && repeatCount == 0
    {
      prevColor := 0;
      repeatCount := 0;
    }

    // ---------------------------------------------------------------- bits

    /** Doubles the capacity first when the log is full. */
    method WriteBit(bit: bool)
      requires Valid()
      modifies this`colors, this`bitCap, this`writeIndex, colors
      ensures Valid() && (colors == old(colors) || fresh(colors))
      ensures Written() == old(Written()) + [bit]
    {
      hide Bits;
      if writeIndex == bitCap {
        Grow();
      }
      ghost var before := Bits(colors[..]);
      Set(colors, writeIndex, bit);
      writeIndex := writeIndex + 1;
      assert Bits(colors[..])[..writeIndex] == before[..writeIndex - 1] + [bit];
    }

    /** Doubles the capacity and copies the bytes over. */
    method Grow()
      requires Valid() && writeIndex == bitCap
      modifies this`colors, this`bitCap
      ensures Valid() && fresh(colors) && writeIndex < bitCap
      ensures Written() == old(Written())
    {
      hide Bits, SizeBytes;
      ghost var bytes := colors[..];
      var newCap := bitCap * 2;
      assert newCap % (2 * COLORS_INIT_COUNT) == 0;
      CapacityIsAllocated(newCap);
      var newArr := new bv8[SizeBytes(newCap)];
      forall i | 0 <= i < colors.Length {
        newArr[i] := colors[i];
      }
      assert colors[..] == bytes <= newArr[..];
      GrowKeepsBits(bytes, newArr[..], writeIndex);
      colors := newArr;
      bitCap := newCap;
      assert Written() == Bits(bytes)[..writeIndex];
    }

    method ReadBit() returns (res: bool)
      requires Valid() && readIndex < writeIndex
      modifies this`readIndex
      ensures Valid() && readIndex == old(readIndex) + 1
      ensures Written() == old(Written()) && res == Written()[old(readIndex)]
    {
      res := Get(colors, readIndex);
      readIndex := readIndex + 1;
    }

    method WriteInt(arg: nat, width: nat)
      requires Valid() && arg < Pow2(width)
      modifies this`colors, this`bitCap, this`writeIndex, colors
      ensures Valid() && (colors == old(colors) || fresh(colors))
      ensures Written() == old(Written()) + IntBits(arg, width)
    {
      var a: nat, w: nat := arg, width;
      while w > 0
        invariant Valid() && (colors == old(colors) || fresh(colors))
        invariant a < Pow2(w)
        invariant old(Written()) + IntBits(arg, width) == Written() + IntBits(a, w)
      {
        ghost var before := Written();
        w := w - 1;
        WriteBit(a % 2 == 1);
        Associative(before, [a % 2 == 1], IntBits(a / 2, w));
        a := a / 2;
      }
      assert a == 0;
    }

    method ReadInt(width: nat) returns (acc: nat)
      requires Valid() && width > 0 && AsReader().CanTake(width)
      modifies this`readIndex
      ensures Valid() && readIndex == old(readIndex) + width
      ensures Written() == old(Written())
      ensures acc == old(AsReader().Peek(width))
    {
      hide IntOf, Pow2, Written;
      Unscaled(0);
      NoBits(Pow2(width));
      acc := 0;
      var hiBit := Pow2(width - 1);
      var w: nat := width;
      ghost var bits, sofar := Written(), [];
      while w > 0
        invariant w + |sofar| == width && readIndex == old(readIndex) + |sofar|
        invariant sofar == bits[old(readIndex)..readIndex]
        invariant acc == IntOf(sofar) * Pow2(w)
      {
        w := w - 1;
        var bit := ReadBit();
        acc := ShiftInBit(sofar, acc, hiBit, bit, w);
        SliceSnoc(bits, old(readIndex), readIndex - 1);
        sofar := sofar + [bit];
      }
      assert acc == IntOf(sofar) by { Unscaled(IntOf(sofar)); }
    }

    /** The loop body of `readint`: `acc >>= 1; if (bit) acc |= hibit;`. */
    static method ShiftInBit(ghost sofar: seq<bool>, acc: nat, hiBit: nat, bit: bool, ghost w: nat)
        returns (shifted: nat)
      requires acc == IntOf(sofar) * Pow2(w + 1) && hiBit == Pow2(|sofar| + w)
      ensures shifted == IntOf(sofar + [bit]) * Pow2(w)
    {
      ShiftIn(sofar, bit, w);
      shifted := acc / 2;
      if bit {
        assert shifted < hiBit; // so `|=` adds the bit
        shifted := shifted + hiBit;
      }
    }

    // ---------------------------------------------------------------- run lengths

    method RleWriteRepeats()
      requires Valid()
      modifies this`colors, this`bitCap, this`writeIndex, this`repeatCount, colors
      ensures Valid() && (colors == old(colors) || fresh(colors))
      ensures AsWriter() == FlushSpec(old(AsWriter()))
    {
      while repeatCount >= MAX_REPEAT_COUNT
        invariant Valid() && (colors == old(colors) || fresh(colors))
        invariant Written() + TokenBits(RepeatTokens(repeatCount)) == FlushSpec(old(AsWriter())).bits
        decreases repeatCount
      {
        WriteChunk();
      }
      assert repeatCount < MAX_REPEAT_COUNT;
      if repeatCount > 0 {
        assert RepeatTokens(repeatCount) == [Tail(repeatCount)] + [];
        WriteToken(Tail(repeatCount), []);
        repeatCount := 0;
      }
      assert Written() + TokenBits([]) == Written();
    }

    /** The body of the outer loop: finds the highest order that fits and writes one chunk of it. */
    method WriteChunk()
      requires Valid() && repeatCount >= MAX_REPEAT_COUNT
      modifies this`colors, this`bitCap, this`writeIndex, this`repeatCount, colors
      ensures Valid() && (colors == old(colors) || fresh(colors))
      ensures repeatCount == old(repeatCount) - Pow2(Order(old(repeatCount)))
      ensures Written() + TokenBits(RepeatTokens(repeatCount)) ==
              old(Written()) + TokenBits(RepeatTokens(old(repeatCount)))
    {
      hide Pow2, OrderFrom, Order, RepeatTokens, TokenBits, Written;
      OrderIs(repeatCount);
      RepeatTokensStep(repeatCount);
      var ord := 0;
      while ord < MAX_REPEAT_ORDER - 1 && Pow2(ord) <= repeatCount / 2
        modifies {}
        invariant ord < MAX_REPEAT_ORDER && OrderFrom(0, repeatCount) == OrderFrom(ord, repeatCount)
      {
        OrderFromStep(ord, repeatCount);
        ord := ord + 1;
      }
      OrderFromStep(ord, repeatCount);
      WriteToken(Chunk(ord), RepeatTokens(repeatCount - Pow2(ord)));
      repeatCount := repeatCount - Pow2(ord);
    }

    /** The three integers of a repeat token: blue, the kind, the order or count. */
    method WriteToken(t: Token, ghost rest: seq<Token>)
      requires Valid() && t.Valid() && !t.Literal?
      modifies this`colors, this`bitCap, this`writeIndex, colors
      ensures Valid() && (colors == old(colors) || fresh(colors))
      ensures Written() + TokenBits(rest) == old(Written()) + TokenBits([t] + rest)
    {
      ghost var before := Written();
      FieldsFit(t);
      WriteInt(BLUE, 2);
      if t.Chunk? {
        WriteInt(1, 1);
        WriteInt(t.order, BITS_FOR_ORDER);
        JoinBits(before, IntBits(BLUE, 2), IntBits(1, 1), IntBits(t.order, BITS_FOR_ORDER));
      } else {
        WriteInt(0, 1);
        WriteInt(t.count, BITS_FOR_COUNT);
        JoinBits(before, IntBits(BLUE, 2), IntBits(0, 1), IntBits(t.count, BITS_FOR_COUNT));
      }
      TokenWritten(before, t, rest);
    }

    method RleWriteFlush()
      requires Valid()
      modifies this`colors, this`bitCap, this`writeIndex, this`repeatCount, colors
      ensures Valid() && (colors == old(colors) || fresh(colors))
      ensures AsWriter() == FlushSpec(old(AsWriter()))
    {
      assert Written() + TokenBits([]) == Written();
      if repeatCount > 0 {
        RleWriteRepeats();
      }
      assert repeatCount == 0;
    }

    method WriteColor(color: Color)
      requires Valid() && color != BLUE && repeatCount < INT_MAX
      modifies this`colors, this`bitCap, this`writeIndex, this`repeatCount, this`prevColor, colors
      ensures Valid() && (colors == old(colors) || fresh(colors))
      ensures AsWriter() == WriteSpec(old(AsWriter()), color)
    {
      if prevColor == color {
        repeatCount := repeatCount + 1;
      } else {
        RleWriteFlush();
        Pow2Values();
        WriteInt(color, 2);
        prevColor := color;
      }
    }

    method ReadColor() returns (c: Color)
      requires Valid() && ReadSpec(AsReader()).Some?
      modifies this`readIndex, this`repeatCount, this`prevColor
      ensures Valid() && Written() == old(Written())
      ensures (c, AsReader()) == ReadSpec(old(AsReader())).value
      decreases if repeatCount > 0 then 0 else 1
    {
      hide Written, ReadCount, Pow2, IntOf;
      if repeatCount > 0 {
        repeatCount := repeatCount - 1;
        c := prevColor;
      } else {
        Pow2Values();
        var x := ReadInt(2);
        if x == BLUE {
          ReadRepeatCount();
          assert repeatCount > 0;
          c := ReadColor();
        } else {
          prevColor := x;
          c := x;
        }
      }
    }

    /** The part of `rle_read` after a blue marker. */
    method ReadRepeatCount()
      requires Valid() && ReadCount(AsReader()).Some?
      modifies this`readIndex, this`repeatCount
      ensures Valid() && Written() == old(Written())
      ensures var (n, r) := old(ReadCount(AsReader())).value;
              AsReader() == r.(count := n)
    {
      var rk := ReadInt(1);
      if rk == 0 {
        repeatCount := ReadInt(BITS_FOR_COUNT);
        Pow2Values();
      } else {
        var order := ReadInt(BITS_FOR_ORDER);
        Pow2Values();
        Pow2Monotone(order, 15);
        repeatCount := Pow2(order);
      }
    }
  }

  /** One step of `readint`: shifting right and setting the top bit appends a bit to what was read. */
  lemma ShiftIn(sofar: seq<bool>, bit: bool, w: nat)
    ensures IntOf(sofar) * Pow2(w + 1) / 2 + (if bit then Pow2(|sofar| + w) else 0) == IntOf(sofar + [bit]) * Pow2(w)
    ensures IntOf(sofar) * Pow2(w + 1) / 2 < Pow2(|sofar| + w)
  {
    IntOfBound(sofar);
    IntOfSnoc(sofar, bit);
    Pow2Splits(|sofar| + w, w);
    ShiftArithmetic(IntOf(sofar), Pow2(|sofar|), Pow2(w), bit);
  }

  lemma OrderIs(n: nat)
    requires n >= MAX_REPEAT_COUNT
    ensures OrderFrom(0, n) == Order(n)
  {
  }

  lemma OrderFromStep(order: nat, n: nat)
    requires order < MAX_REPEAT_ORDER
    ensures OrderFrom(order, n) ==
            if order < MAX_REPEAT_ORDER - 1 && Pow2(order) <= n / 2 then OrderFrom(order + 1, n) else order
  {
  }

  lemma RepeatTokensStep(n: nat)
    requires n >= MAX_REPEAT_COUNT
    ensures RepeatTokens(n) == [Chunk(Order(n))] + RepeatTokens(n - Pow2(Order(n)))
  {
  }

  lemma NoBits(m: nat)
    ensures IntOf([]) == 0 && 0 * m == 0
  {
  }

  lemma SliceSnoc<T>(s: seq<T>, i: nat, j: nat)
    requires i <= j < |s|
    ensures s[i..j + 1] == s[i..j] + [s[j]]
  {
  }

  lemma Unscaled(n: nat)
    ensures n * Pow2(0) == n
  {
  }

  lemma ShiftArithmetic(n: nat, q: nat, p: nat, bit: bool)
    requires n < q && p > 0
    ensures n * (2 * p) / 2 + (if bit then p * q else 0) == (n + if bit then q else 0) * p
    ensures n * (2 * p) / 2 < p * q
  {
    assert n * (2 * p) == 2 * (n * p);
    assert (n + q) * p == n * p + p * q;
  }

  lemma FieldsFit(t: Token)
    requires t.Valid() && !t.Literal?
    ensures BLUE < Pow2(2) && 1 < Pow2(1) && 0 < Pow2(1)
    ensures t.Chunk? ==> t.order < Pow2(BITS_FOR_ORDER)
    ensures t.Tail? ==> t.count < Pow2(BITS_FOR_COUNT)
  {
    Pow2Values();
  }

  lemma JoinBits(before: seq<bool>, a: seq<bool>, b: seq<bool>, c: seq<bool>)
    ensures before + a + b + c == before + (a + b + c)
  {
  }

  lemma TokenWritten(before: seq<bool>, t: Token, rest: seq<Token>)
    ensures before + t.Bits() + TokenBits(rest) == before + TokenBits([t] + rest)
  {
    assert ([t] + rest)[1..] == rest;
    Associative(before, t.Bits(), TokenBits(rest));
  }
}
