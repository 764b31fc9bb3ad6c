/** What the colour log means: run-length coding of a colour sequence into bits.
    The specification functions follow the `rle_*` procedures of libs/objsize/c_objsize.c. */
module Rle {
  import opened Powers
  import opened Sequences
  import opened Wrappers

  type Color = c: nat | c < 4

  const WHITE: Color := 0
  const GRAY: Color := 1
  const BLUE: Color := 2
  const BLACK: Color := 3

  const BITS_FOR_COUNT := 5
  const BITS_FOR_ORDER := 4
  const MAX_REPEAT_COUNT := 32 // 1 << BITS_FOR_COUNT
  const MAX_REPEAT_ORDER := 16 // 1 << BITS_FOR_ORDER

  // ---------------------------------------------------------------- integers as bits

  /** The bits `writeint` appends: lowest first. */
  function IntBits(x: nat, width: nat): (r: seq<bool>)
    ensures |r| == width
  {
    if width == 0 then [] else [x % 2 == 1] + IntBits(x / 2, width - 1)
  }

  function IntOf(bits: seq<bool>): nat
  {
    if bits == [] then 0 else (if bits[0] then 1 else 0) + 2 * IntOf(bits[1..])
  }

  lemma {:induction false} IntBitsRoundTrip(x: nat, width: nat)
    requires x < Pow2(width)
    ensures IntOf(IntBits(x, width)) == x
  {
    if width > 0 {
      IntBitsRoundTrip(x / 2, width - 1);
      assert IntBits(x, width)[1..] == IntBits(x / 2, width - 1);
    }
  }

  lemma {:induction false} IntBitsAt(x: nat, width: nat, k: nat)
    requires k < width
    ensures IntBits(x, width)[k] == (x / Pow2(k) % 2 == 1)
  {
    if k > 0 {
      IntBitsAt(x / 2, width - 1, k - 1);
      HalfOf(x, Pow2(k - 1));
      assert IntBits(x, width)[k] == IntBits(x / 2, width - 1)[k - 1];
    }
  }

  lemma HalfOf(x: nat, d: nat)
    requires d > 0
    ensures x / 2 / d == x / (2 * d)
  {
    var q := x / 2 / d;
    var r := x / 2 - q * d;
    assert x == 2 * (q * d + r) + x % 2;
    assert 2 * r + x % 2 < 2 * d;
    assert x == q * (2 * d) + (2 * r + x % 2);
    DivUnique(x, 2 * d, q, 2 * r + x % 2);
  }

  lemma {:induction false} IntOfBound(bits: seq<bool>)
    ensures IntOf(bits) < Pow2(|bits|)
  {
    if bits != [] {
      IntOfBound(bits[1..]);
    }
  }

  lemma {:induction false} IntOfSnoc(bits: seq<bool>, b: bool)
    ensures IntOf(bits + [b]) == IntOf(bits) + (if b then Pow2(|bits|) else 0)
  {
    if bits == [] {
      assert [b][1..] == [];
    } else {
      IntOfSnoc(bits[1..], b);
      assert (bits + [b])[1..] == bits[1..] + [b];
    }
  }

  // ---------------------------------------------------------------- the repeat count in chunks

  /** What the log is made of: a colour, `1 << order` repeats, or a short count of repeats. */
  datatype Token = Literal(color: Color) | Chunk(order: nat) | Tail(count: nat)
  {
    predicate Valid() {
      match this
      case Literal(c) => c != BLUE
      case Chunk(order) => order < MAX_REPEAT_ORDER
      case Tail(count) => 0 < count < MAX_REPEAT_COUNT
    }

    /** A repeat token opens with the blue colour, which no live header has. */
    function Bits(): seq<bool> {
      match this
      case Literal(c) => IntBits(c, 2)
      case Chunk(order) => IntBits(BLUE, 2) + IntBits(1, 1) + IntBits(order, BITS_FOR_ORDER)
      case Tail(count) => IntBits(BLUE, 2) + IntBits(0, 1) + IntBits(count, BITS_FOR_COUNT)
    }

    function Repeats(): nat {
      match this
      case Literal(c) => 0
      case Chunk(order) => Pow2(order)
      case Tail(count) => count
    }
  }

  /** The format of the log, bit by bit. A literal colour is two bits, lowest first. Blue, 0 and 1 in this
      order, announces repeats: with a 1 the four bits of an order follow, with a 0 the five bits of a count. */
  lemma TokenFormat(c: Color, order: nat, count: nat)
    ensures Literal(c).Bits() == [c == 1 || c == 3, c == 2 || c == 3]
    ensures |Chunk(order).Bits()| == 7 && Chunk(order).Bits()[..3] == [false, true, true]
    ensures forall k :: 0 <= k < 4 ==> Chunk(order).Bits()[3 + k] == (order / Pow2(k) % 2 == 1)
    ensures |Tail(count).Bits()| == 8 && Tail(count).Bits()[..3] == [false, true, false]
    ensures forall k :: 0 <= k < 5 ==> Tail(count).Bits()[3 + k] == (count / Pow2(k) % 2 == 1)
  {
    TwoBits(c);
    TwoBits(BLUE);
    OneBit(0);
    OneBit(1);
    hide IntBits;
    forall k: nat | k < 4 ensures Chunk(order).Bits()[3 + k] == (order / Pow2(k) % 2 == 1) {
      IntBitsAt(order, 4, k);
    }
    forall k: nat | k < 5 ensures Tail(count).Bits()[3 + k] == (count / Pow2(k) % 2 == 1) {
      IntBitsAt(count, 5, k);
    }
  }

  lemma OneBit(x: nat)
    requires x < 2
    ensures IntBits(x, 1) == [x == 1]
  {
    assert IntBits(x / 2, 0) == [];
  }

  lemma TwoBits(c: Color)
    ensures IntBits(c, 2) == [c == 1 || c == 3, c == 2 || c == 3]
  {
    OneBit(c / 2);
  }

  function TokenBits(ts: seq<Token>): seq<bool>
  {
    if ts == [] then [] else ts[0].Bits() + TokenBits(ts[1..])
  }

  function TotalRepeats(ts: seq<Token>): nat
  {
    if ts == [] then 0 else ts[0].Repeats() + TotalRepeats(ts[1..])
  }

  /** The inner search loop of `rle_write_repeats`. */
  function OrderFrom(order: nat, n: nat): (r: nat)
    requires order < MAX_REPEAT_ORDER
    ensures order <= r < MAX_REPEAT_ORDER
    decreases MAX_REPEAT_ORDER - order
  {
    if order < MAX_REPEAT_ORDER - 1 && Pow2(order) <= n / 2 then OrderFrom(order + 1, n) else order
  }

  /** The search finds the highest set bit, capped at 15. */
  lemma {:induction false} OrderFromIsHighestBit(order: nat, n: nat)
    requires order < MAX_REPEAT_ORDER && Pow2(order) <= n
    ensures Pow2(OrderFrom(order, n)) <= n
    ensures OrderFrom(order, n) == 15 || n < 2 * Pow2(OrderFrom(order, n))
    decreases MAX_REPEAT_ORDER - order
  {
    if order < MAX_REPEAT_ORDER - 1 && Pow2(order) <= n / 2 {
      OrderFromIsHighestBit(order + 1, n);
    }
  }

  /** The order of the next chunk for a count of at least 32. */
  function Order(n: nat): (r: nat)
    requires n >= MAX_REPEAT_COUNT
    ensures r < MAX_REPEAT_ORDER && Pow2(r) <= n
    ensures r == 15 || n < 2 * Pow2(r)
  {
    OrderFromIsHighestBit(0, n);
    OrderFrom(0, n)
  }

  function RepeatTokens(n: nat): seq<Token>
    decreases n
  {
    if n >= MAX_REPEAT_COUNT then [Chunk(Order(n))] + RepeatTokens(n - Pow2(Order(n)))
    else if n > 0 then [Tail(n)]
    else []
  }

  /** Chunks of order 15 first, ... */
  function BigChunks(k: nat): seq<Token>
  {
    if k == 0 then [] else [Chunk(15)] + BigChunks(k - 1)
  }

  /** ... then one chunk for each set bit of `m` from bit `top - 1` down to bit 5, then what is left. */
  function BitChunks(m: nat, top: nat): seq<Token>
  {
    if top <= BITS_FOR_COUNT then (if m % MAX_REPEAT_COUNT > 0 then [Tail(m % MAX_REPEAT_COUNT)] else [])
    else if m / Pow2(top - 1) % 2 == 1 then [Chunk(top - 1)] + BitChunks(m, top - 1)
    else BitChunks(m, top - 1)
  }

  lemma DivAddMultiple(m: nat, k: nat, d: nat)
    requires d > 0
    ensures (m + d * k) / d == m / d + k && (m + d * k) % d == m % d
  {
    var q, r := m / d, m % d;
    assert m + d * k == (q + k) * d + r;
    DivUnique(m + d * k, d, q + k, r);
  }

  /** Adding a higher power of two leaves bit `t` alone, and the bits below it. */
  lemma HighBitIrrelevant(m: nat, high: nat, t: nat)
    requires t < high
    ensures (m + Pow2(high)) / Pow2(t) % 2 == m / Pow2(t) % 2
    ensures (m + Pow2(high)) % Pow2(t) == m % Pow2(t)
  {
    var half := Pow2(high - t - 1);
    assert Pow2(high - t) == 2 * half;
    hide Pow2;
    Pow2Splits(high, t);
    EvenMultiple(m, half, Pow2(t));
  }

  lemma EvenMultiple(m: nat, half: nat, d: nat)
    requires d > 0
    ensures (m + d * (2 * half)) / d % 2 == m / d % 2 && (m + d * (2 * half)) % d == m % d
  {
    DivAddMultiple(m, 2 * half, d);
  }

  lemma {:induction false} BitChunksIgnoreHighBits(m: nat, high: nat, top: nat)
    requires 5 <= top <= high
    ensures BitChunks(m + Pow2(high), top) == BitChunks(m, top)
  {
    if top <= BITS_FOR_COUNT {
      LowCount(m, high);
    } else {
      BitChunksIgnoreHighBits(m, high, top - 1);
      HighBitIrrelevant(m, high, top - 1);
    }
  }

  lemma LowCount(m: nat, high: nat)
    requires 5 <= high
    ensures (m + Pow2(high)) % MAX_REPEAT_COUNT == m % MAX_REPEAT_COUNT
  {
    Pow2Values();
    Pow2Splits(high, 5);
    DivAddMultiple(m, Pow2(high - 5), 32);
  }

  lemma OrderUnique(n: nat, e: nat)
    requires n >= MAX_REPEAT_COUNT && e < MAX_REPEAT_ORDER && Pow2(e) <= n
    requires e == 15 || n < 2 * Pow2(e)
    ensures Order(n) == e
  {
    var r := Order(n);
    if r < e {
      Pow2Monotone(r + 1, e);
    } else if e < r {
      Pow2Monotone(e + 1, r);
    }
  }

  /** The first chunk of a count is its highest set bit, or order 15. */
  lemma FirstChunk(n: nat, e: nat)
    requires 5 <= e < MAX_REPEAT_ORDER && Pow2(e) <= n
    requires e == 15 || n < 2 * Pow2(e)
    ensures RepeatTokens(n) == [Chunk(e)] + RepeatTokens(n - Pow2(e))
  {
    Pow2Monotone(5, e);
    Pow2Values();
    OrderUnique(n, e);
  }

  lemma BitChunksClear(n: nat, e: nat)
    requires 5 <= e && n < Pow2(e)
    ensures BitChunks(n, e + 1) == BitChunks(n, e)
  {
    DivUnique(n, Pow2(e), 0, n);
  }

  lemma BitChunksSet(n: nat, e: nat)
    requires 5 <= e && Pow2(e) <= n < 2 * Pow2(e)
    ensures BitChunks(n, e + 1) == [Chunk(e)] + BitChunks(n - Pow2(e), e)
  {
    DivUnique(n, Pow2(e), 1, n - Pow2(e));
    BitChunksIgnoreHighBits(n - Pow2(e), e, e);
    assert n - Pow2(e) + Pow2(e) == n;
  }

  lemma Doubles(e: nat)
    ensures Pow2(e + 1) == 2 * Pow2(e)
  {
  }

  lemma ShortTokens(n: nat)
    requires n < Pow2(5)
    ensures RepeatTokens(n) == BitChunks(n, 5)
  {
    assert n < 32 by { Pow2Values(); }
  }

  /** Below 2^15 the greedy loop emits exactly one chunk per set bit. */
  lemma {:induction false} RepeatTokensBelow(n: nat, top: nat)
    requires 5 <= top <= 15 && n < Pow2(top)
    ensures RepeatTokens(n) == BitChunks(n, top)
    decreases top
  {
    hide Pow2, RepeatTokens, BitChunks;
    if top == 5 {
      ShortTokens(n);
    } else if n < Pow2(top - 1) {
      RepeatTokensBelow(n, top - 1);
      BitChunksClear(n, top - 1);
    } else {
      var e := top - 1;
      Doubles(e);
      FirstChunk(n, e);
      RepeatTokensBelow(n - Pow2(e), e);
      BitChunksSet(n, e);
    }
  }

  /** The closed form of `rle_write_repeats`: n / 32768 chunks of order 15, one chunk per set bit
      among bits 14 to 5 of the rest, at most one short count. */
  lemma {:induction false} RepeatTokensClosedForm(n: nat)
    ensures RepeatTokens(n) == BigChunks(n / 32768) + BitChunks(n % 32768, 15)
    decreases n
  {
    hide RepeatTokens, BitChunks, Pow2;
    assert Pow2(15) == 32768 by { Pow2Values(); }
    if n < 32768 {
      RepeatTokensBelow(n, 15);
      assert BigChunks(0) == [];
    } else {
      FirstChunk(n, 15);
      RepeatTokensClosedForm(n - 32768);
      var k, m := (n - 32768) / 32768, (n - 32768) % 32768;
      assert n / 32768 == k + 1 && n % 32768 == m;
      Associative([Chunk(15)], BigChunks(k), BitChunks(m, 15));
    }
  }

  /** The chunks add up to the count, and every one of them fits its field of the log. */
  lemma {:induction false} RepeatTokensConserve(n: nat)
    ensures TotalRepeats(RepeatTokens(n)) == n
    ensures forall t <- RepeatTokens(n) :: t.Valid() && !t.Literal?
    decreases n
  {
    if n >= MAX_REPEAT_COUNT {
      RepeatTokensConserve(n - Pow2(Order(n)));
    }
  }

  // ---------------------------------------------------------------- writer

  /** The globals the writer uses: `prev_color`, `repeat_count` and the bits of the log. */
  datatype Writer = Writer(prev: Color, count: nat, bits: seq<bool>)

  function FlushSpec(w: Writer): Writer
  {
    Writer(w.prev, 0, w.bits + TokenBits(RepeatTokens(w.count)))
  }

  function WriteSpec(w: Writer, c: Color): Writer
  {
    if w.prev == c then w.(count := w.count + 1)
    else
      var f := FlushSpec(w);
      Writer(c, 0, f.bits + IntBits(c, 2))
  }

  function WriteAll(w: Writer, cs: seq<Color>): Writer
    decreases |cs|
  {
    if cs == [] then w else WriteAll(WriteSpec(w, cs[0]), cs[1..])
  }

  lemma {:induction false} WriteAllAppend(w: Writer, cs: seq<Color>, ds: seq<Color>)
    ensures WriteAll(w, cs + ds) == WriteAll(WriteAll(w, cs), ds)
    decreases |cs|
  {
    if cs == [] {
      assert cs + ds == ds;
    } else {
      WriteAllAppend(WriteSpec(w, cs[0]), cs[1..], ds);
      assert (cs + ds)[1..] == cs[1..] + ds;
    }
  }

  /** A colour that goes on is only counted. */
  lemma {:induction false} RepeatsAreCounted(w: Writer, n: nat)
    ensures WriteAll(w, Copies(w.prev, n)) == w.(count := w.count + n)
    decreases n
  {
    if n > 0 {
      RepeatsAreCounted(w.(count := w.count + 1), n - 1);
      assert Copies(w.prev, n)[1..] == Copies(w.prev, n - 1);
    }
  }

  /** A run of a new colour costs its two bits, behind what was pending, until it ends. */
  lemma RunIsOneLiteral(w: Writer, c: Color, n: nat)
    requires c != w.prev && n > 0
    ensures WriteAll(w, Copies(c, n)) == Writer(c, n - 1, w.bits + TokenBits(RepeatTokens(w.count)) + IntBits(c, 2))
  {
    hide IntBits, TokenBits, RepeatTokens;
    assert Copies(c, n)[1..] == Copies(c, n - 1);
    RepeatsAreCounted(WriteSpec(w, c), n - 1);
  }

  lemma {:induction false} WriteAllSnoc(w: Writer, cs: seq<Color>, c: Color)
    ensures WriteAll(w, cs + [c]) == WriteSpec(WriteAll(w, cs), c)
  {
    WriteAllAppend(w, cs, [c]);
    assert [c][1..] == [];
  }

  lemma {:induction false} WriteAllCount(w: Writer, cs: seq<Color>)
    ensures WriteAll(w, cs).count <= w.count + |cs|
    decreases |cs|
  {
    if cs != [] {
      WriteAllCount(WriteSpec(w, cs[0]), cs[1..]);
    }
  }

  // ---------------------------------------------------------------- reader

  /** The globals the reader uses: `prev_color`, `repeat_count`, the log and the read index. */
  datatype Reader = Reader(prev: Color, count: nat, bits: seq<bool>, pos: nat)
  {
    function CanTake(width: nat): bool {
      pos + width <= |bits|
    }

    function Peek(width: nat): (r: nat)
      requires CanTake(width)
      ensures r < Pow2(width)
    {
      IntOfBound(bits[pos..pos + width]);
      IntOf(bits[pos..pos + width])
    }
  }

  /** One `rle_read`; `None` where an assertion of the source would fail. */
  function ReadSpec(r: Reader): (res: Option<(Color, Reader)>)
    ensures res.Some? ==> res.value.0 != BLUE || r.prev == BLUE
    ensures res.Some? ==> res.value.1.bits == r.bits && r.pos <= res.value.1.pos
    ensures res.Some? && r.count > 0 ==> res.value == (r.prev, r.(count := r.count - 1))
  {
    if r.count > 0 then Some((r.prev, r.(count := r.count - 1)))
    else if !r.CanTake(2) then None
    else
      Pow2Values();
      var c := r.Peek(2);
      var r1 := r.(pos := r.pos + 2);
      if c != BLUE then Some((c, r1.(prev := c)))
      else
        var counted := ReadCount(r1);
        if counted.None? || counted.value.0 == 0 then None
        else Some((r.prev, counted.value.1.(count := counted.value.0 - 1)))
  }

  /** The repeat count after a blue marker: a short count or a power of two. */
  function ReadCount(r: Reader): (res: Option<(nat, Reader)>)
    ensures res.Some? ==> res.value.1.bits == r.bits && r.pos <= res.value.1.pos
    ensures res.Some? ==> res.value.1.prev == r.prev && res.value.1.count == r.count
  {
    if !r.CanTake(1) then None
    else
      var kind := r.Peek(1);
      var r1 := r.(pos := r.pos + 1);
      if kind == 0 then
        if !r1.CanTake(BITS_FOR_COUNT) then None
        else Some((r1.Peek(BITS_FOR_COUNT), r1.(pos := r1.pos + BITS_FOR_COUNT)))
      else
        if !r1.CanTake(BITS_FOR_ORDER) then None
        else Some((Pow2(r1.Peek(BITS_FOR_ORDER)), r1.(pos := r1.pos + BITS_FOR_ORDER)))
  }

  /** Reading `|cs|` colours gives `cs`, fails no assertion on the way, and then `rle_read_flush` passes:
      nothing is pending and the whole log has been consumed. */
  ghost predicate Yields(r: Reader, cs: seq<Color>)
    decreases |cs|
  {
    if cs == [] then r.count == 0 && r.pos == |r.bits|
    else
      var res := ReadSpec(r);
      res.Some? && res.value.0 == cs[0] && Yields(res.value.1, cs[1..])
  }

  // ---------------------------------------------------------------- the round trip

  function Copies(c: Color, n: nat): (r: seq<Color>)
    ensures |r| == n
  {
    if n == 0 then [] else [c] + Copies(c, n - 1)
  }

  lemma {:induction false} CopiesAdd(c: Color, m: nat, n: nat)
    ensures Copies(c, m) + Copies(c, n) == Copies(c, m + n)
  {
    if m > 0 {
      CopiesAdd(c, m - 1, n);
    }
  }

  /** The colours a token list stands for, given the colour before it. */
  function Expand(ts: seq<Token>, prev: Color): seq<Color>
  {
    if ts == [] then []
    else if ts[0].Literal? then [ts[0].color] + Expand(ts[1..], ts[0].color)
    else Copies(prev, ts[0].Repeats()) + Expand(ts[1..], prev)
  }

  function LastColor(ts: seq<Token>, prev: Color): Color
  {
    if ts == [] then prev
    else LastColor(ts[1..], if ts[0].Literal? then ts[0].color else prev)
  }

  lemma {:induction false} TokenBitsAppend(ts: seq<Token>, us: seq<Token>)
    ensures TokenBits(ts + us) == TokenBits(ts) + TokenBits(us)
  {
    if ts == [] {
      assert ts + us == us;
    } else {
      assert (ts + us)[1..] == ts[1..] + us;
      calc {
        TokenBits(ts + us);
        ts[0].Bits() + TokenBits(ts[1..] + us);
        { TokenBitsAppend(ts[1..], us); }
        ts[0].Bits() + (TokenBits(ts[1..]) + TokenBits(us));
        { Associative(ts[0].Bits(), TokenBits(ts[1..]), TokenBits(us)); }
        TokenBits(ts) + TokenBits(us);
      }
    }
  }

  lemma {:induction false} ExpandAppend(ts: seq<Token>, us: seq<Token>, prev: Color)
    ensures Expand(ts + us, prev) == Expand(ts, prev) + Expand(us, LastColor(ts, prev))
    ensures LastColor(ts + us, prev) == LastColor(us, LastColor(ts, prev))
  {
    hide Copies, TokenBits;
    if ts == [] {
      assert ts + us == us;
    } else {
      var next := if ts[0].Literal? then ts[0].color else prev;
      ExpandAppend(ts[1..], us, next);
      assert (ts + us)[1..] == ts[1..] + us;
      var head := if ts[0].Literal? then [next] else Copies(prev, ts[0].Repeats());
      Associative(head, Expand(ts[1..], next), Expand(us, LastColor(ts, prev)));
    }
  }

  lemma {:induction false} ExpandRepeats(ts: seq<Token>, prev: Color)
    requires forall t <- ts :: !t.Literal?
    ensures Expand(ts, prev) == Copies(prev, TotalRepeats(ts))
    ensures LastColor(ts, prev) == prev
  {
    if ts != [] {
      ExpandRepeats(ts[1..], prev);
      CopiesAdd(prev, ts[0].Repeats(), TotalRepeats(ts[1..]));
    }
  }

  /** `ts` explains the writer: its bits, and with the pending repeats the colours written so far. */
  ghost predicate Explains(ts: seq<Token>, w: Writer, cs: seq<Color>)
  {
    && (forall t <- ts :: t.Valid())
    && w.bits == TokenBits(ts)
    && w.prev == LastColor(ts, WHITE)
    && cs == Expand(ts, WHITE) + Copies(w.prev, w.count)
  }

  lemma FlushExplained(ts: seq<Token>, w: Writer, cs: seq<Color>) returns (us: seq<Token>)
    requires Explains(ts, w, cs)
    ensures Explains(us, FlushSpec(w), cs)
  {
    var rs := RepeatTokens(w.count);
    us := ts + rs;
    RepeatTokensConserve(w.count);
    ExpandRepeats(rs, w.prev);
    TokenBitsAppend(ts, rs);
    ExpandAppend(ts, rs, WHITE);
  }

  /** Writing a colour that differs from the last one appends a literal to a flushed log. */
  lemma LiteralExplained(ts: seq<Token>, w: Writer, cs: seq<Color>, c: Color) returns (us: seq<Token>)
    requires Explains(ts, w, cs) && w.count == 0 && c != BLUE
    ensures Explains(us, Writer(c, 0, w.bits + IntBits(c, 2)), cs + [c])
  {
    var lit := [Literal(c)];
    us := ts + lit;
    assert lit[1..] == [];
    TokenBitsAppend(ts, lit);
    ExpandAppend(ts, lit, WHITE);
    assert Expand(lit, w.prev) == [c];
    assert TokenBits(lit) == IntBits(c, 2);
    assert Literal(c).Valid();
    assert Copies(c, 0) == [];
  }

  lemma Flushed(w: Writer)
    ensures FlushSpec(w).count == 0
  {
  }

  lemma OneCopy(c: Color)
    ensures Copies(c, 1) == [c]
  {
    assert Copies(c, 0) == [];
  }

  lemma WriteExplained(ts: seq<Token>, w: Writer, cs: seq<Color>, c: Color) returns (us: seq<Token>)
    requires Explains(ts, w, cs) && c != BLUE
    ensures Explains(us, WriteSpec(w, c), cs + [c])
  {
    hide Expand, Copies, TokenBits, LastColor, FlushSpec, IntBits;
    if w.prev == c {
      us := ts;
      CopiesAdd(c, w.count, 1);
      OneCopy(c);
      Associative(Expand(ts, WHITE), Copies(c, w.count), [c]);
    } else {
      var flushed := FlushExplained(ts, w, cs);
      Flushed(w);
      us := LiteralExplained(flushed, FlushSpec(w), cs, c);
    }
  }

  lemma {:induction false} WriteAllExplained(ts: seq<Token>, w: Writer, before: seq<Color>, cs: seq<Color>)
      returns (us: seq<Token>)
    requires Explains(ts, w, before) && forall c <- cs :: c != BLUE
    ensures Explains(us, WriteAll(w, cs), before + cs)
    decreases |cs|
  {
    if cs == [] {
      us := ts;
      assert before + cs == before;
    } else {
      assert before + [cs[0]] + cs[1..] == before + cs;
      assert cs[0] in cs && forall c <- cs[1..] :: c in cs;
      var vs := WriteExplained(ts, w, before, cs[0]);
      us := WriteAllExplained(vs, WriteSpec(w, cs[0]), before + [cs[0]], cs[1..]);
    }
  }

  /** The bits at `i` of the log are the fixed-width integer `x`. */
  lemma PeekInt(r: Reader, x: nat, width: nat, rest: seq<bool>)
    requires x < Pow2(width) && r.pos <= |r.bits| && r.bits[r.pos..] == IntBits(x, width) + rest
    ensures r.CanTake(width) && r.Peek(width) == x && r.bits[r.pos + width..] == rest
  {
    assert |r.bits[r.pos..]| == width + |rest|;
    assert r.bits[r.pos..r.pos + width] == r.bits[r.pos..][..width] == IntBits(x, width);
    assert r.bits[r.pos + width..] == r.bits[r.pos..][width..] == rest;
    IntBitsRoundTrip(x, width);
  }

  /** Reading at a repeat token sets the pending count to the token's repeats. */
  lemma ReadRepeatToken(r: Reader, t: Token, rest: seq<bool>)
    requires t.Valid() && !t.Literal? && r.count == 0
    requires r.pos <= |r.bits| && r.bits[r.pos..] == t.Bits() + rest
    ensures var after := Reader(r.prev, t.Repeats(), r.bits, r.pos + |t.Bits()|);
            t.Repeats() > 0 && ReadSpec(r) == ReadSpec(after) && r.bits[after.pos..] == rest
  {
    hide IntBits, IntOf, ReadCount, Pow2;
    var kind := if t.Chunk? then 1 else 0;
    var arg := if t.Chunk? then t.order else t.count;
    var width := if t.Chunk? then BITS_FOR_ORDER else BITS_FOR_COUNT;
    var tail := IntBits(kind, 1) + (IntBits(arg, width) + rest);
    AssociativeOfFour(IntBits(BLUE, 2), IntBits(kind, 1), IntBits(arg, width), rest);
    FieldFits(t);
    PeekInt(r, BLUE, 2, tail);
    ReadCountAt(r.(pos := r.pos + 2), kind, arg, width, rest);
  }

  lemma FieldFits(t: Token)
    requires t.Valid() && !t.Literal?
    ensures BLUE < Pow2(2) && t.Repeats() > 0
    ensures if t.Chunk? then t.order < Pow2(BITS_FOR_ORDER) else t.count < Pow2(BITS_FOR_COUNT)
  {
    Pow2Values();
  }

  lemma ReadCountAt(r: Reader, kind: nat, arg: nat, width: nat, rest: seq<bool>)
    requires (kind == 0 && width == BITS_FOR_COUNT) || (kind == 1 && width == BITS_FOR_ORDER)
    requires arg < Pow2(width) && r.pos <= |r.bits|
    requires r.bits[r.pos..] == IntBits(kind, 1) + (IntBits(arg, width) + rest)
    ensures r.pos + 1 + width <= |r.bits| && r.bits[r.pos + 1 + width..] == rest
    ensures ReadCount(r) == Some((if kind == 0 then arg else Pow2(arg), r.(pos := r.pos + 1 + width)))
  {
    assert Pow2(1) == 2;
    PeekInt(r, kind, 1, IntBits(arg, width) + rest);
    PeekInt(r.(pos := r.pos + 1), arg, width, rest);
  }

  /** The reader at `r` has exactly the tokens `ts` before it. */
  ghost predicate Before(r: Reader, ts: seq<Token>)
  {
    && (forall t <- ts :: t.Valid())
    && r.pos <= |r.bits|
    && r.bits[r.pos..] == TokenBits(ts)
  }

  lemma {:induction false} ReadBackTokens(r: Reader, ts: seq<Token>)
    requires Before(r, ts)
    ensures Yields(r, Copies(r.prev, r.count) + Expand(ts, r.prev))
    decreases |ts|, r.count
  {
    if r.count > 0 {
      ReadBackTokens(r.(count := r.count - 1), ts);
      YieldsPending(r, Expand(ts, r.prev));
    } else if ts != [] {
      var next := StepToken(r, ts);
      ReadBackTokens(next, ts[1..]);
      var tail := Copies(next.prev, next.count) + Expand(ts[1..], next.prev);
      if ts[0].Literal? {
        assert tail == Expand(ts[1..], next.prev);
        YieldsCons(r, next.prev, Expand(ts[1..], next.prev));
      } else {
        YieldsSame(r, next, tail);
      }
      assert Copies(r.prev, r.count) + Expand(ts, r.prev) == Expand(ts, r.prev);
    }
  }

  /** One token of the log: a literal is read at once, a repeat token becomes the pending count. */
  lemma StepToken(r: Reader, ts: seq<Token>) returns (next: Reader)
    requires Before(r, ts) && r.count == 0 && ts != []
    ensures Before(next, ts[1..])
    ensures ts[0].Literal? ==> next.count == 0 && ReadSpec(r) == Some((next.prev, next)) && next.prev == ts[0].color
    ensures !ts[0].Literal? ==>
              next.prev == r.prev && next.count == ts[0].Repeats() > 0 && ReadSpec(r) == ReadSpec(next)
  {
    assert ts[0] in ts;
    if ts[0].Literal? {
      next := ReadLiteral(r, ts[0].color, TokenBits(ts[1..]));
    } else {
      ReadRepeatToken(r, ts[0], TokenBits(ts[1..]));
      next := Reader(r.prev, ts[0].Repeats(), r.bits, r.pos + |ts[0].Bits()|);
    }
  }

  lemma ReadLiteral(r: Reader, c: Color, rest: seq<bool>) returns (next: Reader)
    requires c != BLUE && r.count == 0 && r.pos <= |r.bits| && r.bits[r.pos..] == IntBits(c, 2) + rest
    ensures next == Reader(c, 0, r.bits, r.pos + 2) && next.pos <= |r.bits| && r.bits[next.pos..] == rest
    ensures ReadSpec(r) == Some((c, next))
  {
    Pow2Values();
    PeekInt(r, c, 2, rest);
    next := Reader(c, 0, r.bits, r.pos + 2);
  }

  lemma YieldsCons(r: Reader, c: Color, cs: seq<Color>)
    requires ReadSpec(r).Some? && ReadSpec(r).value.0 == c && Yields(ReadSpec(r).value.1, cs)
    ensures Yields(r, [c] + cs)
  {
    assert ([c] + cs)[1..] == cs;
  }

  lemma YieldsPending(r: Reader, cs: seq<Color>)
    requires r.count > 0 && Yields(r.(count := r.count - 1), Copies(r.prev, r.count - 1) + cs)
    ensures Yields(r, Copies(r.prev, r.count) + cs)
  {
    YieldsCons(r, r.prev, Copies(r.prev, r.count - 1) + cs);
    Associative([r.prev], Copies(r.prev, r.count - 1), cs);
  }

  lemma YieldsSame(r: Reader, s: Reader, cs: seq<Color>)
    requires ReadSpec(r) == ReadSpec(s) && cs != [] && Yields(s, cs)
    ensures Yields(r, cs)
  {
  }

  /** Writing any colours, flushing, and reading from the start gives the colours back and consumes the log. */
  lemma RoundTrip(cs: seq<Color>)
    requires forall c <- cs :: c != BLUE
    ensures Yields(Reader(WHITE, 0, FlushSpec(WriteAll(Writer(WHITE, 0, []), cs)).bits, 0), cs)
  {
    var start := Writer(WHITE, 0, []);
    assert Explains([], start, []);
    var ts := WriteAllExplained([], start, [], cs);
    assert [] + cs == cs;
    var us := FlushExplained(ts, WriteAll(start, cs), cs);
    var r := Reader(WHITE, 0, FlushSpec(WriteAll(start, cs)).bits, 0);
    assert r.bits[0..] == r.bits;
    ReadBackTokens(r, us);
    assert Copies(WHITE, 0) + Expand(us, WHITE) == cs;
  }

  /** After the colours of a prefix have been read, the reader yields the rest. */
  lemma YieldsStep(r: Reader, c: Color, rest: seq<Color>)
    requires Yields(r, [c] + rest)
    ensures ReadSpec(r).Some? && ReadSpec(r).value.0 == c && Yields(ReadSpec(r).value.1, rest)
  {
    assert ([c] + rest)[1..] == rest;
  }
}
