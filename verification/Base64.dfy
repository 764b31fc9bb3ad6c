/** Base64 without padding: libs/extlib-leftovers/base64.ml. Characters are their codes. */
module Base64 {

  import opened Powers
  import opened Sequences

  datatype Result<T> = Ok(value: T) | InvalidChar | InvalidTable | NoMoreInput

  type Byte = x: int | 0 <= x < 256

  // ---------------------------------------------------------------- bits, highest first

  /** The low `n` bits of `x`, also of a negative one. */
  function Bits(x: int, n: nat): (r: seq<bool>)
    ensures |r| == n
    decreases n
  {
    if n == 0 then [] else Bits(x / 2, n - 1) + [x % 2 == 1]
  }

  function ValueOf(bits: seq<bool>): nat
  {
    if bits == [] then 0
    else 2 * ValueOf(bits[..|bits| - 1]) + (if bits[|bits| - 1] then 1 else 0)
  }

  function AllBits(xs: seq<int>, w: nat): (r: seq<bool>)
    ensures |r| == |xs| * w
  {
    if xs == [] then [] else AllBits(xs[..|xs| - 1], w) + Bits(xs[|xs| - 1], w)
  }

  function Zeros(n: nat): (r: seq<bool>)
    ensures |r| == n
  {
    seq(n, _ => false)
  }

  lemma {:induction false} ValueOfBits(x: int, n: nat)
    ensures ValueOf(Bits(x, n)) == x % Pow2(n)
    decreases n
  {
    if n > 0 {
      var b := Bits(x, n);
      assert b[..n - 1] == Bits(x / 2, n - 1);
      ValueOfBits(x / 2, n - 1);
      HalveMod(x, Pow2(n - 1));
    }
  }

  lemma HalveMod(x: int, m: nat)
    requires m > 0
    ensures x % (2 * m) == 2 * (x / 2 % m) + x % 2
  {
    var q, r := x / 2 / m, x / 2 % m;
    assert x == 2 * (q * m + r) + x % 2;
    var y := 2 * r + x % 2;
    assert x == q * (2 * m) + y && 0 <= y < 2 * m;
    DivUnique(x, 2 * m, q, y);
  }

  lemma {:induction false} BitsOfValue(bits: seq<bool>)
    ensures Bits(ValueOf(bits), |bits|) == bits && ValueOf(bits) < Pow2(|bits|)
  {
    if bits != [] {
      var init := bits[..|bits| - 1];
      BitsOfValue(init);
      assert ValueOf(bits) / 2 == ValueOf(init);
      assert bits == init + [bits[|bits| - 1]];
    }
  }

  /** Adding a multiple of a high power does not reach the low bits. */
  lemma {:induction false} LowBits(x: int, m: int, k: nat, n: nat)
    requires n <= k
    ensures Bits(x + m * Pow2(k), n) == Bits(x, n)
    decreases n
  {
    if n > 0 {
      var p := m * Pow2(k - 1);
      assert m * Pow2(k) == 2 * p;
      assert (x + 2 * p) / 2 == x / 2 + p && (x + 2 * p) % 2 == x % 2;
      LowBits(x / 2, m, k - 1, n - 1);
    }
  }

  lemma {:induction false} BitsJoin(x: int, c: int, n: nat, k: nat)
    requires 0 <= c < Pow2(k)
    ensures Bits(x * Pow2(k) + c, n + k) == Bits(x, n) + Bits(c, k)
    decreases k
  {
    if k == 0 {
      assert Bits(x, n) + [] == Bits(x, n);
    } else {
      var p := x * Pow2(k - 1);
      assert x * Pow2(k) == 2 * p;
      assert (2 * p + c) / 2 == p + c / 2 && (2 * p + c) % 2 == c % 2;
      BitsJoin(x, c / 2, n, k - 1);
      assert Bits(x, n) + Bits(c, k) == Bits(x, n) + Bits(c / 2, k - 1) + [c % 2 == 1];
    }
  }

  lemma {:induction false} BitsSplit(x: int, n: nat, k: nat)
    ensures Bits(x, n + k) == Bits(x / Pow2(k), n) + Bits(x, k)
    decreases k
  {
    var m := Pow2(k);
    BitsJoin(x / m, x % m, n, k);
    assert x / m * m + x % m == x;
    LowBits(x % m, x / m, k, k);
  }

  lemma BitsMod(x: int, n: nat)
    ensures Bits(x % Pow2(n), n) == Bits(x, n)
  {
    hide Bits, Pow2;
    var m := Pow2(n);
    assert x == x % m + x / m * m;
    LowBits(x % m, x / m, n, n);
  }

  lemma {:induction false} AllBitsAppend(xs: seq<int>, ys: seq<int>, w: nat)
    ensures AllBits(xs + ys, w) == AllBits(xs, w) + AllBits(ys, w)
    decreases |ys|
  {
    if ys == [] {
      assert xs + ys == xs && AllBits(xs, w) + [] == AllBits(xs, w);
    } else {
      var n := |ys| - 1;
      AllBitsAppend(xs, ys[..n], w);
      assert (xs + ys)[..|xs + ys| - 1] == xs + ys[..n];
      assert AllBits(xs, w) + AllBits(ys[..n], w) + Bits(ys[n], w) == AllBits(xs, w) + (AllBits(ys[..n], w) + Bits(ys[n], w));
    }
  }

  /** Bits cut into pieces of `w`, a short last one filled up with zeros. */
  function Chunks(bits: seq<bool>, w: nat): (r: seq<int>)
    requires w > 0
  {
    if bits == [] then []
    else if |bits| <= w then [ValueOf(bits + Zeros(w - |bits|))]
    else [ValueOf(bits[..w])] + Chunks(bits[w..], w)
  }

  /** Pieces with the right bits are the pieces `Chunks` cuts, however many zeros were added. */
  lemma {:induction false} ChunksUnique(xs: seq<int>, bits: seq<bool>, w: nat)
    requires w > 0 && (forall x <- xs :: 0 <= x < Pow2(w))
    requires |bits| <= |AllBits(xs, w)| < |bits| + w && AllBits(xs, w) == bits + Zeros(|AllBits(xs, w)| - |bits|)
    ensures xs == Chunks(bits, w)
  {
    hide Bits, ValueOf, AllBits, Pow2, Chunks;
    if xs != [] {
      var x, ys, all := xs[0], xs[1..], AllBits(xs, w);
      assert x in xs;
      Peel(xs, w);
      if |bits| <= w {
        FewPieces(ys, w, |bits|);
        assert all[..w] == all;
        LastChunk(bits, w);
      } else {
        assert all[..w] == bits[..w];
        assert AllBits(ys, w) == all[w..] == bits[w..] + Zeros(|all| - |bits|);
        assert forall y <- ys :: y in xs;
        ChunksUnique(ys, bits[w..], w);
        FirstChunk(bits, w);
      }
      assert xs == [x] + ys;
    } else {
      NoChunks(w);
    }
  }

  lemma Peel(xs: seq<int>, w: nat)
    requires xs != [] && 0 <= xs[0] < Pow2(w)
    ensures AllBits(xs, w)[w..] == AllBits(xs[1..], w) && |AllBits(xs, w)| == w + |AllBits(xs[1..], w)|
    ensures ValueOf(AllBits(xs, w)[..w]) == xs[0]
  {
    var x := xs[0];
    assert xs == [x] + xs[1..];
    AllBitsAppend([x], xs[1..], w);
    OneByOne(x, w);
    ValueOfBits(x, w);
    DivUnique(x, Pow2(w), 0, x);
    hide Bits, ValueOf, AllBits, Pow2;
    assert AllBits(xs, w)[..w] == Bits(x, w);
  }

  lemma LastChunk(bits: seq<bool>, w: nat)
    requires 0 < |bits| <= w
    ensures Chunks(bits, w) == [ValueOf(bits + Zeros(w - |bits|))]
  {
  }

  lemma FirstChunk(bits: seq<bool>, w: nat)
    requires 0 < w < |bits|
    ensures Chunks(bits, w) == [ValueOf(bits[..w])] + Chunks(bits[w..], w)
  {
  }

  lemma NoChunks(w: nat)
    requires w > 0
    ensures Chunks([], w) == [] && AllBits([], w) == []
  {
  }

  lemma OneByOne(x: int, w: nat)
    ensures AllBits([x], w) == Bits(x, w)
  {
    assert [x][..0] == [];
    assert [] + Bits(x, w) == Bits(x, w);
  }

  lemma FewPieces(ys: seq<int>, w: nat, n: nat)
    requires w > 0 && n <= w && w + |AllBits(ys, w)| < n + w
    ensures ys == []
  {
    assert |ys| >= 1 ==> |ys| * w >= w;
  }

  // ---------------------------------------------------------------- tables

  predicate Injective(tbl: seq<Byte>)
  {
    forall i, j :: 0 <= i < j < |tbl| ==> tbl[i] != tbl[j]
  }

  /** Where the decoding table sends a character: the last place it has in the encoding table, or -1. */
  function Place(tbl: seq<Byte>, c: int): (r: int)
    ensures -1 <= r < |tbl|
    ensures r >= 0 ==> tbl[r] == c
    ensures forall i :: r < i < |tbl| ==> tbl[i] != c
  {
    if tbl == [] then -1
    else if tbl[|tbl| - 1] == c then |tbl| - 1
    else Place(tbl[..|tbl| - 1], c)
  }

  function Inverse(tbl: seq<Byte>): (d: seq<int>)
    ensures |d| == 256 && forall c :: 0 <= c < 256 ==> d[c] == Place(tbl, c)
  {
    seq(256, c requires 0 <= c < 256 => Place(tbl, c))
  }

  method MakeDecodingTable(tbl: seq<Byte>) returns (r: Result<seq<int>>)
    ensures r == if |tbl| == 64 then Ok(Inverse(tbl)) else InvalidTable
  {
    if |tbl| != 64 {
      return InvalidTable;
    }
    var d := new int[256](_ => -1);
    for i := 0 to 64
      invariant forall c :: 0 <= c < 256 ==> d[c] == Place(tbl[..i], c)
    {
      assert tbl[..i + 1][..i] == tbl[..i];
      d[tbl[i]] := i;
    }
    assert tbl[..64] == tbl;
    assert d[..] == Inverse(tbl);
    r := Ok(d[..]);
  }

  // ---------------------------------------------------------------- what the codec computes

  /** The bits of the string cut into sixes, each spelled by its character (section 4 of RFC 4648). */
  function Encoded(tbl: seq<Byte>, s: seq<Byte>): Result<seq<Byte>>
  {
    if |tbl| == 64 then Ok(Spelled(tbl, Chunks(AllBits(s, 8), 6))) else InvalidTable
  }

  function Spelled(tbl: seq<Byte>, xs: seq<int>): (r: seq<Byte>)
    requires |tbl| == 64
    ensures |r| == |xs|
  {
    seq<Byte>(|xs|, i requires 0 <= i < |xs| => tbl[xs[i] % 64])
  }

  /** How many characters are looked at: all, unless the last one alone cannot complete a byte. */
  function Needed(len: nat): (m: nat)
    ensures m <= len
  {
    if len % 4 == 1 then len - 1 else len
  }

  /** No more than it takes to fill the bytes that are asked for. */
  lemma NeededForBytes(len: nat)
    ensures var bits := len * 6 / 8 * 8; bits <= 6 * Needed(len) < bits + 6
  {
    var q, r := len / 4, len % 4;
    assert len * 6 == 8 * (3 * q) + 6 * r;
    assert len * 6 / 8 == 3 * q + 6 * r / 8;
  }

  function Values(tbl: seq<int>, s: seq<Byte>): (r: seq<int>)
    requires |tbl| == 256
    ensures |r| == |s| && forall i :: 0 <= i < |s| ==> r[i] == tbl[s[i]]
  {
    seq(|s|, i requires 0 <= i < |s| => tbl[s[i]])
  }

  function Decoded(tbl: seq<int>, s: seq<Byte>): Result<seq<int>>
  {
    if |tbl| != 256 then InvalidTable
    else
      NeededForBytes(|s|);
      var xs := Values(tbl, s[..Needed(|s|)]);
      if -1 in xs then InvalidChar else Ok(Chunks(AllBits(xs, 6)[..|s| * 6 / 8 * 8], 8))
  }

  // ---------------------------------------------------------------- the accumulator

  /** The 63 bits of an OCaml integer. */
  const WRAP: int := 0x8000_0000_0000_0000

  function Wrap(x: int): (r: int)
    ensures -WRAP / 2 <= r < WRAP / 2
  {
    (x + WRAP / 2) % WRAP - WRAP / 2
  }

  lemma Pow2Of63()
    ensures Pow2(63) == WRAP && Pow2(6) == 64 && Pow2(8) == 256
  {
    assert Pow2(16) == 0x1_0000;
    assert Pow2(32) == 0x1_0000_0000 by { Pow2Splits(32, 16); }
    assert Pow2(48) == 0x1_0000_0000_0000 by { Pow2Splits(48, 32); }
    assert Pow2(15) == 0x8000;
    assert Pow2(63) == 0x8000_0000_0000_0000 by { Pow2Splits(63, 48); }
  }

  /** Shifting `k` bits in below keeps the `n` bits that were pending: what the wrapping loses at the top
      is never among them. */
  lemma ShiftIn(data: int, n: nat, c: int, k: nat)
    requires 0 <= c < Pow2(k) && n + k <= 63
    ensures Bits(Wrap(data * Pow2(k)) + c, n + k) == Bits(data, n) + Bits(c, k)
  {
    Pow2Of63();
    var y := data * Pow2(k);
    var m := (y + WRAP / 2) / WRAP;
    assert y == Wrap(y) + m * WRAP;
    LowBits(Wrap(y) + c, m, 63, n + k);
    BitsJoin(data, c, n, k);
  }

  /** `(data asr n) land (2^k - 1)` is what the `k` bits above the low `n` spell. */
  lemma ShiftOut(data: int, k: nat, n: nat)
    ensures Bits(data, n + k) == Bits(data / Pow2(n) % Pow2(k), k) + Bits(data, n)
  {
    BitsSplit(data, k, n);
    BitsMod(data / Pow2(n), k);
  }

  // ---------------------------------------------------------------- encoding

  class Encoder {
    const tbl: seq<Byte>
    var data: int
    var count: nat
    var out: seq<Byte> // the underlying channel
    ghost var input: seq<Byte>
    ghost var sextets: seq<int>

    ghost predicate Valid()
      reads this
    {
      && |tbl| == 64 && out == Spelled(tbl, sextets) && (forall x <- sextets :: 0 <= x < 64)
      && count <= 13 && AllBits(sextets, 6) + Bits(data, count) == AllBits(input, 8)
    }

    constructor (tbl: seq<Byte>)
      requires |tbl| == 64
      ensures Valid() && count == 0 && input == [] && this.tbl == tbl
    {
      this.tbl, data, count, out := tbl, 0, 0, [];
      input, sextets := [], [];
    }

    /** One more character for the channel, from the bits above the low `count`. */
    method Emit()
      requires Valid() && count >= 6
      modifies this
      ensures Valid() && count == old(count) - 6 && input == old(input)
    {
      hide Bits, AllBits, Pow2, Spelled;
      EmitBits(sextets, data, count, AllBits(input, 8));
      count := count - 6;
      var d := data / Pow2(count) % 64;
      out := out + [tbl[d]];
      SpelledSnoc(tbl, sextets, d);
      sextets := sextets + [d];
    }

    method Write(c: Byte)
      requires Valid() && count < 6
      modifies this
      ensures Valid() && count < 6 && input == old(input) + [c]
    {
      hide Bits, AllBits, Pow2, Spelled, Wrap;
      WriteBits(sextets, data, count, input, c);
      data := Wrap(data * 256) + c;
      count := count + 8;
      input := input + [c];
      while count >= 6
        invariant Valid() && input == old(input) + [c]
      {
        Emit();
      }
    }

    /** The last character, filled up with zeros. The count stays, so nothing may be written after this. */
    method Flush()
      requires Valid() && count < 6
      modifies this`out, this`sextets
      ensures out == Spelled(tbl, Chunks(AllBits(input, 8), 6))
    {
      hide Bits, AllBits, Pow2, Spelled, Wrap, Chunks;
      FlushBits(sextets, data, count, AllBits(input, 8));
      if count > 0 {
        var d := Wrap(data * Pow2(6 - count)) % 64;
        out := out + [tbl[d]];
        SpelledSnoc(tbl, sextets, d);
        sextets := sextets + [d];
      }
    }
  }

  lemma AllBitsSnoc(xs: seq<int>, x: int, w: nat)
    ensures AllBits(xs + [x], w) == AllBits(xs, w) + Bits(x, w)
  {
    assert (xs + [x])[..|xs|] == xs;
  }

  lemma {:induction false} BitsOfZero(n: nat)
    ensures Bits(0, n) == Zeros(n)
  {
    if n > 0 { BitsOfZero(n - 1); }
  }

  lemma SpelledSnoc(tbl: seq<Byte>, xs: seq<int>, x: int)
    requires |tbl| == 64 && 0 <= x < 64
    ensures Spelled(tbl, xs + [x]) == Spelled(tbl, xs) + [tbl[x]]
  {
  }

  lemma WriteBits(xs: seq<int>, data: int, count: nat, input: seq<Byte>, c: Byte)
    requires count <= 55 && AllBits(xs, 6) + Bits(data, count) == AllBits(input, 8)
    ensures AllBits(xs, 6) + Bits(Wrap(data * 256) + c, count + 8) == AllBits(input + [c], 8)
  {
    Pow2Of63();
    hide Bits, AllBits, Pow2, Wrap;
    ShiftIn(data, count, c, 8);
    AllBitsSnoc(input, c, 8);
    assert AllBits(xs, 6) + (Bits(data, count) + Bits(c, 8)) == AllBits(xs, 6) + Bits(data, count) + Bits(c, 8);
  }

  lemma EmitBits(xs: seq<int>, data: int, count: nat, all: seq<bool>)
    requires count >= 6 && AllBits(xs, 6) + Bits(data, count) == all
    ensures var d := data / Pow2(count - 6) % 64; AllBits(xs + [d], 6) + Bits(data, count - 6) == all
  {
    Pow2Of63();
    hide Bits, AllBits, Pow2;
    var d := data / Pow2(count - 6) % 64;
    ShiftOut(data, 6, count - 6);
    AllBitsSnoc(xs, d, 6);
    assert AllBits(xs, 6) + (Bits(d, 6) + Bits(data, count - 6)) == AllBits(xs, 6) + Bits(d, 6) + Bits(data, count - 6);
  }

  /** The pending bits filled up with zeros complete what `Chunks` cuts. */
  lemma FlushBits(xs: seq<int>, data: int, count: nat, all: seq<bool>)
    requires count < 6 && AllBits(xs, 6) + Bits(data, count) == all && forall x <- xs :: 0 <= x < 64
    ensures count == 0 ==> Chunks(all, 6) == xs
    ensures count > 0 ==> Chunks(all, 6) == xs + [Wrap(data * Pow2(6 - count)) % 64]
  {
    Pow2Of63();
    hide Bits, AllBits, Pow2, Wrap, Chunks;
    if count == 0 {
      assert Bits(data, 0) == [];
      assert AllBits(xs, 6) == all + Zeros(0);
      ChunksUnique(xs, all, 6);
    } else {
      var d := Wrap(data * Pow2(6 - count)) % 64;
      FilledUp(data, count);
      AllBitsSnoc(xs, d, 6);
      assert AllBits(xs, 6) + (Bits(data, count) + Zeros(6 - count)) == all + Zeros(6 - count);
      ChunksUnique(xs + [d], all, 6);
    }
  }

  lemma FilledUp(data: int, count: nat)
    requires count < 6
    ensures Bits(Wrap(data * Pow2(6 - count)) % 64, 6) == Bits(data, count) + Zeros(6 - count)
  {
    Pow2Of63();
    hide Bits, Pow2, Wrap;
    var y := Wrap(data * Pow2(6 - count));
    BitsMod(y, 6);
    assert 0 < Pow2(6 - count);
    ShiftIn(data, count, 0, 6 - count);
    BitsOfZero(6 - count);
    assert y + 0 == y;
  }

  method EncodeString(tbl: seq<Byte>, s: seq<Byte>) returns (r: Result<seq<Byte>>)
    ensures r == Encoded(tbl, s)
  {
    hide Bits, AllBits, Chunks, Spelled;
    if |tbl| != 64 {
      return InvalidTable;
    }
    var ch := new Encoder(tbl);
    for i := 0 to |s|
      invariant ch.Valid() && ch.count < 6 && ch.tbl == tbl && ch.input == s[..i]
    {
      ch.Write(s[i]);
      assert s[..i + 1] == s[..i] + [s[i]];
    }
    assert s[..|s|] == s;
    ch.Flush();
    r := Ok(ch.out);
  }

  // ---------------------------------------------------------------- decoding

  /** A decoding table holds 256 entries from -1 to 63. */
  predicate IsDecodingTable(tbl: seq<int>)
  {
    |tbl| == 256 && forall x <- tbl :: -1 <= x < 64
  }

  class Decoder {
    const tbl: seq<int>
    const src: seq<Byte> // the underlying channel, and how far it has been read
    var pos: nat
    var data: int
    var count: nat
    ghost var outs: seq<int>

    ghost predicate Valid()
      reads this
    {
      && IsDecodingTable(tbl) && pos <= |src| && count <= 13
      && -1 !in Values(tbl, src[..pos]) && (forall x <- outs :: 0 <= x < 256)
      && AllBits(outs, 8) + Bits(data, count) == AllBits(Values(tbl, src[..pos]), 6)
    }

    constructor (tbl: seq<int>, src: seq<Byte>)
      requires IsDecodingTable(tbl)
      ensures Valid() && count == 0 && outs == [] && this.tbl == tbl && this.src == src
    {
      this.tbl, this.src, pos, data, count, outs := tbl, src, 0, 0, 0, [];
    }

    /** The next byte. A character that the table refuses has been read when the refusal comes. */
    method Fetch() returns (r: Result<int>)
      requires Valid()
      modifies this
      ensures r.Ok? ==> Valid() && count < 6 && outs == old(outs) + [r.value]
      ensures r.InvalidChar? ==> 0 < pos <= |src| && 6 * (pos - 1) < 8 * (|old(outs)| + 1) && tbl[src[pos - 1]] == -1
      ensures r.NoMoreInput? ==> Valid() && outs == old(outs) && pos == |src| && 6 * pos < 8 * (|outs| + 1)
      ensures !r.InvalidTable?
      decreases |src| - pos
    {
      hide Bits, AllBits, Values, IsDecodingTable, Wrap, Pow2;
      IsTable(tbl);
      if count >= 8 {
        FetchBits(outs, data, count, AllBits(Values(tbl, src[..pos]), 6));
        count := count - 8;
        var d := data / Pow2(count) % 256;
        outs := outs + [d];
        return Ok(d);
      }
      PendingBits(outs, data, count, Values(tbl, src[..pos]));
      if pos == |src| {
        return NoMoreInput;
      }
      var c := tbl[src[pos]];
      pos := pos + 1;
      if c == -1 {
        return InvalidChar;
      }
      ReadBits(tbl, src, pos - 1, outs, data, count);
      data := Wrap(data * 64) + c;
      count := count + 6;
      r := Fetch();
    }
  }

  lemma PendingBits(outs: seq<int>, data: int, count: nat, xs: seq<int>)
    requires AllBits(outs, 8) + Bits(data, count) == AllBits(xs, 6)
    ensures 8 * |outs| + count == 6 * |xs|
  {
  }

  lemma FetchBits(outs: seq<int>, data: int, count: nat, all: seq<bool>)
    requires count >= 8 && AllBits(outs, 8) + Bits(data, count) == all
    ensures var d := data / Pow2(count - 8) % 256; AllBits(outs + [d], 8) + Bits(data, count - 8) == all
  {
    Pow2Of63();
    hide Bits, AllBits, Pow2;
    var d := data / Pow2(count - 8) % 256;
    ShiftOut(data, 8, count - 8);
    AllBitsSnoc(outs, d, 8);
    assert AllBits(outs, 8) + (Bits(d, 8) + Bits(data, count - 8)) == AllBits(outs, 8) + Bits(d, 8) + Bits(data, count - 8);
  }

  lemma IsTable(tbl: seq<int>)
    requires IsDecodingTable(tbl)
    ensures |tbl| == 256
  {
  }

  lemma ValuesSnoc(tbl: seq<int>, src: seq<Byte>, pos: nat)
    requires |tbl| == 256 && pos < |src|
    ensures Values(tbl, src[..pos + 1]) == Values(tbl, src[..pos]) + [tbl[src[pos]]]
  {
  }

  lemma ReadBits(tbl: seq<int>, src: seq<Byte>, pos: nat, outs: seq<int>, data: int, count: nat)
    requires IsDecodingTable(tbl) && pos < |src| && tbl[src[pos]] != -1 && count <= 55
    requires -1 !in Values(tbl, src[..pos]) && AllBits(outs, 8) + Bits(data, count) == AllBits(Values(tbl, src[..pos]), 6)
    ensures AllBits(outs, 8) + Bits(Wrap(data * 64) + tbl[src[pos]], count + 6) == AllBits(Values(tbl, src[..pos + 1]), 6)
    ensures -1 !in Values(tbl, src[..pos + 1])
  {
    hide Bits, AllBits, Pow2, Wrap, Values;
    var c := tbl[src[pos]];
    assert c in tbl;
    Pow2Of63();
    ValuesSnoc(tbl, src, pos);
    ShiftIn(data, count, c, 6);
    AllBitsSnoc(Values(tbl, src[..pos]), c, 6);
    assert AllBits(outs, 8) + (Bits(data, count) + Bits(c, 6)) == AllBits(outs, 8) + Bits(data, count) + Bits(c, 6);
  }

  /** `input`: the end of the channel is only an error before the first byte. */
  method Input(ch: Decoder, l: nat) returns (r: Result<seq<int>>)
    requires ch.Valid() && ch.count < 6 && ch.outs == []
    modifies ch
    ensures r.Ok? ==> ch.Valid() && r.value == ch.outs && |r.value| <= l && (|r.value| == l ==> ch.count < 6)
    ensures r.Ok? && |r.value| < l ==> ch.pos == |ch.src| && 6 * ch.pos < 8 * (|r.value| + 1)
    ensures r.InvalidChar? ==> 0 < ch.pos <= |ch.src| && 6 * (ch.pos - 1) < 8 * l
    ensures r.InvalidChar? ==> |ch.tbl| == 256 && ch.tbl[ch.src[ch.pos - 1]] == -1
    ensures r.NoMoreInput? ==> ch.pos == |ch.src| && 6 * ch.pos < 8 && l > 0
    ensures !r.InvalidTable?
  {
    hide Bits, AllBits, Values, IsDecodingTable;
    IsTable(ch.tbl);
    var s := [];
    while |s| < l
      invariant ch.Valid() && ch.count < 6 && ch.outs == s && |s| <= l
    {
      var x := ch.Fetch();
      if x.Ok? {
        s := s + [x.value];
      } else if x.NoMoreInput? {
        return if |s| > 0 then Ok(s) else NoMoreInput;
      } else {
        return InvalidChar;
      }
    }
    r := Ok(s);
  }

  /** A character that cannot be decoded raises an error, except a last one that could not complete a byte:
      that one is never looked at. The end of the channel is never reached too early. */
  method DecodeString(tbl: seq<int>, s: seq<Byte>) returns (r: Result<seq<int>>)
    requires forall x <- tbl :: -1 <= x < 64
    ensures r == Decoded(tbl, s)
  {
    if |tbl| != 256 {
      return InvalidTable;
    }
    var ch := new Decoder(tbl, s);
    var n := |s| * 6 / 8;
    NeededForBytes(|s|);
    if n == 0 {
      NothingNeeded(tbl, s);
      return Ok([]);
    }
    hide Bits, AllBits, Values, Chunks, Decoded;
    r := Input(ch, n);
    if r.Ok? {
      PendingBits(ch.outs, ch.data, ch.count, Values(tbl, s[..ch.pos]));
      DecodedBits(tbl, s, ch.outs, ch.data, ch.count, ch.pos);
    } else if r.InvalidChar? {
      DecodedInvalid(tbl, s, ch.pos - 1);
    }
  }

  lemma NothingNeeded(tbl: seq<int>, s: seq<Byte>)
    requires |tbl| == 256 && |s| * 6 / 8 == 0
    ensures Decoded(tbl, s) == Ok([])
  {
    NeededForBytes(|s|);
    assert Values(tbl, s[..Needed(|s|)]) == [];
  }

  lemma DecodedBits(tbl: seq<int>, s: seq<Byte>, outs: seq<int>, data: int, count: nat, pos: nat)
    requires |tbl| == 256 && pos <= |s| && count < 6 && |outs| == |s| * 6 / 8
    requires -1 !in Values(tbl, s[..pos]) && forall x <- outs :: 0 <= x < 256
    requires AllBits(outs, 8) + Bits(data, count) == AllBits(Values(tbl, s[..pos]), 6)
    ensures Decoded(tbl, s) == Ok(outs)
  {
    Pow2Of63();
    hide Bits, AllBits, Values, Chunks, Pow2;
    NeededForBytes(|s|);
    assert pos == Needed(|s|);
    var n := |outs| * 8;
    assert AllBits(Values(tbl, s[..pos]), 6)[..n] == AllBits(outs, 8);
    assert AllBits(outs, 8) == AllBits(outs, 8) + Zeros(0);
    ChunksUnique(outs, AllBits(outs, 8), 8);
  }

  lemma DecodedInvalid(tbl: seq<int>, s: seq<Byte>, k: nat)
    requires |tbl| == 256 && k < |s| && 6 * k < |s| * 6 / 8 * 8 && tbl[s[k]] == -1
    ensures Decoded(tbl, s) == InvalidChar
  {
    hide AllBits, Chunks;
    NeededForBytes(|s|);
    assert k < Needed(|s|) && Values(tbl, s[..Needed(|s|)])[k] == -1;
  }

  /** So `Invalid_char` is raised exactly for these strings. */
  lemma InvalidCharIff(tbl: seq<int>, s: seq<Byte>)
    requires |tbl| == 256
    ensures Decoded(tbl, s).InvalidChar? <==> exists k :: 0 <= k < |s| && tbl[s[k]] == -1 && (k < |s| - 1 || |s| % 4 != 1)
  {
    hide AllBits, Chunks;
    var m := Needed(|s|);
    var xs := Values(tbl, s[..m]);
    assert forall k :: 0 <= k < m ==> xs[k] == tbl[s[k]];
    if -1 in xs {
      var k :| 0 <= k < m && xs[k] == -1;
      assert tbl[s[k]] == -1;
    }
  }

  // ---------------------------------------------------------------- by arithmetic

  /** Three bytes as four sextets; of one or two bytes the rest of the last sextet is zero. */
  function Sextets(s: seq<Byte>): seq<int>
  {
    if |s| == 0 then []
    else if |s| == 1 then [s[0] / 4, s[0] % 4 * 16]
    else if |s| == 2 then [s[0] / 4, s[0] % 4 * 16 + s[1] / 16, s[1] % 16 * 4]
    else [s[0] / 4, s[0] % 4 * 16 + s[1] / 16, s[1] % 16 * 4 + s[2] / 64, s[2] % 64] + Sextets(s[3..])
  }

  /** Four sextets as three bytes; bits of the last sextet that fill no byte are dropped. */
  function Octets(xs: seq<int>): seq<int>
  {
    if |xs| < 2 then []
    else if |xs| == 2 then [xs[0] * 4 + xs[1] / 16]
    else if |xs| == 3 then [xs[0] * 4 + xs[1] / 16, xs[1] % 16 * 16 + xs[2] / 4]
    else [xs[0] * 4 + xs[1] / 16, xs[1] % 16 * 16 + xs[2] / 4, xs[2] % 4 * 64 + xs[3]] + Octets(xs[4..])
  }

  /** The number that pieces of `w` bits spell. */
  function Number(xs: seq<int>, w: nat): int
  {
    if xs == [] then 0 else Number(xs[..|xs| - 1], w) * Pow2(w) + xs[|xs| - 1]
  }

  lemma {:induction false} NumberBits(xs: seq<int>, w: nat)
    requires forall x <- xs :: 0 <= x < Pow2(w)
    ensures AllBits(xs, w) == Bits(Number(xs, w), |xs| * w)
  {
    hide Bits, Pow2;
    if xs != [] {
      var n := |xs| - 1;
      assert xs[n] in xs && forall x <- xs[..n] :: x in xs;
      NumberBits(xs[..n], w);
      Lengthen(n, w);
      BitsJoin(Number(xs[..n], w), xs[n], n * w, w);
    } else {
      NoBits(w);
    }
  }

  lemma NoBits(w: nat)
    ensures Bits(0, 0 * w) == []
  {
  }

  lemma Lengthen(n: nat, w: nat)
    ensures 0 <= n * w && n * w + w == (n + 1) * w
  {
  }

  lemma FewNumbers(x: int, y: int, z: int, t: int, w: nat)
    ensures Number([x], w) == x && Number([x, y], w) == x * Pow2(w) + y
    ensures Number([x, y, z], w) == (x * Pow2(w) + y) * Pow2(w) + z
    ensures Number([x, y, z, t], w) == ((x * Pow2(w) + y) * Pow2(w) + z) * Pow2(w) + t
  {
    assert [x][..0] == [] && [x, y][..1] == [x] && [x, y, z][..2] == [x, y] && [x, y, z, t][..3] == [x, y, z];
  }

  lemma ZeroBits()
    ensures Bits(0, 2) == Zeros(2) && Bits(0, 4) == Zeros(4) && Zeros(0) == [] && Pow2(2) == 4 && Pow2(4) == 16
  {
    assert Bits(0, 1) == [false] && Bits(0, 2) == [false, false] && Bits(0, 3) == [false, false, false];
    Pow2Values();
  }

  lemma ThreeBytes(a: Byte, b: Byte, c: Byte)
    ensures AllBits([a / 4, a % 4 * 16 + b / 16, b % 16 * 4 + c / 64, c % 64], 6) == AllBits([a, b, c], 8)
  {
    var x, y, z, t := a / 4, a % 4 * 16 + b / 16, b % 16 * 4 + c / 64, c % 64;
    InRange(a, b, c);
    SameNumber(a, b, c);
    ThreeBytesOf(a, b, c, x, y, z, t);
  }

  lemma ThreeBytesOf(a: Byte, b: Byte, c: Byte, x: int, y: int, z: int, t: int)
    requires 0 <= x < 64 && 0 <= y < 64 && 0 <= z < 64 && 0 <= t < 64
    requires (a * 256 + b) * 256 + c == ((x * 64 + y) * 64 + z) * 64 + t
    ensures AllBits([x, y, z, t], 6) == AllBits([a, b, c], 8)
  {
    Pow2Of63();
    hide Bits, AllBits, Pow2;
    NumberBits([a, b, c], 8);
    NumberBits([x, y, z, t], 6);
    FewNumbers(a, b, c, 0, 8);
    FewNumbers(x, y, z, t, 6);
  }

  lemma InRange(a: Byte, b: Byte, c: Byte)
    ensures 0 <= a / 4 < 64 && 0 <= a % 4 * 16 + b / 16 < 64 && 0 <= b % 16 * 4 + c / 64 < 64 && 0 <= c % 64 < 64
    ensures 0 <= a % 4 * 16 < 64 && 0 <= b % 16 * 4 < 64
  {
  }

  lemma SameNumber(a: Byte, b: Byte, c: Byte)
    ensures (a * 256 + b) * 256 + c == ((a / 4 * 64 + (a % 4 * 16 + b / 16)) * 64 + (b % 16 * 4 + c / 64)) * 64 + c % 64
    ensures (a * 256 + b) * 4 == (a / 4 * 64 + (a % 4 * 16 + b / 16)) * 64 + b % 16 * 4
  {
    assert a == a / 4 * 4 + a % 4 && b == b / 16 * 16 + b % 16 && c == c / 64 * 64 + c % 64;
  }

  lemma TwoBytes(a: Byte, b: Byte)
    ensures AllBits([a / 4, a % 4 * 16 + b / 16, b % 16 * 4], 6) == AllBits([a, b], 8) + Zeros(2)
  {
    var x, y, z := a / 4, a % 4 * 16 + b / 16, b % 16 * 4;
    InRange(a, b, 0);
    SameNumber(a, b, 0);
    TwoBytesOf(a, b, x, y, z);
  }

  lemma TwoBytesOf(a: Byte, b: Byte, x: int, y: int, z: int)
    requires 0 <= x < 64 && 0 <= y < 64 && 0 <= z < 64 && (a * 256 + b) * 4 == (x * 64 + y) * 64 + z
    ensures AllBits([x, y, z], 6) == AllBits([a, b], 8) + Zeros(2)
  {
    Pow2Of63();
    ZeroBits();
    hide Bits, AllBits, Pow2, Zeros;
    NumberBits([a, b], 8);
    NumberBits([x, y, z], 6);
    FewNumbers(a, b, 0, 0, 8);
    FewNumbers(x, y, z, 0, 6);
    BitsJoin(a * 256 + b, 0, 16, 2);
  }

  lemma OneByte(a: Byte)
    ensures AllBits([a / 4, a % 4 * 16], 6) == AllBits([a], 8) + Zeros(4)
  {
    Pow2Of63();
    ZeroBits();
    hide Bits, AllBits, Pow2, Zeros;
    NumberBits([a], 8);
    NumberBits([a / 4, a % 4 * 16], 6);
    FewNumbers(a, 0, 0, 0, 8);
    FewNumbers(a / 4, a % 4 * 16, 0, 0, 6);
    BitsJoin(a, 0, 8, 4);
    assert a * 16 == a / 4 * 64 + a % 4 * 16;
  }

  function Filling(n: nat): nat
  {
    if n % 3 == 0 then 0 else if n % 3 == 1 then 4 else 2
  }

  lemma {:induction false} SextetBits(s: seq<Byte>)
    ensures AllBits(Sextets(s), 6) == AllBits(s, 8) + Zeros(Filling(|s|))
    ensures forall x <- Sextets(s) :: 0 <= x < 64
  {
    hide Bits, AllBits, FourSextetsOf;
    if |s| == 0 {
      NoChunks(6);
      NoChunks(8);
    } else if |s| == 1 {
      OneByte(s[0]);
      assert s == [s[0]];
    } else if |s| == 2 {
      TwoBytes(s[0], s[1]);
      InRange(s[0], s[1], 0);
      assert s == [s[0], s[1]];
    } else {
      SextetBits(s[3..]);
      SextetStep(s);
      FirstFour(s);
      SextetsUnfold(s);
      BothBelow(FourSextetsOf(s), Sextets(s[3..]));
    }
  }

  /** The sextets of the first three bytes. */
  function FourSextetsOf(s: seq<Byte>): seq<int>
    requires |s| > 2
  {
    [s[0] / 4, s[0] % 4 * 16 + s[1] / 16, s[1] % 16 * 4 + s[2] / 64, s[2] % 64]
  }

  lemma SextetsUnfold(s: seq<Byte>)
    requires |s| > 2
    ensures Sextets(s) == FourSextetsOf(s) + Sextets(s[3..])
  {
  }

  lemma FirstFour(s: seq<Byte>)
    requires |s| > 2
    ensures AllBits(FourSextetsOf(s), 6) == AllBits(s[..3], 8)
    ensures forall x <- FourSextetsOf(s) :: 0 <= x < 64
  {
    var a, b, c := s[0], s[1], s[2];
    assert s[..3] == [a, b, c];
    ThreeBytes(a, b, c);
    InRange(a, b, c);
    hide AllBits;
    FourBelow(a / 4, a % 4 * 16 + b / 16, b % 16 * 4 + c / 64, c % 64);
  }

  lemma FourBelow(x: int, y: int, z: int, t: int)
    requires 0 <= x < 64 && 0 <= y < 64 && 0 <= z < 64 && 0 <= t < 64
    ensures forall v <- [x, y, z, t] :: 0 <= v < 64
  {
  }

  lemma BothBelow(a: seq<int>, b: seq<int>)
    requires (forall x <- a :: 0 <= x < 64) && forall x <- b :: 0 <= x < 64
    ensures forall x <- a + b :: 0 <= x < 64
  {
  }

  lemma SextetStep(s: seq<Byte>)
    requires |s| > 2
    requires AllBits(Sextets(s[3..]), 6) == AllBits(s[3..], 8) + Zeros(Filling(|s|))
    ensures AllBits(Sextets(s), 6) == AllBits(s, 8) + Zeros(Filling(|s|))
  {
    hide Bits, AllBits, Sextets, Zeros, Filling, FourSextetsOf;
    FirstFour(s);
    SextetsUnfold(s);
    BitsOfParts(FourSextetsOf(s), Sextets(s[3..]), s[..3], s[3..], Zeros(Filling(|s|)));
    assert s == s[..3] + s[3..];
  }

  lemma BitsOfParts(xs: seq<int>, ys: seq<int>, a: seq<int>, b: seq<int>, zeros: seq<bool>)
    requires AllBits(xs, 6) == AllBits(a, 8) && AllBits(ys, 6) == AllBits(b, 8) + zeros
    ensures AllBits(xs + ys, 6) == AllBits(a + b, 8) + zeros
  {
    AllBitsAppend(xs, ys, 6);
    AllBitsAppend(a, b, 8);
    hide AllBits;
    Associative(AllBits(a, 8), AllBits(b, 8), zeros);
  }

  /** Encoding, computed from the bytes three by three. */
  lemma EncodedByThrees(tbl: seq<Byte>, s: seq<Byte>)
    requires |tbl| == 64
    ensures (forall x <- Sextets(s) :: 0 <= x < 64) && Encoded(tbl, s).Ok?
    ensures var e, xs := Encoded(tbl, s).value, Sextets(s);
            |e| == |xs| && forall i :: 0 <= i < |xs| ==> e[i] == tbl[xs[i] % 64]
  {
    SextetBits(s);
    Pow2Of63();
    hide Bits, AllBits, Chunks, Sextets, Pow2;
    ChunksUnique(Sextets(s), AllBits(s, 8), 6);
  }

  lemma OctetRange(x: int, y: int, z: int, t: int)
    requires 0 <= x < 64 && 0 <= y < 64 && 0 <= z < 64 && 0 <= t < 64
    ensures 0 <= x * 4 + y / 16 < 256 && 0 <= y % 16 * 16 + z / 4 < 256 && 0 <= z % 4 * 64 + t < 256
  {
  }

  lemma FourSextets(x: int, y: int, z: int, t: int)
    requires 0 <= x < 64 && 0 <= y < 64 && 0 <= z < 64 && 0 <= t < 64
    ensures AllBits([x, y, z, t], 6) == AllBits([x * 4 + y / 16, y % 16 * 16 + z / 4, z % 4 * 64 + t], 8)
  {
    var a, b, c := x * 4 + y / 16, y % 16 * 16 + z / 4, z % 4 * 64 + t;
    OctetRange(x, y, z, t);
    OctetNumber(x, y, z, t);
    ThreeBytesOf(a, b, c, x, y, z, t);
  }

  lemma OctetNumber(x: int, y: int, z: int, t: int)
    ensures ((x * 4 + y / 16) * 256 + (y % 16 * 16 + z / 4)) * 256 + (z % 4 * 64 + t) == ((x * 64 + y) * 64 + z) * 64 + t
  {
    assert y == y / 16 * 16 + y % 16 && z == z / 4 * 4 + z % 4;
  }

  lemma ThreeSextets(x: int, y: int, z: int)
    requires 0 <= x < 64 && 0 <= y < 64 && 0 <= z < 64
    ensures AllBits([x, y, z], 6)[..16] == AllBits([x * 4 + y / 16, y % 16 * 16 + z / 4], 8)
  {
    Pow2Of63();
    ZeroBits();
    hide Bits, AllBits, Pow2, Zeros;
    var a, b := x * 4 + y / 16, y % 16 * 16 + z / 4;
    NumberBits([a, b], 8);
    NumberBits([x, y, z], 6);
    FewNumbers(a, b, 0, 0, 8);
    FewNumbers(x, y, z, 0, 6);
    BitsJoin(a * 256 + b, z % 4, 16, 2);
    assert (a * 256 + b) * 4 + z % 4 == (x * 64 + y) * 64 + z;
  }

  lemma TwoOfThem(x: int, y: int)
    requires 0 <= x < 64 && 0 <= y < 64
    ensures AllBits([x, y], 6)[..8] == AllBits([x * 4 + y / 16], 8)
  {
    Pow2Of63();
    ZeroBits();
    hide Bits, AllBits, Pow2, Zeros;
    var a := x * 4 + y / 16;
    NumberBits([a], 8);
    NumberBits([x, y], 6);
    FewNumbers(a, 0, 0, 0, 8);
    FewNumbers(x, y, 0, 0, 6);
    BitsJoin(a, y % 16, 8, 4);
    assert a * 16 + y % 16 == x * 64 + y;
  }

  lemma {:induction false} OctetBits(xs: seq<int>)
    requires |xs| % 4 != 1 && forall x <- xs :: 0 <= x < 64
    ensures |Octets(xs)| == |xs| * 6 / 8 && (forall b <- Octets(xs) :: 0 <= b < 256)
    ensures AllBits(xs, 6)[..8 * |Octets(xs)|] == AllBits(Octets(xs), 8)
  {
    hide Bits, AllBits;
    if |xs| == 0 {
      NoChunks(6);
      NoChunks(8);
    } else {
      assert xs[0] in xs && xs[1] in xs;
      if |xs| == 2 {
        assert xs == [xs[0], xs[1]];
        TwoOfThem(xs[0], xs[1]);
      } else {
        assert xs[2] in xs;
        if |xs| == 3 {
          assert xs == [xs[0], xs[1], xs[2]];
          ThreeSextets(xs[0], xs[1], xs[2]);
        } else {
          OctetStep(xs);
        }
      }
    }
  }

  /** The bytes of the first four sextets. */
  function ThreeOctetsOf(xs: seq<int>): seq<int>
    requires |xs| > 3
  {
    [xs[0] * 4 + xs[1] / 16, xs[1] % 16 * 16 + xs[2] / 4, xs[2] % 4 * 64 + xs[3]]
  }

  lemma OctetsUnfold(xs: seq<int>)
    requires |xs| > 3
    ensures Octets(xs) == ThreeOctetsOf(xs) + Octets(xs[4..])
  {
  }

  lemma FirstThree(xs: seq<int>)
    requires |xs| > 3 && forall x <- xs :: 0 <= x < 64
    ensures AllBits(xs[..4], 6) == AllBits(ThreeOctetsOf(xs), 8)
    ensures forall b <- ThreeOctetsOf(xs) :: 0 <= b < 256
  {
    hide AllBits;
    assert xs[0] in xs && xs[1] in xs && xs[2] in xs && xs[3] in xs;
    assert xs[..4] == [xs[0], xs[1], xs[2], xs[3]];
    FourSextets(xs[0], xs[1], xs[2], xs[3]);
    ThreeBelow(xs[0] * 4 + xs[1] / 16, xs[1] % 16 * 16 + xs[2] / 4, xs[2] % 4 * 64 + xs[3]);
  }

  lemma ThreeBelow(x: int, y: int, z: int)
    requires 0 <= x < 256 && 0 <= y < 256 && 0 <= z < 256
    ensures forall v <- [x, y, z] :: 0 <= v < 256
  {
  }

  lemma OctetsBelow(a: seq<int>, b: seq<int>)
    requires (forall x <- a :: 0 <= x < 256) && forall x <- b :: 0 <= x < 256
    ensures forall x <- a + b :: 0 <= x < 256
  {
  }

  lemma OctetStep(xs: seq<int>)
    requires |xs| > 3 && |xs| % 4 != 1 && forall x <- xs :: 0 <= x < 64
    ensures |Octets(xs)| == |xs| * 6 / 8 && (forall b <- Octets(xs) :: 0 <= b < 256)
    ensures AllBits(xs, 6)[..8 * |Octets(xs)|] == AllBits(Octets(xs), 8)
    decreases xs, 0
  {
    hide Bits, AllBits, Octets, ThreeOctetsOf;
    assert forall x <- xs[4..] :: x in xs;
    OctetBits(xs[4..]);
    FirstThree(xs);
    OctetsUnfold(xs);
    OctetsBelow(ThreeOctetsOf(xs), Octets(xs[4..]));
    assert xs == xs[..4] + xs[4..];
    ThreeLong(xs);
    BitsOfFront(xs[..4], xs[4..], ThreeOctetsOf(xs), Octets(xs[4..]));
  }

  lemma ThreeLong(xs: seq<int>)
    requires |xs| > 3
    ensures |ThreeOctetsOf(xs)| == 3 && |xs| * 6 / 8 == 3 + |xs[4..]| * 6 / 8
  {
  }

  lemma BitsOfFront(xs: seq<int>, ys: seq<int>, a: seq<int>, b: seq<int>)
    requires |xs| == 4 && |a| == 3 && 8 * |b| <= |AllBits(ys, 6)|
    requires AllBits(xs, 6) == AllBits(a, 8) && AllBits(ys, 6)[..8 * |b|] == AllBits(b, 8)
    ensures 8 * |a + b| <= |AllBits(xs + ys, 6)|
    ensures AllBits(xs + ys, 6)[..8 * |a + b|] == AllBits(a + b, 8)
  {
    hide AllBits;
    AllBitsAppend(xs, ys, 6);
    AllBitsAppend(a, b, 8);
    TwentyFour(xs);
    EightMore(a, b);
    Fronts(AllBits(xs, 6), AllBits(ys, 6), AllBits(b, 8), 8 * |b|, 8 * |a + b|);
  }

  lemma EightMore(a: seq<int>, b: seq<int>)
    requires |a| == 3
    ensures 8 * |a + b| == 24 + 8 * |b|
  {
  }

  lemma TwentyFour(xs: seq<int>)
    requires |xs| == 4
    ensures |AllBits(xs, 6)| == 24
  {
  }

  lemma Fronts(p: seq<bool>, q: seq<bool>, r: seq<bool>, n: nat, m: nat)
    requires n <= |q| && q[..n] == r && m == |p| + n
    ensures m <= |p + q| && (p + q)[..m] == p + r
  {
  }

  /** Decoding, computed from the characters four by four. */
  lemma DecodedByFours(tbl: seq<int>, s: seq<Byte>)
    requires IsDecodingTable(tbl)
    ensures Decoded(tbl, s).Ok? ==> Decoded(tbl, s) == Ok(Octets(Values(tbl, s[..if |s| % 4 == 1 then |s| - 1 else |s|])))
  {
    hide Bits, AllBits, Chunks, Octets;
    if Decoded(tbl, s).Ok? {
      var xs := Values(tbl, s[..Needed(|s|)]);
      forall x | x in xs ensures 0 <= x < 64 {
        var i :| 0 <= i < |xs| && xs[i] == x;
        assert tbl[s[i]] in tbl;
      }
      NeededBytes(|s|);
      hide Values, Needed;
      OctetChunks(xs, |s| * 6 / 8 * 8);
    }
  }

  lemma NeededBytes(len: nat)
    ensures Needed(len) % 4 != 1 && Needed(len) * 6 / 8 == len * 6 / 8
  {
    NeededForBytes(len);
  }

  lemma OctetChunks(xs: seq<int>, n: nat)
    requires |xs| % 4 != 1 && n == |xs| * 6 / 8 * 8 && forall x <- xs :: 0 <= x < 64
    ensures n <= |AllBits(xs, 6)| && Chunks(AllBits(xs, 6)[..n], 8) == Octets(xs)
  {
    Pow2Of63();
    hide Bits, AllBits, Chunks, Octets, Pow2;
    OctetBits(xs);
    var bits := AllBits(xs, 6)[..n];
    assert bits + Zeros(0) == bits;
    ChunksUnique(Octets(xs), bits, 8);
  }

  // ---------------------------------------------------------------- round trip

  lemma {:induction false} ChunksBits(bits: seq<bool>, w: nat)
    requires w > 0
    ensures var xs := Chunks(bits, w); var n := |AllBits(xs, w)|;
            |bits| <= n < |bits| + w && AllBits(xs, w) == bits + Zeros(n - |bits|) && forall x <- xs :: 0 <= x < Pow2(w)
    decreases |bits|
  {
    hide Bits, AllBits, ValueOf, Pow2, Chunks;
    if bits == [] {
      NoChunks(w);
    } else if |bits| <= w {
      var full := bits + Zeros(w - |bits|);
      LastChunk(bits, w);
      BitsOfValue(full);
      OneByOne(ValueOf(full), w);
    } else {
      FirstChunk(bits, w);
      BitsOfValue(bits[..w]);
      ChunksBits(bits[w..], w);
      OneByOne(ValueOf(bits[..w]), w);
      AllBitsAppend([ValueOf(bits[..w])], Chunks(bits[w..], w), w);
    }
  }

  /** Encoding and decoding again. */
  predicate ComesBack(tbl: seq<Byte>, s: seq<Byte>)
    requires |tbl| == 64
  {
    Decoded(Inverse(tbl), Encoded(tbl, s).value) == Ok(s)
  }

  lemma ValuesBack(tbl: seq<Byte>, xs: seq<int>)
    requires |tbl| == 64 && Injective(tbl) && forall x <- xs :: 0 <= x < 64
    ensures Values(Inverse(tbl), Spelled(tbl, xs)) == xs
  {
    forall i | 0 <= i < |xs| ensures Values(Inverse(tbl), Spelled(tbl, xs))[i] == xs[i] {
      assert xs[i] in xs;
      var p := Place(tbl, tbl[xs[i]]);
      assert p >= xs[i] && tbl[p] == tbl[xs[i]];
    }
  }

  lemma LengthsBack(n: nat, len: nat)
    requires 8 * n <= 6 * len < 8 * n + 6
    ensures Needed(len) == len && len * 6 / 8 == n
  {
    NeededForBytes(len);
  }

  lemma RoundTrip(tbl: seq<Byte>, s: seq<Byte>)
    requires |tbl| == 64 && Injective(tbl)
    ensures ComesBack(tbl, s)
  {
    Pow2Of63();
    hide Bits, AllBits, Values, Chunks, Pow2, Spelled, Inverse, Needed;
    var bits := AllBits(s, 8);
    var xs := Chunks(bits, 6);
    var e := Spelled(tbl, xs);
    ChunksBits(bits, 6);
    ValuesBack(tbl, xs);
    LengthsBack(|s|, |e|);
    assert e[..|e|] == e;
    assert AllBits(xs, 6)[..|e| * 6 / 8 * 8] == bits == bits + Zeros(0);
    ChunksUnique(s, bits, 8);
  }

  lemma HighSix(x: int)
    requires 0 <= x < 64
    ensures Bits(4 * x, 8)[..6] == Bits(x, 6) && ValueOf(Bits(x, 6)) == x
  {
    hide Bits, ValueOf;
    BitsJoin(x, 0, 6, 2);
    assert x * Pow2(2) + 0 == 4 * x by { assert Pow2(2) == 2 * Pow2(1) == 4 * Pow2(0); }
    ValueOfBits(x, 6);
    assert x % Pow2(6) == x by { Pow2Of63(); }
  }

  /** The sextets of one byte. */
  lemma OneByteChunks(b: Byte)
    ensures var xs := Chunks(AllBits([b], 8), 6);
            |xs| == 2 && xs[0] == ValueOf(Bits(b, 8)[..6]) && forall x <- xs :: 0 <= x < 64
  {
    Pow2Of63();
    hide Bits, AllBits, Chunks, ValueOf, Pow2;
    var bits := AllBits([b], 8);
    OneByOne(b, 8);
    FirstChunk(bits, 6);
    LastChunk(bits[6..], 6);
    ChunksBits(bits, 6);
  }

  /** Two sextets that decode to one byte: the first is its high six bits. */
  lemma TwoSextets(xs: seq<int>, b: Byte)
    requires |xs| == 2 && 0 <= xs[0] < 64 && Chunks(AllBits(xs, 6)[..8], 8) == [b]
    ensures xs[0] == ValueOf(Bits(b, 8)[..6])
  {
    hide Bits, AllBits, Chunks, ValueOf, Pow2;
    Pow2Of63();
    var bits := AllBits(xs, 6)[..8];
    Peel(xs, 6);
    LastChunk(bits, 8);
    assert bits + Zeros(0) == bits && [ValueOf(bits)][0] == [b][0];
    BitsOfValue(bits);
    assert bits[..6] == AllBits(xs, 6)[..6];
  }

  /** Two places with one character: a byte that starts with the first comes back with the second. */
  lemma Confused(tbl: seq<Byte>, i: nat, j: nat)
    requires |tbl| == 64 && i < j < 64 && tbl[i] == tbl[j]
    ensures !ComesBack(tbl, [4 * i])
  {
    hide Bits, AllBits, Chunks, ValueOf;
    var b: Byte := 4 * i;
    OneByteChunks(b);
    HighSix(i);
    var xs := Chunks(AllBits([b], 8), 6);
    var e := Spelled(tbl, xs);
    var ys := Values(Inverse(tbl), e);
    assert xs[0] == i && ys[0] == Place(tbl, tbl[i]) && ys[0] >= j;
    assert Needed(2) == 2 && e[..2] == e;
    if ComesBack(tbl, [b]) {
      TwoSextets(ys, b);
    }
  }

  /** Every string comes back exactly when the table spells no two sextets alike. */
  lemma RoundTripIffInjective(tbl: seq<Byte>)
    requires |tbl| == 64
    ensures (forall s :: ComesBack(tbl, s)) <==> Injective(tbl)
  {
    forall s | Injective(tbl) ensures ComesBack(tbl, s) {
      RoundTrip(tbl, s);
    }
    if !Injective(tbl) {
      var i, j :| 0 <= i < j < 64 && tbl[i] == tbl[j];
      Confused(tbl, i, j);
    }
  }

  /** The default table: the base64 alphabet of table 1 in RFC 4648. */
  const CHARS: seq<Byte> := seq<Byte>(64, i requires 0 <= i < 64 => Letter(i))

  function Letter(i: int): Byte
    requires 0 <= i < 64
  {
    if i < 26 then 'A' as int + i
    else if i < 52 then 'a' as int + (i - 26)
    else if i < 62 then '0' as int + (i - 52)
    else if i == 62 then '+' as int
    else '/' as int
  }

  /** The table, as the source prints it, sixteen to a row. */
  lemma DefaultTable(i: nat)
    requires i < 16
    ensures CHARS[i] as char == "ABCDEFGHIJKLMNOP"[i]
    ensures CHARS[16 + i] as char == "QRSTUVWXYZabcdef"[i]
    ensures CHARS[32 + i] as char == "ghijklmnopqrstuv"[i]
    ensures CHARS[48 + i] as char == "wxyz0123456789+/"[i]
  {
    match i
    case 0 => case 1 => case 2 => case 3 => case 4 => case 5 => case 6 => case 7 =>
    case 8 => case 9 => case 10 => case 11 => case 12 => case 13 => case 14 => case 15 =>
  }

  lemma DefaultTableRoundTrip(s: seq<Byte>)
    ensures ComesBack(CHARS, s)
  {
    assert Injective(CHARS);
    RoundTrip(CHARS, s);
  }
}
