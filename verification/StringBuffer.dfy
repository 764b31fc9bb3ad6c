/** The chunked buffer behind command line building: libs/extc/process_stubs.c, lines 77 to 179.
    A `char` is one byte. */
module StringBuffer {
  import opened Powers

  const INT_MAX := 0x7fff_ffff

  /** From here on the growth loop does not end, see `GrowthEndsIff`. */
  const MAX_TOTAL := 0x4000_0000

  // ---------------------------------------------------------------- the growth loop

  /** What is left of a number in a 32-bit `int`. Where C leaves the overflow of a shift undefined, this is
      what two's complement machines do. */
  function Int32(x: int): int
  {
    (x + 0x8000_0000) % 0x1_0000_0000 - 0x8000_0000
  }

  /** `blen` after `n` rounds of `b->blen <<= 1`. */
  function Grown(blen: int, n: nat): int
  {
    if n == 0 then blen else Int32(2 * Grown(blen, n - 1))
  }

  /** The loop `while( totlen >= (blen << 2) ) blen <<= 1` reaches an end. */
  ghost predicate GrowthEnds(totlen: nat, blen: int)
  {
    exists n: nat :: totlen < Int32(4 * Grown(blen, n))
  }

  /** The chunk lengths there are: powers of two from 16 to 2^28. */
  ghost predicate IsChunkLength(blen: int)
  {
    exists k: nat :: IsPower(blen, k) && k <= 28
  }

  ghost predicate IsPower(blen: int, k: nat)
  {
    4 <= k && blen == Pow2(k)
  }

  lemma PowersUpTo32(k: nat)
    ensures Pow2(4) == 16 && Pow2(28) == 0x1000_0000 && Pow2(29) == 0x2000_0000 && Pow2(30) == MAX_TOTAL
    ensures k < 28 ==> Pow2(k) <= 0x800_0000
  {
    assert Pow2(16) == 0x1_0000;
    Pow2Splits(28, 16);
    assert Pow2(12) == 0x1000;
    if k < 28 { Pow2Monotone(k, 27); }
  }

  lemma Int32Fits(x: int)
    ensures -0x8000_0000 <= x < 0x8000_0000 ==> Int32(x) == x
    ensures Int32(0x8000_0000) == -0x8000_0000 && Int32(0x1_0000_0000) == Int32(-0x1_0000_0000) == Int32(-0x2_0000_0000) == 0
  {
  }

  lemma NextPower(x: int, k: nat)
    requires IsPower(x, k)
    ensures IsPower(2 * x, k + 1)
  {
  }

  /** All that wrapping doublings of a chunk length lead to. */
  ghost predicate Reached(x: int)
  {
    (exists k: nat :: IsPower(x, k) && k <= 30) || x == -0x8000_0000 || x == 0
  }

  lemma ReachedStep(x: int)
    requires Reached(x)
    ensures Reached(Int32(2 * x)) && Int32(4 * x) <= MAX_TOTAL
  {
    hide Int32;
    Int32Fits(2 * x);
    Int32Fits(4 * x);
    if k: nat :| IsPower(x, k) && k <= 30 {
      hide Pow2;
      PowersUpTo32(k);
      NextPower(x, k);
      if k <= 28 { assert x <= 0x1000_0000; }
    }
  }

  lemma {:induction false} GrownIsReached(blen: int, n: nat)
    requires IsChunkLength(blen)
    ensures Reached(Grown(blen, n))
  {
    if n == 0 {
      var k: nat :| IsPower(blen, k) && k <= 28;
    } else {
      GrownIsReached(blen, n - 1);
      ReachedStep(Grown(blen, n - 1));
    }
  }

  lemma {:induction false} GrownIsPower(blen: int, k: nat, n: nat)
    requires IsPower(blen, k) && k + n <= 28
    ensures IsPower(Grown(blen, n), k + n)
  {
    if n > 0 {
      GrownIsPower(blen, k, n - 1);
      PowersUpTo32(k + n - 1);
    }
  }

  /** The growth loop ends exactly while the total stays below 2^30. */
  lemma GrowthEndsIff(totlen: nat, blen: int)
    requires IsChunkLength(blen) && totlen <= INT_MAX
    ensures GrowthEnds(totlen, blen) <==> totlen < MAX_TOTAL
  {
    if totlen < MAX_TOTAL {
      var k: nat :| IsPower(blen, k) && k <= 28;
      GrownIsPower(blen, k, 28 - k);
      PowersUpTo32(28);
      assert Int32(4 * Grown(blen, 28 - k)) == MAX_TOTAL;
    }
    forall n: nat | totlen < Int32(4 * Grown(blen, n)) ensures totlen < MAX_TOTAL {
      GrownIsReached(blen, n);
      ReachedStep(Grown(blen, n));
    }
  }

  /** The first total at which a fresh buffer hangs. */
  lemma GrowthHangs()
    ensures !GrowthEnds(0x4000_0000, 16)
  {
    PowersUpTo32(4);
    assert IsPower(16, 4);
    GrowthEndsIff(0x4000_0000, 16);
  }

  lemma ChunkLengths(blen: int)
    requires IsChunkLength(blen)
    ensures 16 <= blen <= 0x1000_0000 && Int32(4 * blen) == 4 * blen
    ensures 4 * blen < MAX_TOTAL ==> Int32(2 * blen) == 2 * blen && IsChunkLength(2 * blen)
  {
    hide Int32, Pow2;
    var k: nat :| IsPower(blen, k) && k <= 28;
    PowersUpTo32(k);
    Pow2Monotone(4, k);
    Int32Fits(2 * blen);
    Int32Fits(4 * blen);
    NextPower(blen, k);
  }

  // ---------------------------------------------------------------- chunks

  /** A C string: what stands before the first NUL. */
  function CString(s: string): (r: string)
    ensures r <= s && '\0' !in r && (|r| < |s| ==> s[|r|] == '\0')
  {
    if s == [] || s[0] == '\0' then "" else [s[0]] + CString(s[1..])
  }

  class Item {
    const str: array<char>
    var len: nat
    const next: Item?
    ghost const repr: set<object>

    constructor (str: array<char>, len: nat, next: Item?)
      requires len <= str.Length
      requires next != null ==> next.Valid() && str !in next.repr
      ensures Valid() && this.str == str && this.len == len && this.next == next
      ensures repr == {this, str} + if next == null then {} else next.repr
    {
      this.str, this.len, this.next := str, len, next;
      repr := {this, str} + if next == null then {} else next.repr;
    }

    ghost predicate Valid()
      reads this, repr
      decreases repr
    {
      && {this, str as object} <= repr && len <= str.Length
      && (next != null ==>
            next in repr && next.repr <= repr && this !in next.repr && str !in next.repr && next.Valid())
    }

    /** What this chunk and all earlier ones hold: the list runs from the newest chunk to the oldest. */
    ghost function Contents(): string
      requires Valid()
      reads this, repr
      decreases repr
    {
      (if next == null then "" else next.Contents()) + str[..len]
    }
  }

  class Buffer {
    var totlen: nat
    var blen: int
    var data: Item?

    ghost function Repr(): set<object>
      reads this
    {
      {this} + if data == null then {} else {data} + data.repr
    }

    ghost predicate Valid()
      reads this, Repr()
    {
      && (data != null ==> this !in data.repr && data.Valid())
      && totlen == |Chunks()|
      && IsChunkLength(blen)
    }

    ghost function Chunks(): string
      requires data != null ==> data.Valid()
      reads this, data, if data == null then {} else data.repr
    {
      if data == null then "" else data.Contents()
    }

    /** The string the buffer stands for. */
    ghost function Contents(): string
      requires Valid()
      reads this, Repr()
    {
      Chunks()
    }

    /** The room left in the newest chunk. */
    ghost function Room(): nat
      requires Valid()
      reads this, Repr()
    {
      if data == null then 0 else data.str.Length - data.len
    }

    /** `n` more characters keep the total an `int`, and do not need the growth loop where it does not end. */
    ghost predicate Accepts(n: nat)
      requires Valid()
      reads this, Repr()
    {
      totlen + n < MAX_TOTAL || (totlen + n <= INT_MAX && n <= Room())
    }

    lemma Length()
      requires Valid()
      ensures totlen == |Contents()|
    {
    }

    constructor ()
      ensures Valid() && Contents() == "" && fresh(Repr())
    {
      totlen, blen, data := 0, 16, null;
      PowersUpTo32(4);
      assert IsPower(16, 4);
    }

    /** Start a new chunk; `totlen` already counts `s`. */
    method AppendNew(s: string)
      requires data != null ==> this !in data.repr && data.Valid()
      requires IsChunkLength(blen) && totlen == |Chunks()| + |s| <= INT_MAX
      requires GrowthEnds(totlen, blen)
      modifies this
      ensures Valid() && Contents() == old(Chunks()) + s && totlen < 4 * blen
      ensures fresh(Repr() - old(Repr()))
    {
      hide IsChunkLength, GrowthEnds, Int32;
      GrowthEndsIff(totlen, blen);
      ChunkLengths(blen);
      while totlen >= Int32(4 * blen)
        invariant IsChunkLength(blen) && Int32(4 * blen) == 4 * blen >= 64
        invariant totlen == old(totlen) && data == old(data)
        decreases totlen - blen
      {
        ChunkLengths(blen);
        blen := Int32(2 * blen);
        ChunkLengths(blen);
      }
      var size := if |s| < blen then blen else |s|;
      var str := new char[size];
      forall i | 0 <= i < |s| { str[i] := s[i]; }
      data := new Item(str, |s|, data);
      assert str[..|s|] == s;
    }

    method AppendSub(s: string)
      requires Valid() && Accepts(|s|)
      modifies Repr()
      ensures Valid() && Contents() == old(Contents()) + s
      ensures fresh(Repr() - old(Repr()))
    {
      hide GrowthEnds, IsChunkLength, Int32, Item.Contents;
      if |s| == 0 {
        assert Contents() == Contents() + s;
        return;
      }
      totlen := totlen + |s|;
      var it := data;
      var rest := s;
      if it != null {
        var free := it.str.Length - it.len;
        if free >= |s| {
          Fill(it, s);
          return;
        }
        Fill(it, s[..free]);
        rest := s[free..];
        assert s == s[..free] + rest;
      }
      GrowthEndsIff(totlen, blen);
      AppendNew(rest);
    }

    /** `memcpy` behind the characters of the newest chunk. */
    static method Fill(it: Item, s: string)
      requires it.Valid() && it.len + |s| <= it.str.Length
      modifies it, it.str
      ensures it.Valid() && it.Contents() == old(it.Contents()) + s
    {
      forall i | 0 <= i < |s| { it.str[it.len + i] := s[i]; }
      it.len := it.len + |s|;
      assert it.str[..it.len] == old(it.str[..it.len]) + s;
    }

    method AppendStr(s: string)
      requires Valid() && Accepts(|CString(s)|)
      modifies Repr()
      ensures Valid() && Contents() == old(Contents()) + CString(s)
      ensures fresh(Repr() - old(Repr()))
    {
      AppendSub(CString(s));
    }

    method AppendChar(c: char)
      requires Valid() && Accepts(1)
      modifies Repr()
      ensures Valid() && Contents() == old(Contents()) + [c]
      ensures fresh(Repr() - old(Repr()))
    {
      totlen := totlen + 1;
      var it := data;
      if it != null && it.len != it.str.Length {
        Fill(it, [c]);
        return;
      }
      GrowthEndsIff(totlen, blen);
      AppendNew([c]);
    }

    /** The whole string and its terminator, filled in from the end. */
    method ToString() returns (v: array<char>)
      requires Valid()
      ensures fresh(v) && v[..] == Contents() + "\0"
    {
      hide Item.Contents;
      v := new char[totlen + 1];
      var it := data;
      var s := totlen;
      v[s] := '\0';
      ghost var all := Contents();
      while it != null
        modifies v
        invariant it != null ==> it.Valid() && it.repr <= Repr() && v !in it.repr
        invariant 0 <= s <= |all| && v.Length == |all| + 1
        invariant all[..s] == if it == null then "" else it.Contents()
        invariant forall i :: s <= i <= |all| ==> v[i] == (all + "\0")[i]
        decreases if it == null then {} else it.repr
      {
        s := CopyBefore(v, s, it, all);
        it := it.next;
      }
      assert |all[..s]| == 0;
      assert v[..] == all + "\0";
    }

    static lemma LastChunk(all: string, end: nat, earlier: string, chunk: string)
      requires end <= |all| && all[..end] == earlier + chunk
      ensures |earlier| + |chunk| == end && all[..|earlier|] == earlier
      ensures forall i :: |earlier| <= i < end ==> all[i] == chunk[i - |earlier|]
    {
      assert all[..|earlier|] == all[..end][..|earlier|];
      assert forall i :: |earlier| <= i < end ==> all[i] == all[..end][i];
    }

    static method CopyBefore(v: array<char>, end: nat, it: Item, ghost all: string) returns (s: nat)
      requires it.Valid() && v !in it.repr && end <= |all| && v.Length == |all| + 1
      requires all[..end] == it.Contents()
      modifies v
      ensures s <= end && all[..s] == if it.next == null then "" else it.next.Contents()
      ensures forall i :: s <= i < end ==> v[i] == all[i]
      ensures forall i :: end <= i <= |all| ==> v[i] == old(v[i])
    {
      hide Item.Contents;
      ContentsOf(it);
      ghost var earlier, chunk := if it.next == null then "" else it.next.Contents(), it.str[..it.len];
      LastChunk(all, end, earlier, chunk);
      s := end - it.len;
      CopyTo(v, s, it.str, it.len);
      assert forall i :: s <= i < end ==> v[i] == chunk[i - s];
    }

    /** `memcpy` */
    static method CopyTo(v: array<char>, s: nat, str: array<char>, len: nat)
      requires v != str && s + len <= v.Length && len <= str.Length
      modifies v
      ensures forall i :: s <= i < s + len ==> v[i] == str[i - s]
      ensures forall i :: 0 <= i < v.Length && !(s <= i < s + len) ==> v[i] == old(v[i])
    {
      forall i | s <= i < s + len { v[i] := str[i - s]; }
    }

    static lemma ContentsOf(it: Item)
      requires it.Valid()
      ensures it.Contents() == (if it.next == null then "" else it.next.Contents()) + it.str[..it.len]
    {
    }
  }
}
