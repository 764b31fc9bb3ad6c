/** UTF-8 strings over 31-bit code points: libs/extlib-leftovers/uTF8.ml.
    `None` stands for an exception. */
module Utf8 {
  import opened Wrappers
  import opened Sequences

  type Byte = b: int | 0 <= b < 256

  /** A code point that `UCharExt` can make (section 2 of RFC 2279). */
  type Uchar = k: int | 0 <= k < 0x8000_0000

  type Bytes = seq<Byte>

  // ---------------------------------------------------------------- encoding

  /** The bytes `add_uchar` appends. `lor` only ever joins disjoint bits here. */
  function Encode(k: Uchar): (r: Bytes)
    ensures |r| > 0
  {
    if k >= 0x4000000 then
      [0xfc + k / 0x40000000, 0x80 + k / 0x1000000 % 64, 0x80 + k / 0x40000 % 64, 0x80 + k / 0x1000 % 64, 0x80 + k / 64 % 64, 0x80 + k % 64]
    else if k <= 0x7f then [k]
    else if k <= 0x7ff then [0xc0 + k / 64, 0x80 + k % 64]
    else if k <= 0xffff then [0xe0 + k / 0x1000, 0x80 + k / 64 % 64, 0x80 + k % 64]
    else if k <= 0x1fffff then [0xf0 + k / 0x40000, 0x80 + k / 0x1000 % 64, 0x80 + k / 64 % 64, 0x80 + k % 64]
    else [0xf8 + k / 0x1000000, 0x80 + k / 0x40000 % 64, 0x80 + k / 0x1000 % 64, 0x80 + k / 64 % 64, 0x80 + k % 64]
  }

  function EncodeAll(us: seq<Uchar>): Bytes
  {
    if us == [] then [] else Encode(us[0]) + EncodeAll(us[1..])
  }

  class Buffer {
    var contents: Bytes

    constructor ()
      ensures contents == []
    {
      contents := [];
    }

    method AddChar(b: Byte)
      modifies this
      ensures contents == old(contents) + [b]
    {
      contents := contents + [b];
    }

    method AddUchar(k: Uchar)
      modifies this
      ensures contents == old(contents) + Encode(k)
    {
      if k < 0 || k >= 0x4000000 {
        AddChar(0xfc + k / 0x40000000);
        AddChar(0x80 + k / 0x1000000 % 64);
        AddChar(0x80 + k / 0x40000 % 64);
        AddChar(0x80 + k / 0x1000 % 64);
        AddChar(0x80 + k / 64 % 64);
        AddChar(0x80 + k % 64);
      } else if k <= 0x7f {
        AddChar(k);
      } else if k <= 0x7ff {
        AddChar(0xc0 + k / 64);
        AddChar(0x80 + k % 64);
      } else if k <= 0xffff {
        AddChar(0xe0 + k / 0x1000);
        AddChar(0x80 + k / 64 % 64);
        AddChar(0x80 + k % 64);
      } else if k <= 0x1fffff {
        AddChar(0xf0 + k / 0x40000);
        AddChar(0x80 + k / 0x1000 % 64);
        AddChar(0x80 + k / 64 % 64);
        AddChar(0x80 + k % 64);
      } else {
        AddChar(0xf8 + k / 0x1000000);
        AddChar(0x80 + k / 0x40000 % 64);
        AddChar(0x80 + k / 0x1000 % 64);
        AddChar(0x80 + k / 64 % 64);
        AddChar(0x80 + k % 64);
      }
    }
  }

  function Tabulate(len: nat, f: nat -> Uchar): (us: seq<Uchar>)
    ensures |us| == len && forall i :: 0 <= i < len ==> us[i] == f(i)
  {
    seq<Uchar>(len, i requires 0 <= i => f(i))
  }

  method Init(len: nat, f: nat -> Uchar) returns (s: Bytes)
    ensures s == EncodeAll(Tabulate(len, f))
  {
    hide Encode;
    var buf := new Buffer();
    ghost var us := Tabulate(len, f);
    for c := 0 to len
      invariant fresh(buf) && buf.contents == EncodeAll(us[..c])
    {
      EncodeAllAppend(us[..c], [us[c]]);
      assert us[..c + 1] == us[..c] + [us[c]];
      assert [us[c]][1..] == [];
      buf.AddUchar(f(c));
    }
    assert us[..len] == us;
    s := buf.contents;
  }

  lemma {:induction false} EncodeAllAppend(us: seq<Uchar>, vs: seq<Uchar>)
    ensures EncodeAll(us + vs) == EncodeAll(us) + EncodeAll(vs)
  {
    hide Encode;
    if us == [] {
      assert us + vs == vs;
    } else {
      EncodeAllAppend(us[1..], vs);
      assert (us + vs)[1..] == us[1..] + vs && (us + vs)[0] == us[0];
      Associative(Encode(us[0]), EncodeAll(us[1..]), EncodeAll(vs));
    }
  }

  // ---------------------------------------------------------------- reading

  /** `a lsl 6 lor (0x7f land m)`, also where the bits overlap: `m` keeps seven bits, not six. */
  function ShiftOr(a: int, m: Byte): int
  {
    a * 64 + m % 64 + (if m / 64 % 2 == 1 && a % 2 == 0 then 64 else 0)
  }

  function Gather(s: Bytes, i: nat, n: nat, a: int): int
    requires i + n <= |s|
    decreases n
  {
    if n == 0 then a else Gather(s, i + 1, n - 1, ShiftOr(a, s[i]))
  }

  /** The last byte of a character is read first, with a bounds check that covers the others. */
  function LookTail(s: Bytes, i: nat, n: nat, a: int): Option<int>
  {
    if i + n < |s| then Some(Gather(s, i + 1, n, a)) else None
  }

  function Look(s: Bytes, i: int): Option<int>
  {
    if !(0 <= i < |s|) then None
    else
      var n: int := s[i];
      if n < 0x80 then Some(n)
      else if n <= 0xdf then LookTail(s, i, 1, n - 0xc0)
      else if n <= 0xef then LookTail(s, i, 2, n - 0xe0)
      else if n <= 0xf7 then LookTail(s, i, 3, n - 0xf0)
      else if n <= 0xfb then LookTail(s, i, 4, n - 0xf8)
      else if n <= 0xfd then LookTail(s, i, 5, n - 0xfc)
      else None
  }

  /** The first head byte from `i` on, or the end. */
  function SearchHead(s: Bytes, i: nat): (r: nat)
    ensures r >= i && (forall j :: i <= j < r && j < |s| ==> 0x80 <= s[j] < 0xc2)
    ensures r < |s| ==> s[r] < 0x80 || s[r] >= 0xc2
    ensures i <= |s| ==> r <= |s|
    decreases |s| - i
  {
    if i >= |s| then i
    else if s[i] < 0x80 || s[i] >= 0xc2 then i
    else SearchHead(s, i + 1)
  }

  function Next(s: Bytes, i: int): (r: Option<int>)
    ensures r.Some? ==> i < |s| && i < r.value
  {
    if !(0 <= i < |s|) then None
    else
      var n := s[i];
      if n < 0x80 then Some(i + 1)
      else if n < 0xc0 then Some(SearchHead(s, i + 1))
      else if n <= 0xdf then Some(i + 2)
      else if n <= 0xef then Some(i + 3)
      else if n <= 0xf7 then Some(i + 4)
      else if n <= 0xfb then Some(i + 5)
      else if n <= 0xfd then Some(i + 6)
      else None
  }

  /** The last head byte up to `i`, or -1; an index beyond the end is refused. */
  function SearchHeadBackward(s: Bytes, i: int): (r: Option<int>)
    ensures r.None? <==> i >= 0 && i >= |s|
    ensures r.Some? ==> (if i < 0 then r.value == -1 else -1 <= r.value <= i)
    ensures r.Some? ==> forall j :: r.value < j <= i && j >= 0 ==> 0x80 <= s[j] < 0xc2
    ensures r.Some? && r.value >= 0 ==> s[r.value] < 0x80 || s[r.value] >= 0xc2
    decreases i
  {
    if i < 0 then Some(-1)
    else if i >= |s| then None
    else if s[i] < 0x80 || s[i] >= 0xc2 then Some(i)
    else SearchHeadBackward(s, i - 1)
  }

  function Prev(s: Bytes, i: int): Option<int>
  {
    SearchHeadBackward(s, i - 1)
  }

  function Move(s: Bytes, i: int, n: int): Option<int>
    decreases if n >= 0 then n else -n
  {
    if n > 0 then
      var j := Next(s, i);
      if j.None? then None else Move(s, j.value, n - 1)
    else if n < 0 then
      var j := Prev(s, i);
      if j.None? then None else Move(s, j.value, n + 1)
    else Some(i)
  }

  /** A negative `n` never counts down to zero: it runs into the end of the string. */
  function NthAux(s: Bytes, i: int, n: int): Option<int>
    decreases if i < |s| then |s| - i else 0
  {
    if n == 0 then Some(i)
    else
      var j := Next(s, i);
      if j.None? then None else NthAux(s, j.value, n - 1)
  }

  function Nth(s: Bytes, n: int): Option<int>
  {
    NthAux(s, 0, n)
  }

  function Last(s: Bytes): Option<int>
  {
    SearchHeadBackward(s, |s| - 1)
  }

  function Get(s: Bytes, n: int): Option<int>
  {
    var i := Nth(s, n);
    if i.None? then None else Look(s, i.value)
  }

  function LengthAux(s: Bytes, c: nat, i: nat): Option<nat>
    decreases if i < |s| then |s| - i else 0
  {
    if i >= |s| then Some(c)
    else
      var n := s[i];
      if n < 0x80 then LengthAux(s, c + 1, i + 1)
      else if n < 0xc0 then None
      else if n < 0xe0 then LengthAux(s, c + 1, i + 2)
      else if n < 0xf0 then LengthAux(s, c + 1, i + 3)
      else if n < 0xf8 then LengthAux(s, c + 1, i + 4)
      else if n < 0xfc then LengthAux(s, c + 1, i + 5)
      else if n < 0xfe then LengthAux(s, c + 1, i + 6)
      else None
  }

  function Length(s: Bytes): Option<nat>
  {
    LengthAux(s, 0, 0)
  }

  /** What `iter` hands to its procedure, in order. */
  function IterAux(s: Bytes, i: nat): Option<seq<int>>
    decreases if i < |s| then |s| - i else 0
  {
    if i >= |s| then Some([])
    else
      var u, j := Look(s, i), Next(s, i);
      if u.None? || j.None? then None
      else
        var rest := IterAux(s, j.value);
        if rest.None? then None else Some([u.value] + rest.value)
  }

  function Iter(s: Bytes): Option<seq<int>>
  {
    IterAux(s, 0)
  }

  /** Structural comparison of two strings or two code point sequences: lexicographic, shorter first. */
  function Compare(a: seq<int>, b: seq<int>): int
  {
    if a == [] then (if b == [] then 0 else -1)
    else if b == [] then 1
    else if a[0] < b[0] then -1
    else if a[0] > b[0] then 1
    else Compare(a[1..], b[1..])
  }

  // ---------------------------------------------------------------- validation

  function Trail(s: Bytes, c: nat, i: nat, a: int): Option<int>
    decreases c
  {
    if c == 0 then Some(a)
    else if i >= |s| then None
    else if s[i] < 0x80 || s[i] >= 0xc0 then None
    else Trail(s, c - 1, i + 1, a * 64 + (s[i] - 0x80))
  }

  /** `None` when `Malformed_code` is raised. */
  predicate ValidFrom(s: Bytes, i: nat)
    decreases if i < |s| then |s| - i else 0
  {
    if i >= |s| then true
    else
      var n := s[i];
      if n < 0x80 then ValidFrom(s, i + 1)
      else if n < 0xc2 then false
      else if n <= 0xdf then TrailAtLeast(s, 1, i, n - 0xc0, 0x80) && ValidFrom(s, i + 2)
      else if n <= 0xef then TrailAtLeast(s, 2, i, n - 0xe0, 0x800) && ValidFrom(s, i + 3)
      else if n <= 0xf7 then TrailAtLeast(s, 3, i, n - 0xf0, 0x10000) && ValidFrom(s, i + 4)
      else if n <= 0xfb then TrailAtLeast(s, 4, i, n - 0xf8, 0x200000) && ValidFrom(s, i + 5)
      else if n <= 0xfd then
        var t := Trail(s, 5, i + 1, n - 0xfc);
        t.Some? && t.value / 0x10000 >= 0x400 && ValidFrom(s, i + 6)
      else false
  }

  predicate TrailAtLeast(s: Bytes, c: nat, i: nat, a: int, min: int)
  {
    var t := Trail(s, c, i + 1, a);
    t.Some? && t.value >= min
  }

  predicate Validate(s: Bytes)
  {
    ValidFrom(s, 0)
  }

  // ---------------------------------------------------------------- one character

  /** `k lsr (6 * n)`. */
  function Shift(k: nat, n: nat): nat
  {
    if n == 0 then k else Shift(k, n - 1) / 64
  }

  /** The continuation bytes that carry the low `6 * n` bits of `k`. */
  function Tail(k: nat, n: nat): (r: Bytes)
    ensures |r| == n
  {
    if n == 0 then [] else [0x80 + Shift(k, n - 1) % 64] + Tail(k, n - 1)
  }

  /** The first code point that needs `n` continuation bytes. */
  function Least(n: nat): nat
  {
    match n
    case 0 => 0
    case 1 => 0x80
    case 2 => 0x800
    case 3 => 0x1_0000
    case 4 => 0x20_0000
    case 5 => 0x400_0000
    case _ => 0x8000_0000
  }

  function Marker(n: nat): nat
  {
    match n
    case 0 => 0
    case 1 => 0xc0
    case 2 => 0xe0
    case 3 => 0xf0
    case 4 => 0xf8
    case _ => 0xfc
  }

  /** How many continuation bytes the head byte `b` announces; -1 if it cannot start a character. */
  function Announced(b: int): (n: int)
    ensures -1 <= n <= 5
  {
    if b < 0x80 then 0
    else if b < 0xc0 then -1
    else if b <= 0xdf then 1
    else if b <= 0xef then 2
    else if b <= 0xf7 then 3
    else if b <= 0xfb then 4
    else if b <= 0xfd then 5
    else -1
  }

  function Following(k: Uchar): (n: nat)
    ensures n <= 5 && Least(n) <= k < Least(n + 1)
  {
    if k <= 0x7f then 0 else if k <= 0x7ff then 1 else if k <= 0xffff then 2
    else if k <= 0x1f_ffff then 3 else if k < 0x400_0000 then 4 else 5
  }

  lemma Shifts(k: nat)
    ensures Shift(k, 0) == k && Shift(k, 1) == k / 64 && Shift(k, 2) == k / 0x1000 && Shift(k, 3) == k / 0x40000
    ensures Shift(k, 4) == k / 0x1000000 && Shift(k, 5) == k / 0x40000000
  {
    assert Shift(k, 1) == Shift(k, 0) / 64;
    assert Shift(k, 2) == Shift(k, 1) / 64;
    assert Shift(k, 3) == Shift(k, 2) / 64;
    assert Shift(k, 4) == Shift(k, 3) / 64;
    assert Shift(k, 5) == Shift(k, 4) / 64;
  }

  lemma Tails(k: nat)
    ensures Tail(k, 1) == [0x80 + k % 64]
    ensures Tail(k, 2) == [0x80 + k / 64 % 64, 0x80 + k % 64]
    ensures Tail(k, 3) == [0x80 + k / 0x1000 % 64, 0x80 + k / 64 % 64, 0x80 + k % 64]
    ensures Tail(k, 4) == [0x80 + k / 0x40000 % 64, 0x80 + k / 0x1000 % 64, 0x80 + k / 64 % 64, 0x80 + k % 64]
    ensures Tail(k, 5) == [0x80 + k / 0x1000000 % 64, 0x80 + k / 0x40000 % 64, 0x80 + k / 0x1000 % 64, 0x80 + k / 64 % 64, 0x80 + k % 64]
  {
    Shifts(k);
    hide Shift;
    assert Tail(k, 0) == [];
    assert Tail(k, 1) == [0x80 + k % 64];
    assert Tail(k, 2) == [0x80 + k / 64 % 64] + Tail(k, 1);
    assert Tail(k, 3) == [0x80 + k / 0x1000 % 64] + Tail(k, 2);
    assert Tail(k, 4) == [0x80 + k / 0x40000 % 64] + Tail(k, 3);
    assert Tail(k, 5) == [0x80 + k / 0x1000000 % 64] + Tail(k, 4);
  }

  lemma HeadAnnounces(k: Uchar)
    ensures var n := Following(k); Announced(Marker(n) + Shift(k, n)) == n
  {
    Shifts(k);
    hide Shift;
  }

  lemma EncodeHead(k: Uchar)
    ensures var n := Following(k); |Encode(k)| == n + 1 && Encode(k)[0] == Marker(n) + Shift(k, n)
  {
    Shifts(k);
    hide Shift;
  }

  lemma EncodeTail(k: Uchar)
    ensures Encode(k)[1..] == Tail(k, Following(k))
  {
    Tails(k);
    assert Tail(k, 0) == [];
    hide Tail;
  }

  /** Every encoding is a head byte that announces its length, then the low bits six at a time. */
  lemma EncodeForm(k: Uchar)
    ensures var n := Following(k);
            Announced(Marker(n) + Shift(k, n)) == n && Encode(k) == [Marker(n) + Shift(k, n)] + Tail(k, n)
  {
    HeadAnnounces(k);
    EncodeHead(k);
    EncodeTail(k);
    hide *;
    assert Encode(k) == [Encode(k)[0]] + Encode(k)[1..];
  }

  /** Reading the low bits back, on top of the high ones. */
  lemma {:induction false} TailRead(s: Bytes, i: nat, n: nat, k: nat)
    requires i + n <= |s| && s[i..i + n] == Tail(k, n)
    ensures Trail(s, n, i, Shift(k, n)) == Some(k)
    ensures Gather(s, i, n, Shift(k, n)) == k
    decreases n
  {
    if n > 0 {
      var digit := s[i..i + n][0];
      assert digit == s[i] == 0x80 + Shift(k, n - 1) % 64;
      assert s[i + 1..i + n] == s[i..i + n][1..] == Tail(k, n - 1);
      assert ShiftOr(Shift(k, n), s[i]) == Shift(k, n - 1);
      TailRead(s, i + 1, n - 1, k);
    }
  }

  lemma {:induction false} TrailFound(s: Bytes, i: nat, n: nat, a: nat, v: int)
    requires i <= |s| && Trail(s, n, i, a) == Some(v)
    ensures v >= 0 && Shift(v, n) == a
    ensures i + n <= |s| && s[i..i + n] == Tail(v, n)
    decreases n
  {
    if n > 0 {
      var b := a * 64 + (s[i] - 0x80);
      assert Trail(s, n - 1, i + 1, b) == Some(v);
      TrailFound(s, i + 1, n - 1, b, v);
      assert Shift(v, n - 1) / 64 == a && 0x80 + Shift(v, n - 1) % 64 == s[i];
      assert s[i..i + n] == [s[i]] + s[i + 1..i + n];
    } else {
      assert s[i..i] == [];
    }
  }

  predicate IsHead(b: int)
  {
    b < 0x80 || b >= 0xc2
  }

  lemma {:induction false} TailBytes(k: nat, n: nat)
    ensures forall j :: 0 <= j < n ==> 0x80 <= Tail(k, n)[j] < 0xc0
  {
    if n > 0 { TailBytes(k, n - 1); }
  }

  lemma HeadOf(k: Uchar)
    ensures IsHead(Encode(k)[0])
    ensures Announced(Encode(k)[0]) == |Encode(k)| - 1
    ensures forall j :: 0 < j < |Encode(k)| ==> !IsHead(Encode(k)[j])
  {
    EncodeForm(k);
    TailBytes(k, Following(k));
    Shifts(k);
    hide Encode, Tail, Shift;
  }

  /** The bytes of `k` stand at position `i` of `s`. */
  predicate Stands(s: Bytes, i: nat, k: Uchar)
  {
    i + |Encode(k)| <= |s| && s[i..i + |Encode(k)|] == Encode(k)
  }

  lemma StandsForm(s: Bytes, i: nat, k: Uchar)
    requires Stands(s, i, k)
    ensures var n := Following(k);
            |Encode(k)| == n + 1 && i + n < |s| &&
            Announced(s[i]) == n && s[i] == Marker(n) + Shift(k, n) &&
            Gather(s, i + 1, n, Shift(k, n)) == k && Trail(s, n, i + 1, Shift(k, n)) == Some(k)
  {
    EncodeForm(k);
    var n := Following(k);
    hide Encode, Tail, Shift, Announced, Marker, Following, Gather, Trail;
    assert s[i] == s[i..i + n + 1][0];
    assert s[i + 1..i + n + 1] == s[i..i + n + 1][1..];
    TailRead(s, i + 1, n, k);
  }

  lemma LookReads(s: Bytes, i: nat, k: Uchar)
    requires Stands(s, i, k)
    ensures Look(s, i) == Some(k)
    ensures Next(s, i) == Some(i + |Encode(k)|)
    ensures forall c: nat :: LengthAux(s, c, i) == LengthAux(s, c + 1, i + |Encode(k)|)
    ensures ValidFrom(s, i) == ValidFrom(s, i + |Encode(k)|)
  {
    StandsForm(s, i, k);
    hide Encode, Stands, Shift, Gather, Trail, LengthAux, ValidFrom;
    assert Gather(s, i + 1, 0, k) == k;
    StepAsAnnounced(s, i);
  }

  lemma StepAsAnnounced(s: Bytes, i: nat)
    requires i < |s| && Announced(s[i]) >= 0
    ensures var n := Announced(s[i]);
      && Next(s, i) == Some(i + 1 + n)
      && (forall c: nat :: LengthAux(s, c, i) == LengthAux(s, c + 1, i + 1 + n))
      && (i + n < |s| ==> Look(s, i) == Some(Gather(s, i + 1, n, s[i] - Marker(n))))
      && var t := Trail(s, n, i + 1, s[i] - Marker(n));
         ValidFrom(s, i) == (t.Some? && t.value >= Least(n) && ValidFrom(s, i + 1 + n))
  {
    var n := Announced(s[i]);
    var t := Trail(s, n, i + 1, s[i] - Marker(n));
    if n == 1 && t.Some? {
      TrailFound(s, i + 1, 1, s[i] - Marker(n), t.value);
      assert Shift(t.value, 1) == Shift(t.value, 0) / 64;
    }
    hide Gather, Trail, Shift;
  }

  // ---------------------------------------------------------------- the cursor

  /** Where character `k` starts. */
  function Offset(us: seq<Uchar>, k: nat): nat
    requires k <= |us|
  {
    |EncodeAll(us[..k])|
  }

  lemma Boundary(us: seq<Uchar>, k: nat)
    requires k < |us|
    ensures Stands(EncodeAll(us), Offset(us, k), us[k])
    ensures Offset(us, k + 1) == Offset(us, k) + |Encode(us[k])| <= |EncodeAll(us)|
  {
    hide Encode;
    var a, c := us[..k], us[k..];
    EncodeAllAppend(a, c);
    assert a + c == us;
    EncodeAllAppend(a, [us[k]]);
    assert us[..k + 1] == a + [us[k]];
    assert EncodeAll([us[k]]) == Encode(us[k]) + EncodeAll([us[k]][1..]);
    assert [us[k]][1..] == [];
    assert EncodeAll(c) == Encode(us[k]) + EncodeAll(c[1..]);
  }

  lemma Ends(us: seq<Uchar>)
    ensures Offset(us, 0) == 0 && Offset(us, |us|) == |EncodeAll(us)|
  {
    hide Encode;
    assert us[..|us|] == us && us[..0] == [];
  }

  lemma {:induction false} BackToHead(s: Bytes, i: nat, j: nat)
    requires i <= j < |s| && IsHead(s[i]) && forall m :: i < m <= j ==> !IsHead(s[m])
    ensures SearchHeadBackward(s, j) == Some(i)
    decreases j
  {
    if j > i { BackToHead(s, i, j - 1); }
  }

  lemma PrevFinds(s: Bytes, i: nat, k: Uchar)
    requires Stands(s, i, k)
    ensures Prev(s, i + |Encode(k)|) == Some(i)
  {
    HeadOf(k);
    hide Encode, IsHead;
    var j := i + |Encode(k)| - 1;
    forall m | i <= m <= j ensures s[m] == Encode(k)[m - i] {
      assert s[m] == s[i..i + |Encode(k)|][m - i];
    }
    BackToHead(s, i, j);
  }

  /** At the boundary before any character, `look` gives its code point, `next` the boundary after
      it, and `prev` undoes `next`. */
  lemma Cursor(us: seq<Uchar>, k: nat)
    requires k < |us|
    ensures var s, i, j := EncodeAll(us), Offset(us, k), Offset(us, k + 1);
      0 <= i < j <= |s| && Look(s, i) == Some(us[k]) && Next(s, i) == Some(j) && Prev(s, j) == Some(i)
  {
    hide *;
    Boundary(us, k);
    LookReads(EncodeAll(us), Offset(us, k), us[k]);
    PrevFinds(EncodeAll(us), Offset(us, k), us[k]);
  }

  /** `move` goes from boundary to boundary in both directions; one step before the first character is -1. */
  lemma {:induction false} MoveSpans(us: seq<Uchar>, a: nat, b: nat)
    requires a <= |us| && b <= |us|
    ensures Move(EncodeAll(us), Offset(us, a), b - a) == Some(Offset(us, b))
    ensures Prev(EncodeAll(us), 0) == Some(-1)
    decreases if a < b then b - a else a - b
  {
    hide Encode, EncodeAll, Offset, Next;
    if a < b {
      Cursor(us, a);
      MoveSpans(us, a + 1, b);
    } else if a > b {
      Cursor(us, a - 1);
      MoveSpans(us, a - 1, b);
    }
  }

  lemma {:induction false} NthFrom(us: seq<Uchar>, k: nat, n: int)
    requires k <= |us|
    ensures NthAux(EncodeAll(us), Offset(us, k), n) == if 0 <= n <= |us| - k then Some(Offset(us, k + n)) else None
    decreases |us| - k
  {
    Ends(us);
    hide Encode, EncodeAll, Offset;
    if n != 0 && k < |us| {
      Cursor(us, k);
      hide Next;
      NthFrom(us, k + 1, n - 1);
    }
  }

  lemma IterStep(s: Bytes, i: nat)
    requires i < |s| && Look(s, i).Some? && Next(s, i).Some?
    ensures var rest := IterAux(s, Next(s, i).value);
            rest.Some? ==> IterAux(s, i) == Some([Look(s, i).value] + rest.value)
  {
    hide Look, Next;
  }

  lemma PastEnd(s: Bytes, c: nat)
    ensures LengthAux(s, c, |s|) == Some(c) && IterAux(s, |s|) == Some([]) && ValidFrom(s, |s|)
  {
  }

  lemma {:induction false} WalkAll(us: seq<Uchar>, k: nat, c: nat)
    requires k <= |us|
    ensures LengthAux(EncodeAll(us), c, Offset(us, k)) == Some(c + |us| - k)
    ensures IterAux(EncodeAll(us), Offset(us, k)) == Some(us[k..])
    ensures ValidFrom(EncodeAll(us), Offset(us, k))
    decreases |us| - k
  {
    hide Encode, EncodeAll, Offset, Next, Look, Stands, LengthAux, ValidFrom, IterAux;
    Ends(us);
    if k < |us| {
      Boundary(us, k);
      LookReads(EncodeAll(us), Offset(us, k), us[k]);
      WalkAll(us, k + 1, c + 1);
      assert us[k..] == [us[k]] + us[k + 1..];
      IterStep(EncodeAll(us), Offset(us, k));
    } else {
      PastEnd(EncodeAll(us), c);
    }
  }

  lemma NothingEncoded()
    ensures EncodeAll([]) == [] && SearchHeadBackward([], -1) == Some(-1)
  {
  }

  lemma LookPastEnd(s: Bytes)
    ensures Look(s, |s|) == None
  {
  }

  /** On an encoded string the whole interface agrees with the code point sequence: `length`, `nth`, `get`
      (with an exception exactly for the indices out of range), `last` and `iter`. */
  lemma AgreesWithCodePoints(us: seq<Uchar>, n: int)
    ensures var s := EncodeAll(us);
      && Length(s) == Some(|us|)
      && Nth(s, n) == (if 0 <= n <= |us| then Some(Offset(us, n)) else None)
      && Get(s, n) == (if 0 <= n < |us| then Some(us[n]) else None)
      && Last(s) == Some(if us == [] then -1 else Offset(us, |us| - 1))
      && Iter(s) == Some(us)
  {
    hide Encode, EncodeAll, Offset, NthAux, LengthAux, IterAux, Look, Next, SearchHeadBackward;
    var s := EncodeAll(us);
    Ends(us);
    WalkAll(us, 0, 0);
    NthFrom(us, 0, n);
    if us != [] { Cursor(us, |us| - 1); } else { NothingEncoded(); }
    if 0 <= n < |us| { Cursor(us, n); } else { LookPastEnd(s); }
    assert us[0..] == us;
  }

  /** Of a byte that is no continuation byte the seventh bit counts too. */
  lemma LookKeepsSevenBits(b: Byte, m: Byte)
    requires 0xc0 <= b <= 0xdf
    ensures Look([b, m], 0).value == (b - 0xc0) * 64 + m % 64
       <==> m < 0x40 || 0x80 <= m < 0xc0 || b % 2 == 1
    ensures Look([b, m], 0) == Some((b - 0xc0) * 64 + m % 64) || Look([b, m], 0) == Some((b - 0xc0 + 1) * 64 + m % 64)
  {
    assert Gather([b, m], 1, 1, b - 0xc0) == Gather([b, m], 2, 0, ShiftOr(b - 0xc0, m));
    assert m / 64 == 0 || m / 64 == 1 || m / 64 == 2 || m / 64 == 3;
  }

  /** A byte that begins no character is refused, except that `next` looks for the next head byte. */
  lemma RefusesBadHeads(s: Bytes, c: nat, i: nat)
    requires i < |s| && (0x80 <= s[i] < 0xc0 || s[i] >= 0xfe)
    ensures LengthAux(s, c, i) == None
    ensures s[i] >= 0xfe ==> Look(s, i) == None && Next(s, i) == None
    ensures s[i] < 0xc0 ==> Next(s, i) == Some(SearchHead(s, i + 1))
  {
  }

  // ---------------------------------------------------------------- validity

  lemma ValidAnnounced(s: Bytes, i: nat)
    requires i < |s| && ValidFrom(s, i)
    ensures Announced(s[i]) >= 0
  {
    hide Trail;
  }

  lemma ValidStep(s: Bytes, i: nat) returns (k: Uchar)
    requires i < |s| && ValidFrom(s, i)
    ensures Stands(s, i, k) && ValidFrom(s, i + |Encode(k)|)
  {
    ValidAnnounced(s, i);
    hide Encode, Trail, Announced, Marker, Least, Stands, ValidFrom, LengthAux, Look, Next;
    var n := Announced(s[i]);
    StepAsAnnounced(s, i);
    k := Standing(s, i, n, Trail(s, n, i + 1, s[i] - Marker(n)).value);
  }

  lemma TrailFits(s: Bytes, i: nat, n: nat, v: int)
    requires i < |s| && Announced(s[i]) == n
    requires Trail(s, n, i + 1, s[i] - Marker(n)) == Some(v) && v >= Least(n)
    ensures s[i] >= Marker(n) && 0 <= v < 0x8000_0000 && Following(v) == n
  {
    hide Trail, Shift;
    assert s[i] >= Marker(n);
    TrailFound(s, i + 1, n, s[i] - Marker(n), v);
    Shifts(v);
  }

  lemma Standing(s: Bytes, i: nat, n: nat, v: int) returns (k: Uchar)
    requires i < |s| && Announced(s[i]) == n
    requires Trail(s, n, i + 1, s[i] - Marker(n)) == Some(v) && v >= Least(n)
    ensures k == v && Stands(s, i, k) && |Encode(k)| == n + 1
  {
    hide Encode, Trail, Tail, Shift, Announced, Marker, Least, Following;
    TrailFits(s, i, n, v);
    TrailFound(s, i + 1, n, s[i] - Marker(n), v);
    k := v;
    EncodeForm(k);
    assert s[i..i + n + 1] == [s[i]] + s[i + 1..i + n + 1];
  }

  lemma {:induction false} ValidDecodes(s: Bytes, i: nat) returns (us: seq<Uchar>)
    requires i <= |s| && ValidFrom(s, i)
    ensures EncodeAll(us) == s[i..]
    decreases |s| - i
  {
    hide Encode, ValidFrom;
    if i == |s| {
      us := [];
    } else {
      var k := ValidStep(s, i);
      var rest := ValidDecodes(s, i + |Encode(k)|);
      us := [k] + rest;
      assert us[1..] == rest;
      assert s[i..] == s[i..i + |Encode(k)|] + s[i + |Encode(k)|..];
    }
  }

  /** `validate` accepts exactly the concatenations of encodings, and then what `iter` yields is the
      one sequence of code points the string encodes. */
  lemma ValidIffEncoded(s: Bytes)
    ensures Validate(s) <==> exists us :: s == EncodeAll(us)
    ensures Validate(s) ==> Iter(s).Some? && forall us :: s == EncodeAll(us) <==> Iter(s).value == us
  {
    if Validate(s) {
      var us := ValidDecodes(s, 0);
      assert s[0..] == s;
      AgreesWithCodePoints(us, 0);
    }
    forall us | s == EncodeAll(us) ensures Validate(s) && Iter(s) == Some(us) {
      Ends(us);
      WalkAll(us, 0, 0);
      AgreesWithCodePoints(us, 0);
    }
  }

  // ---------------------------------------------------------------- order

  lemma {:induction false} CompareSkip(p: seq<int>, a: seq<int>, b: seq<int>)
    ensures Compare(p + a, p + b) == Compare(a, b)
  {
    if p == [] {
      assert p + a == a && p + b == b;
    } else {
      assert (p + a)[1..] == p[1..] + a && (p + b)[1..] == p[1..] + b;
      CompareSkip(p[1..], a, b);
    }
  }

  lemma {:induction false} CompareSwap(a: seq<int>, b: seq<int>)
    ensures Compare(a, b) == -Compare(b, a)
  {
    if a != [] && b != [] { CompareSwap(a[1..], b[1..]); }
  }

  lemma TailStep(u: nat, n: nat, a: seq<int>)
    requires n > 0
    ensures var s := Tail(u, n) + a; s[0] == 0x80 + Shift(u, n - 1) % 64 && s[1..] == Tail(u, n - 1) + a
  {
  }

  /** Same high bits: the first continuation byte that differs decides. */
  lemma {:induction false} TailOrder(u: nat, v: nat, n: nat, a: seq<int>, b: seq<int>)
    requires u < v && Shift(u, n) == Shift(v, n)
    ensures Compare(Tail(u, n) + a, Tail(v, n) + b) == -1
    decreases n
  {
    if n > 0 {
      var x, y := Shift(u, n - 1), Shift(v, n - 1);
      assert x / 64 == y / 64;
      ShiftMonotone(u, v, n - 1);
      TailStep(u, n, a);
      TailStep(v, n, b);
      hide Shift, Tail;
      if x == y { TailOrder(u, v, n - 1, a, b); }
    }
  }

  lemma {:induction false} ShiftMonotone(u: nat, v: nat, n: nat)
    requires u <= v
    ensures Shift(u, n) <= Shift(v, n)
  {
    if n > 0 { ShiftMonotone(u, v, n - 1); }
  }

  lemma EncodeOrder(u: Uchar, v: Uchar, a: seq<int>, b: seq<int>)
    requires u < v
    ensures Compare(Encode(u) + a, Encode(v) + b) == -1
  {
    EncodeForm(u);
    EncodeForm(v);
    var m, n := Following(u), Following(v);
    assert m <= n;
    ShiftMonotone(u, v, n);
    hide Encode, Tail, Shift;
    assert (Encode(u) + a)[1..] == Tail(u, m) + a;
    assert (Encode(v) + b)[1..] == Tail(v, n) + b;
    if m == n && Shift(u, n) == Shift(v, n) { TailOrder(u, v, n, a, b); }
  }

  /** The bytes compare as the code points do. */
  lemma {:induction false} CompareByCodePoints(us: seq<Uchar>, vs: seq<Uchar>)
    ensures Compare(EncodeAll(us), EncodeAll(vs)) == Compare(us, vs)
  {
    hide Encode;
    if us != [] && vs != [] {
      var u, v, a, b := us[0], vs[0], EncodeAll(us[1..]), EncodeAll(vs[1..]);
      if u < v {
        EncodeOrder(u, v, a, b);
      } else if u > v {
        EncodeOrder(v, u, b, a);
        CompareSwap(EncodeAll(us), EncodeAll(vs));
      } else {
        CompareSkip(Encode(u), a, b);
        CompareByCodePoints(us[1..], vs[1..]);
      }
    }
  }

  /** Lexicographic order: at the first difference one has ended, or is smaller. */
  ghost predicate Precedes(us: seq<int>, vs: seq<int>)
  {
    exists k: nat :: FirstDifference(us, vs, k)
  }

  ghost predicate FirstDifference(us: seq<int>, vs: seq<int>, k: nat)
  {
    k <= |us| && k < |vs| && us[..k] == vs[..k] && (k < |us| ==> us[k] < vs[k])
  }

  lemma PrecedesCons(u: int, us: seq<int>, vs: seq<int>)
    ensures Precedes([u] + us, [u] + vs) <==> Precedes(us, vs)
  {
    if k: nat :| FirstDifference([u] + us, [u] + vs, k) {
      assert k > 0;
      assert us[..k - 1] == ([u] + us)[..k][1..] && vs[..k - 1] == ([u] + vs)[..k][1..];
      assert FirstDifference(us, vs, k - 1);
    }
    if k: nat :| FirstDifference(us, vs, k) {
      assert ([u] + us)[..k + 1] == [u] + us[..k] && ([u] + vs)[..k + 1] == [u] + vs[..k];
      assert FirstDifference([u] + us, [u] + vs, k + 1);
    }
  }

  lemma {:induction false} CompareIsTheOrder(us: seq<int>, vs: seq<int>)
    ensures var c := Compare(us, vs);
            && (c < 0 <==> Precedes(us, vs)) && (c == 0 <==> us == vs) && (c > 0 <==> Precedes(vs, us))
  {
    if us != [] && vs != [] && us[0] == vs[0] {
      CompareIsTheOrder(us[1..], vs[1..]);
      PrecedesCons(us[0], us[1..], vs[1..]);
      PrecedesCons(us[0], vs[1..], us[1..]);
      assert us == [us[0]] + us[1..] && vs == [us[0]] + vs[1..];
    } else {
      FirstAtStart(us, vs);
      FirstAtStart(vs, us);
    }
  }

  lemma FirstAtStart(us: seq<int>, vs: seq<int>)
    requires us == [] || vs == [] || us[0] != vs[0]
    ensures Precedes(us, vs) <==> vs != [] && (us == [] || us[0] < vs[0])
  {
    assert us[..0] == vs[..0];
    if vs != [] && (us == [] || us[0] < vs[0]) { assert FirstDifference(us, vs, 0); }
    forall k: nat ensures FirstDifference(us, vs, k) ==> k == 0 {
      FirstsAgree(us, vs, k);
    }
  }

  lemma FirstsAgree(us: seq<int>, vs: seq<int>, k: nat)
    ensures FirstDifference(us, vs, k) && k > 0 ==> us != [] && vs != [] && us[0] == vs[0]
  {
    if FirstDifference(us, vs, k) && k > 0 { assert us[..k][0] == vs[..k][0]; }
  }

  /** `compare` of the bytes is negative, zero or positive exactly when the code points precede, are equal,
      or follow in lexicographic order. */
  lemma CompareOrdersCodePoints(us: seq<Uchar>, vs: seq<Uchar>)
    ensures var c := Compare(EncodeAll(us), EncodeAll(vs));
            && (c < 0 <==> Precedes(us, vs)) && (c == 0 <==> us == vs) && (c > 0 <==> Precedes(vs, us))
  {
    hide Compare, EncodeAll;
    CompareByCodePoints(us, vs);
    CompareIsTheOrder(us, vs);
  }
}
