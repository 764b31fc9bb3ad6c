/** Rope buffers: libs/extlib-leftovers/rbuffer.ml. A `char` is one byte. Leaves are arrays that ropes
    share, as the source shares strings it got from `Bytes.unsafe_to_string`. */
module Rbuffer {
  import opened Wrappers

  /** `Sys.max_string_length` and `max_int` of a 64-bit system. */
  const MAX_STRING_LENGTH: int := 0x1ff_ffff_ffff_fff7
  const MAX_INT: int := 0x3fff_ffff_ffff_ffff

  // ---------------------------------------------------------------- ropes

  datatype Rope = Str(s: array<char>) | App(l: Rope, r: Rope, n: int)

  function RopeLength(r: Rope): int
  {
    match r
    case Str(s) => s.Length
    case App(_, _, n) => n
  }

  /** The arrays a rope is made of. */
  ghost function Leaves(r: Rope): set<array<char>>
  {
    match r
    case Str(s) => {s}
    case App(l, r, _) => Leaves(l) + Leaves(r)
  }

  lemma {:induction false} LeavesAllocated(r: Rope)
    ensures forall a <- Leaves(r) :: allocated(a)
  {
    if r.App? {
      LeavesAllocated(r.l);
      LeavesAllocated(r.r);
    }
  }

  /** Every stored length is the length it stands for. */
  ghost predicate Sized(r: Rope)
  {
    match r
    case Str(s) => s.Length <= MAX_STRING_LENGTH
    case App(l, r, n) => Sized(l) && Sized(r) && n == RopeLength(l) + RopeLength(r)
  }

  ghost function Text(r: Rope): string
    reads Leaves(r)
  {
    match r
    case Str(s) => s[..]
    case App(l, r, _) => Text(l) + Text(r)
  }

  lemma {:induction false} TextLength(r: Rope)
    requires Sized(r)
    ensures |Text(r)| == RopeLength(r)
  {
    if r.App? {
      TextLength(r.l);
      TextLength(r.r);
    }
  }

  function RopeNth(i: int, r: Rope): (c: char)
    requires Sized(r) && 0 <= i < RopeLength(r)
    reads Leaves(r)
    ensures |Text(r)| == RopeLength(r) && c == Text(r)[i]
  {
    TextLength(r);
    match r
    case Str(s) => s[i]
    case App(l, r', _) =>
      TextLength(l);
      TextLength(r');
      var ll := RopeLength(l);
      if i < ll then RopeNth(i, l) else RopeNth(i - ll, r')
  }

  /** `t` with `x` written over it from `i` on. */
  ghost predicate Written(after: string, before: string, i: int, x: string)
  {
    0 <= i && i + |x| <= |before| == |after| && after[i..i + |x|] == x &&
    after[..i] == before[..i] && after[i + |x|..] == before[i + |x|..]
  }

  lemma WrittenTwice(a: string, b: string, c: string, i: int, x: string, y: string)
    requires Written(b, a, i, x) && Written(c, b, i + |x|, y)
    ensures Written(c, a, i, x + y)
  {
    assert c[..i] == c[..i + |x|][..i] && b[..i] == b[..i + |x|][..i];
    assert c[i..i + |x|] == c[..i + |x|][i..] && b[i..i + |x|] == b[..i + |x|][i..];
    assert c[i..i + |x + y|] == c[i..i + |x|] + c[i + |x|..i + |x| + |y|];
    assert b[i + |x| + |y|..] == b[i + |x|..][|y|..];
    assert a[i + |x + y|..] == a[i + |x|..][|y|..];
  }

  method Blit(str: array<char>, ofs: int, s: array<char>, i: int, len: int)
    requires 0 <= ofs && 0 <= len && ofs + len <= str.Length && 0 <= i && i + len <= s.Length
    modifies s
    ensures Written(s[..], old(s[..]), i, old(str[ofs..ofs + len]))
  {
    ghost var x := str[ofs..ofs + len];
    forall k | 0 <= k < len { s[i + k] := str[ofs + k]; }
    assert s[..][i..i + |x|] == x;
  }

  method BlitRope(s: array<char>, i: int, r: Rope)
    requires Sized(r) && s !in Leaves(r) && 0 <= i && i + RopeLength(r) <= s.Length
    modifies s
    ensures Written(s[..], old(s[..]), i, old(Text(r)))
    decreases r
  {
    hide Written;
    TextLength(r);
    match r
    case Str(str) =>
      assert str[0..str.Length] == str[..];
      Blit(str, 0, s, i, str.Length);
    case App(l, r', _) =>
      TextLength(l);
      TextLength(r');
      ghost var x, y := Text(l), Text(r');
      var ll := RopeLength(l);
      LeavesAllocated(r');
      BlitRope(s, i, l);
      ghost var half := s[..];
      BlitRope(s, i + ll, r');
      WrittenTwice(old(s[..]), half, s[..], i, x, y);
  }

  lemma Slices(a: string, b: string, ofs: int, len: int)
    requires 0 <= ofs && 0 <= len && ofs + len <= |a| + |b|
    ensures ofs + len <= |a| ==> (a + b)[ofs..ofs + len] == a[ofs..ofs + len]
    ensures ofs >= |a| ==> (a + b)[ofs..ofs + len] == b[ofs - |a|..ofs - |a| + len]
    ensures ofs < |a| < ofs + len ==> (a + b)[ofs..ofs + len] == a[ofs..] + b[..ofs + len - |a|]
  {
  }

  method BlitSubrope(s: array<char>, i: int, ofs: int, len: int, r: Rope)
    requires Sized(r) && s !in Leaves(r) && 0 <= ofs && 0 <= len && ofs + len <= RopeLength(r)
    requires 0 <= i && i + len <= s.Length
    modifies s
    ensures RopeLength(r) == |old(Text(r))| && Written(s[..], old(s[..]), i, old(Text(r))[ofs..ofs + len])
    decreases r
  {
    hide Written;
    TextLength(r);
    match r
    case Str(str) =>
      assert ofs >= 0 && ofs + len <= str.Length;
      assert str[..][ofs..ofs + len] == str[ofs..ofs + len];
      Blit(str, ofs, s, i, len);
    case App(l, r', _) =>
      TextLength(l);
      TextLength(r');
      ghost var x, y := Text(l), Text(r');
      Slices(x, y, ofs, len);
      var ll := RopeLength(l);
      if ofs + len <= ll {
        BlitSubrope(s, i, ofs, len, l);
      } else if ofs >= ll {
        BlitSubrope(s, i, ofs - ll, len, r');
      } else {
        var lenl := ll - ofs;
        assert x[ofs..ofs + lenl] + y[0..0 + (len - lenl)] == (x + y)[ofs..ofs + len];
        LeavesAllocated(r');
        BlitSubrope(s, i, ofs, lenl, l);
        ghost var half := s[..];
        BlitSubrope(s, i + lenl, 0, len - lenl, r');
        WrittenTwice(old(s[..]), half, s[..], i, x[ofs..ofs + lenl], y[0..0 + (len - lenl)]);
      }
  }

  // ---------------------------------------------------------------- buffers

  class Buffer {
    var rope: Rope
    var buffer: array<char>
    var position: int

    ghost predicate Valid()
      reads this
    {
      && Sized(rope) && 0 <= position <= buffer.Length
      && 1 <= buffer.Length <= MAX_STRING_LENGTH && buffer !in Leaves(rope)
    }

    /** The string the buffer stands for. */
    ghost function Contents(): string
      requires Valid()
      reads this, buffer, Leaves(rope)
    {
      Text(rope) + buffer[..position]
    }

    /** What one operation may do to the arrays behind the buffer: its own bytes may become a leaf, and
        new ones come from the operation or from `others`. */
    twostate predicate Moved(new others: set<array<char>>)
      reads this
    {
      && (buffer == old(buffer) || fresh(buffer))
      && forall a <- Leaves(rope) :: a in old(Leaves(rope)) || a in others || a == old(buffer) || fresh(a)
    }

    constructor (n: int)
      ensures Valid() && Contents() == "" && fresh(buffer) && fresh(Leaves(rope))
    {
      var n' := if n < 1 then 1 else n;
      n' := if n' > MAX_STRING_LENGTH then MAX_STRING_LENGTH else n';
      var empty := new char[0];
      rope, position := Str(empty), 0;
      buffer := new char[n'];
      new;
      assert Text(rope) == empty[..];
    }

    lemma Size()
      requires Valid()
      ensures |Contents()| == RopeLength(rope) + position
    {
      TextLength(rope);
    }

    method Reset()
      requires Valid()
      modifies this
      ensures Valid() && Contents() == "" && Moved({})
    {
      var empty := new char[0];
      rope, position := Str(empty), 0;
      assert Text(rope) == empty[..];
    }

    function Length(): (n: int)
      requires Valid()
      reads this, buffer, Leaves(rope)
      ensures n == |Contents()|
    {
      Size();
      RopeLength(rope) + position
    }

    /** `None` when the contents are longer than a string can be. */
    method UnsafeContents() returns (r: Option<string>)
      requires Valid()
      ensures r == if |Contents()| <= MAX_STRING_LENGTH then Some(Contents()) else None
    {
      Size();
      var n := RopeLength(rope);
      var len := n + position;
      if len > MAX_STRING_LENGTH {
        return None;
      }
      LeavesAllocated(rope);
      TextLength(rope);
      ghost var x := Text(rope);
      var s := new char[len];
      ghost var blank := s[..];
      BlitRope(s, 0, rope);
      ghost var half := s[..];
      Blit(buffer, 0, s, n, position);
      assert buffer[0..0 + position] == buffer[..position];
      Tail(blank, half, s[..], x, buffer[..position]);
      r := Some(s[..]);
    }

    static lemma Tail(blank: string, half: string, whole: string, x: string, y: string)
      requires |blank| == |x| + |y| && Written(half, blank, 0, x) && Written(whole, half, |x|, y)
      ensures whole == x + y
    {
      assert whole == whole[..|x|] + whole[|x|..|x| + |y|];
      assert whole[..|x|] == half[0..0 + |x|];
    }

    method Sub(ofs: int, len: int) returns (r: Option<string>)
      requires Valid()
      ensures r == if 0 <= ofs && 0 <= len <= MAX_STRING_LENGTH && ofs + len <= |Contents()|
                   then Some(Contents()[ofs..ofs + len]) else None
    {
      hide Written, Sized, Text;
      Size();
      var n := RopeLength(rope);
      if len > MAX_STRING_LENGTH || ofs < 0 || len < 0 || ofs > n + position - len {
        return None;
      }
      LeavesAllocated(rope);
      TextLength(rope);
      ghost var x, y := Text(rope), buffer[..position];
      ghost var all := Contents();
      Slices(x, y, ofs, len);
      var s := new char[len];
      ghost var blank := s[..];
      if ofs + len <= n {
        BlitSubrope(s, 0, ofs, len, rope);
        Whole(blank, s[..], x[ofs..ofs + len]);
      } else if ofs >= n {
        assert y[ofs - n..ofs - n + len] == buffer[ofs - n..ofs - n + len];
        Blit(buffer, ofs - n, s, 0, len);
        Whole(blank, s[..], y[ofs - n..ofs - n + len]);
      } else {
        SubAcross(s, ofs, len);
      }
      assert s[..] == all[ofs..ofs + len];
      assert Contents() == all;
      r := Some(s[..]);
    }

    /** The part asked for starts in the rope and ends in the buffer. */
    method SubAcross(s: array<char>, ofs: int, len: int)
      requires Valid() && s != buffer && s !in Leaves(rope) && s.Length == len
      requires 0 <= ofs < RopeLength(rope) < ofs + len <= RopeLength(rope) + position
      modifies s
      ensures RopeLength(rope) == |old(Text(rope))|
      ensures s[..] == old(Text(rope))[ofs..] + old(buffer[..position])[..ofs + len - RopeLength(rope)]
    {
      hide Written, Sized, Text;
      TextLength(rope);
      ghost var blank, x, y := s[..], Text(rope), buffer[..position];
      var n := RopeLength(rope);
      var k := ofs + len - n;
      assert x[ofs..ofs + (n - ofs)] == x[ofs..] && y[..k] == buffer[0..0 + k];
      BlitSubrope(s, 0, ofs, n - ofs, rope);
      ghost var half := s[..];
      Blit(buffer, 0, s, n - ofs, k);
      Tail(blank, half, s[..], x[ofs..], y[..k]);
    }

    static lemma Whole(blank: string, s: string, x: string)
      requires |blank| == |x| && Written(s, blank, 0, x)
      ensures s == x
    {
    }

    function Nth(i: int): (r: Option<char>)
      requires Valid()
      reads this, buffer, Leaves(rope)
      ensures r == if 0 <= i < |Contents()| then Some(Contents()[i]) else None
    {
      Size();
      TextLength(rope);
      var n := RopeLength(rope);
      if i < 0 || i >= n + position then None
      else if i < n then Some(RopeNth(i, rope))
      else Some(buffer[i - n])
    }

    method MoveBufferToRope()
      requires Valid() && |Contents()| <= MAX_INT
      modifies this
      ensures Valid() && Contents() == old(Contents()) && position == 0 && Moved({})
      ensures buffer.Length == old(buffer.Length)
    {
      hide Sized, Text, Leaves;
      LeavesAllocated(rope);
      var pos := position;
      if pos > 0 {
        var n := buffer.Length;
        if pos == n {
          assert buffer[..] == buffer[..position];
          rope := App(rope, Str(buffer), RopeLength(rope) + pos);
          buffer := new char[n];
        } else {
          var copy := SubString(buffer, pos);
          rope := App(rope, Str(copy), RopeLength(rope) + pos);
        }
        Leaf(rope.r.s);
        Appended(old(rope), rope.r, rope);
        position := 0;
      }
      assert Contents() == Text(rope) + "" == Text(rope);
    }

    static lemma Leaf(s: array<char>)
      ensures Sized(Str(s)) == (s.Length <= MAX_STRING_LENGTH) && Text(Str(s)) == s[..] && Leaves(Str(s)) == {s}
    {
    }

    static method SubString(a: array<char>, len: int) returns (b: array<char>)
      requires 0 <= len <= a.Length
      ensures fresh(b) && b[..] == a[..len]
    {
      b := new char[len];
      forall k | 0 <= k < len { b[k] := a[k]; }
    }

    static lemma Appended(l: Rope, r: Rope, whole: Rope)
      requires whole.App? && whole.l == l && whole.r == r
      ensures Sized(whole) == (Sized(l) && Sized(r) && whole.n == RopeLength(l) + RopeLength(r))
      ensures Text(whole) == Text(l) + Text(r) && Leaves(whole) == Leaves(l) + Leaves(r)
    {
    }

    method AddChar(c: char)
      requires Valid() && |Contents()| + 1 <= MAX_INT
      modifies this, buffer
      ensures Valid() && Contents() == old(Contents()) + [c] && Moved({})
    {
      if position == buffer.Length {
        MoveBufferToRope();
      }
      var pos := position;
      buffer[pos] := c;
      position := pos + 1;
      assert buffer[..position] == buffer[..pos] + [c];
    }


    /** Room for `len` characters, and where: in the buffer, or at the end of the rope's last leaf. */
    method Alloc(len: int) returns (str: array<char>, pos: int, ghost earlier: Rope)
      requires Valid() && 0 <= len <= MAX_STRING_LENGTH && |Contents()| + len <= MAX_INT
      modifies this
      ensures Valid() && Moved({}) && buffer == old(buffer)
      ensures 0 <= pos && pos + len <= str.Length && (str == buffer || fresh(str))
      ensures str == buffer ==> rope == old(rope) && pos == old(position) && position == pos + len
      ensures str != buffer ==> position == 0 && pos + len == str.Length && str !in Leaves(earlier)
      ensures str != buffer ==> Text(earlier) + str[..pos] == old(Contents()) && EndsWith(rope, earlier, str)
    {
      hide Sized, Text, Leaves;
      Size();
      LeavesAllocated(rope);
      var n := buffer.Length;
      pos := position;
      earlier := rope;
      var len' := pos + len;
      if len' <= n {
        position := len';
        str := buffer;
      } else if len' <= MAX_STRING_LENGTH {
        str := new char[len'];
        Blit(buffer, 0, str, 0, pos);
        assert str[..pos] == str[..][0..0 + pos] == buffer[..pos];
        rope := App(rope, Str(str), RopeLength(rope) + len');
        Leaf(str);
        Appended(old(rope), Str(str), rope);
        position := 0;
      } else {
        str := new char[len];
        var copy := SubString(buffer, pos);
        rope := App(rope, App(Str(copy), Str(str), len'), RopeLength(rope) + len');
        Leaf(copy);
        Leaf(str);
        Appended(Str(copy), Str(str), rope.r);
        Appended(old(rope), rope.r, rope);
        position, pos := 0, 0;
        earlier := App(earlier, Str(copy), RopeLength(earlier) + copy.Length);
        Appended(old(rope), Str(copy), earlier);
        assert str[..0] == "" && Text(earlier) + "" == Text(earlier);
      }
    }

    /** `r` spells `earlier` and then the leaf `str`, whatever the bytes are. */
    static ghost predicate EndsWith(r: Rope, earlier: Rope, str: array<char>)
    {
      r == App(earlier, Str(str), RopeLength(r))
      || (r.App? && r.r.App? && earlier == App(r.l, r.r.l, RopeLength(r.l) + RopeLength(r.r.l)) && r.r.r == Str(str))
    }

    static lemma EndText(r: Rope, earlier: Rope, str: array<char>)
      requires EndsWith(r, earlier, str)
      ensures Text(r) == Text(earlier) + str[..] && Leaves(r) == Leaves(earlier) + {str}
    {
      Appended(earlier, Str(str), App(earlier, Str(str), 0));
      if r.r != Str(str) {
        assert Text(r.r) == Text(r.r.l) + str[..];
        assert Text(earlier) == Text(r.l) + Text(r.r.l);
      }
    }

    method SafeAddSubstring(s: string, offset: int, len: int)
      requires Valid() && 0 <= offset && 0 <= len <= MAX_STRING_LENGTH && offset + len <= |s|
      requires |Contents()| + len <= MAX_INT
      modifies this, buffer
      ensures Valid() && Contents() == old(Contents()) + s[offset..offset + len] && Moved({})
    {
      hide Text, Leaves, Sized;
      LeavesAllocated(rope);
      ghost var x, y, was := Text(rope), buffer[..position], Contents();
      var str, pos, earlier := Alloc(len);
      if str != buffer { EndText(rope, earlier, str); }
      ghost var before := str[..pos];
      LeavesAllocated(earlier);
      forall k | 0 <= k < len { str[pos + k] := s[offset + k]; }
      assert str[..pos] == before;
      assert str[pos..pos + len] == s[offset..offset + len];
      if str == buffer {
        assert Text(rope) == x;
        assert buffer[..position] == y + s[offset..offset + len];
      } else {
        EndText(rope, earlier, str);
        assert Text(earlier) + before == was;
        assert str[..] == before + s[offset..offset + len];
        assert buffer[..position] == "";
      }
    }

    /** False when the source raises `Invalid_argument`; the buffer is then unchanged. */
    method AddSubstring(s: string, offset: int, len: int) returns (ok: bool)
      requires Valid() && |s| <= MAX_STRING_LENGTH
      requires 0 <= offset && 0 <= len && offset + len <= |s| ==> |Contents()| + len <= MAX_INT
      modifies this, buffer
      ensures Valid() && Moved({})
      ensures ok <==> 0 <= offset && 0 <= len && offset + len <= |s|
      ensures Contents() == old(Contents()) + if ok then s[offset..offset + len] else ""
    {
      if offset < 0 || len < 0 || offset > |s| - len {
        assert Contents() + "" == Contents();
        return false;
      }
      SafeAddSubstring(s, offset, len);
      ok := true;
    }

    method AddString(s: string)
      requires Valid() && |s| <= MAX_STRING_LENGTH && |Contents()| + |s| <= MAX_INT
      modifies this, buffer
      ensures Valid() && Contents() == old(Contents()) + s && Moved({})
    {
      SafeAddSubstring(s, 0, |s|);
      assert s[0..0 + |s|] == s;
    }

    /** Nothing that one buffer writes to is read by the other. */
    ghost predicate Apart(b: Buffer)
      reads this, b
    {
      this != b && buffer != b.buffer && buffer !in Leaves(b.rope) && b.buffer !in Leaves(rope)
    }

    /** Appends `b2`, whose rope is shared, not copied; `b2` may be this very buffer. */
    method AddBuffer(b2: Buffer)
      requires Valid() && b2.Valid() && (b2 == this || Apart(b2))
      requires |Contents()| + |b2.Contents()| <= MAX_INT
      modifies this, buffer
      ensures Valid() && Contents() == old(Contents()) + old(b2.Contents())
      ensures Moved(old(Leaves(b2.rope)))
    {
      hide Text, Leaves, Sized;
      LeavesAllocated(rope);
      LeavesAllocated(b2.rope);
      Size();
      b2.Size();
      ghost var y := b2.Contents();
      if position > 0 {
        MoveBufferToRope();
      }
      LeavesAllocated(rope);
      assert b2.Contents() == y;
      ghost var x, z, w := Contents(), Text(b2.rope), b2.buffer[..b2.position];
      Splice(b2.rope);
      assert b2.buffer[..][0..0 + b2.position] == w;
      var ok := AddSubstring(b2.buffer[..], 0, b2.position);
      if b2 == this {
        assert x == z && w == "" && y == z + w == z;
      }
      assert x + z + w == x + (z + w);
    }

    method Splice(r: Rope)
      requires Valid() && position == 0 && Sized(r) && buffer !in Leaves(r)
      modifies this`rope
      ensures Valid() && Contents() == old(Contents()) + old(Text(r)) && Leaves(rope) == old(Leaves(rope)) + Leaves(r)
    {
      hide Sized, Text, Leaves;
      assert Contents() == Text(rope) + "" == Text(rope);
      rope := App(rope, r, RopeLength(rope) + RopeLength(r));
      Appended(rope.l, rope.r, rope);
      assert Contents() == Text(rope) + "" == Text(rope);
    }
  }

  // ---------------------------------------------------------------- many buffers

  /** One call on one of several buffers. */
  datatype Op =
    | Create(size: int)
    | AddChar(b: nat, c: char)
    | AddString(b: nat, s: string)
    | AddSubstring(b: nat, s: string, offset: int, len: int)
    | AddBuffer(b: nat, b2: nat)
    | Reset(b: nat)

  /** What the call means for the strings the buffers stand for. */
  function Effect(state: seq<string>, op: Op): seq<string>
    requires !op.Create? ==> op.b < |state|
    requires op.AddBuffer? ==> op.b2 < |state|
  {
    match op
    case Create(_) => state + [""]
    case AddChar(b, c) => state[b := state[b] + [c]]
    case AddString(b, s) => state[b := state[b] + s]
    case AddSubstring(b, s, offset, len) =>
      if 0 <= offset && 0 <= len && offset + len <= |s| then state[b := state[b] + s[offset..offset + len]] else state
    case AddBuffer(b, b2) => state[b := state[b] + state[b2]]
    case Reset(b) => state[b := ""]
  }

  /** The call is about existing buffers and proper strings, and no length passes `max_int`. */
  predicate Allowed(state: seq<string>, op: Op)
  {
    && (!op.Create? ==> op.b < |state|)
    && (op.AddBuffer? ==> op.b2 < |state|)
    && (op.AddString? || op.AddSubstring? ==> |op.s| <= MAX_STRING_LENGTH)
    && forall x <- Effect(state, op) :: |x| <= MAX_INT
  }

  /** The buffers stand for these strings, and share nothing that any of them writes to. */
  ghost predicate StandFor(pool: seq<Buffer>, state: seq<string>)
    reads *
  {
    && |pool| == |state|
    && (forall i :: 0 <= i < |pool| ==> pool[i].Valid() && pool[i].Contents() == state[i])
    && (forall i, j :: 0 <= i < j < |pool| ==> pool[i].Apart(pool[j]))
  }

  /** All that the buffers write to. */
  ghost function Writable(pool: seq<Buffer>): set<object>
    reads pool
  {
    (set i | 0 <= i < |pool| :: pool[i] as object) + (set i | 0 <= i < |pool| :: pool[i].buffer as object)
  }

  lemma AllAllocated(pool: seq<Buffer>)
    ensures forall i :: 0 <= i < |pool| ==> forall a <- Leaves(pool[i].rope) :: allocated(a)
  {
    forall i | 0 <= i < |pool| ensures forall a <- Leaves(pool[i].rope) :: allocated(a) {
      LeavesAllocated(pool[i].rope);
    }
  }

  /** The call itself; the buffers it is not about keep their strings. */
  method Dispatch(pool: seq<Buffer>, op: Op, ghost state: seq<string>) returns (ghost others: set<array<char>>)
    requires !op.Create? && StandFor(pool, state) && Allowed(state, op)
    modifies pool[op.b], pool[op.b].buffer
    ensures pool[op.b].Valid() && pool[op.b].Contents() == Effect(state, op)[op.b]
    ensures pool[op.b].Moved(others)
    ensures forall i :: 0 <= i < |pool| && i != op.b ==> pool[i].buffer !in others
  {
    hide Leaves, Text, Sized;
    var b := pool[op.b];
    assert |Effect(state, op)[op.b]| <= MAX_INT by { assert Effect(state, op)[op.b] in Effect(state, op); }
    others := if op.AddBuffer? then Leaves(pool[op.b2].rope) else {};
    if op.AddBuffer? {
      forall i | 0 <= i < |pool| && i != op.b ensures pool[i].buffer !in others {
        assert i == op.b2 || pool[if i < op.b2 then i else op.b2].Apart(pool[if i < op.b2 then op.b2 else i]);
      }
    }
    match op
    case AddChar(_, c) => b.AddChar(c);
    case AddString(_, s) => b.AddString(s);
    case AddSubstring(_, s, offset, len) => var ok := b.AddSubstring(s, offset, len);
    case AddBuffer(k, k2) =>
      assert k == k2 || pool[if k < k2 then k else k2].Apart(pool[if k < k2 then k2 else k]);
      b.AddBuffer(pool[k2]);
    case Reset(_) => b.Reset();
  }

  lemma Others(pool: seq<Buffer>, k: nat, state: seq<string>)
    requires k < |pool| == |state| && pool[k].Valid()
    requires forall i :: 0 <= i < |pool| && i != k ==>
                           pool[i].Valid() && pool[i].Contents() == state[i] && pool[k].Apart(pool[i])
    requires forall i, j :: 0 <= i < j < |pool| && i != k && j != k ==> pool[i].Apart(pool[j])
    ensures StandFor(pool, state[k := pool[k].Contents()])
  {
  }

  method PerformCreate(pool: seq<Buffer>, size: int, ghost state: seq<string>) returns (b: Buffer)
    requires StandFor(pool, state)
    ensures StandFor(pool + [b], state + [""]) && fresh(b) && fresh(b.buffer)
  {
    AllAllocated(pool);
    hide Text, Sized, Leaves;
    b := new Buffer(size);
    forall i | 0 <= i < |pool| ensures pool[i].Apart(b) && pool[i].Valid() && pool[i].Contents() == state[i] {
    }
    ghost var whole := pool + [b];
    forall i, j | 0 <= i < j < |whole| ensures whole[i].Apart(whole[j]) {
      assert j < |pool| ==> pool[i].Apart(pool[j]);
    }
  }

  method PerformCall(pool: seq<Buffer>, op: Op, ghost state: seq<string>)
    requires !op.Create? && StandFor(pool, state) && Allowed(state, op)
    modifies pool[op.b], pool[op.b].buffer
    ensures StandFor(pool, Effect(state, op))
    ensures pool[op.b].buffer == old(pool[op.b].buffer) || fresh(pool[op.b].buffer)
  {
    hide Text, Sized, Leaves;
    AllAllocated(pool);
    var k := op.b;
    ghost var others := Dispatch(pool, op, state);
    forall i | 0 <= i < |pool| && i != k ensures pool[k].Apart(pool[i]) {
      if i < k {
        assert old(pool[i].Apart(pool[k]));
      } else {
        assert old(pool[k].Apart(pool[i]));
      }
    }
    Others(pool, k, state);
    assert Effect(state, op) == state[k := pool[k].Contents()];
  }

  /** What a whole run means for plain strings, if every call in it is allowed. */
  function Meaning(script: seq<Op>): Option<seq<string>>
  {
    if script == [] then Some([])
    else
      var op := script[|script| - 1];
      var before := Meaning(script[..|script| - 1]);
      if before.Some? && Allowed(before.value, op) then Some(Effect(before.value, op)) else None
  }

  lemma {:induction false} PrefixMeans(script: seq<Op>, n: nat)
    requires n <= |script| && Meaning(script).Some?
    ensures Meaning(script[..n]).Some?
    decreases |script| - n
  {
    hide Effect, Allowed;
    if n < |script| {
      PrefixMeans(script, n + 1);
      assert script[..n + 1][..n] == script[..n];
    } else {
      assert script[..n] == script;
    }
  }

  /** After any sequence of calls on any number of buffers, with ropes shared in any way, each buffer stands
      for the concatenation of what was added to it. */
  method Run(script: seq<Op>) returns (pool: seq<Buffer>)
    requires Meaning(script).Some?
    ensures StandFor(pool, Meaning(script).value)
  {
    hide Effect, Allowed, StandFor;
    pool := [];
    NothingYet();
    assert script[..0] == [];
    for n := 0 to |script|
      invariant forall i :: 0 <= i < |pool| ==> fresh(pool[i]) && fresh(pool[i].buffer)
      invariant Meaning(script[..n]).Some? && StandFor(pool, Meaning(script[..n]).value)
    {
      ghost var state := Meaning(script[..n]).value;
      PrefixMeans(script, n + 1);
      assert script[..n + 1][..n] == script[..n];
      pool := Step(pool, script[n], state);
    }
    assert script[..|script|] == script;
  }

  lemma NothingYet()
    ensures StandFor([], [])
  {
  }

  method Step(pool: seq<Buffer>, op: Op, ghost state: seq<string>) returns (pool': seq<Buffer>)
    requires StandFor(pool, state) && Allowed(state, op)
    modifies Writable(pool)
    ensures StandFor(pool', Effect(state, op))
    ensures forall i :: 0 <= i < |pool'| ==>
              if i < |pool| then pool'[i] == pool[i] && (pool[i].buffer == old(pool[i].buffer) || fresh(pool[i].buffer))
              else fresh(pool'[i]) && fresh(pool'[i].buffer)
  {
    hide StandFor, Effect, Allowed, Writable;
    Targeted(pool, op, state);
    if op.Create? {
      var b := PerformCreate(pool, op.size, state);
      pool' := pool + [b];
      CreateEffect(op, state);
    } else {
      pool' := pool;
      WritableAt(pool, op.b);
      PerformCall(pool, op, state);
    }
  }

  lemma WritableAt(pool: seq<Buffer>, k: nat)
    requires k < |pool|
    ensures {pool[k] as object, pool[k].buffer as object} <= Writable(pool)
  {
  }

  lemma Targeted(pool: seq<Buffer>, op: Op, state: seq<string>)
    requires StandFor(pool, state) && Allowed(state, op)
    ensures !op.Create? ==> op.b < |pool|
  {
  }

  lemma CreateEffect(op: Op, state: seq<string>)
    requires op.Create?
    ensures Effect(state, op) == state + [""]
  {
  }
}
