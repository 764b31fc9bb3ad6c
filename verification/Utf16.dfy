/** Slicing UTF-16 strings by code points: std/UnicodeString.hx, lines 143 to 188 and 305 to 426, and
    std/StringTools.hx, lines 633 to 643. */
module Utf16 {
  import opened Wrappers

  /** A UTF-16 code unit. */
  type Unit = u: int | 0 <= u < 0x1_0000

  /** A Unicode scalar value. */
  type Scalar = k: int | 0 <= k < 0xD800 || 0xE000 <= k < 0x11_0000

  const MIN_SURROGATE_CODE_POINT := 65536

  /** Section 2.1 of RFC 2781. */
  function Encode(k: Scalar): (r: seq<Unit>)
    ensures |r| == if k < MIN_SURROGATE_CODE_POINT then 1 else 2
  {
    if k < MIN_SURROGATE_CODE_POINT then [k]
    else [0xD800 + (k - 0x1_0000) / 0x400, 0xDC00 + (k - 0x1_0000) % 0x400]
  }

  /** Well-formed text: what a sequence of scalar values is encoded as. */
  function Text(ks: seq<Scalar>): seq<Unit>
  {
    if ks == [] then [] else Encode(ks[0]) + Text(ks[1..])
  }

  // ---------------------------------------------------------------- pieces

  predicate IsHigh(u: Unit)
  {
    0xD800 <= u <= 0xDBFF
  }

  /** `utf16CodePointAt`. A leading surrogate takes whatever unit follows it for its partner; `past` is
      what `fastCodeAt` gives beyond the end of the string, which the targets do not agree on. */
  function CodePointAt(s: seq<Unit>, index: nat, past: int): int
    requires index < |s|
  {
    if IsHigh(s[index]) then (s[index] - 0xD7C0) * 0x400 + (if index + 1 < |s| then s[index + 1] else past) % 0x400
    else s[index]
  }

  /** The units up to which one code point is read, in any string. */
  function Next(s: seq<Unit>, index: nat): (r: nat)
    requires index < |s|
    ensures index < r <= |s|
  {
    if IsHigh(s[index]) && index + 1 < |s| then index + 2 else index + 1
  }

  /** The code points of any string, each as its units: what follows a leading surrogate belongs to it. */
  function Pieces(s: seq<Unit>): (ps: seq<seq<Unit>>)
    ensures forall i :: 0 <= i < |ps| ==> ps[i] != []
  {
    if s == [] then [] else [s[..Next(s, 0)]] + Pieces(s[Next(s, 0)..])
  }

  function Flat(ps: seq<seq<Unit>>): seq<Unit>
  {
    if ps == [] then [] else ps[0] + Flat(ps[1..])
  }

  function Value(piece: seq<Unit>, past: int): int
    requires piece != []
  {
    CodePointAt(piece, 0, past)
  }

  lemma {:induction false} FlatPieces(s: seq<Unit>)
    ensures Flat(Pieces(s)) == s
  {
    if s != [] { FlatPieces(s[Next(s, 0)..]); }
  }

  lemma {:induction false} FlatAppend(a: seq<seq<Unit>>, b: seq<seq<Unit>>)
    ensures Flat(a + b) == Flat(a) + Flat(b)
  {
    if a == [] {
      assert a + b == b;
    } else {
      assert (a + b)[1..] == a[1..] + b;
      FlatAppend(a[1..], b);
    }
  }

  /** The code points from an offset on; a lone leading surrogate at the end is stepped over by two. */
  function From(s: seq<Unit>, offset: nat): seq<seq<Unit>>
  {
    if offset <= |s| then Pieces(s[offset..]) else []
  }

  /** The step of every loop: one code point is read, and its size is seen from its value, whatever the
      units are and whatever is read past the end. */
  lemma StepOver(s: seq<Unit>, offset: nat, past: int)
    requires offset < |s|
    ensures var c := CodePointAt(s, offset, past);
            var next := offset + (if c >= MIN_SURROGATE_CODE_POINT then 2 else 1);
            && Next(s, offset) == (if next <= |s| then next else |s|)
            && From(s, offset) == [s[offset..Next(s, offset)]] + From(s, next)
            && Value(s[offset..Next(s, offset)], past) == c
  {
    var rest := s[offset..];
    assert Next(rest, 0) == Next(s, offset) - offset;
    assert rest[..Next(rest, 0)] == s[offset..Next(s, offset)];
    assert rest[Next(rest, 0)..] == s[Next(s, offset)..];
    assert CodePointAt(rest[..Next(rest, 0)], 0, past) == CodePointAt(rest, 0, past);
    assert CodePointAt(rest, 0, past) == CodePointAt(s, offset, past);
    assert From(s, offset) == [s[offset..Next(s, offset)]] + From(s, Next(s, offset));
    assert s[|s|..] == [];
  }

  /** What is read in any string, by the units themselves: a leading surrogate and whatever follows it are
      one code point above the first plane, each other unit stands for itself. */
  lemma LeadingTakesNext(s: seq<Unit>, i: nat, past: int)
    requires i < |s|
    ensures var u: int, c := s[i], CodePointAt(s, i, past);
            if !(0xD800 <= u < 0xDC00) then Next(s, i) == i + 1 && c == u
            else if i + 1 < |s| then Next(s, i) == i + 2 && c == 0x1_0000 + (u - 0xD800) * 0x400 + s[i + 1] % 0x400
            else Next(s, i) == i + 1 && c == 0x1_0000 + (u - 0xD800) * 0x400 + past % 0x400
  {
  }

  lemma Suffix(ps: seq<seq<Unit>>, k: nat, first: seq<Unit>, rest: seq<seq<Unit>>)
    requires k <= |ps| && ps[k..] == [first] + rest
    ensures k < |ps| && ps[k] == first && ps[k + 1..] == rest
  {
    assert ps[k..][0] == first && ps[k..][1..] == rest;
  }

  // ---------------------------------------------------------------- well-formed text

  /** Of an encoded code point the value is read back, and nothing beyond it is looked at. */
  lemma ValueOfEncode(k: Scalar, past: int)
    ensures Value(Encode(k), past) == k
  {
  }

  function Encodings(ks: seq<Scalar>): (r: seq<seq<Unit>>)
    ensures |r| == |ks|
  {
    seq(|ks|, i requires 0 <= i < |ks| => Encode(ks[i]))
  }

  /** The pieces of well-formed text are its encoded code points. */
  lemma {:induction false} PiecesOfText(ks: seq<Scalar>)
    ensures Pieces(Text(ks)) == Encodings(ks)
  {
    if ks != [] {
      PiecesOfText(ks[1..]);
      var s, e := Text(ks), Encode(ks[0]);
      assert Next(s, 0) == |e| && s[..|e|] == e && s[|e|..] == Text(ks[1..]);
    }
  }

  lemma FlatEncodings(ks: seq<Scalar>)
    ensures Flat(Encodings(ks)) == Text(ks)
  {
    PiecesOfText(ks);
    FlatPieces(Text(ks));
  }

  /** A piece whose value, encoded, is the piece. */
  ghost predicate IsEncoding(piece: seq<Unit>, past: int)
    requires piece != []
  {
    var c := Value(piece, past);
    (0 <= c < 0xD800 || 0xE000 <= c < 0x11_0000) && Encode(c) == piece
  }

  ghost function ReadBack(ps: seq<seq<Unit>>, past: int): (ks: seq<Scalar>)
    requires forall i :: 0 <= i < |ps| ==> ps[i] != [] && IsEncoding(ps[i], past)
    ensures |ks| == |ps| && forall i :: 0 <= i < |ps| ==> Encode(ks[i]) == ps[i]
  {
    if ps == [] then []
    else
      assert IsEncoding(ps[0], past);
      var c: Scalar := Value(ps[0], past);
      [c] + ReadBack(ps[1..], past)
  }

  ghost predicate IsText(s: seq<Unit>)
  {
    exists ks: seq<Scalar> :: s == Text(ks)
  }

  /** Encoding what is read gives every piece of the string back, exactly when the string is well-formed. */
  lemma ReadsBackIff(s: seq<Unit>, past: int)
    ensures (forall i :: 0 <= i < |Pieces(s)| ==> IsEncoding(Pieces(s)[i], past)) <==> IsText(s)
  {
    hide Pieces, IsEncoding, Encode, Text;
    if ks: seq<Scalar> :| s == Text(ks) {
      PiecesOfText(ks);
      forall i | 0 <= i < |ks| ensures IsEncoding(Pieces(s)[i], past) {
        EncodingReadBack(ks[i], past);
      }
    }
    if forall i :: 0 <= i < |Pieces(s)| ==> IsEncoding(Pieces(s)[i], past) {
      TextReadBack(s, past);
    }
  }

  lemma EncodingReadBack(k: Scalar, past: int)
    ensures IsEncoding(Encode(k), past)
  {
    hide Encode, Value;
    ValueOfEncode(k, past);
  }

  lemma TextReadBack(s: seq<Unit>, past: int)
    requires forall i :: 0 <= i < |Pieces(s)| ==> IsEncoding(Pieces(s)[i], past)
    ensures IsText(s)
  {
    hide Pieces, IsEncoding, Encode, Text;
    var ks := ReadBack(Pieces(s), past);
    assert Encodings(ks) == Pieces(s);
    FlatEncodings(ks);
    FlatPieces(s);
    assert s == Text(ks);
  }

  /** `String.substr` of the target, for a position inside the string. */
  function NativeSubstr(s: seq<Unit>, pos: int, len: Option<int>): seq<Unit>
    requires 0 <= pos <= |s| && (len.Some? ==> len.value >= 0)
  {
    if len.None? || pos + len.value > |s| then s[pos..] else s[pos..pos + len.value]
  }

  // ---------------------------------------------------------------- the methods

  /** `get_length`: what the iterator counts. */
  method Length(s: seq<Unit>, past: int) returns (l: int)
    ensures l == |Pieces(s)|
  {
    hide Pieces, CodePointAt, Next;
    assert s[0..] == s;
    l := 0;
    var offset := 0;
    while offset < |s|
      invariant l + |From(s, offset)| == |Pieces(s)|
      decreases |s| - offset
    {
      StepOver(s, offset, past);
      var c := CodePointAt(s, offset, past);
      offset := offset + 1;
      if c >= MIN_SURROGATE_CODE_POINT {
        offset := offset + 1;
      }
      l := l + 1;
    }
    NoneFrom(s, offset);
  }

  lemma NoneFrom(s: seq<Unit>, offset: nat)
    requires offset >= |s|
    ensures From(s, offset) == []
  {
  }

  method CharCodeAt(s: seq<Unit>, index: int, past: int) returns (r: Option<int>)
    ensures var ps := Pieces(s);
            r == if 0 <= index < |ps| then Some(Value(ps[index], past)) else None
  {
    hide Pieces, From, CodePointAt, Next, Value;
    if index < 0 {
      return None;
    }
    ghost var ps := Pieces(s);
    FromStart(s);
    var unicodeOffset := 0;
    var nativeOffset := 0;
    while nativeOffset < |s|
      invariant 0 <= unicodeOffset <= |ps| && From(s, nativeOffset) == ps[unicodeOffset..]
      invariant unicodeOffset <= index
      decreases |s| - nativeOffset
    {
      StepOver(s, nativeOffset, past);
      var c := CodePointAt(s, nativeOffset, past);
      ghost var next := nativeOffset + if c >= MIN_SURROGATE_CODE_POINT then 2 else 1;
      Suffix(ps, unicodeOffset, s[nativeOffset..Next(s, nativeOffset)], From(s, next));
      nativeOffset := nativeOffset + 1;
      if unicodeOffset == index {
        return Some(c);
      }
      if c >= MIN_SURROGATE_CODE_POINT {
        nativeOffset := nativeOffset + 1;
      }
      unicodeOffset := unicodeOffset + 1;
    }
    NoneFrom(s, nativeOffset);
    r := None;
  }

  lemma FromStart(s: seq<Unit>)
    ensures From(s, 0) == Pieces(s) == Pieces(s)[0..]
  {
    assert s[0..] == s;
  }

  // ---------------------------------------------------------------- substr and substring

  /** Code points `a` to `b`, cut to those there are. */
  function Cut<T>(ks: seq<T>, a: nat, b: int): seq<T>
  {
    var b' := if b > |ks| then |ks| else b;
    if a < b' then ks[a..b'] else []
  }

  /** What the documentation of `substr` says, and for a negative `len` what the code does. */
  function Substr<T>(ks: seq<T>, pos: int, len: Option<int>): seq<T>
  {
    var from := if pos >= 0 then pos else if |ks| + pos >= 0 then |ks| + pos else 0;
    if len.None? then Cut(ks, from, |ks|)
    else Cut(ks, from, from + (if len.value < 0 then |ks| + len.value else len.value))
  }

  /** What the documentation of `substring` says. */
  function Substring<T>(ks: seq<T>, startIndex: int, endIndex: Option<int>): seq<T>
  {
    var a := if startIndex < 0 then 0 else startIndex;
    if endIndex.None? then Cut(ks, a, |ks|)
    else
      var b := if endIndex.value < 0 then 0 else endIndex.value;
      if a <= b then Cut(ks, a, b) else Cut(ks, b, a)
  }

  /** `substr` without a length leaves out what comes before the position, counted from the end if it is
      negative, and nothing else. */
  lemma SubstrToEnd<T>(ks: seq<T>, pos: int)
    ensures 0 <= pos <= |ks| ==> ks[..pos] + Substr(ks, pos, None) == ks
    ensures -|ks| <= pos < 0 ==> ks[..|ks| + pos] + Substr(ks, pos, None) == ks
    ensures pos < -|ks| ==> Substr(ks, pos, None) == ks
    ensures pos > |ks| ==> Substr(ks, pos, None) == []
  {
  }

  /** With a length it is a beginning of that, as long as asked for or else all of it; a negative length
      counts from the length of the whole string, and one below that gives nothing. */
  lemma SubstrOfLength<T>(ks: seq<T>, pos: int, len: int)
    ensures var whole, part := Substr(ks, pos, None), Substr(ks, pos, Some(len));
            && part <= whole
            && (len >= 0 ==> |part| == if len <= |whole| then len else |whole|)
            && (len < 0 && |ks| + len >= 0 ==> part == Substr(ks, pos, Some(|ks| + len)))
            && (|ks| + len < 0 ==> part == [])
  {
  }

  /** `substring` leaves out what comes before the one index and what comes from the other on, in whichever
      order they are given, negative ones taken for 0 and those past the end for the end. */
  lemma SubstringBetween<T>(ks: seq<T>, a: int, b: int)
    ensures 0 <= a <= b <= |ks| ==> ks[..a] + Substring(ks, a, Some(b)) + ks[b..] == ks
    ensures Substring(ks, a, Some(b)) == Substring(ks, b, Some(a))
    ensures a < 0 ==> Substring(ks, a, Some(b)) == Substring(ks, 0, Some(b))
    ensures b > |ks| && a >= 0 ==> Substring(ks, a, Some(b)) == Substring(ks, a, Some(|ks|))
    ensures a >= |ks| && b >= |ks| ==> Substring(ks, a, Some(b)) == []
  {
  }

  /** Without an end it goes to the end. */
  lemma SubstringToEnd<T>(ks: seq<T>, a: int)
    ensures 0 <= a <= |ks| ==> ks[..a] + Substring(ks, a, None) == ks
    ensures a < 0 ==> Substring(ks, a, None) == ks
    ensures a > |ks| ==> Substring(ks, a, None) == []
  {
  }

  /** On well-formed text the slices are those of the code point sequence, so they are well-formed too. */
  lemma SliceText(ks: seq<Scalar>, a: nat, b: int)
    ensures Flat(Cut(Pieces(Text(ks)), a, b)) == Text(Cut(ks, a, b))
  {
    hide Pieces, Flat, Text, Encode;
    PiecesOfText(ks);
    assert Cut(Encodings(ks), a, b) == Encodings(Cut(ks, a, b));
    FlatEncodings(Cut(ks, a, b));
  }

  /** As far as the loop has come: the code points from `pos` on lie between the two offsets. */
  lemma Extends(s: seq<Unit>, ps: seq<seq<Unit>>, pos: nat, k: nat, from: nat, offset: nat, next: nat)
    requires pos <= k < |ps| && from <= offset < next <= |s|
    requires s[from..offset] == Flat(ps[pos..k]) && ps[k] == s[offset..next]
    ensures s[from..next] == Flat(ps[pos..k + 1])
  {
    assert ps[pos..k + 1] == ps[pos..k] + [ps[k]];
    FlatAppend(ps[pos..k], [ps[k]]);
    assert Flat([ps[k]]) == ps[k] + Flat([]);
    assert s[from..next] == s[from..offset] + s[offset..next];
  }

  lemma RestOfString(s: seq<Unit>, offset: nat)
    requires offset <= |s|
    ensures s[offset..] == Flat(From(s, offset))
  {
    FlatPieces(s[offset..]);
  }

  /** The loop that `substr` and `substring` share: from code point `pos` on, at most `len` of them. */
  method Scan(s: seq<Unit>, pos: nat, len: Option<int>, past: int) returns (r: seq<Unit>)
    requires len.Some? ==> len.value > 0
    ensures r == Flat(Cut(Pieces(s), pos, if len.None? then |Pieces(s)| else pos + len.value))
  {
    hide Pieces, From, Flat, CodePointAt, Value, Next, NativeSubstr;
    ghost var ps := Pieces(s);
    FromStart(s);
    NoPieces();
    var unicodeOffset := 0;
    var nativeOffset := 0;
    var fromOffset := -1;
    var subLength := 0;
    while nativeOffset < |s|
      invariant 0 <= unicodeOffset <= |ps| && From(s, nativeOffset) == ps[unicodeOffset..]
      invariant if unicodeOffset <= pos then fromOffset == -1 && subLength == 0
                else
                  && len.Some? && subLength == unicodeOffset - pos < len.value
                  && 0 <= fromOffset < (if nativeOffset < |s| then nativeOffset else |s|)
                  && s[fromOffset..if nativeOffset < |s| then nativeOffset else |s|] == Flat(ps[pos..unicodeOffset])
      decreases |s| - nativeOffset
    {
      StepOver(s, nativeOffset, past);
      var c := CodePointAt(s, nativeOffset, past);
      ghost var next := nativeOffset + if c >= MIN_SURROGATE_CODE_POINT then 2 else 1;
      Suffix(ps, unicodeOffset, s[nativeOffset..Next(s, nativeOffset)], From(s, next));
      if unicodeOffset >= pos {
        if fromOffset < 0 {
          if len.None? {
            RestOfString(s, nativeOffset);
            CutOff(s, nativeOffset, |s|);
            assert ps[pos..|ps|] == ps[pos..];
            return NativeSubstr(s, nativeOffset, None);
          }
          fromOffset := nativeOffset;
          assert ps[pos..unicodeOffset] == [];
        }
        Extends(s, ps, pos, unicodeOffset, fromOffset, nativeOffset, Next(s, nativeOffset));
        subLength := subLength + 1;
        if subLength >= len.value {
          var lastOffset := if c < MIN_SURROGATE_CODE_POINT then nativeOffset else nativeOffset + 1;
          assert lastOffset + 1 == next;
          CutOff(s, fromOffset, next);
          return NativeSubstr(s, fromOffset, Some(lastOffset - fromOffset + 1));
        }
      }
      nativeOffset := nativeOffset + if c >= MIN_SURROGATE_CODE_POINT then 2 else 1;
      unicodeOffset := unicodeOffset + 1;
    }
    NoneFrom(s, nativeOffset);
    if fromOffset >= 0 { CutOff(s, fromOffset, |s|); }
    r := if fromOffset < 0 then [] else NativeSubstr(s, fromOffset, None);
  }

  lemma CutOff(s: seq<Unit>, from: nat, next: nat)
    requires from <= |s| && from <= next
    ensures NativeSubstr(s, from, Some(next - from)) == s[from..if next <= |s| then next else |s|]
    ensures NativeSubstr(s, from, None) == s[from..] == s[from..|s|]
  {
  }

  lemma NoPieces()
    ensures Flat([]) == []
  {
  }

  /** A slice by code points, of any string: whole code points, and those the documentation names. */
  method SubstrUnits(s: seq<Unit>, pos: int, len: Option<int>, past: int) returns (r: seq<Unit>)
    ensures r == Flat(Substr(Pieces(s), pos, len))
  {
    hide Pieces, Flat;
    NoPieces();
    var pos', len' := pos, len;
    if pos < 0 {
      var l := Length(s, past);
      pos' := l + pos;
      if pos' < 0 {
        pos' := 0;
      }
    }
    if len.Some? {
      if len.value < 0 {
        var l := Length(s, past);
        len' := Some(l + len.value);
      }
      if len'.value <= 0 {
        return [];
      }
    }
    r := Scan(s, pos', len', past);
  }

  method SubstringUnits(s: seq<Unit>, startIndex: int, endIndex: Option<int>, past: int) returns (r: seq<Unit>)
    ensures r == Flat(Substring(Pieces(s), startIndex, endIndex))
  {
    hide Pieces, Flat;
    NoPieces();
    var start, end := if startIndex < 0 then 0 else startIndex, endIndex;
    if endIndex.Some? {
      if endIndex.value < 0 {
        end := Some(0);
      }
      if start == end.value {
        return [];
      }
      if start > end.value {
        start, end := end.value, Some(start);
      }
    }
    r := Scan(s, start, if end.None? then None else Some(end.value - start), past);
  }

  /** So on well-formed text they are the slices of the code point sequence. */
  lemma SlicesOfText(ks: seq<Scalar>, a: int, b: Option<int>)
    ensures |Pieces(Text(ks))| == |ks|
    ensures Flat(Substr(Pieces(Text(ks)), a, b)) == Text(Substr(ks, a, b))
    ensures Flat(Substring(Pieces(Text(ks)), a, b)) == Text(Substring(ks, a, b))
  {
    hide Pieces, Flat, Text, Cut;
    PiecesOfText(ks);
    forall x: nat, y: int ensures Flat(Cut(Pieces(Text(ks)), x, y)) == Text(Cut(ks, x, y)) {
      SliceText(ks, x, y);
    }
  }
}
