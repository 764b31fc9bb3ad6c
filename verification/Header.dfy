/** The header words of blocks and their colour bits: libs/objsize/c_objsize.c, lines 26 to 32. */
module Header {
  import opened Rle

  type Word = bv64

  /** `Colornum_hd` */
  function ColorNum(hd: Word): Word
  {
    (hd >> 8) & 3
  }

  /** `Coloredhd_hd`; `Caml_black` is both colour bits. */
  function Colored(hd: Word, num: Word): Word
  {
    (hd & !0x300) | (num << 8)
  }

  lemma PaintedColor(hd: Word, num: Word)
    requires num < 4
    ensures ColorNum(Colored(hd, num)) == num && ColorNum(hd) < 4
  {
  }

  /** Painting keeps the size and the tag. */
  lemma PaintingKeepsTheRest(hd: Word, num: Word)
    requires num < 4
    ensures Colored(hd, num) >> 10 == hd >> 10
    ensures Colored(hd, num) & 0xff == hd & 0xff
  {
  }

  /** Painting the old colour back gives the old header, bit for bit. */
  lemma PaintingBack(hd: Word, num: Word)
    requires num < 4
    ensures Colored(Colored(hd, num), ColorNum(hd)) == hd
  {
  }

  // ---------------------------------------------------------------- colours

  function ColorOf(hd: Word): Color
  {
    var num := ColorNum(hd);
    if num == 0 then WHITE else if num == 1 then GRAY else if num == 2 then BLUE else BLACK
  }

  function NumOf(c: Color): (num: Word)
    ensures num < 4
  {
    if c == WHITE then 0 else if c == GRAY then 1 else if c == BLUE then 2 else 3
  }

  function Painted(hd: Word, c: Color): Word
  {
    Colored(hd, NumOf(c))
  }

  /** The colours as they stand in the header: white 0, gray 0x100, blue 0x200, black 0x300. */
  lemma PaintedBits(hd: Word)
    ensures Painted(hd, 0) == hd & !0x300 && Painted(hd, 1) == (hd & !0x300) | 0x100
    ensures Painted(hd, 2) == (hd & !0x300) | 0x200 && Painted(hd, 3) == (hd & !0x300) | 0x300
  {
    assert NumOf(0) == 0 && NumOf(1) == 1 && NumOf(2) == 2 && NumOf(3) == 3;
    NumberBits(hd);
    hide Colored, NumOf;
  }

  lemma NumberBits(hd: Word)
    ensures Colored(hd, 0) == hd & !0x300 && Colored(hd, 1) == (hd & !0x300) | 0x100
    ensures Colored(hd, 2) == (hd & !0x300) | 0x200 && Colored(hd, 3) == (hd & !0x300) | 0x300
  {
    Shifted(0, 0);
    Shifted(1, 0x100);
    Shifted(2, 0x200);
    Shifted(3, 0x300);
    NothingAdded(hd & !0x300);
  }

  lemma Shifted(num: Word, bits: Word)
    requires num < 4 && bits == num * 0x100
    ensures num << 8 == bits
  {
  }

  lemma NothingAdded(x: Word)
    ensures x | 0 == x
  {
  }

  /** What two painted versions of a header have in common: painted white they are the same. */
  function Rest(hd: Word): Word
  {
    Colored(hd, 0)
  }

  lemma PaintedAs(hd: Word, c: Color)
    ensures ColorOf(Painted(hd, c)) == c && Rest(Painted(hd, c)) == Rest(hd)
  {
    PaintedColor(hd, NumOf(c));
    PaintedOver(hd, NumOf(c), 0);
    hide ColorNum, Colored;
  }

  lemma PaintedOver(hd: Word, num: Word, other: Word)
    requires num < 4 && other < 4
    ensures Colored(Colored(hd, num), other) == Colored(hd, other)
  {
  }

  lemma NumOfColor(hd: Word)
    ensures NumOf(ColorOf(hd)) == ColorNum(hd)
  {
    PaintedColor(hd, 0);
    FourNumbers(ColorNum(hd));
    hide ColorNum, Colored;
  }

  lemma FourNumbers(num: Word)
    requires num < 4
    ensures num == 0 || num == 1 || num == 2 || num == 3
  {
  }

  /** The colour and the rest are the whole word. */
  lemma SameWord(hd: Word, other: Word)
    requires ColorOf(hd) == ColorOf(other) && Rest(hd) == Rest(other)
    ensures hd == other
  {
    hide ColorNum, Colored, ColorOf;
    NumOfColor(hd);
    NumOfColor(other);
    PaintingBack(hd, 0);
    PaintingBack(other, 0);
  }

  // ---------------------------------------------------------------- all headers

  /** The header words have these colours, and these other bits. */
  ghost predicate Show<Id>(header: map<Id, Word>, color: map<Id, Color>, rest: map<Id, Word>)
  {
    && header.Keys == color.Keys == rest.Keys
    && forall b :: b in header ==> ColorOf(header[b]) == color[b] && Rest(header[b]) == rest[b]
  }

  /** So headers that show the same colours and the same rest are the same. */
  lemma SameHeaders<Id>(header: map<Id, Word>, other: map<Id, Word>, color: map<Id, Color>, rest: map<Id, Word>)
    requires Show(header, color, rest) && Show(other, color, rest)
    ensures header == other
  {
    forall b | b in header ensures header[b] == other[b] {
      SameWord(header[b], other[b]);
    }
  }

  /** Painting one header changes its colour and nothing else. */
  lemma ShowPainted<Id>(header: map<Id, Word>, color: map<Id, Color>, rest: map<Id, Word>, b: Id, c: Color)
    requires Show(header, color, rest) && b in header
    ensures Show(header[b := Painted(header[b], c)], color[b := c], rest)
  {
    hide ColorOf, Painted, Rest;
    PaintedAs(header[b], c);
  }

  ghost function ColorsOf<Id>(header: map<Id, Word>): map<Id, Color>
  {
    map b | b in header :: ColorOf(header[b])
  }

  ghost function RestOf<Id>(header: map<Id, Word>): map<Id, Word>
  {
    map b | b in header :: Rest(header[b])
  }
}
