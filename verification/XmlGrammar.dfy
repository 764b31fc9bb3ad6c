/** The documents that the XML parser accepts, as trees that keep their exact spelling, and the theorem
    that the parser succeeds on exactly their printed forms, with exactly their events. */
module XmlGrammar {
  import opened Wrappers
  import opened XmlMachine
  import opened XmlSteps

  // ---------------------------------------------------------------- characters, spelled out

  predicate IsSmall(c: char)
    ensures IsSmall(c) <==> 'a' <= c <= 'z'
  {
    c in {'a', 'b', 'c', 'd', 'e', 'f', 'g', 'h', 'i', 'j', 'k', 'l', 'm', 'n', 'o', 'p', 'q', 'r', 's', 't', 'u', 'v', 'w', 'x', 'y', 'z'}
  }

  predicate IsCapital(c: char)
    ensures IsCapital(c) <==> 'A' <= c <= 'Z'
  {
    c in {'A', 'B', 'C', 'D', 'E', 'F', 'G', 'H', 'I', 'J', 'K', 'L', 'M', 'N', 'O', 'P', 'Q', 'R', 'S', 'T', 'U', 'V', 'W', 'X', 'Y', 'Z'}
  }

  /** The characters of names; the parser agrees. */
  predicate IsNameChar(c: char)
    ensures IsNameChar(c) <==> IsValidChar(c)
  {
    IsSmall(c) || IsCapital(c) || c in {'0', '1', '2', '3', '4', '5', '6', '7', '8', '9'} || c in {':', '.', '_', '-'}
  }

  /** White space; the parser agrees. */
  predicate IsBlank(c: char)
    ensures IsBlank(c) <==> IsSpace(c)
  {
    c in {' ', '\t', '\r', '\n'}
  }

  function Capital(c: char): (r: char)
    ensures r == if 'a' <= c <= 'z' then (c as int - 32) as char else c
  {
    match c
    case 'a' => 'A' case 'b' => 'B' case 'c' => 'C' case 'd' => 'D' case 'e' => 'E'
    case 'f' => 'F' case 'g' => 'G' case 'h' => 'H' case 'i' => 'I' case 'j' => 'J'
    case 'k' => 'K' case 'l' => 'L' case 'm' => 'M' case 'n' => 'N' case 'o' => 'O'
    case 'p' => 'P' case 'q' => 'Q' case 'r' => 'R' case 's' => 'S' case 't' => 'T'
    case 'u' => 'U' case 'v' => 'V' case 'w' => 'W' case 'x' => 'X' case 'y' => 'Y'
    case 'z' => 'Z'
    case _ => c
  }

  /** The same letter in either case, or the same character; the parser's comparison agrees. */
  predicate SameLetter(a: char, b: char)
    ensures SameLetter(a, b) <==> Lower(a) == Lower(b)
  {
    a == b || Capital(a) == b || a == Capital(b)
  }

  predicate SameName(a: string, b: string)
    ensures SameName(a, b) <==> SameIgnoringCase(a, b)
  {
    |a| == |b| && forall i :: 0 <= i < |a| ==> SameLetter(a[i], b[i])
  }

  predicate AllSpaces(s: string) { forall i :: 0 <= i < |s| ==> IsBlank(s[i]) }

  predicate IsName(s: string) { s != "" && forall i :: 0 <= i < |s| ==> IsNameChar(s[i]) }

  predicate Free(s: string, c: char) { forall i :: 0 <= i < |s| ==> s[i] != c }

  predicate NoThree(s: string, a: char, b: char, d: char)
  {
    forall i :: 0 <= i && i + 2 < |s| ==> !(s[i] == a && s[i + 1] == b && s[i + 2] == d)
  }

  predicate NoHeaderEnd(s: string)
  {
    forall i :: 0 <= i && i + 1 < |s| ==> !(s[i] == '?' && s[i + 1] == '>')
  }

  /** No `>` outside brackets, and as many `]` as `[`, from `n` open brackets on. */
  predicate BracketsClose(s: string, n: int)
  {
    if s == "" then n == 0
    else if s[0] == '[' then BracketsClose(s[1..], n + 1)
    else if s[0] == ']' then BracketsClose(s[1..], n - 1)
    else if s[0] == '>' && n == 0 then false
    else BracketsClose(s[1..], n)
  }

  /** `word`, each letter in either case. */
  predicate IsWord(s: string, word: string)
  {
    SameName(s, word)
  }

  // ---------------------------------------------------------------- trees

  datatype Attr = Attr(name: string, beforeEq: string, afterEq: string, quote: char, value: string, after: string)
  {
    predicate Ok() {
      && IsName(name) && AllSpaces(beforeEq) && AllSpaces(afterEq) && AllSpaces(after)
      && (quote == '"' || quote == '\'') && Free(value, quote)
    }

    function Print(): string {
      name + (beforeEq + ("=" + (afterEq + ([quote] + (value + ([quote] + after))))))
    }
  }

  /** Everything but text; `space` is what may stand behind the `<`. */
  datatype Markup =
    | CDataSection(space: string, keyword: string, text: string)
    | CommentSection(space: string, text: string)
    | DocTypeSection(space: string, keyword: string, text: string)
    | HeaderSection(space: string, text: string)
    | Leaf(space: string, name: string, afterName: string, attrs: seq<Attr>)
    | Element(space: string, name: string, afterName: string, attrs: seq<Attr>, content: Content,
              closeSpace: string, closing: string, afterClosing: string)
  {
    predicate Ok() {
      AllSpaces(space) &&
      match this
      case CDataSection(_, keyword, text) => IsWord(keyword, "CDATA") && NoThree(text, ']', ']', '>')
      case CommentSection(_, text) => NoThree(text, '-', '-', '>')
      case DocTypeSection(_, keyword, text) => IsWord(keyword, "DOCTYPE") && BracketsClose(text, 0)
      case HeaderSection(_, text) => NoHeaderEnd(text)
      case Leaf(_, name, afterName, attrs) => TagOk(name, afterName, attrs)
      case Element(_, name, afterName, attrs, content, closeSpace, closing, afterClosing) =>
        && TagOk(name, afterName, attrs) && content.Ok()
        && AllSpaces(closeSpace) && AllSpaces(afterClosing) && SameName(name, closing)
    }

    /** The text behind the `<`. */
    function Print(): string {
      space +
      match this
      case CDataSection(_, keyword, text) => "![" + (keyword + ("[" + (text + "]]>")))
      case CommentSection(_, text) => "!--" + (text + "-->")
      case DocTypeSection(_, keyword, text) => "!" + (keyword + (text + ">"))
      case HeaderSection(_, text) => "?" + (text + "?>")
      case Leaf(_, name, afterName, attrs) => PrintTag(name, afterName, attrs) + "/>"
      case Element(_, name, afterName, attrs, content, closeSpace, closing, afterClosing) =>
        PrintTag(name, afterName, attrs) + (">" + (content.Print() + ("<" + PrintClose(closeSpace, closing, afterClosing))))
    }

    function Trace(): seq<Event> {
      match this
      case CDataSection(_, _, text) => [CData(text)]
      case CommentSection(_, text) => [Comment(text)]
      case DocTypeSection(_, _, text) => [DocType(text)]
      case HeaderSection(_, text) => [Comment("?" + text + "?")]
      case Leaf(_, name, _, attrs) => [Xml(name, AttribMap(attrs)), Done]
      case Element(_, name, _, attrs, content, _, _, _) =>
        [Xml(name, AttribMap(attrs))] + content.Trace() + ClosingEvents(content.Subs())
    }

    /** Whether the parent counts this as a child. */
    function Subs(): nat {
      if CDataSection? || Leaf? || Element? then 1 else 0
    }
  }

  /** Text, possibly empty, before each markup and at the end. */
  datatype Content = Last(text: string) | Item(text: string, markup: Markup, rest: Content)
  {
    predicate Ok() {
      Free(text, '<') && (Item? ==> markup.Ok() && rest.Ok())
    }

    function Print(): string {
      match this
      case Last(text) => text
      case Item(text, markup, rest) => text + ("<" + (markup.Print() + rest.Print()))
    }

    function Trace(): seq<Event> {
      match this
      case Last(text) => TextEvents(text)
      case Item(text, markup, rest) => TextEvents(text) + markup.Trace() + rest.Trace()
    }

    function Subs(): nat {
      match this
      case Last(text) => TextSubs(text)
      case Item(text, markup, rest) => TextSubs(text) + markup.Subs() + rest.Subs()
    }
  }

  /** What stands before a `![` that opens no CDATA section: complete content, and unclosed tags. */
  datatype Front = Stop(text: string, opening: Opening) | Behind(text: string, markup: Markup, rest: Front)
  {
    predicate Ok() {
      Free(text, '<') &&
      match this
      case Stop(_, opening) => opening.Ok()
      case Behind(_, markup, rest) => markup.Ok() && rest.Ok()
    }

    function Print(): string {
      match this
      case Stop(text, opening) => text + ("<" + opening.Print())
      case Behind(text, markup, rest) => text + ("<" + (markup.Print() + rest.Print()))
    }
  }

  /** Behind the last `<` outside the unclosed tags: the `![` comes next, or within one more tag. */
  datatype Opening =
    | Broken(space: string)
    | Within(space: string, name: string, afterName: string, attrs: seq<Attr>, children: Front)
  {
    predicate Ok() {
      AllSpaces(space) && (Within? ==> TagOk(name, afterName, attrs) && children.Ok())
    }

    function Print(): string {
      match this
      case Broken(space) => space
      case Within(space, name, afterName, attrs, children) =>
        space + (PrintTag(name, afterName, attrs) + (">" + children.Print()))
    }
  }

  predicate TagOk(name: string, afterName: string, attrs: seq<Attr>)
  {
    && IsName(name) && AllSpaces(afterName) && (attrs != [] ==> afterName != "")
    && AttrsOk(attrs, {})
  }

  /** Every attribute is well formed, and no name comes twice or is in `taken`. */
  predicate AttrsOk(attrs: seq<Attr>, taken: set<string>)
  {
    attrs == [] || (attrs[0].Ok() && attrs[0].name !in taken && AttrsOk(attrs[1..], taken + {attrs[0].name}))
  }

  function PrintAttrs(attrs: seq<Attr>): string
  {
    if attrs == [] then "" else attrs[0].Print() + PrintAttrs(attrs[1..])
  }

  function PrintTag(name: string, afterName: string, attrs: seq<Attr>): string
  {
    name + (afterName + PrintAttrs(attrs))
  }

  function PrintClose(closeSpace: string, closing: string, afterClosing: string): string
  {
    closeSpace + ("/" + (closing + (afterClosing + ">")))
  }

  function AttribMap(attrs: seq<Attr>): Attribs
  {
    AddAttribs(map[], attrs)
  }

  function AddAttribs(m: Attribs, attrs: seq<Attr>): Attribs
    decreases |attrs|
  {
    if attrs == [] then m else AddAttribs(m[attrs[0].name := attrs[0].value], attrs[1..])
  }

  // ---------------------------------------------------------------- a string at a position

  ghost predicate Here(xml: string, p: nat, s: string)
  {
    p + |s| <= |xml| && xml[p..p + |s|] == s
  }

  lemma HereAppend(xml: string, p: nat, a: string, b: string)
    ensures Here(xml, p, a + b) <==> Here(xml, p, a) && Here(xml, p + |a|, b)
  {
    if p + |a| + |b| <= |xml| {
      assert xml[p..p + |a + b|] == xml[p..p + |a|] + xml[p + |a|..p + |a| + |b|];
    }
    if Here(xml, p, a + b) {
      assert xml[p..p + |a|] == (a + b)[..|a|] == a;
      assert xml[p + |a|..p + |a| + |b|] == (a + b)[|a|..] == b;
    }
  }

  lemma HereAt(xml: string, p: nat, s: string)
    requires Here(xml, p, s)
    ensures p + |s| <= |xml| && xml[p..p + |s|] == s
    ensures forall i :: 0 <= i < |s| ==> s[i] == xml[p + i]
    ensures forall i :: p <= i < p + |s| ==> xml[i] == s[i - p]
  {
    forall i | 0 <= i < |s|
      ensures s[i] == xml[p + i]
    {
      assert xml[p..p + |s|][i] == xml[p + i];
    }
  }

  lemma SliceHere(xml: string, p: nat, q: nat)
    requires p <= q <= |xml|
    ensures Here(xml, p, xml[p..q]) && |xml[p..q]| == q - p
  {
  }

  lemma CharHere(xml: string, p: nat, c: char)
    ensures Here(xml, p, [c]) <==> p < |xml| && xml[p] == c
  {
    if p < |xml| {
      assert xml[p..p + 1] == [xml[p]];
    }
  }

  lemma SpacesHere(xml: CString, p: nat, s: string)
    requires Here(xml, p, s)
    ensures AllSpaces(s) <==> SpacesAt(xml, p, p + |s|)
  {
    HereAt(xml, p, s);
    if SpacesAt(xml, p, p + |s|) {
      forall i | 0 <= i < |s|
        ensures IsSpace(s[i])
      {
        assert s[i] == xml[p + i];
      }
    }
  }

  lemma NameHere(xml: CString, p: nat, s: string)
    requires Here(xml, p, s)
    ensures IsName(s) <==> NameAt(xml, p, p + |s|) && s != ""
  {
    HereAt(xml, p, s);
    if NameAt(xml, p, p + |s|) {
      forall i | 0 <= i < |s|
        ensures IsValidChar(s[i])
      {
        assert s[i] == xml[p + i];
      }
    }
  }

  lemma FreeHere(xml: CString, p: nat, s: string, c: char)
    requires Here(xml, p, s)
    ensures Free(s, c) <==> FreeOf(xml, p, p + |s|, c)
  {
    HereAt(xml, p, s);
    if FreeOf(xml, p, p + |s|, c) {
      forall i | 0 <= i < |s|
        ensures s[i] != c
      {
        assert s[i] == xml[p + i];
      }
    }
  }

  /** A text followed by its terminator `abd`: the terminator occurs first where it ends. */
  lemma ThreeHere(xml: CString, p: nat, s: string, a: char, b: char, d: char)
    requires Here(xml, p, s + [a, b, d]) && d != a && d != b && b != '\0' && d != '\0'
    ensures NoThree(s, a, b, d) <==> FreeOfThree(xml, p, p + |s|, a, b, d)
    ensures p + |s| < |xml| && Three(xml, p + |s|, a, b, d)
  {
    var t := s + [a, b, d];
    HereAt(xml, p, t);
    assert xml[p + |s|] == t[|s|] && xml[p + |s| + 1] == t[|s| + 1] && xml[p + |s| + 2] == t[|s| + 2];
    if NoThree(s, a, b, d) {
      forall i | p <= i < p + |s|
        ensures !Three(xml, i, a, b, d)
      {
        assert xml[p + (i - p)] == t[i - p] && xml[p + (i - p) + 1] == t[i - p + 1] && xml[p + (i - p) + 2] == t[i - p + 2];
      }
    }
    if FreeOfThree(xml, p, p + |s|, a, b, d) {
      forall i | 0 <= i && i + 2 < |s|
        ensures !(s[i] == a && s[i + 1] == b && s[i + 2] == d)
      {
        assert !Three(xml, p + i, a, b, d);
        assert xml[p + i] == t[i] && xml[p + i + 1] == t[i + 1] && xml[p + i + 2] == t[i + 2];
      }
    }
  }

  lemma HeaderEndHere(xml: CString, p: nat, s: string)
    requires Here(xml, p, s + "?>")
    ensures NoHeaderEnd(s) <==> FreeOfHeaderEnd(xml, p, p + |s|)
    ensures p + |s| + 1 < |xml| && xml[p + |s|] == '?' && At(xml, p + |s| + 1) == '>'
  {
    var t := s + "?>";
    HereAt(xml, p, t);
    assert xml[p + |s|] == t[|s|] && xml[p + |s| + 1] == t[|s| + 1];
    if NoHeaderEnd(s) {
      forall i | p <= i < p + |s|
        ensures !(xml[i] == '?' && At(xml, i + 1) == '>')
      {
        assert xml[p + (i - p)] == t[i - p] && xml[p + (i - p) + 1] == t[i - p + 1];
      }
    }
    if FreeOfHeaderEnd(xml, p, p + |s|) {
      forall i | 0 <= i && i + 1 < |s|
        ensures !(s[i] == '?' && s[i + 1] == '>')
      {
        assert xml[p + i] == t[i] && xml[p + i + 1] == t[i + 1];
      }
    }
  }

  lemma {:induction false} DocTypeHere(xml: CString, p: nat, s: string, n: int)
    requires Here(xml, p, s + ">")
    ensures p + |s| < |xml|
    ensures BracketsClose(s, n) <==> DocTypeEndsAt(xml, p, n, p + |s|)
    decreases |s|
  {
    HereAt(xml, p, s + ">");
    assert xml[p + 0] == (s + ">")[0];
    if s != "" {
      HereAppend(xml, p, [s[0]], s[1..] + ">");
      assert [s[0]] + (s[1..] + ">") == s + ">";
      DocTypeHere(xml, p + 1, s[1..], if s[0] == '[' then n + 1 else if s[0] == ']' then n - 1 else n);
    } else if n != 0 {
      DocTypeEndsLater(xml, p + 1, n, p);
    }
  }

  lemma {:induction false} DocTypeEndsLater(xml: CString, p: nat, n: int, q: nat)
    requires q < p <= |xml|
    ensures !DocTypeEndsAt(xml, p, n, q)
    decreases |xml| - p
  {
    if p < |xml| {
      DocTypeEndsLater(xml, p + 1, n, q);
      DocTypeEndsLater(xml, p + 1, n + 1, q);
      DocTypeEndsLater(xml, p + 1, n - 1, q);
    }
  }

  lemma {:induction false} WordHere(xml: CString, p: nat, s: string, word: string)
    requires Here(xml, p, s) && |s| == |word| && forall c <- word :: 'A' <= c <= 'Z'
    ensures IsWord(s, word) <==> Spells(xml, p, word)
    decreases |s|
  {
    hide Lower, IsWord;
    if s != "" {
      HereAt(xml, p, s);
      assert [s[0]] + s[1..] == s;
      HereAppend(xml, p, [s[0]], s[1..]);
      assert forall c <- word[1..] :: c in word;
      WordHere(xml, p + 1, s[1..], word[1..]);
      assert xml[p + 0] == s[0];
      assert word[0] in word;
      EitherCase(s[0], word[0]);
      WordCons(s, word);
    } else {
      EmptyWord(word);
    }
  }

  lemma EmptyWord(word: string)
    requires word == ""
    ensures IsWord("", word)
  {
  }

  lemma EitherCase(c: char, w: char)
    requires 'A' <= w <= 'Z'
    ensures Lower(c) == Lower(w) <==> c == w || c == Lower(w)
  {
  }

  lemma WordCons(s: string, word: string)
    requires s != "" && |s| == |word|
    ensures IsWord(s, word) <==> Lower(s[0]) == Lower(word[0]) && IsWord(s[1..], word[1..])
  {
    hide Lower;
    if IsWord(s[1..], word[1..]) && Lower(s[0]) == Lower(word[0]) {
      forall i | 0 <= i < |s|
        ensures Lower(s[i]) == Lower(word[i])
      {
        if i > 0 {
          assert s[1..][i - 1] == s[i] && word[1..][i - 1] == word[i];
        }
      }
    }
  }
}
