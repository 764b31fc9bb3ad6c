/** The XML parser succeeds on exactly the printed documents of the grammar, with exactly their events. */
module XmlTheorems {
  import opened Sequences
  import opened Wrappers
  import opened XmlMachine
  import opened XmlSteps
  import opened XmlGrammar

  // ---------------------------------------------------------------- attributes

  /** The two spellings of an attribute: as a string, and as positions. */
  lemma AttrParts(xml: CString, p: nat, a: Attr)
    ensures var k1 := p + |a.name|;
            var k2 := k1 + |a.beforeEq|;
            var k3 := k2 + 1 + |a.afterEq|;
            var k4 := k3 + 1 + |a.value|;
            && k4 + 1 + |a.after| == p + |a.Print()|
            && (Here(xml, p, a.Print()) <==>
                && Here(xml, p, a.name) && Here(xml, k1, a.beforeEq) && Here(xml, k2, "=") && Here(xml, k2 + 1, a.afterEq)
                && Here(xml, k3, [a.quote]) && Here(xml, k3 + 1, a.value) && Here(xml, k4, [a.quote]) && Here(xml, k4 + 1, a.after))
  {
    hide Here;
    var t7 := [a.quote] + a.after;
    var t6 := a.value + t7;
    var t5 := [a.quote] + t6;
    var t4 := a.afterEq + t5;
    var t3 := "=" + t4;
    var t2 := a.beforeEq + t3;
    HereAppend(xml, p, a.name, t2);
    HereAppend(xml, p + |a.name|, a.beforeEq, t3);
    HereAppend(xml, p + |a.name| + |a.beforeEq|, "=", t4);
    HereAppend(xml, p + |a.name| + |a.beforeEq| + 1, a.afterEq, t5);
    HereAppend(xml, p + |a.name| + |a.beforeEq| + 1 + |a.afterEq|, [a.quote], t6);
    HereAppend(xml, p + |a.name| + |a.beforeEq| + 1 + |a.afterEq| + 1, a.value, t7);
    HereAppend(xml, p + |a.name| + |a.beforeEq| + 1 + |a.afterEq| + 1 + |a.value|, [a.quote], a.after);
  }

  lemma AcceptAttr(xml: CString, m: Machine, parent: Option<string>, a: Attr) returns (m1: Machine)
    requires Valid(xml, m, parent) && m.state == BODY && a.Ok() && Here(xml, m.p, a.Print()) && a.name !in m.attribs
    requires m.p + |a.Print()| < |xml| && !IsSpace(xml[m.p + |a.Print()|])
    ensures Same(xml, parent, m, m1) && m1.state == BODY && m1.p == m.p + |a.Print()| && m1.nbrackets == m.nbrackets
    ensures m1.events == m.events && m1.nsubs == m.nsubs && m1.nodename == m.nodename
    ensures m1.attribs == m.attribs[a.name := a.value]
  {
    hide Run, Body, Valid, Same, Here, Attr.Ok, Attr.Print, AttrAt;
    AttrStands(xml, m.p, a);
    var k1 := m.p + |a.name|;
    var k2 := k1 + |a.beforeEq|;
    var k3 := k2 + 1 + |a.afterEq|;
    m1 := RunAttr(xml, m, parent, k1, k2, k3, k3 + 1 + |a.value|, m.p + |a.Print()|);
  }

  lemma AttrStands(xml: CString, p: nat, a: Attr)
    requires a.Ok() && Here(xml, p, a.Print())
    requires p + |a.Print()| < |xml| && !IsSpace(xml[p + |a.Print()|])
    ensures var k1 := p + |a.name|;
            var k2 := k1 + |a.beforeEq|;
            var k3 := k2 + 1 + |a.afterEq|;
            var k4 := k3 + 1 + |a.value|;
            && AttrAt(xml, p, k1, k2, k3, k4, p + |a.Print()|)
            && xml[p..k1] == a.name && xml[k3 + 1..k4] == a.value
  {
    hide SpacesAt, NameAt, FreeOf, Attr.Print, IsName, AllSpaces, Free, IsSpace;
    AttrParts(xml, p, a);
    var k1 := p + |a.name|;
    var k2 := k1 + |a.beforeEq|;
    var k3 := k2 + 1 + |a.afterEq|;
    var k4 := k3 + 1 + |a.value|;
    NameHere(xml, p, a.name);
    NameLength(a.name);
    SpacesHere(xml, k1, a.beforeEq);
    CharHere(xml, k2, '=');
    SpacesHere(xml, k2 + 1, a.afterEq);
    CharHere(xml, k3, a.quote);
    FreeHere(xml, k3 + 1, a.value, a.quote);
    CharHere(xml, k4, a.quote);
    SpacesHere(xml, k4 + 1, a.after);
  }

  lemma NameLength(s: string)
    requires IsName(s)
    ensures s != ""
  {
  }

  lemma MakeAttr(xml: CString, p: nat, k1: nat, k2: nat, k3: nat, k4: nat, k5: nat) returns (a: Attr)
    requires AttrAt(xml, p, k1, k2, k3, k4, k5)
    ensures a.Ok() && Here(xml, p, a.Print()) && p + |a.Print()| == k5
    ensures a.name == xml[p..k1] && a.value == xml[k3 + 1..k4]
  {
    hide Here, AttrAt, Attr.Ok, Attr.Print;
    AttrBounds(xml, p, k1, k2, k3, k4, k5);
    a := Attr(xml[p..k1], xml[k1..k2], xml[k2 + 1..k3], xml[k3], xml[k3 + 1..k4], xml[k4 + 1..k5]);
    SliceHere(xml, p, k1);
    SliceHere(xml, k1, k2);
    SliceHere(xml, k2 + 1, k3);
    SliceHere(xml, k3 + 1, k4);
    SliceHere(xml, k4 + 1, k5);
    AttrChars(xml, p, k1, k2, k3, k4, k5);
    AttrParts(xml, p, a);
    MadeAttrOk(xml, p, k1, k2, k3, k4, k5, a);
  }

  lemma AttrChars(xml: CString, p: nat, k1: nat, k2: nat, k3: nat, k4: nat, k5: nat)
    requires AttrAt(xml, p, k1, k2, k3, k4, k5)
    ensures Here(xml, k2, "=") && Here(xml, k3, [xml[k3]]) && Here(xml, k4, [xml[k3]])
  {
    CharHere(xml, k2, '=');
    CharHere(xml, k3, xml[k3]);
    CharHere(xml, k4, xml[k3]);
  }

  lemma MadeAttrOk(xml: CString, p: nat, k1: nat, k2: nat, k3: nat, k4: nat, k5: nat, a: Attr)
    requires AttrAt(xml, p, k1, k2, k3, k4, k5)
    requires a == Attr(xml[p..k1], xml[k1..k2], xml[k2 + 1..k3], xml[k3], xml[k3 + 1..k4], xml[k4 + 1..k5])
    requires Here(xml, p, a.name) && Here(xml, k1, a.beforeEq) && Here(xml, k2 + 1, a.afterEq)
    requires Here(xml, k3 + 1, a.value) && Here(xml, k4 + 1, a.after)
    ensures a.Ok()
  {
    AttrBounds(xml, p, k1, k2, k3, k4, k5);
    hide Here, NameAt, SpacesAt, FreeOf, IsName, AllSpaces, Free, IsSpace;
    NameHere(xml, p, a.name);
    SpacesHere(xml, k1, a.beforeEq);
    SpacesHere(xml, k2 + 1, a.afterEq);
    FreeHere(xml, k3 + 1, a.value, a.quote);
    SpacesHere(xml, k4 + 1, a.after);
  }

  lemma AttrStarts(xml: CString, p: nat, a: Attr)
    requires a.Ok() && Here(xml, p, a.Print())
    ensures p < |xml| && IsValidChar(xml[p])
  {
    AttrParts(xml, p, a);
    NameHere(xml, p, a.name);
  }

  predicate EndsTag(c: char) { c == '/' || c == '>' }

  lemma SameSelf(xml: CString, parent: Option<string>, m: Machine)
    requires Valid(xml, m, parent)
    ensures Same(xml, parent, m, m)
  {
  }

  lemma HereEmpty(xml: string, p: nat)
    requires p <= |xml|
    ensures Here(xml, p, "")
  {
  }

  lemma NoAttrs(taken: Attribs)
    ensures PrintAttrs([]) == "" && AttrsOk([], taken.Keys) && AddAttribs(taken, []) == taken
  {
  }

  lemma ConsAttrs(a: Attr, rest: seq<Attr>, taken: Attribs)
    ensures PrintAttrs([a] + rest) == a.Print() + PrintAttrs(rest)
    ensures AddAttribs(taken, [a] + rest) == AddAttribs(taken[a.name := a.value], rest)
    ensures AttrsOk([a] + rest, taken.Keys) <==>
              a.Ok() && a.name !in taken && AttrsOk(rest, taken[a.name := a.value].Keys)
  {
    assert ([a] + rest)[1..] == rest;
    assert taken[a.name := a.value].Keys == taken.Keys + {a.name};
  }

  lemma AttrsStart(xml: CString, p: nat, attrs: seq<Attr>, taken: set<string>)
    requires AttrsOk(attrs, taken) && Here(xml, p, PrintAttrs(attrs))
    ensures attrs != [] ==> p < |xml| && IsValidChar(xml[p])
  {
    if attrs != [] {
      HereAppend(xml, p, attrs[0].Print(), PrintAttrs(attrs[1..]));
      AttrStarts(xml, p, attrs[0]);
    }
  }

  lemma AttrBounds(xml: CString, p: nat, k1: nat, k2: nat, k3: nat, k4: nat, k5: nat)
    requires AttrAt(xml, p, k1, k2, k3, k4, k5)
    ensures p < k1 <= k2 < k3 < k4 < k5 < |xml|
  {
  }

  lemma {:induction false} AcceptAttrs(xml: CString, m: Machine, parent: Option<string>, attrs: seq<Attr>)
      returns (m1: Machine)
    requires Valid(xml, m, parent) && m.state == BODY && AttrsOk(attrs, m.attribs.Keys)
    requires Here(xml, m.p, PrintAttrs(attrs))
    requires var q := m.p + |PrintAttrs(attrs)|; q < |xml| && EndsTag(xml[q])
    ensures Same(xml, parent, m, m1) && m1.state == BODY && m1.p == m.p + |PrintAttrs(attrs)|
    ensures m1.nbrackets == m.nbrackets && m1.events == m.events && m1.nsubs == m.nsubs && m1.nodename == m.nodename
    ensures m1.attribs == AddAttribs(m.attribs, attrs)
    decreases |attrs|
  {
    hide Run, Body, Valid, Here, Same, Attr.Print, Attr.Ok, PrintAttrs;
    if attrs == [] {
      NoAttrs(m.attribs);
      SameSelf(xml, parent, m);
      m1 := m;
    } else {
      var a, rest := attrs[0], attrs[1..];
      ConsAttrs(a, rest, m.attribs);
      assert [a] + rest == attrs;
      HereAppend(xml, m.p, a.Print(), PrintAttrs(rest));
      AttrsStart(xml, m.p + |a.Print()|, rest, m.attribs[a.name := a.value].Keys);
      NoAttrs(m.attribs);
      assert !IsSpace(xml[m.p + |a.Print()|]);
      var m0 := AcceptAttr(xml, m, parent, a);
      SameValid(xml, parent, m, m0);
      m1 := AcceptAttrs(xml, m0, parent, rest);
      SameTrans(xml, parent, m, m0, m1);
    }
  }

  lemma FindOneAttr(xml: CString, m: Machine, parent: Option<string>) returns (a: Attr, m1: Machine)
    requires Valid(xml, m, parent) && m.state == BODY && m.p < |xml| && !EndsTag(xml[m.p]) && !Fails(xml, m, parent)
    ensures a.Ok() && a.name !in m.attribs && Here(xml, m.p, a.Print()) && m.p < m.p + |a.Print()| == m1.p
    ensures Same(xml, parent, m, m1) && m1.state == BODY && m1.nbrackets == m.nbrackets && m1.events == m.events
    ensures m1.nsubs == m.nsubs && m1.nodename == m.nodename && m1.attribs == m.attribs[a.name := a.value]
  {
    hide Run, Body, Valid, Here, Same, Attr.Print, Attr.Ok, AttrAt;
    var k1, k2, k3, k4, k5 := FindAttr(xml, m, parent);
    AttrBounds(xml, m.p, k1, k2, k3, k4, k5);
    a := MakeAttr(xml, m.p, k1, k2, k3, k4, k5);
    m1 := RunAttr(xml, m, parent, k1, k2, k3, k4, k5);
  }

  lemma {:induction false} FindAttrs(xml: CString, m: Machine, parent: Option<string>)
      returns (attrs: seq<Attr>, m1: Machine)
    requires Valid(xml, m, parent) && m.state == BODY && !Fails(xml, m, parent)
    ensures AttrsOk(attrs, m.attribs.Keys) && Here(xml, m.p, PrintAttrs(attrs))
    ensures Same(xml, parent, m, m1) && m1.state == BODY && m1.p == m.p + |PrintAttrs(attrs)| < |xml|
    ensures EndsTag(xml[m1.p])
    ensures m1.nbrackets == m.nbrackets && m1.events == m.events && m1.nsubs == m.nsubs && m1.nodename == m.nodename
    ensures m1.attribs == AddAttribs(m.attribs, attrs)
    decreases |xml| - m.p
  {
    hide Run, Body, Valid, Here, Same, Attr.Print, Attr.Ok, PrintAttrs;
    EndFails(xml, m, parent);
    ValidBounds(xml, m, parent);
    if EndsTag(xml[m.p]) {
      NoAttrs(m.attribs);
      HereEmpty(xml, m.p);
      SameSelf(xml, parent, m);
      attrs, m1 := [], m;
    } else {
      var a, m0 := FindOneAttr(xml, m, parent);
      SameValid(xml, parent, m, m0);
      SameFails(xml, parent, m, m0);
      var rest;
      rest, m1 := FindAttrs(xml, m0, parent);
      SameTrans(xml, parent, m, m0, m1);
      attrs := [a] + rest;
      ConsAttrs(a, rest, m.attribs);
      HereAppend(xml, m.p, a.Print(), PrintAttrs(rest));
    }
  }

  // ---------------------------------------------------------------- opening tags

  lemma AcceptTag(xml: CString, m: Machine, parent: Option<string>, name: string, afterName: string, attrs: seq<Attr>)
      returns (m1: Machine)
    requires Valid(xml, m, parent) && m.state == BEGIN_NODE && TagOk(name, afterName, attrs)
    requires Here(xml, m.p, PrintTag(name, afterName, attrs))
    requires var q := m.p + |PrintTag(name, afterName, attrs)|; q < |xml| && EndsTag(xml[q])
    ensures Same(xml, parent, m, m1) && m1.state == BODY && m1.p == m.p + |PrintTag(name, afterName, attrs)|
    ensures m1.nbrackets == m.nbrackets && m1.events == m.events && m1.nsubs == m.nsubs
    ensures m1.nodename == name && m1.attribs == AttribMap(attrs)
  {
    hide Run, Body, Valid, Same, Here, PrintAttrs;
    var k := m.p + |name|;
    var j := k + |afterName|;
    HereAppend(xml, m.p, name, afterName + PrintAttrs(attrs));
    HereAppend(xml, k, afterName, PrintAttrs(attrs));
    NameHere(xml, m.p, name);
    SpacesHere(xml, k, afterName);
    AttrsStart(xml, j, attrs, {});
    NoAttrs(map[]);
    assert !IsSpace(xml[j]);
    assert !IsValidChar(xml[k]);
    HereAt(xml, m.p, name);
    var m0 := RunTagName(xml, m, parent, k, j);
    SameValid(xml, parent, m, m0);
    assert m0.attribs.Keys == {};
    m1 := AcceptAttrs(xml, m0, parent, attrs);
    SameTrans(xml, parent, m, m0, m1);
  }

  lemma FindTag(xml: CString, m: Machine, parent: Option<string>)
      returns (name: string, afterName: string, attrs: seq<Attr>, m1: Machine)
    requires Valid(xml, m, parent) && m.state == BEGIN_NODE && m.p < |xml| && !Fails(xml, m, parent)
    requires xml[m.p] != '!' && xml[m.p] != '?' && xml[m.p] != '/'
    ensures TagOk(name, afterName, attrs) && Here(xml, m.p, PrintTag(name, afterName, attrs))
    ensures Same(xml, parent, m, m1) && m1.state == BODY && m1.p == m.p + |PrintTag(name, afterName, attrs)| < |xml|
    ensures EndsTag(xml[m1.p])
    ensures m1.nbrackets == m.nbrackets && m1.events == m.events && m1.nsubs == m.nsubs
    ensures m1.nodename == name && m1.attribs == AttribMap(attrs)
  {
    hide Run, Body, Valid, Same, Here, PrintAttrs;
    var k := FirstNonName(xml, m.p);
    TagNameFound(xml, m, parent, k);
    var j := FirstNonSpace(xml, k);
    var m0 := RunTagName(xml, m, parent, k, j);
    SameValid(xml, parent, m, m0);
    SameFails(xml, parent, m, m0);
    assert m0.attribs.Keys == {};
    attrs, m1 := FindAttrs(xml, m0, parent);
    SameTrans(xml, parent, m, m0, m1);
    name, afterName := xml[m.p..k], xml[k..j];
    SliceHere(xml, m.p, k);
    SliceHere(xml, k, j);
    NameHere(xml, m.p, name);
    SpacesHere(xml, k, afterName);
    HereAppend(xml, k, afterName, PrintAttrs(attrs));
    HereAppend(xml, m.p, name, afterName + PrintAttrs(attrs));
    AttrsStart(xml, j, attrs, {});
  }

  lemma TagNameFound(xml: CString, m: Machine, parent: Option<string>, k: nat)
    requires Valid(xml, m, parent) && m.state == BEGIN_NODE && m.p < |xml| && !Fails(xml, m, parent)
    requires xml[m.p] != '!' && xml[m.p] != '?' && xml[m.p] != '/'
    requires NameAt(xml, m.p, k) && (k < |xml| ==> !IsValidChar(xml[k]))
    ensures m.p < k < |xml|
  {
    hide Run;
    BodyNode(xml, m, parent);
    var m0 := m.(state := TAG_NAME, start := m.p);
    Pass(xml, m, parent, Again(m0));
    ScanName(xml, m0, parent, k);
    if k == m.p {
      Pass(xml, m0, parent, Body(xml, m0, parent));
    }
  }

  /** The end of a childless tag. */
  lemma RunLeafEnd(xml: CString, m: Machine, parent: Option<string>) returns (m1: Machine)
    requires Valid(xml, m, parent) && m.state == BODY && m.p < |xml| && xml[m.p] == '/'
    ensures m1 == m.(state := BEGIN, p := m.p + 2, nsubs := m.nsubs + 1, events := m.events + [Xml(m.nodename, m.attribs), Done])
    ensures if m.p + 1 < |xml| && xml[m.p + 1] == '>' then Same(xml, parent, m, m1) else Fails(xml, m, parent)
  {
    hide Run, Body, Same;
    m1 := m.(state := BEGIN, p := m.p + 2, nsubs := m.nsubs + 1, events := m.events + [Xml(m.nodename, m.attribs), Done]);
    var m0 := Send(m, Xml(m.nodename, m.attribs)).(state := WAIT_END, nsubs := m.nsubs + 1, p := m.p + 1);
    BodyTagEnd(xml, m, parent);
    Pass(xml, m, parent, Advance(m0.(p := m.p)));
    SameValid(xml, parent, m, m0);
    SameFails(xml, parent, m, m0);
    EndFails(xml, m0, parent);
    if m.p + 1 < |xml| {
      BodyWaitEnd(xml, m0, parent);
      assert Send(m0, Done).(state := BEGIN, p := m.p + 2) == m1;
      Pass(xml, m0, parent, Body(xml, m0, parent));
      if xml[m.p + 1] == '>' { SameTrans(xml, parent, m, m0, m1); }
    }
  }

  /** The end of an opening tag. */
  lemma RunOpenEnd(xml: CString, m: Machine, parent: Option<string>) returns (m1: Machine)
    requires Valid(xml, m, parent) && m.state == BODY && m.p < |xml| && xml[m.p] == '>'
    ensures m1 == m.(state := CHILDS, p := m.p + 1, nsubs := m.nsubs + 1, events := m.events + [Xml(m.nodename, m.attribs)])
    ensures Same(xml, parent, m, m1)
    ensures m.p + 1 == |xml| ==> Fails(xml, m, parent)
  {
    hide Run, Body;
    BodyTagEnd(xml, m, parent);
    m1 := m.(state := CHILDS, p := m.p + 1, nsubs := m.nsubs + 1, events := m.events + [Xml(m.nodename, m.attribs)]);
    Pass(xml, m, parent, Advance(m1.(p := m.p)));
    EndFails(xml, m1, parent);
  }

  lemma RunChildren(xml: CString, m: Machine, parent: Option<string>)
    requires Valid(xml, m, parent) && m.state == CHILDS && m.p < |xml|
    ensures Valid(xml, Fresh(m.p, m.events), Some(m.nodename)) && m.nodename != ""
    ensures var inner := Run(xml, Fresh(m.p, m.events), Some(m.nodename));
            if inner.Failed? then Run(xml, m, parent) == inner else Same(xml, parent, m, Resume(m, inner))
  {
    hide Body;
    RunPass(xml, m, parent);
  }

  // ---------------------------------------------------------------- markup, from its text to its run

  lemma CDataHere(xml: CString, p: nat, keyword: string, text: string)
    requires Here(xml, p, "![" + (keyword + ("[" + (text + "]]>")))) && |keyword| == 5
    ensures p + 8 + |text| + 3 <= |xml| && xml[p] == '!' && At(xml, p + 1) == '[' && At(xml, p + 7) == '['
    ensures IsWord(keyword, "CDATA") <==> Spells(xml, p + 2, "CDATA")
    ensures NoThree(text, ']', ']', '>') <==> FreeOfThree(xml, p + 8, p + 8 + |text|, ']', ']', '>')
    ensures Three(xml, p + 8 + |text|, ']', ']', '>') && xml[p + 8..p + 8 + |text|] == text
  {
    hide Here, Spells, IsWord, NoThree, Three, FreeOfThree;
    HereAppend(xml, p, "![", keyword + ("[" + (text + "]]>")));
    HereAppend(xml, p + 2, keyword, "[" + (text + "]]>"));
    HereAppend(xml, p + 7, "[", text + "]]>");
    HereAppend(xml, p + 8, text, "]]>");
    HereAt(xml, p, "![");
    CharHere(xml, p + 7, '[');
    WordHere(xml, p + 2, keyword, "CDATA");
    HereAt(xml, p + 8, text);
    HereAt(xml, p + 8 + |text|, "]]>");
    assert "]]>" == [']', ']', '>'];
    ThreeHere(xml, p + 8, text, ']', ']', '>');
  }

  lemma CommentHere(xml: CString, p: nat, text: string)
    requires Here(xml, p, "!--" + (text + "-->"))
    ensures p + 3 + |text| + 3 <= |xml| && xml[p] == '!' && At(xml, p + 1) == '-' && At(xml, p + 2) == '-'
    ensures NoThree(text, '-', '-', '>') <==> FreeOfThree(xml, p + 3, p + 3 + |text|, '-', '-', '>')
    ensures Three(xml, p + 3 + |text|, '-', '-', '>') && xml[p + 3..p + 3 + |text|] == text
  {
    HereAppend(xml, p, "!--", text + "-->");
    HereAppend(xml, p + 3, text, "-->");
    HereAt(xml, p, "!--");
    assert text + "-->" == text + ['-', '-', '>'];
    ThreeHere(xml, p + 3, text, '-', '-', '>');
  }

  lemma DocTypeSectionHere(xml: CString, p: nat, keyword: string, text: string)
    requires Here(xml, p, "!" + (keyword + (text + ">"))) && |keyword| == 7
    ensures p + 8 + |text| + 1 <= |xml| && xml[p] == '!'
    ensures IsWord(keyword, "DOCTYPE") <==> Spells(xml, p + 1, "DOCTYPE")
    ensures BracketsClose(text, 0) <==> DocTypeEndsAt(xml, p + 8, 0, p + 8 + |text|)
    ensures xml[p + 8..p + 8 + |text|] == text
  {
    hide Here, Spells, IsWord, BracketsClose, DocTypeEndsAt;
    HereAppend(xml, p, "!", keyword + (text + ">"));
    HereAppend(xml, p + 1, keyword, text + ">");
    HereAppend(xml, p + 8, text, ">");
    CharHere(xml, p, '!');
    WordHere(xml, p + 1, keyword, "DOCTYPE");
    HereAt(xml, p + 8, text);
    HereAt(xml, p + 8 + |text|, ">");
    DocTypeHere(xml, p + 8, text, 0);
  }

  lemma SliceOfThree(xml: string, p: nat, n: nat)
    requires p + 2 + n <= |xml|
    ensures xml[p..p + 2 + n] == [xml[p]] + xml[p + 1..p + 1 + n] + [xml[p + 1 + n]]
  {
  }

  lemma HeaderHere(xml: CString, p: nat, text: string)
    requires Here(xml, p, "?" + (text + "?>"))
    ensures p + 1 + |text| + 2 <= |xml| && xml[p] == '?'
    ensures NoHeaderEnd(text) <==> FreeOfHeaderEnd(xml, p + 1, p + 1 + |text|)
    ensures xml[p + 1 + |text|] == '?' && At(xml, p + 2 + |text|) == '>'
    ensures xml[p..p + 2 + |text|] == "?" + text + "?"
  {
    HereAppend(xml, p, "?", text + "?>");
    HereAppend(xml, p + 1, text, "?>");
    CharHere(xml, p, '?');
    HereAt(xml, p + 1, text);
    HeaderEndHere(xml, p + 1, text);
    SliceOfThree(xml, p, |text|);
    assert "?" + text + "?" == ['?'] + text + ['?'];
  }

  lemma AcceptSection(xml: CString, m: Machine, parent: Option<string>, k: Markup, s: nat) returns (m1: Machine)
    requires Valid(xml, m, parent) && m.state == BEGIN_NODE && m.nbrackets == 0 && k.Ok() && !k.Leaf? && !k.Element?
    requires s + |k.space| == m.p && Here(xml, s, k.Print())
    ensures Same(xml, parent, m, m1) && m1.state == BEGIN && m1.p == s + |k.Print()| && m1.nbrackets == 0
    ensures m1.events == m.events + k.Trace() && m1.nsubs == m.nsubs + k.Subs()
  {
    hide Run, Body, Valid, Here, Same, Spells, IsWord, NoThree, BracketsClose, NoHeaderEnd, Three, DocTypeEndsAt;
    var p := m.p;
    match k
    case CDataSection(space, keyword, text) =>
      WordLength(keyword, "CDATA");
      HereAppend(xml, s, space, "![" + (keyword + ("[" + (text + "]]>"))));
      CDataHere(xml, p, keyword, text);
      m1 := RunCData(xml, m, parent, p + 8 + |text|);
    case CommentSection(space, text) =>
      HereAppend(xml, s, space, "!--" + (text + "-->"));
      CommentHere(xml, p, text);
      m1 := RunComment(xml, m, parent, p + 3 + |text|);
    case DocTypeSection(space, keyword, text) =>
      WordLength(keyword, "DOCTYPE");
      HereAppend(xml, s, space, "!" + (keyword + (text + ">")));
      DocTypeSectionHere(xml, p, keyword, text);
      m1 := RunDocType(xml, m, parent, p + 8 + |text|);
    case HeaderSection(space, text) =>
      HereAppend(xml, s, space, "?" + (text + "?>"));
      HeaderHere(xml, p, text);
      m1 := RunHeader(xml, m, parent, p + 1 + |text|);
  }

  lemma WordLength(s: string, word: string)
    requires IsWord(s, word)
    ensures |s| == |word|
  {
  }

  /** The character behind the space is no space. */
  lemma MarkupStarts(xml: CString, p: nat, k: Markup)
    requires k.Ok() && Here(xml, p, k.Print())
    ensures SpacesAt(xml, p, p + |k.space|) && p + |k.space| < |xml|
    ensures !IsSpace(xml[p + |k.space|]) && xml[p + |k.space|] != '/'
  {
    var body := k.Print()[|k.space|..];
    assert k.Print() == k.space + body;
    HereAppend(xml, p, k.space, body);
    SpacesHere(xml, p, k.space);
    HereAt(xml, p + |k.space|, body);
    assert body != "" && xml[p + |k.space| + 0] == body[0];
  }

  lemma AcceptLeaf(xml: CString, m: Machine, parent: Option<string>, k: Markup, s: nat) returns (m1: Machine)
    requires Valid(xml, m, parent) && m.state == BEGIN_NODE && k.Ok() && k.Leaf?
    requires s + |k.space| == m.p && Here(xml, s, k.Print())
    ensures Same(xml, parent, m, m1) && m1.state == BEGIN && m1.p == s + |k.Print()| && m1.nbrackets == m.nbrackets
    ensures m1.events == m.events + k.Trace() && m1.nsubs == m.nsubs + 1
  {
    hide Run, Body, Valid, Here, Same, PrintTag, PrintAttrs, TagOk, AttribMap;
    var tag := PrintTag(k.name, k.afterName, k.attrs);
    HereAppend(xml, s, k.space, tag + "/>");
    HereAppend(xml, m.p, tag, "/>");
    var q := m.p + |tag|;
    HereAt(xml, q, "/>");
    var m0 := AcceptTag(xml, m, parent, k.name, k.afterName, k.attrs);
    SameValid(xml, parent, m, m0);
    m1 := RunLeafEnd(xml, m0, parent);
    SameTrans(xml, parent, m, m0, m1);
  }

  // ---------------------------------------------------------------- printed content is accepted

  lemma CloseHere(xml: CString, p: nat, name: string, closeSpace: string, closing: string, afterClosing: string)
    requires Here(xml, p, PrintClose(closeSpace, closing, afterClosing))
    requires IsName(name) && SameIgnoringCase(name, closing) && AllSpaces(closeSpace) && AllSpaces(afterClosing)
    ensures var s := p + |closeSpace|;
            var j := s + 1 + |closing|;
            var e := j + |afterClosing|;
            && SpacesAt(xml, p, s) && s < |xml| && !IsSpace(xml[s])
            && CloseAt(xml, name, s, j, e) && e + 1 == p + |PrintClose(closeSpace, closing, afterClosing)|
  {
    hide Here;
    var s := p + |closeSpace|;
    HereAppend(xml, p, closeSpace, "/" + (closing + (afterClosing + ">")));
    HereAppend(xml, s, "/", closing + (afterClosing + ">"));
    HereAppend(xml, s + 1, closing, afterClosing + ">");
    HereAppend(xml, s + 1 + |closing|, afterClosing, ">");
    SpacesHere(xml, p, closeSpace);
    CharHere(xml, s, '/');
    HereAt(xml, s + 1, closing);
    SameCaseName(name, closing);
    NameHere(xml, s + 1, closing);
    SpacesHere(xml, s + 1 + |closing|, afterClosing);
    CharHere(xml, s + 1 + |closing| + |afterClosing|, '>');
  }

  lemma SameCaseName(name: string, closing: string)
    requires IsName(name) && SameIgnoringCase(name, closing)
    ensures IsName(closing)
  {
    forall i | 0 <= i < |closing|
      ensures IsValidChar(closing[i])
    {
      assert IsValidChar(name[i]) && Lower(name[i]) == Lower(closing[i]);
    }
  }

  /** Content followed by a `<` leads behind it; content at the end of the document ends the run. */
  lemma {:induction false} AcceptContent(xml: CString, m: Machine, parent: Option<string>, c: Content) returns (m1: Machine)
    requires Valid(xml, m, parent) && m.state == BEGIN && m.nbrackets == 0 && c.Ok() && Here(xml, m.p, c.Print())
    requires var q := m.p + |c.Print()|; q < |xml| ==> xml[q] == '<'
    ensures var q := m.p + |c.Print()|;
            if q < |xml| then
              && Same(xml, parent, m, m1)
              && m1.state == IGNORE_SPACES && m1.next == BEGIN_NODE && m1.p == q + 1 && m1.nbrackets == 0
              && m1.events == m.events + c.Trace() && m1.nsubs == m.nsubs + c.Subs()
            else if parent.None? then
              Run(xml, m, parent) == Finished(m.events + c.Trace() + ClosingEvents(m.nsubs + c.Subs()), |xml|)
            else Fails(xml, m, parent)
    decreases c
  {
    hide Run, Body, Valid, Here, Same, Markup.Ok, Markup.Print, Markup.Trace;
    var q := m.p + |c.text|;
    match c
    case Last(text) =>
      FreeHere(xml, m.p, text, '<');
      HereAt(xml, m.p, text);
      if q < |xml| {
        m1 := RunText(xml, m, parent, q);
      } else {
        assert xml[m.p..] == text;
        RunLastText(xml, m, parent);
        m1 := m;
      }
    case Item(text, k, rest) =>
      ItemHere(xml, m.p, text, k, rest);
      FreeHere(xml, m.p, text, '<');
      HereAt(xml, m.p, text);
      var a := RunText(xml, m, parent, q);
      SameValid(xml, parent, m, a);
      var b := AcceptMarkup(xml, a, parent, k);
      SameValid(xml, parent, a, b);
      SameTrans(xml, parent, m, a, b);
      m1 := AcceptContent(xml, b, parent, rest);
      ThenSame(xml, parent, m, b, m1);
      AssociativeOfFour(m.events, TextEvents(text), k.Trace(), rest.Trace());
  }

  lemma ThenSame(xml: CString, parent: Option<string>, a: Machine, b: Machine, c: Machine)
    requires Same(xml, parent, a, b)
    ensures Run(xml, a, parent) == Run(xml, b, parent)
    ensures Same(xml, parent, b, c) ==> Same(xml, parent, a, c)
  {
  }

  lemma ItemHere(xml: CString, p: nat, text: string, k: Markup, rest: Content)
    ensures Here(xml, p, Item(text, k, rest).Print()) <==>
              && Here(xml, p, text) && p + |text| < |xml| && xml[p + |text|] == '<'
              && Here(xml, p + |text| + 1, k.Print()) && Here(xml, p + |text| + 1 + |k.Print()|, rest.Print())
  {
    hide Here, Markup.Print;
    HereAppend(xml, p, text, "<" + (k.Print() + rest.Print()));
    HereAppend(xml, p + |text|, "<", k.Print() + rest.Print());
    HereAppend(xml, p + |text| + 1, k.Print(), rest.Print());
    CharHere(xml, p + |text|, '<');
  }

  lemma {:induction false} AcceptMarkup(xml: CString, m: Machine, parent: Option<string>, k: Markup) returns (m1: Machine)
    requires Valid(xml, m, parent) && m.state == IGNORE_SPACES && m.next == BEGIN_NODE && m.nbrackets == 0
    requires k.Ok() && Here(xml, m.p, k.Print())
    ensures Same(xml, parent, m, m1) && m1.state == BEGIN && m1.p == m.p + |k.Print()| && m1.nbrackets == 0
    ensures m1.events == m.events + k.Trace() && m1.nsubs == m.nsubs + k.Subs()
    decreases k, 1
  {
    hide Run, Body, Valid, Here, Same, Markup.Ok, Markup.Print, Markup.Trace;
    MarkupStarts(xml, m.p, k);
    var a := RunOpening(xml, m, parent, m.p + |k.space|);
    SameValid(xml, parent, m, a);
    if k.Element? {
      m1 := AcceptElement(xml, a, parent, k, m.p);
    } else if k.Leaf? {
      m1 := AcceptLeaf(xml, a, parent, k, m.p);
    } else {
      m1 := AcceptSection(xml, a, parent, k, m.p);
    }
    SameTrans(xml, parent, m, a, m1);
  }

  lemma ElementHere(xml: CString, s: nat, k: Markup)
    requires k.Element?
    ensures var tag := PrintTag(k.name, k.afterName, k.attrs);
            var close := PrintClose(k.closeSpace, k.closing, k.afterClosing);
            var p := s + |k.space|;
            var q := p + |tag|;
            var r := q + 1 + |k.content.Print()|;
            && r + 1 + |close| == s + |k.Print()|
            && (Here(xml, s, k.Print()) <==>
                && Here(xml, s, k.space) && Here(xml, p, tag) && q < |xml| && xml[q] == '>'
                && Here(xml, q + 1, k.content.Print()) && r < |xml| && xml[r] == '<' && Here(xml, r + 1, close))
  {
    hide Here, PrintTag, PrintClose, Content.Print;
    var tag := PrintTag(k.name, k.afterName, k.attrs);
    var close := PrintClose(k.closeSpace, k.closing, k.afterClosing);
    var p := s + |k.space|;
    var q := p + |tag|;
    var r := q + 1 + |k.content.Print()|;
    HereAppend(xml, s, k.space, tag + (">" + (k.content.Print() + ("<" + close))));
    HereAppend(xml, p, tag, ">" + (k.content.Print() + ("<" + close)));
    HereAppend(xml, q, ">", k.content.Print() + ("<" + close));
    HereAppend(xml, q + 1, k.content.Print(), "<" + close);
    HereAppend(xml, r, "<", close);
    CharHere(xml, q, '>');
    CharHere(xml, r, '<');
  }

  /** The nested activation for an element's children, up to the `>` of its closing tag. */
  lemma {:induction false} AcceptElement(xml: CString, m: Machine, parent: Option<string>, k: Markup, s: nat) returns (m1: Machine)
    requires Valid(xml, m, parent) && m.state == BEGIN_NODE && m.nbrackets == 0 && k.Ok() && k.Element?
    requires s + |k.space| == m.p && Here(xml, s, k.Print())
    ensures Same(xml, parent, m, m1) && m1.state == BEGIN && m1.p == s + |k.Print()| && m1.nbrackets == 0
    ensures m1.events == m.events + k.Trace() && m1.nsubs == m.nsubs + 1
    decreases k, 0
  {
    hide Run, Body, Valid, Here, Same, PrintTag, PrintClose, Content.Print, Content.Trace, Content.Ok, Content.Subs, AttribMap;
    hide SpacesAt, CloseAt, AllSpaces, SameName;
    ElementHere(xml, s, k);
    var a := AcceptTag(xml, m, parent, k.name, k.afterName, k.attrs);
    SameValid(xml, parent, m, a);
    var b := RunOpenEnd(xml, a, parent);
    SameValid(xml, parent, a, b);
    SameTrans(xml, parent, m, a, b);
    RunChildren(xml, b, parent);
    var c := Fresh(b.p, b.events);
    var d := AcceptContent(xml, c, Some(k.name), k.content);
    SameValid(xml, Some(k.name), c, d);
    var r := b.p + |k.content.Print()|;
    CloseHere(xml, r + 1, k.name, k.closeSpace, k.closing, k.afterClosing);
    var t := r + 1 + |k.closeSpace|;
    var e := RunOpening(xml, d, Some(k.name), t);
    SameValid(xml, Some(k.name), d, e);
    RunClose(xml, e, Some(k.name), t + 1 + |k.closing|, t + 1 + |k.closing| + |k.afterClosing|);
    ThenSame(xml, Some(k.name), c, d, e);
    ThenSame(xml, Some(k.name), d, e, e);
    m1 := Resume(b, Run(xml, c, Some(k.name)));
    SameTrans(xml, parent, m, b, m1);
    AssociativeOfFour(m.events, [Xml(k.name, AttribMap(k.attrs))], k.content.Trace(), ClosingEvents(k.content.Subs()));
  }

  // ---------------------------------------------------------------- accepted text is printed content

  /** The one error that is raised two characters behind the start of its pass. */
  ghost predicate BrokenAt(xml: CString, q: nat)
  {
    && q < |xml| && xml[q] == '!' && At(xml, q + 1) == '['
    && !(Spells(xml, q + 2, "CDATA") && At(xml, q + 7) == '[')
  }

  /** The run ends in that error at `q`. */
  predicate BreaksAt(o: Outcome, q: nat)
  {
    o.Failed? && o.head == q && o.p == q + 2
  }

  lemma RunBroken(xml: CString, m: Machine, parent: Option<string>)
    requires Valid(xml, m, parent) && m.state == BEGIN_NODE && BrokenAt(xml, m.p)
    ensures BreaksAt(Run(xml, m, parent), m.p)
  {
    hide Run, Body, Valid, Spells;
    BodyDeclaration(xml, m, parent);
    Pass(xml, m, parent, Body(xml, m, parent));
  }

  lemma DeclarationFails(xml: CString, m: Machine, parent: Option<string>)
    requires Valid(xml, m, parent) && m.state == BEGIN_NODE && m.p < |xml| && xml[m.p] == '!'
    requires !Fails(xml, m, parent) && !BrokenAt(xml, m.p)
    ensures (At(xml, m.p + 1) == '[' && Spells(xml, m.p + 2, "CDATA") && At(xml, m.p + 7) == '[') ||
            Spells(xml, m.p + 1, "DOCTYPE") ||
            (At(xml, m.p + 1) == '-' && At(xml, m.p + 2) == '-')
  {
    hide Run, Body, Valid, Spells;
    BodyDeclaration(xml, m, parent);
    Pass(xml, m, parent, Body(xml, m, parent));
    SpellsCons(xml, m.p + 1);
  }

  lemma SpellsCons(xml: CString, i: nat)
    requires i <= |xml|
    ensures (At(xml, i) == 'D' || At(xml, i) == 'd') && Spells(xml, i + 1, "OCTYPE") ==> Spells(xml, i, "DOCTYPE")
  {
    assert "DOCTYPE"[1..] == "OCTYPE";
  }

  lemma FindCData(xml: CString, m: Machine, parent: Option<string>) returns (keyword: string, text: string)
    requires Valid(xml, m, parent) && m.state == BEGIN_NODE && m.p < |xml| && xml[m.p] == '!'
    requires !Fails(xml, m, parent)
    requires At(xml, m.p + 1) == '[' && Spells(xml, m.p + 2, "CDATA") && At(xml, m.p + 7) == '['
    ensures Here(xml, m.p, "![" + (keyword + ("[" + (text + "]]>"))))
    ensures IsWord(keyword, "CDATA") && NoThree(text, ']', ']', '>')
  {
    hide Run, Body, Valid, Spells, Here, IsWord, NoThree;
    var p := m.p;
    var q := FirstThree(xml, p + 8, ']', ']', '>');
    var m1 := RunCData(xml, m, parent, q);
    keyword, text := xml[p + 2..p + 7], xml[p + 8..q];
    CharHere(xml, p, '!');
    CharHere(xml, p + 1, '[');
    HereAppend(xml, p, "!", "[");
    assert "!" + "[" == "![";
    SliceHere(xml, p + 2, p + 7);
    CharHere(xml, p + 7, '[');
    SliceHere(xml, p + 8, q);
    ThreeIsHere(xml, q, ']', ']', '>');
    assert [']', ']', '>'] == "]]>";
    HereAppend(xml, p + 8, text, "]]>");
    HereAppend(xml, p + 7, "[", text + "]]>");
    HereAppend(xml, p + 2, keyword, "[" + (text + "]]>"));
    HereAppend(xml, p, "![", keyword + ("[" + (text + "]]>")));
    CDataHere(xml, p, keyword, text);
  }

  lemma ThreeIsHere(xml: CString, q: nat, a: char, b: char, d: char)
    requires q < |xml| && b != '\0' && d != '\0' && Three(xml, q, a, b, d)
    ensures Here(xml, q, [a, b, d])
  {
    assert xml[q..q + 3] == [a, b, d];
  }

  lemma FindComment(xml: CString, m: Machine, parent: Option<string>) returns (text: string)
    requires Valid(xml, m, parent) && m.state == BEGIN_NODE && m.p < |xml| && xml[m.p] == '!'
    requires !Fails(xml, m, parent) && At(xml, m.p + 1) == '-' && At(xml, m.p + 2) == '-'
    ensures Here(xml, m.p, "!--" + (text + "-->")) && NoThree(text, '-', '-', '>')
  {
    hide Run, Body, Valid, Here, NoThree;
    var p := m.p;
    var q := FirstThree(xml, p + 3, '-', '-', '>');
    var m1 := RunComment(xml, m, parent, q);
    text := xml[p + 3..q];
    ThreeIsHere(xml, p, '!', '-', '-');
    assert ['!', '-', '-'] == "!--";
    SliceHere(xml, p + 3, q);
    ThreeIsHere(xml, q, '-', '-', '>');
    assert ['-', '-', '>'] == "-->";
    HereAppend(xml, p + 3, text, "-->");
    HereAppend(xml, p, "!--", text + "-->");
    CommentHere(xml, p, text);
  }

  lemma FindDocType(xml: CString, m: Machine, parent: Option<string>) returns (keyword: string, text: string)
    requires Valid(xml, m, parent) && m.state == BEGIN_NODE && m.p < |xml| && xml[m.p] == '!' && m.nbrackets == 0
    requires !Fails(xml, m, parent) && Spells(xml, m.p + 1, "DOCTYPE")
    ensures Here(xml, m.p, "!" + (keyword + (text + ">"))) && IsWord(keyword, "DOCTYPE") && BracketsClose(text, 0)
  {
    hide Run, Body, Valid, Spells, Here, IsWord, BracketsClose, DocTypeEndsAt;
    var p := m.p;
    var q := DocTypeEnd(xml, p + 8, 0);
    var m1 := RunDocType(xml, m, parent, q);
    DocTypeEndChar(xml, p + 8, 0, q);
    keyword, text := xml[p + 1..p + 8], xml[p + 8..q];
    CharHere(xml, p, '!');
    SliceHere(xml, p + 1, p + 8);
    SliceHere(xml, p + 8, q);
    CharHere(xml, q, '>');
    HereAppend(xml, p + 8, text, ">");
    HereAppend(xml, p + 1, keyword, text + ">");
    HereAppend(xml, p, "!", keyword + (text + ">"));
    DocTypeSectionHere(xml, p, keyword, text);
  }

  lemma {:induction false} DocTypeEndChar(xml: CString, p: nat, n: int, q: nat)
    requires p <= |xml| && DocTypeEndsAt(xml, p, n, q)
    ensures p <= q <= |xml| && (q < |xml| ==> xml[q] == '>')
    decreases |xml| - p
  {
    if p < |xml| && !(xml[p] == '>' && n == 0) {
      DocTypeEndChar(xml, p + 1, if xml[p] == '[' then n + 1 else if xml[p] == ']' then n - 1 else n, q);
    }
  }

  lemma FindHeader(xml: CString, m: Machine, parent: Option<string>) returns (text: string)
    requires Valid(xml, m, parent) && m.state == BEGIN_NODE && m.p < |xml| && xml[m.p] == '?'
    requires !Fails(xml, m, parent)
    ensures Here(xml, m.p, "?" + (text + "?>")) && NoHeaderEnd(text)
  {
    hide Run, Body, Valid, Here, NoHeaderEnd;
    var p := m.p;
    var q := FirstHeaderEnd(xml, p + 1);
    var m1 := RunHeader(xml, m, parent, q);
    text := xml[p + 1..q];
    CharHere(xml, p, '?');
    SliceHere(xml, p + 1, q);
    CharHere(xml, q, '?');
    CharHere(xml, q + 1, '>');
    HereAppend(xml, q, "?", ">");
    assert "?" + ">" == "?>";
    HereAppend(xml, p + 1, text, "?>");
    HereAppend(xml, p, "?", text + "?>");
    HeaderHere(xml, p, text);
  }

  /** A run that goes on behind a `<` finds a declaration or header there, ... */
  lemma FindSection(xml: CString, m: Machine, parent: Option<string>, s: nat) returns (k: Markup)
    requires Valid(xml, m, parent) && m.state == BEGIN_NODE && m.p < |xml| && (xml[m.p] == '!' || xml[m.p] == '?')
    requires m.nbrackets == 0 && !Fails(xml, m, parent) && !BrokenAt(xml, m.p) && SpacesAt(xml, s, m.p)
    ensures k.Ok() && Here(xml, s, k.Print())
  {
    hide Run, Body, Valid, Here, Spells, IsWord, NoThree, BracketsClose, NoHeaderEnd;
    var p := m.p;
    var space := xml[s..p];
    SliceHere(xml, s, p);
    SpacesHere(xml, s, space);
    if xml[p] == '?' {
      var text := FindHeader(xml, m, parent);
      k := HeaderSection(space, text);
      HereAppend(xml, s, space, "?" + (text + "?>"));
    } else {
      DeclarationFails(xml, m, parent);
      if At(xml, p + 1) == '[' && Spells(xml, p + 2, "CDATA") && At(xml, p + 7) == '[' {
        var keyword, text := FindCData(xml, m, parent);
        k := CDataSection(space, keyword, text);
        HereAppend(xml, s, space, "![" + (keyword + ("[" + (text + "]]>"))));
      } else if At(xml, p + 1) == '-' && At(xml, p + 2) == '-' {
        var text := FindComment(xml, m, parent);
        k := CommentSection(space, text);
        HereAppend(xml, s, space, "!--" + (text + "-->"));
      } else {
        var keyword, text := FindDocType(xml, m, parent);
        k := DocTypeSection(space, keyword, text);
        HereAppend(xml, s, space, "!" + (keyword + (text + ">")));
      }
    }
  }

  /** ... or a tag with all that belongs to it. */
  lemma {:induction false} FindElement(xml: CString, m: Machine, parent: Option<string>, s: nat)
      returns (k: Markup, f: Option<Opening>)
    requires Valid(xml, m, parent) && m.state == BEGIN_NODE && m.p < |xml| && !Fails(xml, m, parent)
    requires xml[m.p] != '!' && xml[m.p] != '?' && xml[m.p] != '/' && SpacesAt(xml, s, m.p)
    ensures f.None? ==> k.Ok() && Here(xml, s, k.Print())
    ensures f.Some? ==> OpensAt(xml, Run(xml, m, parent), s, f.value)
    decreases |xml| - m.p, 0
  {
    hide Run, Body, Valid, Here, Same, PrintTag, PrintClose, TagOk, AttribMap, Content.Print, Content.Ok, Content.Trace, Content.Subs;
    hide OpensAt, StopsAt;
    f := None;
    var p := m.p;
    var space := xml[s..p];
    SliceHere(xml, s, p);
    SpacesHere(xml, s, space);
    var name, afterName, attrs, a := FindTag(xml, m, parent);
    SameValid(xml, parent, m, a);
    SameFails(xml, parent, m, a);
    TagNames(name, afterName, attrs);
    if xml[a.p] == '/' {
      k := Leaf(space, name, afterName, attrs);
      var b := RunLeafEnd(xml, a, parent);
      CharHere(xml, a.p, '/');
      CharHere(xml, a.p + 1, '>');
      HereAppend(xml, a.p, "/", ">");
      assert "/" + ">" == "/>";
      HereAppend(xml, p, PrintTag(name, afterName, attrs), "/>");
      HereAppend(xml, s, space, PrintTag(name, afterName, attrs) + "/>");
    } else {
      var b := RunOpenEnd(xml, a, parent);
      SameFails(xml, parent, a, b);
      SameValid(xml, parent, a, b);
      ValidBounds(xml, b, parent);
      RunChildren(xml, b, parent);
      var content, t, j, e, g := FindContent(xml, Fresh(b.p, b.events), Some(name));
      if g.Some? {
        k := Leaf(space, name, afterName, attrs);
        f := Some(Within(space, name, afterName, attrs, g.value));
        FrontInside(xml, Run(xml, Fresh(b.p, b.events), Some(name)), s, space, name, afterName, attrs, g.value);
      } else {
        var q := b.p + |content.Print()|;
        var closeSpace, closing, afterClosing := MakeClose(xml, name, q + 1, t, j, e);
        k := Element(space, name, afterName, attrs, content, closeSpace, closing, afterClosing);
        ElementHere(xml, s, k);
      }
    }
  }

  lemma TagNames(name: string, afterName: string, attrs: seq<Attr>)
    requires TagOk(name, afterName, attrs)
    ensures IsName(name) && |PrintTag(name, afterName, attrs)| > 0
  {
  }

  lemma MakeClose(xml: CString, name: string, p: nat, s: nat, j: nat, e: nat)
      returns (closeSpace: string, closing: string, afterClosing: string)
    requires SpacesAt(xml, p, s) && CloseAt(xml, name, s, j, e)
    ensures Here(xml, p, PrintClose(closeSpace, closing, afterClosing))
    ensures AllSpaces(closeSpace) && AllSpaces(afterClosing) && SameIgnoringCase(name, closing)
    ensures e + 1 == p + |PrintClose(closeSpace, closing, afterClosing)|
  {
    hide Here;
    closeSpace, closing, afterClosing := xml[p..s], xml[s + 1..j], xml[j..e];
    SliceHere(xml, p, s);
    SpacesHere(xml, p, closeSpace);
    CharHere(xml, s, '/');
    SliceHere(xml, s + 1, j);
    SliceHere(xml, j, e);
    SpacesHere(xml, j, afterClosing);
    CharHere(xml, e, '>');
    HereAppend(xml, j, afterClosing, ">");
    HereAppend(xml, s + 1, closing, afterClosing + ">");
    HereAppend(xml, s, "/", closing + (afterClosing + ">"));
    HereAppend(xml, p, closeSpace, "/" + (closing + (afterClosing + ">")));
  }

  /** The run breaks behind the front `f` that stands at `p`. */
  ghost predicate StopsAt(xml: CString, o: Outcome, p: nat, f: Front)
  {
    var q := p + |f.Print()|;
    f.Ok() && Here(xml, p, f.Print()) && BrokenAt(xml, q) && BreaksAt(o, q)
  }

  ghost predicate OpensAt(xml: CString, o: Outcome, p: nat, f: Opening)
  {
    var q := p + |f.Print()|;
    f.Ok() && Here(xml, p, f.Print()) && BrokenAt(xml, q) && BreaksAt(o, q)
  }

  lemma WithinHere(xml: CString, p: nat, space: string, name: string, afterName: string, attrs: seq<Attr>, f: Front)
    ensures var tag := PrintTag(name, afterName, attrs);
            var k := Within(space, name, afterName, attrs, f);
            var q := p + |space| + |tag|;
            && p + |k.Print()| == q + 1 + |f.Print()|
            && (Here(xml, p, k.Print()) <==>
                Here(xml, p, space) && Here(xml, p + |space|, tag) && q < |xml| && xml[q] == '>' && Here(xml, q + 1, f.Print()))
  {
    hide Here, PrintTag, Front.Print;
    var tag := PrintTag(name, afterName, attrs);
    HereAppend(xml, p, space, tag + (">" + f.Print()));
    HereAppend(xml, p + |space|, tag, ">" + f.Print());
    HereAppend(xml, p + |space| + |tag|, ">", f.Print());
    CharHere(xml, p + |space| + |tag|, '>');
  }

  lemma FrontInside(xml: CString, o: Outcome, p: nat, space: string, name: string, afterName: string, attrs: seq<Attr>, f: Front)
    requires var q := p + |space| + |PrintTag(name, afterName, attrs)|;
             q < |xml| && xml[q] == '>' && StopsAt(xml, o, q + 1, f)
    requires AllSpaces(space) && TagOk(name, afterName, attrs)
    requires Here(xml, p, space) && Here(xml, p + |space|, PrintTag(name, afterName, attrs))
    ensures o.Failed? && OpensAt(xml, o, p, Within(space, name, afterName, attrs, f))
  {
    hide Here, PrintTag, Front.Print, Front.Ok, TagOk, BrokenAt;
    WithinHere(xml, p, space, name, afterName, attrs, f);
  }

  lemma StopHere(xml: CString, p: nat, text: string, f: Opening)
    ensures p + |Stop(text, f).Print()| == p + |text| + 1 + |f.Print()|
    ensures Here(xml, p, Stop(text, f).Print()) <==>
              Here(xml, p, text) && p + |text| < |xml| && xml[p + |text|] == '<' && Here(xml, p + |text| + 1, f.Print())
  {
    hide Here, Opening.Print;
    HereAppend(xml, p, text, "<" + f.Print());
    HereAppend(xml, p + |text|, "<", f.Print());
    CharHere(xml, p + |text|, '<');
  }

  lemma BehindHere(xml: CString, p: nat, text: string, k: Markup, rest: Front)
    ensures p + |Behind(text, k, rest).Print()| == p + |text| + 1 + |k.Print()| + |rest.Print()|
    ensures Here(xml, p, Behind(text, k, rest).Print()) <==>
              && Here(xml, p, text) && p + |text| < |xml| && xml[p + |text|] == '<'
              && Here(xml, p + |text| + 1, k.Print()) && Here(xml, p + |text| + 1 + |k.Print()|, rest.Print())
  {
    hide Here, Markup.Print, Front.Print;
    BehindPrint(text, k, rest);
    HereAppend(xml, p, text, "<" + (k.Print() + rest.Print()));
    HereAppend(xml, p + |text|, "<", k.Print() + rest.Print());
    HereAppend(xml, p + |text| + 1, k.Print(), rest.Print());
    CharHere(xml, p + |text|, '<');
  }

  lemma BehindPrint(text: string, k: Markup, rest: Front)
    ensures Behind(text, k, rest).Print() == text + ("<" + (k.Print() + rest.Print()))
  {
  }

  /** A run that does not fail at the start of a pass has read content up to the end of the document, or up
      to the closing tag of its parent: behind the `<` at `q` spaces up to `s`, the `/`, the name up to `j`,
      the `>` at `e`. Or else it has read a front and breaks at the `![` behind it. */
  lemma {:induction false} FindContent(xml: CString, m: Machine, parent: Option<string>)
      returns (c: Content, s: nat, j: nat, e: nat, f: Option<Front>)
    requires Valid(xml, m, parent) && m.state == BEGIN && m.nbrackets == 0 && !Fails(xml, m, parent)
    requires parent.Some? ==> IsName(parent.value)
    ensures f.Some? ==> StopsAt(xml, Run(xml, m, parent), m.p, f.value)
    ensures f.None? ==> c.Ok() && Here(xml, m.p, c.Print())
    ensures f.None? ==>
            var q := m.p + |c.Print()|;
            && (if parent.None? then q == e == |xml|
                else q < |xml| && xml[q] == '<' && SpacesAt(xml, q + 1, s) && CloseAt(xml, parent.value, s, j, e))
            && Run(xml, m, parent) == Finished(m.events + c.Trace() + ClosingEvents(m.nsubs + c.Subs()), e)
    decreases |xml| - m.p, 1
  {
    hide Run, Body, Valid, Here, Same, Markup.Ok, Markup.Print, Markup.Trace, CloseAt, OpensAt, StopsAt;
    hide Free, FreeOf, SpacesAt, NameAt, Front.Ok, Front.Print, Opening.Ok, Opening.Print, Markup.Subs, SpacesAt;
    ValidBounds(xml, m, parent);
    f := None;
    var q := FirstOf(xml, m.p, '<');
    var text := xml[m.p..q];
    SliceHere(xml, m.p, q);
    FreeHere(xml, m.p, text, '<');
    if q == |xml| {
      assert xml[m.p..] == text;
      RunLastText(xml, m, parent);
      c, s, j, e := Last(text), 0, 0, |xml|;
    } else {
      var a := RunText(xml, m, parent, q);
      SameValid(xml, parent, m, a);
      SameFails(xml, parent, m, a);
      ThenSame(xml, parent, m, a, a);
      s := FirstNonSpace(xml, q + 1);
      SkipSpaces(xml, a, parent, s);
      var b := RunOpening(xml, a, parent, s);
      SameValid(xml, parent, a, b);
      SameFails(xml, parent, a, b);
      ThenSame(xml, parent, a, b, b);
      if xml[s] == '/' {
        ParentChars(parent);
        j, e := FindClose(xml, b, parent);
        c := Last(text);
      } else {
        var k, opening := FindMarkup(xml, b, parent, q + 1);
        if opening.Some? {
          f, c, j, e := Some(Stop(text, opening.value)), Last(text), 0, 0;
          FrontStops(xml, Run(xml, m, parent), m.p, text, opening.value);
        } else {
          var d := AcceptMarkup(xml, a, parent, k);
          SameValid(xml, parent, a, d);
          SameFails(xml, parent, a, d);
          ThenSame(xml, parent, a, d, d);
          var rest, g;
          rest, s, j, e, g := FindContent(xml, d, parent);
          c := Item(text, k, rest);
          if g.Some? {
            f := Some(Behind(text, k, g.value));
            FrontBehind(xml, Run(xml, m, parent), m.p, text, k, g.value);
          } else {
            ItemHere(xml, m.p, text, k, rest);
            ItemParts(text, k, rest);
            AssociativeOfFour(m.events, TextEvents(text), k.Trace(), rest.Trace());
          }
        }
      }
    }
  }

  lemma FrontStops(xml: CString, o: Outcome, p: nat, text: string, f: Opening)
    requires Free(text, '<') && Here(xml, p, text) && p + |text| < |xml| && xml[p + |text|] == '<'
    requires OpensAt(xml, o, p + |text| + 1, f)
    ensures StopsAt(xml, o, p, Stop(text, f))
  {
    hide Here, Opening.Print, Opening.Ok, BrokenAt, Free;
    StopHere(xml, p, text, f);
  }

  lemma FrontBehind(xml: CString, o: Outcome, p: nat, text: string, k: Markup, f: Front)
    requires Free(text, '<') && Here(xml, p, text) && p + |text| < |xml| && xml[p + |text|] == '<'
    requires k.Ok() && Here(xml, p + |text| + 1, k.Print()) && StopsAt(xml, o, p + |text| + 1 + |k.Print()|, f)
    ensures StopsAt(xml, o, p, Behind(text, k, f))
  {
    hide Here, Front.Print, Markup.Print, Markup.Ok, BrokenAt, Free;
    BehindHere(xml, p, text, k, f);
  }

  lemma ParentChars(parent: Option<string>)
    requires parent.Some? ==> IsName(parent.value)
    ensures parent.Some? ==> forall c <- parent.value :: IsValidChar(c)
  {
  }

  lemma ItemParts(text: string, k: Markup, rest: Content)
    ensures var c := Item(text, k, rest);
            && (c.Ok() <==> Free(text, '<') && k.Ok() && rest.Ok())
            && |c.Print()| == |text| + 1 + |k.Print()| + |rest.Print()|
            && c.Trace() == TextEvents(text) + k.Trace() + rest.Trace()
            && c.Subs() == TextSubs(text) + k.Subs() + rest.Subs()
  {
  }

  lemma {:induction false} FindMarkup(xml: CString, m: Machine, parent: Option<string>, s: nat)
      returns (k: Markup, f: Option<Opening>)
    requires Valid(xml, m, parent) && m.state == BEGIN_NODE && m.p < |xml| && xml[m.p] != '/' && !Fails(xml, m, parent)
    requires m.nbrackets == 0 && SpacesAt(xml, s, m.p)
    ensures f.None? ==> k.Ok() && Here(xml, s, k.Print())
    ensures f.Some? ==> OpensAt(xml, Run(xml, m, parent), s, f.value)
    decreases |xml| - m.p, 1
  {
    hide Run, Body, Valid, Here, Spells;
    if BrokenAt(xml, m.p) {
      RunBroken(xml, m, parent);
      SliceHere(xml, s, m.p);
      SpacesHere(xml, s, xml[s..m.p]);
      k, f := CommentSection("", ""), Some(Broken(xml[s..m.p]));
    } else if xml[m.p] == '!' || xml[m.p] == '?' {
      k := FindSection(xml, m, parent, s);
      f := None;
    } else {
      k, f := FindElement(xml, m, parent, s);
    }
  }

  // ---------------------------------------------------------------- main results

  /** The outcome of `parse_xml`, which skips a byte order mark. */
  function Parse(xml: CString): (o: Outcome)
    ensures BomLength(xml) <= o.p <= |xml|
    ensures o.Failed? ==> BomLength(xml) <= o.head <= o.p
  {
    Run(xml, Fresh(BomLength(xml), []), None)
  }

  /** All events of a document: a document with no text, section or element counts as one empty text. */
  function DocumentTrace(c: Content): seq<Event>
  {
    c.Trace() + ClosingEvents(c.Subs())
  }

  /** Parsing a printed document sends exactly its events. */
  lemma PrintedDocumentParses(xml: CString, c: Content)
    requires c.Ok() && c.Print() == xml[BomLength(xml)..]
    ensures Parse(xml) == Finished(DocumentTrace(c), |xml|)
  {
    hide Content.Ok, Content.Print, Run;
    var m := Fresh(BomLength(xml), []);
    assert xml[m.p..m.p + |c.Print()|] == c.Print();
    var m1 := AcceptContent(xml, m, None, c);
    assert [] + c.Trace() + ClosingEvents(c.Subs()) == DocumentTrace(c);
  }

  /** The parser returns normally on exactly the printed documents. */
  lemma ParsesExactlyTheDocuments(xml: CString)
    ensures Parse(xml).Finished? <==> exists c: Content :: c.Ok() && c.Print() == xml[BomLength(xml)..]
  {
    hide Content.Ok, Content.Print, Run;
    if Parse(xml).Finished? {
      var c, s, j, e, f := FindContent(xml, Fresh(BomLength(xml), []), None);
      assert xml[BomLength(xml)..] == c.Print();
    }
    if exists c: Content :: c.Ok() && c.Print() == xml[BomLength(xml)..] {
      var c: Content :| c.Ok() && c.Print() == xml[BomLength(xml)..];
      PrintedDocumentParses(xml, c);
    }
  }

  /** A nested activation that returns has read content and the closing tag of its parent, whose `>` it
      stops at. */
  lemma NestedStopsAtClosingTag(xml: CString, p: nat, events: seq<Event>, name: string)
      returns (c: Content, s: nat, j: nat)
    requires p <= |xml| && IsName(name) && Run(xml, Fresh(p, events), Some(name)).Finished?
    ensures var o := Run(xml, Fresh(p, events), Some(name));
            && c.Ok() && Here(xml, p, c.Print()) && Here(xml, p + |c.Print()|, "<")
            && SpacesAt(xml, p + |c.Print()| + 1, s) && CloseAt(xml, name, s, j, o.p)
            && o.events == events + c.Trace() + ClosingEvents(c.Subs())
  {
    hide Content.Ok, Content.Print, Run;
    var e, f;
    c, s, j, e, f := FindContent(xml, Fresh(p, events), Some(name));
    CharHere(xml, p + |c.Print()|, '<');
  }

  // ---------------------------------------------------------------- done()

  function Xmls(es: seq<Event>): nat
  {
    if es == [] then 0 else (if es[0].Xml? then 1 else 0) + Xmls(es[1..])
  }

  function Dones(es: seq<Event>): nat
  {
    if es == [] then 0 else (if es[0].Done? then 1 else 0) + Dones(es[1..])
  }

  lemma {:induction false} CountsAppend(es: seq<Event>, fs: seq<Event>)
    ensures Xmls(es + fs) == Xmls(es) + Xmls(fs) && Dones(es + fs) == Dones(es) + Dones(fs)
  {
    if es == [] {
      assert es + fs == fs;
    } else {
      CountsAppend(es[1..], fs);
      assert (es + fs)[1..] == es[1..] + fs;
    }
  }

  /** How many childless tags, and how many elements with a closing tag, a document has. */
  function Leaves(c: Content): nat
  {
    if c.Last? then 0
    else (if c.markup.Leaf? then 1 else if c.markup.Element? then Leaves(c.markup.content) else 0) + Leaves(c.rest)
  }

  function Elements(c: Content): nat
  {
    if c.Last? then 0
    else (if c.markup.Element? then 1 + Elements(c.markup.content) else 0) + Elements(c.rest)
  }

  lemma CountsOne(e: Event)
    ensures Xmls([e]) == (if e.Xml? then 1 else 0) && Dones([e]) == (if e.Done? then 1 else 0)
  {
    assert [e][1..] == [];
  }

  lemma CountsOfText(text: string, nsubs: nat)
    ensures Xmls(TextEvents(text)) == 0 && Dones(TextEvents(text)) == 0
    ensures Xmls(ClosingEvents(nsubs)) == 0 && Dones(ClosingEvents(nsubs)) == 0
  {
    CountsOne(PCData(text));
    CountsOne(PCData(""));
  }

  /** `done()` is sent for childless tags only, `xml()` for every tag. */
  lemma {:induction false} TagEvents(c: Content)
    ensures Dones(c.Trace()) == Leaves(c) && Xmls(c.Trace()) == Leaves(c) + Elements(c)
    decreases c, 1
  {
    hide Xmls, Dones, AttribMap, Markup.Trace;
    CountsOfText(c.text, 0);
    if c.Item? {
      TagEvents(c.rest);
      MarkupEvents(c.markup);
      CountsAppend(TextEvents(c.text), c.markup.Trace());
      CountsAppend(TextEvents(c.text) + c.markup.Trace(), c.rest.Trace());
    }
  }

  lemma {:induction false} MarkupEvents(k: Markup)
    ensures Dones(k.Trace()) == if k.Leaf? then 1 else if k.Element? then Leaves(k.content) else 0
    ensures Xmls(k.Trace()) == if k.Leaf? then 1 else if k.Element? then Leaves(k.content) + 1 + Elements(k.content) else 0
    decreases k, 0
  {
    hide Xmls, Dones, AttribMap;
    if k.Element? {
      var open := Xml(k.name, AttribMap(k.attrs));
      TagEvents(k.content);
      CountsOne(open);
      CountsOfText("", k.content.Subs());
      CountsAppend([open], k.content.Trace());
      CountsAppend([open] + k.content.Trace(), ClosingEvents(k.content.Subs()));
    } else if k.Leaf? {
      var open := Xml(k.name, AttribMap(k.attrs));
      CountsOne(open);
      CountsOne(Done);
      CountsAppend([open], [Done]);
      assert [open] + [Done] == [open, Done];
    } else {
      CountsOne(k.Trace()[0]);
    }
  }

  /** So "`done()` when a node is closed" holds exactly for documents without closing tags. */
  lemma DoneForEveryNodeIff(xml: CString, c: Content)
    requires c.Ok() && c.Print() == xml[BomLength(xml)..]
    ensures Dones(Parse(xml).events) == Xmls(Parse(xml).events) <==> Elements(c) == 0
  {
    hide Xmls, Dones, Content.Ok, Content.Print, Content.Trace, Parse;
    PrintedDocumentParses(xml, c);
    TagEvents(c);
    CountsOfText("", c.Subs());
    CountsAppend(c.Trace(), ClosingEvents(c.Subs()));
  }

  /** The smallest document for which it does not. */
  lemma DoneMissing(xml: CString)
    requires xml == "<a></a>"
    ensures Parse(xml) == Finished([Xml("a", map[]), PCData("")], 7)
  {
    hide Parse, Run, Body;
    NoBom(xml);
    var inside := Last("");
    var k := Element("", "a", "", [], inside, "", "a", "");
    var c := Item("", k, Last(""));
    assert IsName("a") && SameIgnoringCase("a", "a");
    assert k.Print() == "a></a>";
    assert c.Print() == "<a></a>" == xml[0..];
    assert inside.Ok() && k.Ok() && c.Ok();
    PrintedDocumentParses(xml, c);
    assert AttribMap([]) == map[];
    assert k.Trace() == [Xml("a", map[])] + [] + [PCData("")];
    assert c.Trace() == [Xml("a", map[]), PCData("")];
    assert c.Subs() == 1;
  }

  lemma NoBom(xml: CString)
    requires xml != "" && xml[0] != BOM[0]
    ensures BomLength(xml) == 0
  {
  }

  // ---------------------------------------------------------------- where an error is raised

  /** A front leads to the `![` behind it, and the run ends there. */
  lemma {:induction false} AcceptFront(xml: CString, m: Machine, parent: Option<string>, f: Front)
    requires Valid(xml, m, parent) && m.state == BEGIN && m.nbrackets == 0
    requires f.Ok() && Here(xml, m.p, f.Print()) && BrokenAt(xml, m.p + |f.Print()|)
    ensures BreaksAt(Run(xml, m, parent), m.p + |f.Print()|)
    decreases f
  {
    hide Run, Body, Valid, Here, Same, BrokenAt, Markup.Ok, Markup.Print, Markup.Trace, Opening.Ok, Opening.Print;
    var q := m.p + |f.text|;
    match f
    case Stop(text, opening) =>
      StopHere(xml, m.p, text, opening);
      FreeHere(xml, m.p, text, '<');
      HereAt(xml, m.p, text);
      var a := RunText(xml, m, parent, q);
      SameValid(xml, parent, m, a);
      SameFails(xml, parent, m, a);
      AcceptOpening(xml, a, parent, opening);
    case Behind(text, k, rest) =>
      BehindHere(xml, m.p, text, k, rest);
      FreeHere(xml, m.p, text, '<');
      HereAt(xml, m.p, text);
      var a := RunText(xml, m, parent, q);
      SameValid(xml, parent, m, a);
      var b := AcceptMarkup(xml, a, parent, k);
      SameValid(xml, parent, a, b);
      SameTrans(xml, parent, m, a, b);
      SameFails(xml, parent, m, b);
      AcceptFront(xml, b, parent, rest);
  }

  lemma {:induction false} AcceptOpening(xml: CString, m: Machine, parent: Option<string>, f: Opening)
    requires Valid(xml, m, parent) && m.state == IGNORE_SPACES && m.next == BEGIN_NODE && m.nbrackets == 0
    requires f.Ok() && Here(xml, m.p, f.Print()) && BrokenAt(xml, m.p + |f.Print()|)
    ensures BreaksAt(Run(xml, m, parent), m.p + |f.Print()|)
    decreases f
  {
    hide Run, Body, Valid, Here, Same, BrokenAt, TagOk, PrintTag, Front.Ok, Front.Print, AttribMap, SpacesAt, AllSpaces;
    match f
    case Broken(space) =>
      SpacesHere(xml, m.p, space);
      var a := OpenDeclaration(xml, m, parent, m.p + |space|);
      RunBroken(xml, a, parent);
    case Within(space, name, afterName, attrs, children) =>
      BrokenInside(xml, m.p + |f.Print()|);
      var tag := PrintTag(name, afterName, attrs);
      WithinHere(xml, m.p, space, name, afterName, attrs, children);
      SpacesHere(xml, m.p, space);
      TagStarts(xml, m.p + |space|, name, afterName, attrs);
      var a := RunOpening(xml, m, parent, m.p + |space|);
      SameValid(xml, parent, m, a);
      var b := AcceptTag(xml, a, parent, name, afterName, attrs);
      SameValid(xml, parent, a, b);
      var c := RunOpenEnd(xml, b, parent);
      SameValid(xml, parent, b, c);
      SameTrans(xml, parent, m, a, b);
      SameTrans(xml, parent, m, b, c);
      SameFails(xml, parent, m, c);
      RunChildren(xml, c, parent);
      AcceptFront(xml, Fresh(c.p, c.events), Some(name), children);
  }

  lemma OpenDeclaration(xml: CString, m: Machine, parent: Option<string>, k: nat) returns (a: Machine)
    requires Valid(xml, m, parent) && m.state == IGNORE_SPACES && m.next == BEGIN_NODE
    requires SpacesAt(xml, m.p, k) && BrokenAt(xml, k)
    ensures Valid(xml, a, parent) && a.state == BEGIN_NODE && a.p == k && Run(xml, m, parent) == Run(xml, a, parent)
  {
    hide Run, Body, Valid, Spells;
    a := RunOpening(xml, m, parent, k);
  }

  lemma TagStarts(xml: CString, p: nat, name: string, afterName: string, attrs: seq<Attr>)
    requires TagOk(name, afterName, attrs) && Here(xml, p, PrintTag(name, afterName, attrs))
    ensures p < |xml| && !IsSpace(xml[p])
  {
    HereAppend(xml, p, name, afterName + PrintAttrs(attrs));
    NameHere(xml, p, name);
  }

  lemma BrokenInside(xml: CString, q: nat)
    requires BrokenAt(xml, q)
    ensures q + 1 < |xml|
  {
  }

  /** The parser breaks at a `![` exactly behind a front. */
  lemma BreaksBehindFronts(xml: CString, q: nat)
    ensures BreaksAt(Parse(xml), q) <==>
            exists f: Front :: f.Ok() && Here(xml, BomLength(xml), f.Print()) && q == BomLength(xml) + |f.Print()| && BrokenAt(xml, q)
  {
    hide Run, Here, BrokenAt, Front.Ok, Front.Print;
    var m := Fresh(BomLength(xml), []);
    if BreaksAt(Parse(xml), q) {
      var c, s, j, e, f := FindContent(xml, m, None);
      assert f.value.Ok() && Here(xml, BomLength(xml), f.value.Print()) && q == BomLength(xml) + |f.value.Print()|;
    }
    forall f: Front | f.Ok() && Here(xml, BomLength(xml), f.Print()) && q == BomLength(xml) + |f.Print()| && BrokenAt(xml, q)
      ensures BreaksAt(Parse(xml), q)
    {
      AcceptFront(xml, m, None, f);
    }
  }

  /** An error is raised at the start of the pass that finds it, or two characters later, behind a `![`. */
  lemma {:induction false} FailurePoint(xml: CString, m: Machine, parent: Option<string>)
    requires Valid(xml, m, parent) && Run(xml, m, parent).Failed?
    ensures var o := Run(xml, m, parent);
            o.p == o.head || (o.p == o.head + 2 <= |xml| && xml[o.head] == '!' && xml[o.head + 1] == '[')
    decreases |xml| - m.p, Rank(m), 1
  {
    hide Run, Body, Valid, Rank;
    ValidBounds(xml, m, parent);
    if m.p == |xml| {
      EndPoint(xml, m, parent);
    } else if m.state == CHILDS {
      ChildrenFailurePoint(xml, m, parent);
    } else {
      StepPoint(xml, m, parent);
      RunPass(xml, m, parent);
      var s := Body(xml, m, parent);
      if s.Again? {
        FailurePoint(xml, s.m, parent);
      } else if s.Advance? {
        FailurePoint(xml, s.m.(p := s.m.p + 1), parent);
      }
    }
  }

  lemma {:induction false} ChildrenFailurePoint(xml: CString, m: Machine, parent: Option<string>)
    requires Valid(xml, m, parent) && Run(xml, m, parent).Failed? && m.p < |xml| && m.state == CHILDS
    ensures var o := Run(xml, m, parent);
            o.p == o.head || (o.p == o.head + 2 <= |xml| && xml[o.head] == '!' && xml[o.head + 1] == '[')
    decreases |xml| - m.p, Rank(m), 0
  {
    hide Run, Body, Valid;
    RunPass(xml, m, parent);
    RunChildren(xml, m, parent);
    var c := Fresh(m.p, m.events);
    var inner := Run(xml, c, Some(m.nodename));
    if inner.Failed? {
      FailurePoint(xml, c, Some(m.nodename));
    } else {
      NestedBounds(xml, m);
      FailurePoint(xml, Resume(m, inner), parent);
    }
  }

  lemma NestedBounds(xml: CString, m: Machine)
    requires Valid(xml, Fresh(m.p, m.events), Some(m.nodename))
    ensures var inner := Run(xml, Fresh(m.p, m.events), Some(m.nodename)); inner.Finished? ==> m.p <= inner.p < |xml|
  {
  }

  lemma EndPoint(xml: CString, m: Machine, parent: Option<string>)
    requires Valid(xml, m, parent) && m.p == |xml| && Run(xml, m, parent).Failed?
    ensures Run(xml, m, parent).p == Run(xml, m, parent).head
  {
  }

  lemma StepPoint(xml: CString, m: Machine, parent: Option<string>)
    requires Valid(xml, m, parent) && m.p < |xml|
    ensures var s := Body(xml, m, parent);
            s.Error? ==> s.m.p == m.p || (s.m.p == m.p + 2 <= |xml| && xml[m.p] == '!' && xml[m.p + 1] == '[')
  {
    hide Spells;
  }

  // ---------------------------------------------------------------- the line an error names

  function CountNewlines(s: string): nat
  {
    if s == "" then 0 else (if s[0] == '\n' then 1 else 0) + CountNewlines(s[1..])
  }

  /** The newlines from the first parsed character up to and including position `p`. */
  function TrueLine(xml: CString, p: nat): nat
    requires BomLength(xml) <= p <= |xml|
  {
    CountNewlines(xml[BomLength(xml)..if p < |xml| then p + 1 else p])
  }

  /** `*line` when `parse_xml` has ended, as the contract of `ParseXml` gives it. */
  function ReportedLine(xml: CString): nat
  {
    var o := Parse(xml);
    Newlines(xml, BomLength(xml), if o.Finished? then o.p else o.head)
  }

  lemma {:induction false} CountSnoc(s: string, c: char)
    ensures CountNewlines(s + [c]) == CountNewlines(s) + if c == '\n' then 1 else 0
  {
    if s == "" {
      assert [c][1..] == "";
    } else {
      CountSnoc(s[1..], c);
      assert (s + [c])[1..] == s[1..] + [c];
    }
  }

  lemma {:induction false} NewlinesCounted(xml: CString, p: nat)
    requires BomLength(xml) <= p <= |xml|
    ensures TrueLine(xml, p) == Newlines(xml, BomLength(xml), p) + if At(xml, BomLength(xml)) == '\n' then 1 else 0
    decreases p
  {
    var b := BomLength(xml);
    if p == b {
      if p < |xml| {
        assert xml[b..p + 1] == [xml[p]] && [xml[p]][1..] == "";
      }
    } else {
      NewlinesCounted(xml, p - 1);
      if p < |xml| {
        CountSnoc(xml[b..p], xml[p]);
        assert xml[b..p + 1] == xml[b..p] + [xml[p]];
      }
    }
  }

  /** A `![` with a newline right behind it, at a place where markup begins. */
  ghost predicate NewlineInOpening(xml: CString)
  {
    exists f: Front :: f.Ok() && Here(xml, BomLength(xml), f.Print() + "![\n")
  }

  lemma OpeningHere(xml: CString, p: nat, f: Front)
    ensures var q := p + |f.Print()|;
            Here(xml, p, f.Print() + "![\n") <==> Here(xml, p, f.Print()) && BrokenAt(xml, q) && At(xml, q + 2) == '\n'
  {
    hide Front.Print;
    var q := p + |f.Print()|;
    HereAppend(xml, p, f.Print(), "![\n");
    if Here(xml, q, "![\n") { HereAt(xml, q, "![\n"); }
    if BrokenAt(xml, q) && At(xml, q + 2) == '\n' {
      assert xml[q..q + 3] == "![\n";
    }
  }

  /** The parser is two characters on when it ends exactly if ... */
  lemma LandsOnNewlineIff(xml: CString)
    ensures var o := Parse(xml);
            o.Failed? && o.p != o.head && At(xml, o.p) == '\n' <==> NewlineInOpening(xml)
  {
    hide Run, Here, BrokenAt, Front.Ok, Front.Print, Parse;
    var o, b := Parse(xml), BomLength(xml);
    if o.Failed? && o.p != o.head && At(xml, o.p) == '\n' {
      ParseFailure(xml);
      BreaksBehindFronts(xml, o.head);
      var f: Front :| f.Ok() && Here(xml, b, f.Print()) && o.head == b + |f.Print()| && BrokenAt(xml, o.head);
      OpeningHere(xml, b, f);
    }
    forall f: Front | f.Ok() && Here(xml, b, f.Print() + "![\n")
      ensures o.Failed? && o.p != o.head && At(xml, o.p) == '\n'
    {
      OpeningHere(xml, b, f);
      BreaksBehindFronts(xml, b + |f.Print()|);
    }
  }

  lemma ParseFailure(xml: CString)
    requires Parse(xml).Failed?
    ensures var o := Parse(xml); o.p != o.head ==> BreaksAt(o, o.head)
  {
    hide Run;
    FailurePoint(xml, Fresh(BomLength(xml), []), None);
  }

  /** Whatever the text and however the parser ends, `*line` misses a newline that is the first parsed
      character, a newline right behind the `![` of an opening that is no CDATA section, and no other. */
  lemma LineMisses(xml: CString)
    ensures BomLength(xml) <= Parse(xml).p <= |xml|
    ensures TrueLine(xml, Parse(xml).p) == ReportedLine(xml)
              + (if At(xml, BomLength(xml)) == '\n' then 1 else 0) + (if NewlineInOpening(xml) then 1 else 0)
  {
    hide Run, Parse, Newlines, NewlineInOpening, TrueLine;
    LandsOnNewlineIff(xml);
    var o, b := Parse(xml), BomLength(xml);
    NewlinesCounted(xml, o.p);
    if o.Failed? && o.p != o.head {
      ParseFailure(xml);
      BreaksBehindFronts(xml, o.head);
      BrokenInside(xml, o.head);
      OneNewline(xml, b, o.head + 1);
      OneNewline(xml, b, o.head + 2);
    }
  }

  /** So the line is right exactly for the texts with neither. */
  lemma LineIsRightIff(xml: CString)
    ensures BomLength(xml) <= Parse(xml).p <= |xml|
    ensures ReportedLine(xml) == TrueLine(xml, Parse(xml).p) <==>
            At(xml, BomLength(xml)) != '\n' && !NewlineInOpening(xml)
  {
    hide Parse, ReportedLine, TrueLine, NewlineInOpening;
    LineMisses(xml);
  }

  /** A check that is enough: no newline first, and `![` never before a newline. */
  lemma LineIsRight(xml: CString)
    requires At(xml, BomLength(xml)) != '\n' && forall i: nat :: !Here(xml, i, "![\n")
    ensures ReportedLine(xml) == TrueLine(xml, Parse(xml).p)
  {
    hide Parse, ReportedLine, TrueLine, Front.Print, Front.Ok, Here;
    forall f: Front ensures !Here(xml, BomLength(xml), f.Print() + "![\n") {
      HereAppend(xml, BomLength(xml), f.Print(), "![\n");
    }
    LineIsRightIff(xml);
  }

  /** A newline first: the error is on the second line, one newline down, and is reported with none. */
  lemma LeadingNewlineMissed(xml: CString)
    requires xml == "\n<a"
    ensures Parse(xml).Failed? && Parse(xml).p == 3 && TrueLine(xml, 3) == 1 && ReportedLine(xml) == 0
  {
    hide Run, Body, NewlineInOpening, Newlines;
    NoBom(xml);
    var m := Fresh(0, []);
    var a := RunText(xml, m, None, 1);
    SameFails(xml, None, m, a);
    var b := RunOpening(xml, a, None, 2);
    SameFails(xml, None, a, b);
    BodyNode(xml, b, None);
    var c := b.(state := TAG_NAME, start := 2);
    Pass(xml, b, None, Again(c));
    SameFails(xml, None, b, c);
    ScanName(xml, c, None, 3);
    SameFails(xml, None, c, c.(p := 3));
    RunEnd(xml, c.(p := 3), None);
    OneNewline(xml, 0, 1);
    OneNewline(xml, 0, 2);
    OneNewline(xml, 0, 3);
    NewlinesCounted(xml, 3);
  }

  /** A broken opening: the error is behind a newline and is reported without it. */
  lemma NewlineInOpeningMissed(xml: CString)
    requires xml == "<![\n"
    ensures Parse(xml).Failed? && Parse(xml).p == 3 && TrueLine(xml, 3) == 1 && ReportedLine(xml) == 0
  {
    hide Run, Body, NewlineInOpening, Newlines;
    NoBom(xml);
    var f := Stop("", Broken(""));
    assert f.Print() == "<" && xml[0..1] == "<";
    assert f.Ok() && Here(xml, 0, f.Print()) && BrokenAt(xml, 1);
    AcceptFront(xml, Fresh(0, []), None, f);
    OneNewline(xml, 0, 1);
    OneNewline(xml, 0, 2);
    OneNewline(xml, 0, 3);
    NewlinesCounted(xml, 3);
  }
}
