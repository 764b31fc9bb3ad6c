/** Documents of one construct each, spelled out, and the events they send:
    std/cpp/NativeXmlImport.cpp, lines 89 to 384. */
module XmlDocuments {
  import opened Sequences
  import opened XmlMachine
  import opened XmlSteps
  import opened XmlGrammar
  import opened XmlTheorems

  /** The document behind a byte order mark. */
  function Text(xml: CString): string
  {
    xml[BomLength(xml)..]
  }

  /** Text that is not empty is one event. */
  function Said(text: string): seq<Event>
  {
    if text == "" then [] else [PCData(text)]
  }

  /** Text at the end of a document: an event too where nothing but comments and the like came before. */
  function SaidLast(before: string, text: string): seq<Event>
  {
    if text == "" && before != "" then [] else [PCData(text)]
  }

  lemma AroundMarkup(xml: CString, before: string, k: Markup, after: string)
    requires Free(before, '<') && Free(after, '<') && k.Ok()
    requires Text(xml) == before + ("<" + (k.Print() + after))
    ensures Parse(xml) == Finished(
              Said(before) + k.Trace() + if k.Subs() > 0 then Said(after) else SaidLast(before, after), |xml|)
  {
    hide Parse, Markup.Print, Markup.Ok, Markup.Trace, Markup.Subs, Free;
    var c := Item(before, k, Last(after));
    assert Last(after).Ok() && Last(after).Print() == after;
    assert c.Ok() && c.Print() == Text(xml);
    PrintedDocumentParses(xml, c);
    assert Last(after).Trace() == Said(after);
    assert c.Trace() == Said(before) + k.Trace() + Said(after);
    assert Last(after).Subs() == if after == "" then 0 else 1;
    assert c.Subs() == (if before == "" then 0 else 1) + k.Subs() + (if after == "" then 0 else 1);
    if c.Subs() == 0 {
      assert Said(after) + [PCData("")] == SaidLast(before, after);
    } else {
      assert c.Trace() + [] == c.Trace();
    }
  }

  /** Text alone is one event, the empty text included. */
  lemma TextAlone(xml: CString)
    requires Free(Text(xml), '<')
    ensures Parse(xml) == Finished([PCData(Text(xml))], |xml|)
  {
    hide Parse;
    PrintedDocumentParses(xml, Last(Text(xml)));
  }

  lemma CommentEvents(xml: CString, before: string, text: string, after: string)
    requires Free(before, '<') && Free(after, '<') && NoThree(text, '-', '-', '>')
    requires Text(xml) == before + "<!--" + text + "-->" + after
    ensures Parse(xml).events == Said(before) + [Comment(text)] + SaidLast(before, after)
  {
    hide Parse, Free, NoThree, Text, Said, SaidLast;
    var k := CommentSection("", text);
    assert "<" + k.Print() == "<!--" + text + "-->";
    AroundMarkup(xml, before, k, after);
  }

  lemma HeaderEvents(xml: CString, before: string, text: string, after: string)
    requires Free(before, '<') && Free(after, '<') && NoHeaderEnd(text)
    requires Text(xml) == before + "<?" + text + "?>" + after
    ensures Parse(xml).events == Said(before) + [Comment("?" + text + "?")] + SaidLast(before, after)
  {
    hide Parse, Free, NoHeaderEnd, Text, Said, SaidLast;
    var k := HeaderSection("", text);
    assert "<" + k.Print() == "<?" + text + "?>";
    AroundMarkup(xml, before, k, after);
  }

  /** How many brackets are open behind `s`. */
  function Open(s: string): int
  {
    (multiset(s)['['] as int) - (multiset(s)[']'] as int)
  }

  /** The text of a DOCTYPE closes as many brackets as it opens, and at each `>` in it the count is not even. */
  lemma {:induction false} BracketsCloseIff(s: string, n: int)
    ensures BracketsClose(s, n) <==> n + Open(s) == 0 && forall i :: 0 <= i < |s| && s[i] == '>' ==> n + Open(s[..i]) != 0
  {
    if s != "" {
      var n' := if s[0] == '[' then n + 1 else if s[0] == ']' then n - 1 else n;
      BracketsCloseIff(s[1..], n');
      OpenCons(s);
      assert forall i :: 0 <= i < |s| - 1 ==> s[1..][i] == s[i + 1];
      forall i | 0 < i <= |s| ensures n + Open(s[..i]) == n' + Open(s[1..][..i - 1]) {
        OpenCons(s[..i]);
        assert s[..i][1..] == s[1..][..i - 1];
      }
      assert s[..0] == "";
      hide Open;
      NoneOpen();
      if s[0] == '>' && n == 0 {
        assert n + Open(s[..0]) == 0;
      } else {
        assert BracketsClose(s, n) == BracketsClose(s[1..], n');
        CloseCons(s, n, n');
      }
    }
  }

  lemma NoneOpen()
    ensures Open("") == 0
  {
  }

  lemma OpenCons(s: string)
    requires s != ""
    ensures Open(s) == (if s[0] == '[' then 1 else if s[0] == ']' then -1 else 0) + Open(s[1..])
  {
    assert s == [s[0]] + s[1..];
  }

  lemma CloseCons(s: string, n: int, n': int)
    requires s != "" && !(s[0] == '>' && n + Open(s[..0]) == 0)
    requires forall i :: 0 < i <= |s| ==> n + Open(s[..i]) == n' + Open(s[1..][..i - 1])
    ensures (forall i :: 0 <= i < |s| && s[i] == '>' ==> n + Open(s[..i]) != 0) <==>
            (forall i :: 0 <= i < |s| - 1 && s[1..][i] == '>' ==> n' + Open(s[1..][..i]) != 0)
  {
    hide Open;
    if forall i :: 0 <= i < |s| && s[i] == '>' ==> n + Open(s[..i]) != 0 {
      forall i | 0 <= i < |s| - 1 && s[1..][i] == '>' ensures n' + Open(s[1..][..i]) != 0 {
        assert s[i + 1] == '>' && n + Open(s[..i + 1]) == n' + Open(s[1..][..i]);
      }
    }
    if forall i :: 0 <= i < |s| - 1 && s[1..][i] == '>' ==> n' + Open(s[1..][..i]) != 0 {
      forall i | 0 <= i < |s| && s[i] == '>' ensures n + Open(s[..i]) != 0 {
        if i > 0 { assert s[1..][i - 1] == '>'; }
      }
    }
  }

  lemma DocTypeEvents(xml: CString, before: string, text: string, after: string)
    requires Free(before, '<') && Free(after, '<') && BracketsClose(text, 0)
    requires Text(xml) == before + "<!DOCTYPE" + text + ">" + after
    ensures Parse(xml).events == Said(before) + [DocType(text)] + SaidLast(before, after)
  {
    hide Parse, Free, BracketsClose, Text, Said, SaidLast;
    var k := DocTypeSection("", "DOCTYPE", text);
    assert "<" + k.Print() == "<!DOCTYPE" + text + ">";
    AroundMarkup(xml, before, k, after);
  }

  /** A section counts as content, so no empty text follows it. */
  lemma CDataEvents(xml: CString, before: string, text: string, after: string)
    requires Free(before, '<') && Free(after, '<') && NoThree(text, ']', ']', '>')
    requires Text(xml) == before + "<![CDATA[" + text + "]]>" + after
    ensures Parse(xml).events == Said(before) + [CData(text)] + Said(after)
  {
    hide Parse, Free, NoThree, Text, Said, SaidLast;
    var k := CDataSection("", "CDATA", text);
    assert "<" + k.Print() == "<![CDATA[" + text + "]]>";
    AroundMarkup(xml, before, k, after);
  }

  /** Attributes put in one by one are those written, each with the text between its quotes. */
  lemma {:induction false} AttributesAdded(attrs: seq<Attr>, m: Attribs, taken: set<string>)
    requires AttrsOk(attrs, taken) && m.Keys == taken
    ensures var all := AddAttribs(m, attrs);
            && all.Keys == taken + (set a | a in attrs :: a.name)
            && (forall a <- attrs :: a.name in all && all[a.name] == a.value)
            && (forall n <- taken :: all[n] == m[n])
    decreases |attrs|
  {
    if attrs != [] {
      AttributesAdded(attrs[1..], m[attrs[0].name := attrs[0].value], taken + {attrs[0].name});
      assert attrs == [attrs[0]] + attrs[1..];
    }
  }

  lemma AttributesSent(attrs: seq<Attr>)
    requires AttrsOk(attrs, {})
    ensures var m := AttribMap(attrs);
            m.Keys == (set a | a in attrs :: a.name) && forall a <- attrs :: m[a.name] == a.value
  {
    AttributesAdded(attrs, map[], {});
  }

  /** A childless tag is sent with the attributes written in it, and is done. */
  lemma LeafEvents(xml: CString, before: string, name: string, afterName: string, attrs: seq<Attr>, after: string)
      returns (m: Attribs)
    requires Free(before, '<') && Free(after, '<') && TagOk(name, afterName, attrs)
    requires Text(xml) == before + "<" + name + afterName + PrintAttrs(attrs) + "/>" + after
    ensures Parse(xml).events == Said(before) + [Xml(name, m), Done] + Said(after)
    ensures m.Keys == (set a | a in attrs :: a.name) && forall a <- attrs :: m[a.name] == a.value
  {
    hide Parse, Free, AttribMap, AddAttribs, AttrsOk, PrintAttrs, Text, Said;
    AttributesSent(attrs);
    m := AttribMap(attrs);
    var k := Leaf("", name, afterName, attrs);
    assert "<" + k.Print() == "<" + name + afterName + PrintAttrs(attrs) + "/>";
    AroundMarkup(xml, before, k, after);
  }

  /** Content between tags, without spaces in them. */
  function Tagged(name: string, c: Content, closing: string): Markup
  {
    Element("", name, "", [], c, "", closing, "")
  }

  lemma TaggedSpelled(name: string, c: Content, closing: string)
    ensures var k := Tagged(name, c, closing);
            && k.Print() == name + (">" + (c.Print() + ("<" + ("/" + (closing + ">")))))
            && (k.Ok() <==> IsName(name) && c.Ok() && SameName(name, closing))
            && k.Trace() == [Xml(name, map[])] + c.Trace() + ClosingEvents(c.Subs()) && k.Subs() == 1
  {
    hide IsName, SameName, Content.Ok, Content.Print, Content.Trace, Content.Subs, ClosingEvents;
    var k := Tagged(name, c, closing);
    assert AttribMap([]) == map[];
    assert PrintTag(name, "", []) == name;
    assert PrintClose("", closing, "") == "/" + (closing + ">");
  }

  /** Tags put around a document put an event before its events, and nothing behind them. */
  lemma WrappedDocument(xml: CString, inner: CString, name: string, closing: string)
    requires IsName(name) && SameName(name, closing) && Parse(inner).Finished?
    requires Text(xml) == "<" + name + ">" + Text(inner) + "</" + closing + ">"
    ensures Parse(xml) == Finished([Xml(name, map[])] + Parse(inner).events, |xml|)
  {
    hide Parse, IsName, SameName, Content.Ok, Content.Print, Content.Trace, Content.Subs, ClosingEvents, Tagged;
    ParsesExactlyTheDocuments(inner);
    var c: Content :| c.Ok() && c.Print() == Text(inner);
    PrintedDocumentParses(inner, c);
    var k := Tagged(name, c, closing);
    TaggedSpelled(name, c, closing);
    hide Text, Markup.Ok, Markup.Print, Markup.Trace, Markup.Subs;
    SpelledAlike(name, c.Print(), closing);
    AroundMarkup(xml, "", k, "");
    var open := [Xml(name, map[])];
    assert [] + k.Trace() + [] == k.Trace();
    Associative(open, c.Trace(), ClosingEvents(c.Subs()));
  }

  lemma SpelledAlike(name: string, text: string, closing: string)
    ensures "" + ("<" + ((name + (">" + (text + ("<" + ("/" + (closing + ">")))))) + "")) ==
            "<" + name + ">" + text + "</" + closing + ">"
  {
  }
}
