/** Runs of the XML machine over one lexical piece at a time. Each lemma says that a run is the same as the
    run from a later position, so it serves both directions of the grammar theorem. */
module XmlSteps {
  import opened Wrappers
  import opened XmlMachine

  // ---------------------------------------------------------------- pieces of the text

  ghost predicate SpacesAt(xml: CString, p: nat, k: nat)
  {
    p <= k <= |xml| && forall i :: p <= i < k ==> IsSpace(xml[i])
  }

  ghost predicate NameAt(xml: CString, p: nat, k: nat)
  {
    p <= k <= |xml| && forall i :: p <= i < k ==> IsValidChar(xml[i])
  }

  /** No `c` from `p` up to `k`. */
  ghost predicate FreeOf(xml: CString, p: nat, k: nat, c: char)
  {
    p <= k <= |xml| && forall i :: p <= i < k ==> xml[i] != c
  }

  /** No `abd` that starts from `p` on and before `k`. */
  ghost predicate FreeOfThree(xml: CString, p: nat, k: nat, a: char, b: char, d: char)
    requires b != '\0' && d != '\0'
  {
    p <= k <= |xml| && forall i :: p <= i < k ==> !Three(xml, i, a, b, d)
  }

  lemma {:induction false} FirstNonSpace(xml: CString, p: nat) returns (k: nat)
    requires p <= |xml|
    ensures SpacesAt(xml, p, k) && (k < |xml| ==> !IsSpace(xml[k]))
    decreases |xml| - p
  {
    if p == |xml| || !IsSpace(xml[p]) {
      k := p;
    } else {
      k := FirstNonSpace(xml, p + 1);
    }
  }

  lemma {:induction false} FirstNonName(xml: CString, p: nat) returns (k: nat)
    requires p <= |xml|
    ensures NameAt(xml, p, k) && (k < |xml| ==> !IsValidChar(xml[k]))
    decreases |xml| - p
  {
    if p == |xml| || !IsValidChar(xml[p]) {
      k := p;
    } else {
      k := FirstNonName(xml, p + 1);
    }
  }

  lemma {:induction false} FirstOf(xml: CString, p: nat, c: char) returns (k: nat)
    requires p <= |xml|
    ensures FreeOf(xml, p, k, c) && (k < |xml| ==> xml[k] == c)
    decreases |xml| - p
  {
    if p == |xml| || xml[p] == c {
      k := p;
    } else {
      k := FirstOf(xml, p + 1, c);
    }
  }

  lemma {:induction false} FirstThree(xml: CString, p: nat, a: char, b: char, d: char) returns (k: nat)
    requires p <= |xml| && b != '\0' && d != '\0'
    ensures FreeOfThree(xml, p, k, a, b, d) && (k < |xml| ==> Three(xml, k, a, b, d))
    decreases |xml| - p
  {
    if p == |xml| || Three(xml, p, a, b, d) {
      k := p;
    } else {
      k := FirstThree(xml, p + 1, a, b, d);
    }
  }

  // ---------------------------------------------------------------- one pass, many passes

  /** The runs from `m` and from `m1` end the same way. */
  ghost predicate Same(xml: CString, parent: Option<string>, m: Machine, m1: Machine)
  {
    Valid(xml, m, parent) && Valid(xml, m1, parent) && Run(xml, m, parent) == Run(xml, m1, parent)
  }

  lemma SameTrans(xml: CString, parent: Option<string>, a: Machine, b: Machine, c: Machine)
    requires Same(xml, parent, a, b) && Same(xml, parent, b, c)
    ensures Same(xml, parent, a, c)
  {
  }

  /** The run fails where its last pass began, as it does in all errors but one. */
  ghost predicate Fails(xml: CString, m: Machine, parent: Option<string>)
    requires Valid(xml, m, parent)
  {
    Run(xml, m, parent).Failed? && Run(xml, m, parent).p == Run(xml, m, parent).head
  }

  /** One pass, unless it enters a nested activation. */
  lemma Pass(xml: CString, m: Machine, parent: Option<string>, s: Step)
    requires Valid(xml, m, parent) && m.p < |xml| && Body(xml, m, parent) == s
    ensures s.Advance? ==> Same(xml, parent, m, s.m.(p := s.m.p + 1))
    ensures s.Again? ==> Same(xml, parent, m, s.m)
    ensures s.Error? ==> Run(xml, m, parent) == Failed(s.m.events, m.p, s.m.p)
  {
    hide Body, Run, Rank, Valid;
    RunPass(xml, m, parent);
  }

  /** Reaching the terminator fails unless the outermost activation is between nodes or in text. */
  lemma Stuck(xml: CString, m: Machine, parent: Option<string>, k: nat)
    requires Same(xml, parent, m, m.(p := k))
    requires parent.Some? || (m.state != BEGIN && m.state != PCDATA)
    ensures k <= |xml| && (k == |xml| ==> Fails(xml, m, parent))
  {
    EndFails(xml, m.(p := k), parent);
  }

  lemma SameFails(xml: CString, parent: Option<string>, a: Machine, b: Machine)
    requires Same(xml, parent, a, b)
    ensures Fails(xml, a, parent) == Fails(xml, b, parent) && Run(xml, a, parent) == Run(xml, b, parent)
  {
  }

  lemma SameValid(xml: CString, parent: Option<string>, a: Machine, b: Machine)
    requires Same(xml, parent, a, b)
    ensures Valid(xml, a, parent) && Valid(xml, b, parent)
  {
  }

  /** A state that only looks at the current character keeps advancing while it has no reason to stop. */
  lemma {:induction false} AdvanceTo(xml: CString, m: Machine, parent: Option<string>, k: nat)
    requires Valid(xml, m, parent) && m.p <= k <= |xml|
    requires forall i :: m.p <= i < k ==>
               Valid(xml, m.(p := i), parent) && Body(xml, m.(p := i), parent) == Advance(m.(p := i))
    ensures Same(xml, parent, m, m.(p := k))
    decreases k - m.p
  {
    hide Run, Body, Valid;
    if m.p < k {
      RunPass(xml, m, parent);
      assert m.(p := m.p) == m;
      AdvanceTo(xml, m.(p := m.p + 1), parent, k);
    } else {
      assert m.(p := k) == m;
    }
  }

  /** At the terminator only the outermost activation can succeed, between nodes or in text. */
  lemma EndFails(xml: CString, m: Machine, parent: Option<string>)
    requires Valid(xml, m, parent)
    requires parent.Some? || (m.state != BEGIN && m.state != PCDATA)
    ensures m.p == |xml| ==> Fails(xml, m, parent)
  {
  }

  /** Passes over spaces, then into the state that was waiting. */
  lemma SkipSpaces(xml: CString, m: Machine, parent: Option<string>, k: nat)
    requires Valid(xml, m, parent) && m.state == IGNORE_SPACES && SpacesAt(xml, m.p, k)
    ensures k == |xml| ==> Fails(xml, m, parent)
    ensures k < |xml| && !IsSpace(xml[k]) ==> Same(xml, parent, m, m.(p := k, state := m.next))
  {
    hide Run;
    AdvanceTo(xml, m, parent, k);
    EndFails(xml, m.(p := k), parent);
    if k < |xml| {
      RunPass(xml, m.(p := k), parent);
    }
  }

  lemma ScanName(xml: CString, m: Machine, parent: Option<string>, k: nat)
    requires Valid(xml, m, parent) && m.state in {TAG_NAME, ATTRIB_NAME, CLOSE} && NameAt(xml, m.p, k)
    ensures Same(xml, parent, m, m.(p := k))
    ensures k == |xml| ==> Fails(xml, m, parent)
  {
    hide Run;
    AdvanceTo(xml, m, parent, k);
    EndFails(xml, m.(p := k), parent);
  }

  // ---------------------------------------------------------------- single cases of the switch

  lemma BodyHeader(xml: CString, m: Machine, parent: Option<string>)
    requires Valid(xml, m, parent) && m.p < |xml| && m.state == HEADER
    ensures Body(xml, m, parent) ==
            if xml[m.p] == '?' && At(xml, m.p + 1) == '>' then
              Advance(Send(m, Comment(xml[m.start..m.p + 1])).(p := m.p + 1, state := BEGIN))
            else Advance(m)
  {
  }

  lemma BodyValue(xml: CString, m: Machine, parent: Option<string>)
    requires Valid(xml, m, parent) && m.p < |xml| && m.state == ATTRIB_VAL
    ensures Body(xml, m, parent) ==
            if xml[m.p] == xml[m.start] then
              Advance(m.(attribs := m.attribs[m.aname := xml[m.start + 1..m.p]], state := IGNORE_SPACES, next := BODY))
            else Advance(m)
  {
  }

  lemma BodyText(xml: CString, m: Machine, parent: Option<string>)
    requires Valid(xml, m, parent) && m.p < |xml|
    requires m.state == BEGIN || m.state == PCDATA
    ensures m.start <= m.p && Body(xml, m, parent) ==
              if xml[m.p] != '<' then
                if m.state == BEGIN then Again(m.(start := m.p, state := PCDATA)) else Advance(m)
              else if m.state == BEGIN then Advance(m.(state := IGNORE_SPACES, next := BEGIN_NODE))
              else Advance(Send(m, PCData(xml[m.start..m.p])).(nsubs := m.nsubs + 1, state := IGNORE_SPACES, next := BEGIN_NODE))
  {
  }

  lemma BodyInCData(xml: CString, m: Machine, parent: Option<string>)
    requires Valid(xml, m, parent) && m.p < |xml| && m.state == CDATA
    ensures m.start <= m.p && Body(xml, m, parent) ==
              if Three(xml, m.p, ']', ']', '>') then
                Advance(Send(m, CData(xml[m.start..m.p])).(nsubs := m.nsubs + 1, p := m.p + 2, state := BEGIN))
              else Advance(m)
  {
    hide Three;
  }

  lemma BodyInDocType(xml: CString, m: Machine, parent: Option<string>)
    requires Valid(xml, m, parent) && m.p < |xml| && m.state == DOCTYPE
    ensures m.start <= m.p && Body(xml, m, parent) ==
              if xml[m.p] == '[' then Advance(m.(nbrackets := m.nbrackets + 1))
              else if xml[m.p] == ']' then Advance(m.(nbrackets := m.nbrackets - 1))
              else if xml[m.p] == '>' && m.nbrackets == 0 then Advance(Send(m, DocType(xml[m.start..m.p])).(state := BEGIN))
              else Advance(m)
  {
  }

  lemma BodyTagEnd(xml: CString, m: Machine, parent: Option<string>)
    requires Valid(xml, m, parent) && m.p < |xml| && m.state == BODY
    ensures Body(xml, m, parent) ==
            if xml[m.p] == '/' then Advance(Send(m, Xml(m.nodename, m.attribs)).(state := WAIT_END, nsubs := m.nsubs + 1))
            else if xml[m.p] == '>' then Advance(Send(m, Xml(m.nodename, m.attribs)).(state := CHILDS, nsubs := m.nsubs + 1))
            else Again(m.(state := ATTRIB_NAME, start := m.p))
  {
  }

  lemma BodyWaitEnd(xml: CString, m: Machine, parent: Option<string>)
    requires Valid(xml, m, parent) && m.p < |xml| && m.state == WAIT_END
    ensures Body(xml, m, parent) == if xml[m.p] == '>' then Advance(Send(m, Done).(state := BEGIN)) else Error(m)
  {
  }

  lemma BodyQuote(xml: CString, m: Machine, parent: Option<string>)
    requires Valid(xml, m, parent) && m.p < |xml| && m.state == ATTVAL_BEGIN
    ensures Body(xml, m, parent) ==
            if xml[m.p] == '"' || xml[m.p] == '\'' then Advance(m.(state := ATTRIB_VAL, start := m.p)) else Error(m)
  {
  }

  lemma BodyDeclaration(xml: CString, m: Machine, parent: Option<string>)
    requires Valid(xml, m, parent) && m.p < |xml| && m.state == BEGIN_NODE && xml[m.p] == '!'
    ensures Body(xml, m, parent) == BeginDeclaration(xml, m, parent)
  {
  }

  lemma BodyCData(xml: CString, m: Machine, parent: Option<string>)
    requires Valid(xml, m, parent) && m.p < |xml| && m.state == BEGIN_NODE && xml[m.p] == '!'
    requires At(xml, m.p + 1) == '[' && Spells(xml, m.p + 2, "CDATA") && At(xml, m.p + 7) == '['
    ensures m.p + 8 <= |xml| && Body(xml, m, parent) == Advance(m.(p := m.p + 7, state := CDATA, start := m.p + 8))
  {
    hide Spells;
    BodyDeclaration(xml, m, parent);
  }

  lemma BodyComment(xml: CString, m: Machine, parent: Option<string>)
    requires Valid(xml, m, parent) && m.p < |xml| && m.state == BEGIN_NODE && xml[m.p] == '!'
    requires At(xml, m.p + 1) == '-' && At(xml, m.p + 2) == '-'
    ensures m.p + 3 <= |xml| && Body(xml, m, parent) == Advance(m.(p := m.p + 2, state := COMMENT, start := m.p + 3))
  {
    hide Spells;
    BodyDeclaration(xml, m, parent);
  }

  lemma BodyDocType(xml: CString, m: Machine, parent: Option<string>)
    requires Valid(xml, m, parent) && m.p < |xml| && m.state == BEGIN_NODE && xml[m.p] == '!'
    requires Spells(xml, m.p + 1, "DOCTYPE")
    ensures m.p + 8 <= |xml| && Body(xml, m, parent) == Advance(m.(p := m.p + 7, state := DOCTYPE, start := m.p + 8))
  {
    hide Spells;
    SpellsTail(xml, m.p + 1);
    BodyDeclaration(xml, m, parent);
  }

  lemma SpellsTail(xml: CString, i: nat)
    requires i <= |xml| && Spells(xml, i, "DOCTYPE")
    ensures (At(xml, i) == 'D' || At(xml, i) == 'd') && i + 7 <= |xml| && Spells(xml, i + 1, "OCTYPE")
  {
    assert "DOCTYPE"[1..] == "OCTYPE";
  }

  lemma BodyNode(xml: CString, m: Machine, parent: Option<string>)
    requires Valid(xml, m, parent) && m.p < |xml| && m.state == BEGIN_NODE && xml[m.p] != '!'
    ensures Body(xml, m, parent) ==
            if xml[m.p] == '?' then Advance(m.(state := HEADER, start := m.p))
            else if xml[m.p] == '/' then
              if parent.None? || parent.value == "" then Error(m)
              else Advance(m.(start := m.p + 1, state := IGNORE_SPACES, next := CLOSE))
            else Again(m.(state := TAG_NAME, start := m.p))
  {
  }

  lemma StartsBehind(xml: CString, m: Machine, parent: Option<string>, k: nat)
    requires Valid(xml, m, parent) && m.p <= k <= |xml|
    ensures forall i :: m.p <= i <= k ==> Valid(xml, m.(p := i), parent)
  {
  }

  // ---------------------------------------------------------------- text

  function TextEvents(text: string): seq<Event>
  {
    if text == "" then [] else [PCData(text)]
  }

  function TextSubs(text: string): nat
  {
    if text == "" then 0 else 1
  }

  /** The first pass over a text, and the pass at the `<` behind it. */
  lemma StepText(xml: CString, m: Machine, parent: Option<string>)
    requires Valid(xml, m, parent) && m.p < |xml|
    ensures m.state == BEGIN && xml[m.p] == '<' ==> Same(xml, parent, m, m.(state := IGNORE_SPACES, next := BEGIN_NODE, p := m.p + 1))
    ensures m.state == BEGIN && xml[m.p] != '<' ==> Same(xml, parent, m, m.(start := m.p, state := PCDATA))
    ensures m.state == PCDATA && xml[m.p] == '<' ==>
              Same(xml, parent, m, Send(m, PCData(xml[m.start..m.p])).(nsubs := m.nsubs + 1, state := IGNORE_SPACES, next := BEGIN_NODE, p := m.p + 1))
  {
    hide Run, Body;
    if m.state == BEGIN || m.state == PCDATA {
      BodyText(xml, m, parent);
      Pass(xml, m, parent, Body(xml, m, parent));
    }
  }

  /** The text before a `<`. */
  lemma RunText(xml: CString, m: Machine, parent: Option<string>, q: nat) returns (m1: Machine)
    requires Valid(xml, m, parent) && m.state == BEGIN && FreeOf(xml, m.p, q, '<') && q < |xml| && xml[q] == '<'
    ensures Same(xml, parent, m, m1)
    ensures m1.state == IGNORE_SPACES && m1.next == BEGIN_NODE && m1.p == q + 1 && m1.nbrackets == m.nbrackets
    ensures m1.events == m.events + TextEvents(xml[m.p..q]) && m1.nsubs == m.nsubs + TextSubs(xml[m.p..q])
  {
    hide Run, Body, Same;
    if m.p == q {
      StepText(xml, m, parent);
      m1 := m.(state := IGNORE_SPACES, next := BEGIN_NODE, p := q + 1);
      assert xml[m.p..q] == "";
    } else {
      var m0 := m.(start := m.p, state := PCDATA);
      StepText(xml, m, parent);
      ScanText(xml, m0, parent, q);
      StepText(xml, m0.(p := q), parent);
      SameTrans(xml, parent, m, m0, m0.(p := q));
      m1 := Send(m0, PCData(xml[m.p..q])).(nsubs := m.nsubs + 1, state := IGNORE_SPACES, next := BEGIN_NODE, p := q + 1);
      SameTrans(xml, parent, m, m0.(p := q), m1);
    }
  }

  lemma ScanText(xml: CString, m: Machine, parent: Option<string>, q: nat)
    requires Valid(xml, m, parent) && m.state == PCDATA && FreeOf(xml, m.p, q, '<')
    ensures Same(xml, parent, m, m.(p := q))
  {
    hide Run;
    AdvanceTo(xml, m, parent, q);
  }

  /** The text before the end. */
  lemma RunLastText(xml: CString, m: Machine, parent: Option<string>)
    requires Valid(xml, m, parent) && m.state == BEGIN && FreeOf(xml, m.p, |xml|, '<')
    ensures var text := xml[m.p..];
            var o := Run(xml, m, parent);
            if parent.None? then
              o == Finished(m.events + TextEvents(text) + (if m.nsubs + TextSubs(text) == 0 then [PCData("")] else []), |xml|)
            else Fails(xml, m, parent)
  {
    hide Run;
    if m.p < |xml| {
      RunPass(xml, m, parent);
      var m0 := m.(start := m.p, state := PCDATA);
      ScanText(xml, m0, parent, |xml|);
      RunEnd(xml, m0.(p := |xml|), parent);
      assert xml[m.p..|xml|] == xml[m.p..];
    } else {
      RunEnd(xml, m, parent);
      assert xml[m.p..m.p] == "" && xml[m.p..] == "";
    }
  }

  // ---------------------------------------------------------------- declarations and headers

  /** From behind the `<` to the state of the markup's first character. */
  lemma RunOpening(xml: CString, m: Machine, parent: Option<string>, k: nat) returns (m1: Machine)
    requires Valid(xml, m, parent) && m.state == IGNORE_SPACES && m.next == BEGIN_NODE
    requires SpacesAt(xml, m.p, k) && k < |xml| && !IsSpace(xml[k])
    ensures Same(xml, parent, m, m1) && m1 == m.(p := k, state := BEGIN_NODE)
  {
    SkipSpaces(xml, m, parent, k);
    m1 := m.(p := k, state := BEGIN_NODE);
  }

  lemma InCData(xml: CString, m: Machine, parent: Option<string>, q: nat)
    requires Valid(xml, m, parent) && m.state == CDATA && FreeOfThree(xml, m.p, q, ']', ']', '>')
    ensures m.start <= m.p <= q <= |xml| && Same(xml, parent, m, m.(p := q))
  {
    hide Run, Body, Valid, Rank, Same, Three;
    ValidBounds(xml, m, parent);
    StartsBehind(xml, m, parent, q);
    forall i | m.p <= i < q
      ensures Body(xml, m.(p := i), parent) == Advance(m.(p := i))
    {
      BodyInCData(xml, m.(p := i), parent);
    }
    AdvanceTo(xml, m, parent, q);
  }

  lemma ScanCData(xml: CString, m: Machine, parent: Option<string>, q: nat) returns (m1: Machine)
    requires Valid(xml, m, parent) && m.state == CDATA && FreeOfThree(xml, m.p, q, ']', ']', '>')
    ensures q == |xml| ==> Fails(xml, m, parent)
    ensures q < |xml| && Three(xml, q, ']', ']', '>') ==> Same(xml, parent, m, m1)
    ensures m1 == Send(m, CData(xml[m.start..q])).(nsubs := m.nsubs + 1, state := BEGIN, p := q + 3)
  {
    hide Run, Body, FreeOfThree, Three, Same;
    InCData(xml, m, parent, q);
    Stuck(xml, m, parent, q);
    m1 := Send(m, CData(xml[m.start..q])).(nsubs := m.nsubs + 1, state := BEGIN, p := q + 3);
    if q < |xml| && Three(xml, q, ']', ']', '>') {
      SameValid(xml, parent, m, m.(p := q));
      BodyInCData(xml, m.(p := q), parent);
      Pass(xml, m.(p := q), parent, Advance(m1.(p := q + 2)));
      SameTrans(xml, parent, m, m.(p := q), m1);
    }
  }

  /** A CDATA section whose `!` is at `m.p`, with its text from `m.p + 8` up to `q`. */
  lemma RunCData(xml: CString, m: Machine, parent: Option<string>, q: nat) returns (m1: Machine)
    requires Valid(xml, m, parent) && m.state == BEGIN_NODE && m.p < |xml| && xml[m.p] == '!'
    requires At(xml, m.p + 1) == '[' && Spells(xml, m.p + 2, "CDATA") && At(xml, m.p + 7) == '['
    requires m.p + 8 <= |xml| && FreeOfThree(xml, m.p + 8, q, ']', ']', '>')
    ensures q == |xml| ==> Fails(xml, m, parent)
    ensures q < |xml| && Three(xml, q, ']', ']', '>') ==> Same(xml, parent, m, m1)
    ensures m1.state == BEGIN && m1.p == q + 3 && m1.nbrackets == m.nbrackets
    ensures m1.events == m.events + [CData(xml[m.p + 8..q])] && m1.nsubs == m.nsubs + 1
  {
    hide Run, Spells, Three, Body, BeginDeclaration, Valid, Rank, Same, FreeOfThree, DocTypeEndsAt, FreeOfHeaderEnd;
    BodyCData(xml, m, parent);
    var m0 := m.(state := CDATA, start := m.p + 8, p := m.p + 8);
    Pass(xml, m, parent, Advance(m0.(p := m0.p - 1)));
    SameValid(xml, parent, m, m0);
    m1 := ScanCData(xml, m0, parent, q);
    SameFails(xml, parent, m, m0);
    if Same(xml, parent, m0, m1) {
      SameTrans(xml, parent, m, m0, m1);
    }
  }

  lemma AdvanceComment(xml: CString, m: Machine, parent: Option<string>, q: nat)
    requires Valid(xml, m, parent) && m.state == COMMENT && FreeOfThree(xml, m.p, q, '-', '-', '>')
    ensures q <= |xml| && Valid(xml, m.(p := q), parent) && Same(xml, parent, m, m.(p := q))
  {
    hide Run;
    AdvanceTo(xml, m, parent, q);
  }

  lemma StepComment(xml: CString, m: Machine, parent: Option<string>)
    requires Valid(xml, m, parent) && m.p < |xml| && m.state == COMMENT && Three(xml, m.p, '-', '-', '>')
    ensures Same(xml, parent, m, Send(m, Comment(xml[m.start..m.p])).(state := BEGIN, p := m.p + 3))
  {
    hide Run;
    RunPass(xml, m, parent);
  }

  lemma ScanComment(xml: CString, m: Machine, parent: Option<string>, q: nat) returns (m1: Machine)
    requires Valid(xml, m, parent) && m.state == COMMENT && FreeOfThree(xml, m.p, q, '-', '-', '>')
    ensures q == |xml| ==> Fails(xml, m, parent)
    ensures q < |xml| && Three(xml, q, '-', '-', '>') ==> Same(xml, parent, m, m1)
    ensures m1 == Send(m, Comment(xml[m.start..q])).(state := BEGIN, p := q + 3)
  {
    hide Run, Body, FreeOfThree, Three;
    AdvanceComment(xml, m, parent, q);
    EndFails(xml, m.(p := q), parent);
    m1 := Send(m, Comment(xml[m.start..q])).(state := BEGIN, p := q + 3);
    if q < |xml| && Three(xml, q, '-', '-', '>') {
      StepComment(xml, m.(p := q), parent);
    }
  }

  lemma RunComment(xml: CString, m: Machine, parent: Option<string>, q: nat) returns (m1: Machine)
    requires Valid(xml, m, parent) && m.state == BEGIN_NODE && m.p < |xml| && xml[m.p] == '!'
    requires At(xml, m.p + 1) == '-' && At(xml, m.p + 2) == '-'
    requires FreeOfThree(xml, m.p + 3, q, '-', '-', '>')
    ensures q == |xml| ==> Fails(xml, m, parent)
    ensures q < |xml| && Three(xml, q, '-', '-', '>') ==> Same(xml, parent, m, m1)
    ensures m1.state == BEGIN && m1.p == q + 3 && m1.nbrackets == m.nbrackets
    ensures m1.events == m.events + [Comment(xml[m.p + 3..q])] && m1.nsubs == m.nsubs
  {
    hide Run, Spells, Three, Body, BeginDeclaration, Valid, Rank, Same, FreeOfThree, DocTypeEndsAt, FreeOfHeaderEnd;
    BodyComment(xml, m, parent);
    var m0 := m.(state := COMMENT, start := m.p + 3, p := m.p + 3);
    Pass(xml, m, parent, Advance(m0.(p := m0.p - 1)));
    SameValid(xml, parent, m, m0);
    m1 := ScanComment(xml, m0, parent, q);
    SameFails(xml, parent, m, m0);
    if Same(xml, parent, m0, m1) {
      SameTrans(xml, parent, m, m0, m1);
    }
  }

  /** No `?>` that starts from `p` on and before `k`. */
  ghost predicate FreeOfHeaderEnd(xml: CString, p: nat, k: nat)
  {
    p <= k <= |xml| && forall i :: p <= i < k ==> !(xml[i] == '?' && At(xml, i + 1) == '>')
  }

  lemma {:induction false} FirstHeaderEnd(xml: CString, p: nat) returns (k: nat)
    requires p <= |xml|
    ensures FreeOfHeaderEnd(xml, p, k) && (k < |xml| ==> xml[k] == '?' && At(xml, k + 1) == '>')
    decreases |xml| - p
  {
    if p == |xml| || (xml[p] == '?' && At(xml, p + 1) == '>') {
      k := p;
    } else {
      k := FirstHeaderEnd(xml, p + 1);
    }
  }

  lemma InHeader(xml: CString, m: Machine, parent: Option<string>, q: nat)
    requires Valid(xml, m, parent) && m.state == HEADER && FreeOfHeaderEnd(xml, m.p, q)
    ensures m.start <= m.p && Same(xml, parent, m, m.(p := q))
  {
    hide Run, Body, Valid, Rank, Same;
    ValidBounds(xml, m, parent);
    StartsBehind(xml, m, parent, q);
    forall i | m.p <= i < q
      ensures Body(xml, m.(p := i), parent) == Advance(m.(p := i))
    {
      BodyHeader(xml, m.(p := i), parent);
    }
    AdvanceTo(xml, m, parent, q);
  }

  lemma ScanHeader(xml: CString, m: Machine, parent: Option<string>, q: nat) returns (m1: Machine)
    requires Valid(xml, m, parent) && m.state == HEADER && FreeOfHeaderEnd(xml, m.p, q)
    ensures q == |xml| ==> Fails(xml, m, parent)
    ensures q < |xml| && xml[q] == '?' && At(xml, q + 1) == '>' ==>
              Same(xml, parent, m, m1) && m1 == Send(m, Comment(xml[m.start..q + 1])).(state := BEGIN, p := q + 2)
  {
    hide Run, Body, Valid, Rank, Same;
    InHeader(xml, m, parent, q);
    Stuck(xml, m, parent, q);
    m1 := m;
    if q < |xml| && xml[q] == '?' && At(xml, q + 1) == '>' {
      SameValid(xml, parent, m, m.(p := q));
      BodyHeader(xml, m.(p := q), parent);
      var s := Advance(Send(m.(p := q), Comment(xml[m.start..q + 1])).(p := q + 1, state := BEGIN));
      Pass(xml, m.(p := q), parent, s);
      m1 := s.m.(p := q + 2);
      SameTrans(xml, parent, m, m.(p := q), m1);
    }
  }

  /** A header is reported as a comment that keeps both question marks. */
  lemma RunHeader(xml: CString, m: Machine, parent: Option<string>, q: nat) returns (m1: Machine)
    requires Valid(xml, m, parent) && m.state == BEGIN_NODE && m.p < |xml| && xml[m.p] == '?'
    requires FreeOfHeaderEnd(xml, m.p + 1, q)
    ensures q == |xml| ==> Fails(xml, m, parent)
    ensures q < |xml| && xml[q] == '?' && At(xml, q + 1) == '>' ==>
              && Same(xml, parent, m, m1)
              && m1.state == BEGIN && m1.p == q + 2 && m1.nbrackets == m.nbrackets
              && m1.events == m.events + [Comment(xml[m.p..q + 1])] && m1.nsubs == m.nsubs
  {
    hide Run, Spells, Three, Body, BeginDeclaration, Valid, Rank, Same, FreeOfThree, DocTypeEndsAt, FreeOfHeaderEnd;
    BodyNode(xml, m, parent);
    ValidBounds(xml, m, parent);
    var m0 := m.(state := HEADER, start := m.p, p := m.p + 1);
    Pass(xml, m, parent, Advance(m0.(p := m0.p - 1)));
    SameValid(xml, parent, m, m0);
    m1 := ScanHeader(xml, m0, parent, q);
    SameFails(xml, parent, m, m0);
    if Same(xml, parent, m0, m1) {
      SameTrans(xml, parent, m, m0, m1);
    }
  }

  /** From `n` open brackets, `q` is the first `>` at which none is open. */
  ghost predicate DocTypeEndsAt(xml: CString, p: nat, n: int, q: nat)
    requires p <= |xml|
    decreases |xml| - p
  {
    if p == |xml| then q == |xml|
    else if xml[p] == '[' then DocTypeEndsAt(xml, p + 1, n + 1, q)
    else if xml[p] == ']' then DocTypeEndsAt(xml, p + 1, n - 1, q)
    else if xml[p] == '>' && n == 0 then q == p
    else DocTypeEndsAt(xml, p + 1, n, q)
  }

  lemma {:induction false} DocTypeEnd(xml: CString, p: nat, n: int) returns (q: nat)
    requires p <= |xml|
    ensures p <= q <= |xml| && DocTypeEndsAt(xml, p, n, q)
    decreases |xml| - p
  {
    if p == |xml| || (xml[p] == '>' && n == 0) {
      q := p;
    } else {
      q := DocTypeEnd(xml, p + 1, if xml[p] == '[' then n + 1 else if xml[p] == ']' then n - 1 else n);
    }
  }

  lemma {:induction false} ScanDocType(xml: CString, m: Machine, parent: Option<string>, q: nat) returns (m1: Machine)
    requires Valid(xml, m, parent) && m.state == DOCTYPE && DocTypeEndsAt(xml, m.p, m.nbrackets, q)
    ensures m.p <= q <= |xml|
    ensures q == |xml| ==> Fails(xml, m, parent)
    ensures q < |xml| ==> Same(xml, parent, m, m1) && m1 == Send(m, DocType(xml[m.start..q])).(state := BEGIN, p := q + 1, nbrackets := 0)
    decreases |xml| - m.p
  {
    hide Run, Body;
    m1 := m;
    if m.p == |xml| {
      EndFails(xml, m, parent);
    } else {
      BodyInDocType(xml, m, parent);
      Pass(xml, m, parent, Body(xml, m, parent));
      var c := xml[m.p];
      if c == '>' && m.nbrackets == 0 {
        m1 := Send(m, DocType(xml[m.start..m.p])).(state := BEGIN, p := m.p + 1);
      } else {
        var n := if c == '[' then m.nbrackets + 1 else if c == ']' then m.nbrackets - 1 else m.nbrackets;
        m1 := ScanDocType(xml, m.(nbrackets := n, p := m.p + 1), parent, q);
      }
    }
  }

  lemma RunDocType(xml: CString, m: Machine, parent: Option<string>, q: nat) returns (m1: Machine)
    requires Valid(xml, m, parent) && m.state == BEGIN_NODE && m.p < |xml| && xml[m.p] == '!' && m.nbrackets == 0
    requires Spells(xml, m.p + 1, "DOCTYPE") && m.p + 8 <= |xml| && DocTypeEndsAt(xml, m.p + 8, 0, q)
    ensures m.p + 8 <= q <= |xml|
    ensures q == |xml| ==> Fails(xml, m, parent)
    ensures q < |xml| ==>
              && Same(xml, parent, m, m1)
              && m1.state == BEGIN && m1.p == q + 1 && m1.nbrackets == 0
              && m1.events == m.events + [DocType(xml[m.p + 8..q])] && m1.nsubs == m.nsubs
  {
    hide Run, Spells, Three, Body, BeginDeclaration, Valid, Rank, Same, FreeOfThree, DocTypeEndsAt, FreeOfHeaderEnd;
    BodyDocType(xml, m, parent);
    var m0 := m.(state := DOCTYPE, start := m.p + 8, p := m.p + 8);
    Pass(xml, m, parent, Advance(m0.(p := m0.p - 1)));
    SameValid(xml, parent, m, m0);
    m1 := ScanDocType(xml, m0, parent, q);
    SameFails(xml, parent, m, m0);
    if Same(xml, parent, m0, m1) {
      SameTrans(xml, parent, m, m0, m1);
    }
  }

  // ---------------------------------------------------------------- tags

  /** From the first character of a tag name to `BODY`. */
  lemma RunTagName(xml: CString, m: Machine, parent: Option<string>, k: nat, j: nat) returns (m1: Machine)
    requires Valid(xml, m, parent) && m.state == BEGIN_NODE && m.p < |xml|
    requires NameAt(xml, m.p, k) && m.p < k < |xml| && !IsValidChar(xml[k]) && SpacesAt(xml, k, j)
    ensures j == |xml| ==> Fails(xml, m, parent)
    ensures j < |xml| && !IsSpace(xml[j]) ==>
              && Same(xml, parent, m, m1)
              && m1.state == BODY && m1.p == j && m1.nbrackets == m.nbrackets && m1.events == m.events && m1.nsubs == m.nsubs
              && m1.nodename == xml[m.p..k] && m1.attribs == map[]
  {
    hide Run;
    RunPass(xml, m, parent);
    var m0 := m.(state := TAG_NAME, start := m.p);
    ScanName(xml, m0, parent, k);
    RunPass(xml, m0.(p := k), parent);
    m1 := m0.(p := k, nodename := xml[m.p..k], attribs := map[], state := IGNORE_SPACES, next := BODY);
    SkipSpaces(xml, m1, parent, j);
    m1 := m1.(p := j, state := BODY);
  }

  /** An attribute: its name up to `k1`, spaces, `=` at `k2`, spaces, the quote at `k3`, the same quote at
      `k4`, spaces up to `k5`. */
  ghost predicate AttrAt(xml: CString, p: nat, k1: nat, k2: nat, k3: nat, k4: nat, k5: nat)
  {
    && NameAt(xml, p, k1) && p < k1
    && SpacesAt(xml, k1, k2) && k2 < |xml| && xml[k2] == '='
    && SpacesAt(xml, k2 + 1, k3) && k3 < |xml| && (xml[k3] == '"' || xml[k3] == '\'')
    && FreeOf(xml, k3 + 1, k4, xml[k3]) && k4 < |xml| && xml[k4] == xml[k3]
    && SpacesAt(xml, k4 + 1, k5) && k5 < |xml| && !IsSpace(xml[k5])
  }

  lemma RunAttrName(xml: CString, m: Machine, parent: Option<string>, k1: nat) returns (m1: Machine)
    requires Valid(xml, m, parent) && m.state == BODY && m.p < |xml| && xml[m.p] != '/' && xml[m.p] != '>'
    requires NameAt(xml, m.p, k1) && (k1 < |xml| ==> !IsValidChar(xml[k1]))
    ensures Fails(xml, m, parent) ||
            (m.p < k1 < |xml| && xml[m.p..k1] !in m.attribs && Same(xml, parent, m, m1))
    ensures m.p < k1 < |xml| && xml[m.p..k1] !in m.attribs ==> Same(xml, parent, m, m1)
    ensures m1.state == IGNORE_SPACES && m1.next == EQUALS && m1.p == k1
    ensures m.p <= k1 <= |xml| && m1.aname == xml[m.p..k1]
    ensures m1.(state := BODY, next := BODY, p := 0, start := 0, aname := "") == m.(state := BODY, next := BODY, p := 0, start := 0, aname := "")
  {
    hide Run;
    RunPass(xml, m, parent);
    var m0 := m.(state := ATTRIB_NAME, start := m.p);
    ScanName(xml, m0, parent, k1);
    if k1 < |xml| {
      RunPass(xml, m0.(p := k1), parent);
    }
    m1 := m0.(p := k1, aname := xml[m.p..k1], state := IGNORE_SPACES, next := EQUALS);
  }

  lemma InValue(xml: CString, m: Machine, parent: Option<string>, k4: nat)
    requires Valid(xml, m, parent) && m.state == ATTRIB_VAL && m.start < m.p && FreeOf(xml, m.p, k4, xml[m.start])
    ensures Same(xml, parent, m, m.(p := k4))
  {
    hide Run, Body, Valid, Rank, Same;
    StartsBehind(xml, m, parent, k4);
    forall i | m.p <= i < k4
      ensures Body(xml, m.(p := i), parent) == Advance(m.(p := i))
    {
      BodyValue(xml, m.(p := i), parent);
    }
    AdvanceTo(xml, m, parent, k4);
  }

  lemma ScanValue(xml: CString, m: Machine, parent: Option<string>, k4: nat)
    requires Valid(xml, m, parent) && m.state == ATTRIB_VAL && m.start < m.p && FreeOf(xml, m.p, k4, xml[m.start])
    ensures k4 == |xml| ==> Fails(xml, m, parent)
    ensures k4 < |xml| && xml[k4] == xml[m.start] ==>
              Same(xml, parent, m, m.(attribs := m.attribs[m.aname := xml[m.start + 1..k4]], state := IGNORE_SPACES, next := BODY, p := k4 + 1))
  {
    hide Run, Body, Valid, Rank, Same;
    InValue(xml, m, parent, k4);
    Stuck(xml, m, parent, k4);
    if k4 < |xml| && xml[k4] == xml[m.start] {
      SameValid(xml, parent, m, m.(p := k4));
      BodyValue(xml, m.(p := k4), parent);
      var m1 := m.(attribs := m.attribs[m.aname := xml[m.start + 1..k4]], state := IGNORE_SPACES, next := BODY, p := k4 + 1);
      Pass(xml, m.(p := k4), parent, Advance(m1.(p := k4)));
      SameTrans(xml, parent, m, m.(p := k4), m1);
    }
  }

  lemma RunAttrValue(xml: CString, m: Machine, parent: Option<string>, k3: nat, k4: nat, k5: nat) returns (m1: Machine)
    requires Valid(xml, m, parent) && m.state == ATTVAL_BEGIN && m.p == k3 < |xml| && (xml[k3] == '"' || xml[k3] == '\'')
    requires FreeOf(xml, k3 + 1, k4, xml[k3]) && (k4 < |xml| ==> xml[k4] == xml[k3] && SpacesAt(xml, k4 + 1, k5))
    requires k4 < |xml| && k5 < |xml| ==> !IsSpace(xml[k5])
    ensures k4 == |xml| || k5 == |xml| ==> Fails(xml, m, parent)
    ensures k4 < |xml| && k5 < |xml| ==>
              && Same(xml, parent, m, m1)
              && m1.state == BODY && m1.p == k5 && m1.nbrackets == m.nbrackets && m1.events == m.events && m1.nsubs == m.nsubs
              && m1.nodename == m.nodename && m1.attribs == m.attribs[m.aname := xml[k3 + 1..k4]]
  {
    hide Run, Body;
    BodyQuote(xml, m, parent);
    Pass(xml, m, parent, Body(xml, m, parent));
    var m0 := m.(state := ATTRIB_VAL, start := k3, p := k3 + 1);
    ScanValue(xml, m0, parent, k4);
    m1 := m;
    if k4 < |xml| {
      m1 := m0.(attribs := m.attribs[m.aname := xml[k3 + 1..k4]], state := IGNORE_SPACES, next := BODY, p := k4 + 1);
      SkipSpaces(xml, m1, parent, k5);
      m1 := m1.(state := BODY, p := k5);
    }
  }

  lemma RunEquals(xml: CString, m: Machine, parent: Option<string>, k2: nat, k3: nat) returns (m1: Machine)
    requires Valid(xml, m, parent) && m.state == IGNORE_SPACES && m.next == EQUALS
    requires SpacesAt(xml, m.p, k2) && (k2 < |xml| ==> !IsSpace(xml[k2]))
    requires k2 < |xml| ==> SpacesAt(xml, k2 + 1, k3) && (k3 < |xml| ==> !IsSpace(xml[k3]))
    ensures k2 == |xml| || xml[k2] != '=' || k3 == |xml| ==> Fails(xml, m, parent)
    ensures k2 < |xml| && xml[k2] == '=' && k3 < |xml| ==> Same(xml, parent, m, m1)
    ensures m1 == m.(state := ATTVAL_BEGIN, next := ATTVAL_BEGIN, p := k3)
  {
    hide Body, Run;
    SkipSpaces(xml, m, parent, k2);
    m1 := m.(state := ATTVAL_BEGIN, next := ATTVAL_BEGIN, p := k3);
    if k2 < |xml| {
      var m0 := m.(p := k2, state := EQUALS);
      BodyEquals(xml, m0, parent);
      Pass(xml, m0, parent, Body(xml, m0, parent));
      if xml[k2] == '=' {
        SkipSpaces(xml, m0.(state := IGNORE_SPACES, next := ATTVAL_BEGIN, p := k2 + 1), parent, k3);
      }
    }
  }

  lemma BodyEquals(xml: CString, m: Machine, parent: Option<string>)
    requires Valid(xml, m, parent) && m.p < |xml| && m.state == EQUALS
    ensures Body(xml, m, parent) ==
            if xml[m.p] == '=' then Advance(m.(state := IGNORE_SPACES, next := ATTVAL_BEGIN)) else Error(m)
  {
  }

  lemma NoQuoteFails(xml: CString, m: Machine, parent: Option<string>)
    requires Valid(xml, m, parent) && m.p < |xml| && m.state == ATTVAL_BEGIN && xml[m.p] != '"' && xml[m.p] != '\''
    ensures Fails(xml, m, parent)
  {
    hide Run, Body;
    BodyQuote(xml, m, parent);
    Pass(xml, m, parent, Body(xml, m, parent));
  }

  /** One attribute, from `BODY` to `BODY`. */
  lemma RunAttr(xml: CString, m: Machine, parent: Option<string>, k1: nat, k2: nat, k3: nat, k4: nat, k5: nat)
      returns (m1: Machine)
    requires Valid(xml, m, parent) && m.state == BODY && AttrAt(xml, m.p, k1, k2, k3, k4, k5)
    requires xml[m.p..k1] !in m.attribs
    ensures Same(xml, parent, m, m1) && m1.state == BODY && m1.p == k5 && m1.nbrackets == m.nbrackets
    ensures m1.events == m.events && m1.nsubs == m.nsubs && m1.nodename == m.nodename
    ensures m1.attribs == m.attribs[xml[m.p..k1] := xml[k3 + 1..k4]]
  {
    hide Run, Body, Valid;
    var a := RunAttrName(xml, m, parent, k1);
    SameValid(xml, parent, m, a);
    var b := RunEquals(xml, a, parent, k2, k3);
    SameValid(xml, parent, a, b);
    m1 := RunAttrValue(xml, b, parent, k3, k4, k5);
  }

  /** A run that does not fail finds an attribute where `BODY` finds no `/` or `>`. */
  lemma FindAttr(xml: CString, m: Machine, parent: Option<string>)
      returns (k1: nat, k2: nat, k3: nat, k4: nat, k5: nat)
    requires Valid(xml, m, parent) && m.state == BODY && m.p < |xml| && xml[m.p] != '/' && xml[m.p] != '>'
    requires !Fails(xml, m, parent)
    ensures AttrAt(xml, m.p, k1, k2, k3, k4, k5) && xml[m.p..k1] !in m.attribs
  {
    hide Run, Body, Valid;
    k1 := FirstNonName(xml, m.p);
    var a := RunAttrName(xml, m, parent, k1);
    SameValid(xml, parent, m, a);
    k2 := FirstNonSpace(xml, k1);
    k3 := FirstNonSpace(xml, if k2 < |xml| then k2 + 1 else k2);
    var b := RunEquals(xml, a, parent, k2, k3);
    SameFails(xml, parent, a, b);
    SameValid(xml, parent, a, b);
    if xml[k3] != '"' && xml[k3] != '\'' {
      NoQuoteFails(xml, b, parent);
    }
    k4 := FirstOf(xml, k3 + 1, xml[k3]);
    k5 := FirstNonSpace(xml, if k4 < |xml| then k4 + 1 else k4);
    var c := RunAttrValue(xml, b, parent, k3, k4, k5);
  }

  // ---------------------------------------------------------------- closing tags

  /** A closing tag whose `/` is at `k`: the name up to `j`, spaces, `>` at `e`. */
  ghost predicate CloseAt(xml: CString, name: string, k: nat, j: nat, e: nat)
  {
    && k < |xml| && xml[k] == '/'
    && NameAt(xml, k + 1, j) && k + 1 < j
    && SameIgnoringCase(name, xml[k + 1..j])
    && SpacesAt(xml, j, e) && e < |xml| && xml[e] == '>'
  }

  function ClosingEvents(nsubs: nat): seq<Event>
  {
    if nsubs == 0 then [PCData("")] else []
  }

  lemma BodyClose(xml: CString, m: Machine, parent: Option<string>)
    requires Valid(xml, m, parent) && m.p < |xml| && m.state == CLOSE && !IsValidChar(xml[m.p])
    ensures parent.Some?
    ensures Body(xml, m, parent) ==
            if m.start == m.p || !SameIgnoringCase(parent.value, xml[m.start..m.p]) then Error(m)
            else Again(m.(state := IGNORE_SPACES, next := WAIT_END_RET))
  {
  }

  lemma RunReturn(xml: CString, m: Machine, parent: Option<string>)
    requires Valid(xml, m, parent) && m.p < |xml| && m.state == WAIT_END_RET
    ensures Run(xml, m, parent) ==
            if xml[m.p] == '>' then Finished(m.events + ClosingEvents(m.nsubs), m.p) else Failed(m.events, m.p, m.p)
  {
    hide Run;
    RunPass(xml, m, parent);
  }

  /** Behind the `/`: spaces up to `s`, which stay part of the name that is compared; the name up to `j`. */
  lemma RunCloseName(xml: CString, m: Machine, parent: Option<string>, s: nat, j: nat, e: nat)
    requires Valid(xml, m, parent) && m.state == BEGIN_NODE && m.p < |xml| && xml[m.p] == '/'
    requires SpacesAt(xml, m.p + 1, s) && (s < |xml| ==> !IsSpace(xml[s]) && NameAt(xml, s, j))
    requires s < |xml| && j < |xml| ==> !IsValidChar(xml[j]) && SpacesAt(xml, j, e) && (e < |xml| ==> !IsSpace(xml[e]))
    ensures if s < |xml| && j < |xml| && e < |xml| && xml[e] == '>' && parent.Some? && parent.value != ""
                && j != m.p + 1 && SameIgnoringCase(parent.value, xml[m.p + 1..j])
            then Run(xml, m, parent) == Finished(m.events + ClosingEvents(m.nsubs), e)
            else Fails(xml, m, parent)
  {
    hide Run, Body, Valid;
    ValidBounds(xml, m, parent);
    BodyNode(xml, m, parent);
    Pass(xml, m, parent, Body(xml, m, parent));
    if parent.Some? && parent.value != "" {
      var a := m.(start := m.p + 1, state := IGNORE_SPACES, next := CLOSE, p := m.p + 1);
      SameValid(xml, parent, m, a);
      SkipSpaces(xml, a, parent, s);
      if s < |xml| {
        var b := a.(p := s, state := CLOSE);
        SameValid(xml, parent, a, b);
        ScanName(xml, b, parent, j);
        if j < |xml| {
          FinishClose(xml, b.(p := j), parent, e);
        }
      }
    }
  }

  lemma FinishClose(xml: CString, m: Machine, parent: Option<string>, e: nat)
    requires Valid(xml, m, parent) && m.p < |xml| && m.state == CLOSE && !IsValidChar(xml[m.p])
    requires SpacesAt(xml, m.p, e) && (e < |xml| ==> !IsSpace(xml[e]))
    ensures parent.Some? && m.start <= m.p
    ensures if e < |xml| && xml[e] == '>' && m.start != m.p && SameIgnoringCase(parent.value, xml[m.start..m.p])
            then Run(xml, m, parent) == Finished(m.events + ClosingEvents(m.nsubs), e)
            else Fails(xml, m, parent)
  {
    hide Run, Body, Valid;
    BodyClose(xml, m, parent);
    ValidBounds(xml, m, parent);
    Pass(xml, m, parent, Body(xml, m, parent));
    if m.start != m.p && SameIgnoringCase(parent.value, xml[m.start..m.p]) {
      var a := m.(state := IGNORE_SPACES, next := WAIT_END_RET);
      SameValid(xml, parent, m, a);
      SkipSpaces(xml, a, parent, e);
      if e < |xml| {
        SameValid(xml, parent, a, a.(p := e, state := WAIT_END_RET));
        RunReturn(xml, a.(p := e, state := WAIT_END_RET), parent);
      }
    }
  }

  lemma RunClose(xml: CString, m: Machine, parent: Option<string>, j: nat, e: nat)
    requires Valid(xml, m, parent) && m.state == BEGIN_NODE && parent.Some?
    requires CloseAt(xml, parent.value, m.p, j, e)
    ensures Run(xml, m, parent) == Finished(m.events + ClosingEvents(m.nsubs), e)
  {
    RunCloseName(xml, m, parent, m.p + 1, j, e);
  }

  /** A nested run that does not fail at a `/` finds the closing tag of its parent. */
  lemma FindClose(xml: CString, m: Machine, parent: Option<string>) returns (j: nat, e: nat)
    requires Valid(xml, m, parent) && m.state == BEGIN_NODE && m.p < |xml| && xml[m.p] == '/'
    requires !Fails(xml, m, parent)
    requires parent.Some? ==> forall c <- parent.value :: IsValidChar(c)
    ensures parent.Some? && CloseAt(xml, parent.value, m.p, j, e)
    ensures Run(xml, m, parent) == Finished(m.events + ClosingEvents(m.nsubs), e)
  {
    hide Run, Body, Valid;
    var s := FirstNonSpace(xml, m.p + 1);
    j := FirstNonName(xml, s);
    e := FirstNonSpace(xml, j);
    RunCloseName(xml, m, parent, s, j, e);
    var v := xml[m.p + 1..j];
    assert IsValidChar(parent.value[0]) by { assert parent.value[0] in parent.value; }
    assert v[0] == xml[m.p + 1] && Lower(v[0]) == Lower(parent.value[0]);
    assert !IsSpace(xml[m.p + 1]);
  }
}
