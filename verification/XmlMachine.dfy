/** The event-driven XML parser of std/cpp/NativeXmlImport.cpp: its state machine as a specification
    function, and the method that runs it in place. */
module XmlMachine {
  import opened Wrappers

  /** The characters of a NUL-terminated string. */
  type CString = s: string | '\0' !in s

  /** `xml[i]`, defined up to the terminator and no further. */
  function At(xml: CString, i: nat): (c: char)
    requires i <= |xml|
    ensures c == '\0' <==> i == |xml|
  {
    if i < |xml| then
      assert xml[i] in xml;
      xml[i]
    else '\0'
  }

  type Attribs = map<string, string>

  /** The calls on the event object. */
  datatype Event =
    | Xml(name: string, attribs: Attribs)
    | Done
    | PCData(text: string)
    | CData(text: string)
    | Comment(text: string)
    | DocType(text: string)

  datatype State =
    | IGNORE_SPACES
    | BEGIN
    | BEGIN_NODE
    | TAG_NAME
    | BODY
    | ATTRIB_NAME
    | EQUALS
    | ATTVAL_BEGIN
    | ATTRIB_VAL
    | CHILDS
    | CLOSE
    | WAIT_END
    | WAIT_END_RET
    | PCDATA
    | HEADER
    | COMMENT
    | DOCTYPE
    | CDATA

  predicate IsValidChar(c: char)
  {
    'a' <= c <= 'z' || 'A' <= c <= 'Z' || '0' <= c <= '9' || c == ':' || c == '.' || c == '_' || c == '-'
  }

  predicate IsSpace(c: char)
  {
    c == '\n' || c == '\r' || c == '\t' || c == ' '
  }

  function Lower(c: char): char
  {
    if 'A' <= c <= 'Z' then (c as int + 32) as char else c
  }

  /** `strcmpi(a, b) == 0` */
  predicate SameIgnoringCase(a: string, b: string)
  {
    |a| == |b| && forall i :: 0 <= i < |a| ==> Lower(a[i]) == Lower(b[i])
  }

  /** The local variables of one activation of `do_parse_xml`, with the events sent so far. */
  datatype Machine = Machine(
    state: State,
    next: State,
    p: nat,
    start: nat,
    nsubs: nat,
    nbrackets: int,
    nodename: string,
    aname: string,
    attribs: Attribs,
    events: seq<Event>)

  function Fresh(p: nat, events: seq<Event>): Machine
  {
    Machine(BEGIN, BEGIN, p, 0, 0, 0, "", "", map[], events)
  }

  /** What one pass through the `switch` does. */
  datatype Step =
    | Again(m: Machine) // `continue`: looks at the same character again
    | Advance(m: Machine) // `break`: goes on to the next character
    | Nested(m: Machine) // calls itself for the children
    | Return(m: Machine)
    | Error(m: Machine)

  /** `[CcDdAaTtAa]` and the like: every letter of `word`, in either case, from `i` on. */
  predicate Spells(xml: CString, i: nat, word: string)
    requires i <= |xml| && forall c <- word :: 'A' <= c <= 'Z'
    ensures Spells(xml, i, word) ==> i + |word| <= |xml|
    decreases |word|
  {
    if word == [] then true
    else
      assert word[0] in word && forall c <- word[1..] :: c in word;
      (At(xml, i) == word[0] || At(xml, i) == Lower(word[0])) && Spells(xml, i + 1, word[1..])
  }

  /** `c == a && p[1] == b && p[2] == d`, reading no further than the first difference. */
  predicate Three(xml: CString, p: nat, a: char, b: char, d: char)
    requires p < |xml| && b != '\0' && d != '\0'
    ensures Three(xml, p, a, b, d) ==> p + 2 < |xml|
  {
    At(xml, p) == a && At(xml, p + 1) == b && At(xml, p + 2) == d
  }

  /** What every pass starts from. */
  predicate Valid(xml: CString, m: Machine, parent: Option<string>)
  {
    && m.start <= m.p <= |xml|
    && (m.state == ATTRIB_VAL ==> m.start < m.p)
    && (m.state == IGNORE_SPACES ==> m.next in {BEGIN_NODE, BODY, EQUALS, ATTVAL_BEGIN, CLOSE, WAIT_END_RET})
    && (m.state in {CHILDS, BODY, ATTRIB_NAME} ==> m.nodename != "")
    && (m.state == IGNORE_SPACES && m.next in {BODY, EQUALS, ATTVAL_BEGIN} ==> m.nodename != "")
    && (m.state in {EQUALS, ATTVAL_BEGIN, ATTRIB_VAL} ==> m.nodename != "")
    && (m.state in {CLOSE, WAIT_END_RET} || (m.state == IGNORE_SPACES && m.next in {CLOSE, WAIT_END_RET}) ==> parent.Some?)
  }

  /** Falls at every pass that does not advance. */
  function Rank(m: Machine): nat
  {
    match m.state
    case IGNORE_SPACES => (match m.next case CLOSE => 4 case BODY => 2 case BEGIN_NODE => 2 case _ => 1)
    case CLOSE => 3
    case TAG_NAME => if m.p == m.start then 0 else 3
    case ATTRIB_NAME => if m.p == m.start then 0 else 2
    case BODY => 1
    case BEGIN_NODE => 1
    case BEGIN => 1
    case CHILDS => 2
    case _ => 0
  }

  function Send(m: Machine, e: Event): Machine
  {
    m.(events := m.events + [e])
  }

  /** One pass through the `switch` of the parser's loop, at a character that is not the terminator. */
  function Body(xml: CString, m: Machine, parent: Option<string>): (s: Step)
    requires Valid(xml, m, parent) && m.p < |xml|
    ensures s.Again? ==> Valid(xml, s.m, parent) && s.m.p == m.p && Rank(s.m) < Rank(m)
    ensures s.Again? && m.state in {BEGIN, PCDATA} ==> s.m.state == PCDATA
    ensures s.Advance? ==> m.p <= s.m.p < |xml| && s.m.start <= s.m.p + 1 && Valid(xml, s.m.(p := s.m.p + 1), parent)
    ensures s.Nested? <==> m.state == CHILDS
    ensures s.Nested? ==> s.m == m
    ensures s.Return? ==> s.m.p == m.p && parent.Some?
    ensures s.Error? ==> (s.m.p == m.p || s.m.p == m.p + 2) && s.m.p <= |xml|
  {
    var p := m.p;
    var c := At(xml, p);
    match m.state
    case IGNORE_SPACES =>
      if IsSpace(c) then Advance(m) else Again(m.(state := m.next))
    case BEGIN =>
      if c == '<' then Advance(m.(state := IGNORE_SPACES, next := BEGIN_NODE))
      else Again(m.(start := p, state := PCDATA))
    case PCDATA =>
      if c == '<' then
        Advance(Send(m, PCData(xml[m.start..p])).(nsubs := m.nsubs + 1, state := IGNORE_SPACES, next := BEGIN_NODE))
      else Advance(m)
    case CDATA =>
      if Three(xml, p, ']', ']', '>') then
        Advance(Send(m, CData(xml[m.start..p])).(nsubs := m.nsubs + 1, p := p + 2, state := BEGIN))
      else Advance(m)
    case BEGIN_NODE =>
      if c == '!' then BeginDeclaration(xml, m, parent)
      else if c == '?' then Advance(m.(state := HEADER, start := p))
      else if c == '/' then
        if parent.None? || parent.value == "" then Error(m)
        else Advance(m.(start := p + 1, state := IGNORE_SPACES, next := CLOSE))
      else Again(m.(state := TAG_NAME, start := p))
    case TAG_NAME =>
      if IsValidChar(c) then Advance(m)
      else if p == m.start then Error(m)
      else Again(m.(nodename := xml[m.start..p], attribs := map[], state := IGNORE_SPACES, next := BODY))
    case BODY =>
      if c == '/' then Advance(Send(m, Xml(m.nodename, m.attribs)).(state := WAIT_END, nsubs := m.nsubs + 1))
      else if c == '>' then Advance(Send(m, Xml(m.nodename, m.attribs)).(state := CHILDS, nsubs := m.nsubs + 1))
      else Again(m.(state := ATTRIB_NAME, start := p))
    case ATTRIB_NAME =>
      if IsValidChar(c) then Advance(m)
      else if m.start == p then Error(m)
      else if xml[m.start..p] in m.attribs then Error(m.(aname := xml[m.start..p]))
      else Again(m.(aname := xml[m.start..p], state := IGNORE_SPACES, next := EQUALS))
    case EQUALS =>
      if c == '=' then Advance(m.(state := IGNORE_SPACES, next := ATTVAL_BEGIN)) else Error(m)
    case ATTVAL_BEGIN =>
      if c == '"' || c == '\'' then Advance(m.(state := ATTRIB_VAL, start := p)) else Error(m)
    case ATTRIB_VAL =>
      if c == At(xml, m.start) then
        Advance(m.(attribs := m.attribs[m.aname := xml[m.start + 1..p]], state := IGNORE_SPACES, next := BODY))
      else Advance(m)
    case CHILDS => Nested(m)
    case WAIT_END =>
      if c == '>' then Advance(Send(m, Done).(state := BEGIN)) else Error(m)
    case WAIT_END_RET =>
      if c == '>' then Return(if m.nsubs == 0 then Send(m, PCData("")) else m) else Error(m)
    case CLOSE =>
      if IsValidChar(c) then Advance(m)
      else if m.start == p then Error(m)
      else if !SameIgnoringCase(parent.value, xml[m.start..p]) then Error(m)
      else Again(m.(state := IGNORE_SPACES, next := WAIT_END_RET))
    case COMMENT =>
      if Three(xml, p, '-', '-', '>') then
        Advance(Send(m, Comment(xml[m.start..p])).(p := p + 2, state := BEGIN))
      else Advance(m)
    case DOCTYPE =>
      if c == '[' then Advance(m.(nbrackets := m.nbrackets + 1))
      else if c == ']' then Advance(m.(nbrackets := m.nbrackets - 1))
      else if c == '>' && m.nbrackets == 0 then Advance(Send(m, DocType(xml[m.start..p])).(state := BEGIN))
      else Advance(m)
    case HEADER =>
      if c == '?' && At(xml, p + 1) == '>' then
        Advance(Send(m, Comment(xml[m.start..p + 1])).(p := p + 1, state := BEGIN))
      else Advance(m)
  }

  /** The `'!'` case of `BEGIN_NODE`. */
  function BeginDeclaration(xml: CString, m: Machine, parent: Option<string>): (s: Step)
    requires Valid(xml, m, parent) && m.p < |xml| && m.state == BEGIN_NODE && At(xml, m.p) == '!'
    ensures s.Advance? || s.Error?
    ensures s.Advance? ==> m.p <= s.m.p < |xml| && s.m.start == s.m.p + 1 && Valid(xml, s.m.(p := s.m.p + 1), parent)
    ensures s.Error? ==> (s.m.p == m.p || s.m.p == m.p + 2) && s.m.p <= |xml|
  {
    var p := m.p;
    if At(xml, p + 1) == '[' then
      if Spells(xml, p + 2, "CDATA") && At(xml, p + 7) == '[' then
        Advance(m.(p := p + 7, state := CDATA, start := p + 8))
      else Error(m.(p := p + 2))
    else if At(xml, p + 1) == 'D' || At(xml, p + 1) == 'd' then
      if Spells(xml, p + 2, "OCTYPE") then
        assert Spells(xml, p + 1, "DOCTYPE");
        assert p + 7 < |xml|;
        Advance(m.(p := p + 7, state := DOCTYPE, start := p + 8))
      else Error(m)
    else if At(xml, p + 1) == '-' && At(xml, p + 2) == '-' then
      Advance(m.(p := p + 2, state := COMMENT, start := p + 3))
    else Error(m)
  }

  // ---------------------------------------------------------------- a whole activation

  /** How an activation ends: returning at `p`, or in the exception raised at `p`, from the pass that
      started at `head`. */
  datatype Outcome =
    | Finished(events: seq<Event>, p: nat)
    | Failed(events: seq<Event>, head: nat, p: nat)

  /** After the loop, at the terminator. */
  function AtEnd(xml: CString, m: Machine, parent: Option<string>): Outcome
    requires Valid(xml, m, parent) && m.p == |xml|
  {
    var start := if m.state == BEGIN then m.p else m.start;
    if parent.None? && (m.state == BEGIN || m.state == PCDATA) then
      Finished(if m.p != start || m.nsubs == 0 then m.events + [PCData(xml[start..m.p])] else m.events, m.p)
    else Failed(m.events, m.p, m.p)
  }

  /** The caller goes on behind the `>` at which the nested activation has returned. */
  function Resume(m: Machine, inner: Outcome): Machine
    requires inner.Finished?
  {
    m.(state := BEGIN, start := inner.p, p := inner.p + 1, events := inner.events)
  }

  /** The activation from the machine state `m` on. */
  function Run(xml: CString, m: Machine, parent: Option<string>): (o: Outcome)
    requires Valid(xml, m, parent)
    ensures o.Finished? ==> m.p <= o.p <= |xml| && (parent.Some? ==> o.p < |xml|)
    ensures o.Failed? ==> m.p <= o.head <= o.p <= |xml|
    decreases |xml| - m.p, Rank(m)
  {
    if m.p == |xml| then AtEnd(xml, m, parent)
    else
      match Body(xml, m, parent)
      case Again(m1) => Run(xml, m1, parent)
      case Advance(m1) => Run(xml, m1.(p := m1.p + 1), parent)
      case Nested(m1) =>
        var inner := Run(xml, Fresh(m.p, m.events), Some(m.nodename));
        if inner.Failed? then inner else Run(xml, Resume(m, inner), parent)
      case Return(m1) => Finished(m1.events, m1.p)
      case Error(m1) => Failed(m1.events, m.p, m1.p)
  }

  // ---------------------------------------------------------------- the parser in place

  /** How many newlines lie after position `lo`, up to and including position `hi`. */
  function Newlines(xml: CString, lo: nat, hi: nat): nat
    requires lo <= hi <= |xml|
    decreases hi
  {
    if lo == hi then 0 else Newlines(xml, lo, hi - 1) + (if At(xml, hi) == '\n' then 1 else 0)
  }

  lemma {:induction false} NewlinesAdd(xml: CString, a: nat, b: nat, c: nat)
    requires a <= b <= c <= |xml|
    ensures Newlines(xml, a, c) == Newlines(xml, a, b) + Newlines(xml, b, c)
    decreases c
  {
    if b < c {
      NewlinesAdd(xml, a, b, c - 1);
    }
  }

  lemma RunPass(xml: CString, m: Machine, parent: Option<string>)
    requires Valid(xml, m, parent) && m.p < |xml|
    ensures var s := Body(xml, m, parent);
            && (s.Again? ==> Run(xml, m, parent) == Run(xml, s.m, parent))
            && (s.Advance? ==> Run(xml, m, parent) == Run(xml, s.m.(p := s.m.p + 1), parent))
            && (s.Return? ==> Run(xml, m, parent) == Finished(s.m.events, s.m.p))
            && (s.Error? ==> Run(xml, m, parent) == Failed(s.m.events, m.p, s.m.p))
    ensures Body(xml, m, parent).Nested? ==>
              var inner := Run(xml, Fresh(m.p, m.events), Some(m.nodename));
              && Run(xml, m, parent) == (if inner.Failed? then inner else Run(xml, Resume(m, inner), parent))
              && (inner.Finished? ==> Valid(xml, Resume(m, inner), parent))
  {
    hide *;
    if Body(xml, m, parent).Nested? {
      RunNested(xml, m, parent);
    } else {
      RunOnePass(xml, m, parent);
    }
  }

  lemma RunOnePass(xml: CString, m: Machine, parent: Option<string>)
    requires Valid(xml, m, parent) && m.p < |xml| && !Body(xml, m, parent).Nested?
    ensures var s := Body(xml, m, parent);
            && (s.Again? ==> Run(xml, m, parent) == Run(xml, s.m, parent))
            && (s.Advance? ==> Run(xml, m, parent) == Run(xml, s.m.(p := s.m.p + 1), parent))
            && (s.Return? ==> Run(xml, m, parent) == Finished(s.m.events, s.m.p))
            && (s.Error? ==> Run(xml, m, parent) == Failed(s.m.events, m.p, s.m.p))
  {
    hide Body, Rank, AtEnd, Valid, Resume, Fresh;
  }

  /** A nested activation that returns leaves the caller in a valid state behind the closing tag. */
  lemma RunNested(xml: CString, m: Machine, parent: Option<string>)
    requires Valid(xml, m, parent) && m.p < |xml| && Body(xml, m, parent).Nested?
    ensures var inner := Run(xml, Fresh(m.p, m.events), Some(m.nodename));
            && Run(xml, m, parent) == (if inner.Failed? then inner else Run(xml, Resume(m, inner), parent))
            && (inner.Finished? ==> Valid(xml, Resume(m, inner), parent))
  {
    hide Body, Rank, AtEnd;
  }

  lemma FreshIsValid(xml: CString, p: nat, events: seq<Event>, parent: Option<string>)
    requires p <= |xml|
    ensures Valid(xml, Fresh(p, events), parent)
  {
  }

  lemma ValidBounds(xml: CString, m: Machine, parent: Option<string>)
    requires Valid(xml, m, parent)
    ensures m.start <= m.p <= |xml|
  {
  }

  lemma RunEnd(xml: CString, m: Machine, parent: Option<string>)
    requires Valid(xml, m, parent) && m.p == |xml|
    ensures Run(xml, m, parent) == AtEnd(xml, m, parent)
    ensures var o := AtEnd(xml, m, parent);
            if o.Finished? then o.p == |xml| && parent.None? else o.head == |xml|
  {
  }

  lemma SpellsNoNewline(xml: CString, i: nat, word: string)
    requires 0 < i <= |xml| && (forall c <- word :: 'A' <= c <= 'Z') && Spells(xml, i, word)
    ensures Newlines(xml, i - 1, i - 1 + |word|) == 0
    decreases |word|
  {
    if word != [] {
      assert word[0] in word && forall c <- word[1..] :: c in word;
      SpellsNoNewline(xml, i + 1, word[1..]);
      NewlinesAdd(xml, i - 1, i, i - 1 + |word|);
      OneNewline(xml, i - 1, i);
    }
  }

  lemma OneNewline(xml: CString, lo: nat, hi: nat)
    requires lo <= hi <= |xml|
    ensures Newlines(xml, lo, lo) == 0
    ensures lo < hi ==> Newlines(xml, lo, hi) == Newlines(xml, lo, hi - 1) + if At(xml, hi) == '\n' then 1 else 0
  {
  }

  /** A pass that ends in an error has sent nothing, and neither has an end that is none. */
  lemma FailingSendsNothing(xml: CString, m: Machine, parent: Option<string>)
    requires Valid(xml, m, parent)
    ensures m.p < |xml| && Body(xml, m, parent).Error? ==> Body(xml, m, parent).m.events == m.events
    ensures m.p == |xml| && AtEnd(xml, m, parent).Failed? ==> AtEnd(xml, m, parent).events == m.events
  {
    hide Spells, Valid, Rank, Three, SameIgnoringCase, IsValidChar;
  }

  /** The multi-character steps pass over no newline that they do not land on. */
  lemma NoNewlineSkipped(xml: CString, m: Machine, parent: Option<string>)
    requires Valid(xml, m, parent) && m.p < |xml| && Body(xml, m, parent).Advance?
    ensures Newlines(xml, m.p, Body(xml, m, parent).m.p) == 0
  {
    hide Newlines, Spells, Valid, Rank;
    OneNewline(xml, m.p, m.p);
    var p, q := m.p, Body(xml, m, parent).m.p;
    if m.state == BEGIN_NODE {
      if At(xml, p) == '!' {
        DeclarationNoNewline(xml, m, parent);
      }
    } else if q == p + 1 {
      OneNewline(xml, p, p + 1);
    } else if q == p + 2 {
      assert m.state in {CDATA, COMMENT};
      OneNewline(xml, p, p + 1);
      OneNewline(xml, p + 1, p + 2);
      NewlinesAdd(xml, p, p + 1, p + 2);
    }
  }

  lemma DeclarationNoNewline(xml: CString, m: Machine, parent: Option<string>)
    requires Valid(xml, m, parent) && m.p < |xml| && m.state == BEGIN_NODE && At(xml, m.p) == '!'
    requires BeginDeclaration(xml, m, parent).Advance?
    ensures Newlines(xml, m.p, BeginDeclaration(xml, m, parent).m.p) == 0
  {
    hide Spells, Newlines;
    var p, q := m.p, BeginDeclaration(xml, m, parent).m.p;
    OneNewline(xml, p, p + 1);
    if q == p + 2 {
      OneNewline(xml, p + 1, p + 2);
      NewlinesAdd(xml, p, p + 1, p + 2);
    } else if At(xml, p + 1) == '[' {
      KeywordNoNewline(xml, p, "CDATA");
      OneNewline(xml, p + 6, p + 7);
      NewlinesAdd(xml, p, p + 6, p + 7);
    } else {
      KeywordNoNewline(xml, p, "OCTYPE");
    }
  }

  lemma KeywordNoNewline(xml: CString, p: nat, word: string)
    requires p + 2 <= |xml| && At(xml, p + 1) != '\n' && (forall c <- word :: 'A' <= c <= 'Z') && Spells(xml, p + 2, word)
    ensures Newlines(xml, p, p + 1 + |word|) == 0
  {
    OneNewline(xml, p, p + 1);
    SpellsNoNewline(xml, p + 2, word);
    NewlinesAdd(xml, p, p + 1, p + 1 + |word|);
  }

  /** The bytes EF BB BF. */
  const BOM: string := [0xEF as char, 0xBB as char, 0xBF as char]

  function BomLength(xml: CString): (n: nat)
    ensures n <= |xml|
    ensures n == if ['\U{00EF}', '\U{00BB}', '\U{00BF}'] <= xml then 3 else 0
  {
    if BOM <= xml then 3 else 0
  }

  /** How a pass through the `switch` goes on. */
  datatype Control = Continue | Break | Leave | Throw

  /** The step that `control` and the new values of the variables amount to. */
  ghost function StepOf(control: Control, m: Machine): Step
  {
    match control
    case Continue => Again(m)
    case Break => Advance(m)
    case Leave => Return(m)
    case Throw => Error(m)
  }

  /** The local variables of one activation of `do_parse_xml`. */
  class Activation {
    const parser: Parser
    const parent: Option<string>
    var state: State
    var next: State
    var p: nat
    var start: nat
    var nsubs: nat
    var nbrackets: int
    var nodename: string
    var aname: string
    var attribs: Attribs

    constructor (parser: Parser, parent: Option<string>)
      ensures this.parser == parser && this.parent == parent
      ensures AsMachine() == Fresh(parser.pos, parser.events)
    {
      this.parser, this.parent := parser, parent;
      state, next := BEGIN, BEGIN;
      p, start := parser.pos, 0;
      nsubs, nbrackets := 0, 0;
      nodename, aname, attribs := "", "", map[];
    }

    ghost function AsMachine(): Machine
      reads this, parser`events
    {
      Machine(state, next, p, start, nsubs, nbrackets, nodename, aname, attribs, parser.events)
    }

    ghost predicate Ready()
      reads this, parser`events
    {
      Valid(parser.xml, AsMachine(), parent)
    }

    method Send(e: Event)
      modifies parser`events
      ensures parser.events == old(parser.events) + [e]
    {
      parser.events := parser.events + [e];
    }

    /** The `switch`, apart from the recursion in `CHILDS`. */
    method Switch(c: char) returns (control: Control)
      requires Ready() && p < |parser.xml| && c == At(parser.xml, p) && state != CHILDS
      modifies this, parser`events
      ensures StepOf(control, AsMachine()) == old(Body(parser.xml, AsMachine(), parent))
    {
      hide Body;
      if state == BEGIN_NODE {
        control := BeginNodePass(c);
      } else if state in {TAG_NAME, BODY, CLOSE} {
        control := TagPass(c);
      } else if state in {ATTRIB_NAME, EQUALS, ATTVAL_BEGIN, ATTRIB_VAL} {
        control := AttributePass(c);
      } else {
        control := TextPass(c);
      }
    }

    /** What follows the loop. */
    method Finish() returns (ok: bool)
      requires Ready() && p == |parser.xml|
      modifies this, parser`events
      ensures var o := old(AtEnd(parser.xml, AsMachine(), parent));
              ok == o.Finished? && parser.events == o.events
    {
      if state == BEGIN {
        start := p;
        state := PCDATA;
      }
      if parent.None? && state == PCDATA {
        if p != start || nsubs == 0 {
          Send(PCData(parser.xml[start..p]));
        }
        return true;
      }
      return false;
    }

    /** The states that look for the next markup or for the end of one. */
    method TextPass(c: char) returns (control: Control)
      requires Ready() && p < |parser.xml| && c == At(parser.xml, p)
      requires state in {IGNORE_SPACES, BEGIN, PCDATA, CDATA, COMMENT, DOCTYPE, HEADER, WAIT_END, WAIT_END_RET}
      modifies this, parser`events
      ensures StepOf(control, AsMachine()) == old(Body(parser.xml, AsMachine(), parent))
    {
      hide SameIgnoringCase, IsValidChar, Spells, BeginDeclaration, Rank, Lower;
      hide Valid, Rank;
      ValidBounds(parser.xml, AsMachine(), parent);
      var xml := parser.xml;
      control := Break;
      match state {
        case IGNORE_SPACES =>
          if !(c == '\n' || c == '\r' || c == '\t' || c == ' ') {
            state := next;
            control := Continue;
          }
        case BEGIN =>
          if c == '<' {
            state := IGNORE_SPACES;
            next := BEGIN_NODE;
          } else {
            start := p;
            state := PCDATA;
            control := Continue;
          }
        case PCDATA =>
          if c == '<' {
            Send(PCData(xml[start..p]));
            nsubs := nsubs + 1;
            state := IGNORE_SPACES;
            next := BEGIN_NODE;
          }
        case CDATA =>
          if c == ']' && At(xml, p + 1) == ']' && At(xml, p + 2) == '>' {
            Send(CData(xml[start..p]));
            nsubs := nsubs + 1;
            p := p + 2;
            state := BEGIN;
          }
        case COMMENT =>
          if c == '-' && At(xml, p + 1) == '-' && At(xml, p + 2) == '>' {
            Send(Comment(xml[start..p]));
            p := p + 2;
            state := BEGIN;
          }
        case DOCTYPE =>
          if c == '[' {
            nbrackets := nbrackets + 1;
          } else if c == ']' {
            nbrackets := nbrackets - 1;
          } else if c == '>' && nbrackets == 0 {
            Send(DocType(xml[start..p]));
            state := BEGIN;
          }
        case HEADER =>
          if c == '?' && At(xml, p + 1) == '>' {
            p := p + 1;
            Send(Comment(xml[start..p]));
            state := BEGIN;
          }
        case WAIT_END =>
          if c == '>' {
            Send(Done);
            state := BEGIN;
          } else {
            control := Throw;
          }
        case WAIT_END_RET =>
          if c == '>' {
            if nsubs == 0 {
              Send(PCData(""));
            }
            control := Leave;
          } else {
            control := Throw;
          }
      }
    }

    /** What follows a `<`. */
    method BeginNodePass(c: char) returns (control: Control)
      requires Ready() && p < |parser.xml| && c == At(parser.xml, p) && state == BEGIN_NODE
      modifies this
      ensures StepOf(control, AsMachine()) == old(Body(parser.xml, AsMachine(), parent))
    {
      hide BeginDeclaration, Valid, Rank;
      ValidBounds(parser.xml, AsMachine(), parent);
      control := Break;
      if c == '!' {
        control := DeclarationPass();
      } else if c == '?' {
        state := HEADER;
        start := p;
      } else if c == '/' {
        if parent.None? || |parent.value| == 0 {
          return Throw;
        }
        start := p + 1;
        state := IGNORE_SPACES;
        next := CLOSE;
      } else {
        state := TAG_NAME;
        start := p;
        control := Continue;
      }
    }

    /** What follows a `<!`: a CDATA section, a document type or a comment. */
    method DeclarationPass() returns (control: Control)
      requires Ready() && p < |parser.xml| && At(parser.xml, p) == '!' && state == BEGIN_NODE
      modifies this
      ensures StepOf(control, AsMachine()) == old(BeginDeclaration(parser.xml, AsMachine(), parent))
    {
      hide Body, Spells, Rank;
      var xml := parser.xml;
      control := Break;
      if At(xml, p + 1) == '[' {
        p := p + 2;
        if !Spells(xml, p, "CDATA") || At(xml, p + 5) != '[' {
          return Throw;
        }
        p := p + 5;
        state := CDATA;
        start := p + 1;
      } else if At(xml, p + 1) == 'D' || At(xml, p + 1) == 'd' {
        if !Spells(xml, p + 2, "OCTYPE") {
          return Throw;
        }
        p := p + 7;
        state := DOCTYPE;
        start := p + 1;
      } else {
        if At(xml, p + 1) != '-' || At(xml, p + 2) != '-' {
          return Throw;
        }
        p := p + 2;
        state := COMMENT;
        start := p + 1;
      }
    }

    /** The states inside a tag. */
    method TagPass(c: char) returns (control: Control)
      requires Ready() && p < |parser.xml| && c == At(parser.xml, p)
      requires state in {TAG_NAME, BODY, CLOSE}
      modifies this, parser`events
      ensures StepOf(control, AsMachine()) == old(Body(parser.xml, AsMachine(), parent))
    {
      hide SameIgnoringCase, IsValidChar, Spells, BeginDeclaration, Rank, Lower, Three;
      var xml := parser.xml;
      control := Break;
      match state {
        case TAG_NAME =>
          if !IsValidChar(c) {
            if p == start {
              return Throw;
            }
            nodename := xml[start..p];
            attribs := map[];
            state := IGNORE_SPACES;
            next := BODY;
            control := Continue;
          }
        case BODY =>
          if c == '/' {
            state := WAIT_END;
            nsubs := nsubs + 1;
            Send(Xml(nodename, attribs));
          } else if c == '>' {
            state := CHILDS;
            nsubs := nsubs + 1;
            Send(Xml(nodename, attribs));
          } else {
            state := ATTRIB_NAME;
            start := p;
            control := Continue;
          }
        case CLOSE =>
          if !IsValidChar(c) {
            if start == p {
              return Throw;
            }
            var v := xml[start..p];
            if !SameIgnoringCase(parent.value, v) {
              return Throw;
            }
            state := IGNORE_SPACES;
            next := WAIT_END_RET;
            control := Continue;
          }
      }
    }

    method AttributePass(c: char) returns (control: Control)
      requires Ready() && p < |parser.xml| && c == At(parser.xml, p)
      requires state in {ATTRIB_NAME, EQUALS, ATTVAL_BEGIN, ATTRIB_VAL}
      modifies this
      ensures StepOf(control, AsMachine()) == old(Body(parser.xml, AsMachine(), parent))
    {
      hide SameIgnoringCase, IsValidChar, Spells, BeginDeclaration, Rank, Lower, Three;
      var xml := parser.xml;
      control := Break;
      match state {
        case ATTRIB_NAME =>
          if !IsValidChar(c) {
            if start == p {
              return Throw;
            }
            aname := xml[start..p];
            if aname in attribs {
              return Throw;
            }
            state := IGNORE_SPACES;
            next := EQUALS;
            control := Continue;
          }
        case EQUALS =>
          if c == '=' {
            state := IGNORE_SPACES;
            next := ATTVAL_BEGIN;
          } else {
            control := Throw;
          }
        case ATTVAL_BEGIN =>
          if c == '"' || c == '\'' {
            state := ATTRIB_VAL;
            start := p;
          } else {
            control := Throw;
          }
        case ATTRIB_VAL =>
          if c == At(xml, start) {
            attribs := attribs[aname := xml[start + 1..p]];
            state := IGNORE_SPACES;
            next := BODY;
          }
      }
    }
  }

  class Parser {
    const xml: CString
    var pos: nat // `*lp`
    var line: nat // `*line`
    var events: seq<Event> // the calls made on `callb`

    constructor (xml: CString)
      ensures this.xml == xml && pos == 0 && line == 0 && events == []
    {
      this.xml := xml;
      pos, line, events := 0, 0, [];
    }

    /** Runs the machine from `pos`. `line` has then counted each newline behind `pos` that was passed, once,
        whatever the depth of recursion it was passed at. */
    method DoParseXml(parent: Option<string>) returns (ok: bool)
      requires pos <= |xml|
      modifies this
      ensures var o := Run(xml, Fresh(old(pos), old(events)), parent);
              && ok == o.Finished?
              && events == o.events
              && line == old(line) + Newlines(xml, old(pos), if ok then o.p else o.head)
              && (ok && parent.Some? ==> pos == o.p)
      decreases |xml| - pos, 1, 2
    {
      hide Run, Rank, Newlines, AtEnd, Valid, Body;
      FreshIsValid(xml, pos, events, parent);
      var a := new Activation(this, parent);
      var c := At(xml, a.p);
      ghost var from := pos;
      ghost var o := Run(xml, a.AsMachine(), parent);
      OneNewline(xml, from, from);
      while c != '\0'
        invariant fresh(a) && a.parser == this && a.parent == parent
        invariant a.p <= |xml| && a.Ready() && c == At(xml, a.p)
        invariant o == Run(xml, a.AsMachine(), parent)
        invariant from < a.p || (from == a.p && (a.state == BEGIN || a.state == PCDATA))
        invariant line == old(line) + Newlines(xml, from, a.p)
        decreases |xml| - a.p, Rank(a.AsMachine())
      {
        ghost var p := a.p;
        var control;
        control, c := Turn(a, c);
        NewlinesAdd(xml, from, p, if control == Throw then o.head else a.p);
        if control == Throw {
          return false;
        } else if control == Leave {
          pos := a.p;
          return true;
        }
      }
      RunEnd(xml, a.AsMachine(), parent);
      ok := a.Finish();
    }

    /** One turn of the loop: a pass, and the advance unless the pass ends in `continue`. */
    method Turn(a: Activation, c: char) returns (control: Control, c': char)
      requires a.parser == this && a.p < |xml| && a.Ready() && c == At(xml, a.p)
      modifies this, a
      ensures var m := old(a.AsMachine());
              var o := Run(xml, m, a.parent);
              match control
              case Throw => o.Failed? && o.events == events && line == old(line) + Newlines(xml, m.p, o.head)
              case Leave =>
                && a.p == m.p && a.parent.Some? && o == Finished(events, a.p)
                && line == old(line) + Newlines(xml, m.p, a.p)
              case _ =>
                && m.p <= a.p <= |xml| && a.Ready() && c' == At(xml, a.p) && o == Run(xml, a.AsMachine(), a.parent)
                && line == old(line) + Newlines(xml, m.p, a.p)
                && (m.p == a.p ==> Rank(a.AsMachine()) < Rank(m))
                && (m.p == a.p && (m.state == BEGIN || m.state == PCDATA) ==> a.state == PCDATA)
      decreases |xml| - a.p, if a.state == CHILDS then 2 else 1, 1
    {
      hide Run, Body, Newlines, Valid, Rank;
      ghost var p := a.p;
      OneNewline(xml, p, p);
      control := Pass(a, c);
      c' := c;
      if control == Break {
        c' := Next(a);
        NewlinesAdd(xml, p, a.p - 1, a.p);
      }
    }

    /** One pass through the loop body, before the advance. */
    method Pass(a: Activation, c: char) returns (control: Control)
      requires a.parser == this && a.p < |xml| && a.Ready() && c == At(xml, a.p)
      modifies this, a
      ensures var m := old(a.AsMachine());
              var o := Run(xml, m, a.parent);
              match control
              case Continue =>
                && a.Ready() && o == Run(xml, a.AsMachine(), a.parent)
                && a.p == m.p && Rank(a.AsMachine()) < Rank(m) && line == old(line)
                && (m.state == BEGIN || m.state == PCDATA ==> a.state == PCDATA)
              case Break =>
                && m.p <= a.p < |xml|
                && Valid(xml, a.AsMachine().(p := a.p + 1), a.parent)
                && o == Run(xml, a.AsMachine().(p := a.p + 1), a.parent)
                && line == old(line) + Newlines(xml, m.p, a.p)
              case Leave => a.p == m.p && a.parent.Some? && o == Finished(events, a.p) && line == old(line)
              case Throw => o.Failed? && o.events == events && line == old(line) + Newlines(xml, m.p, o.head)
      decreases |xml| - a.p, if a.state == CHILDS then 2 else 1, 0
    {
      hide Run, Body, Newlines, Valid;
      ghost var m := a.AsMachine();
      RunPass(xml, m, a.parent);
      OneNewline(xml, m.p, m.p);
      if a.state == CHILDS {
        FreshIsValid(xml, m.p, m.events, Some(m.nodename));
        var inner := Children(a);
        control := if inner then Break else Throw;
      } else {
        control := a.Switch(c);
        if control == Break {
          NoNewlineSkipped(xml, m, a.parent);
        }
      }
    }

    /** The `CHILDS` case: a nested activation parses the children, up to the `>` of the closing tag. */
    method Children(a: Activation) returns (ok: bool)
      requires a.parser == this && a.Ready() && a.state == CHILDS && a.p < |xml|
      modifies this, a
      ensures var m := old(a.AsMachine());
              var r := Run(xml, Fresh(m.p, m.events), Some(m.nodename));
              && ok == r.Finished?
              && events == r.events
              && line == old(line) + Newlines(xml, m.p, if ok then r.p else r.head)
              && (ok ==> a.AsMachine() == Resume(m, r).(p := r.p))
      decreases |xml| - a.p, 1, 3
    {
      hide Run, Newlines;
      pos := a.p;
      ok := DoParseXml(Some(a.nodename));
      if ok {
        a.p := pos;
        a.start := a.p;
        a.state := BEGIN;
      }
    }

    /** `c = *++p; if( c == '\n' ) (*line)++;` */
    method Next(a: Activation) returns (c: char)
      requires a.parser == this && a.p < |xml|
      modifies this`line, a`p
      ensures a.p == old(a.p) + 1 && c == At(xml, a.p)
      ensures line == old(line) + Newlines(xml, old(a.p), a.p)
    {
      a.p := a.p + 1;
      c := At(xml, a.p);
      if c == '\n' {
        line := line + 1;
      }
      OneNewline(xml, a.p - 1, a.p);
    }

    /** `parse_xml`: skips a byte order mark and parses the document. */
    method ParseXml() returns (ok: bool)
      requires pos == 0 && line == 0 && events == []
      modifies this
      ensures var o := Run(xml, Fresh(BomLength(xml), []), None);
              && ok == o.Finished?
              && events == o.events
              && line == Newlines(xml, BomLength(xml), if ok then o.p else o.head)
    {
      if At(xml, 0) == BOM[0] && At(xml, 1) == BOM[1] && At(xml, 2) == BOM[2] {
        pos := pos + 3;
      }
      ok := DoParseXml(None);
    }
  }
}
