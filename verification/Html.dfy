/** HTML escaping: std/StringTools.hx, lines 158 to 204. */
module Html {
  import opened Sequences

  // ---------------------------------------------------------------- split and join

  /** `split`: cut at every leftmost occurrence of the delimiter; `cur` is the piece begun before `s`. */
  function Split(s: string, delim: string, cur: string): seq<string>
    requires delim != ""
    decreases |s|
  {
    if |s| < |delim| then [cur + s]
    else if delim <= s then [cur] + Split(s[|delim|..], delim, "")
    else Split(s[1..], delim, cur + [s[0]])
  }

  function Join(parts: seq<string>, sep: string): string
  {
    if parts == [] then "" else if |parts| == 1 then parts[0] else parts[0] + sep + Join(parts[1..], sep)
  }

  function Replace(s: string, sub: string, ins: string): string
    requires sub != ""
  {
    Join(Split(s, sub, ""), ins)
  }

  lemma {:induction false} SplitNonEmpty(s: string, delim: string, cur: string)
    requires delim != ""
    ensures Split(s, delim, cur) != []
    decreases |s|
  {
    if |s| >= |delim| && !(delim <= s) { SplitNonEmpty(s[1..], delim, cur + [s[0]]); }
  }

  lemma {:induction false} PieceBegun(s: string, sub: string, ins: string, cur: string)
    requires sub != ""
    ensures Join(Split(s, sub, cur), ins) == cur + Replace(s, sub, ins)
    decreases |s|
  {
    if |s| < |sub| {
      assert "" + s == s;
    } else if sub <= s {
      var rest := Split(s[|sub|..], sub, "");
      SplitNonEmpty(s[|sub|..], sub, "");
      assert ([cur] + rest)[1..] == rest && ([""] + rest)[1..] == rest;
      assert cur + ins + Join(rest, ins) == cur + ("" + ins + Join(rest, ins));
    } else {
      PieceBegun(s[1..], sub, ins, cur + [s[0]]);
      PieceBegun(s[1..], sub, ins, "" + [s[0]]);
      assert cur + [s[0]] + Replace(s[1..], sub, ins) == cur + ("" + [s[0]] + Replace(s[1..], sub, ins));
    }
  }

  /** Replacing goes through a string from the left. */
  lemma ReplaceStep(s: string, sub: string, ins: string)
    requires sub != ""
    ensures s == "" ==> Replace(s, sub, ins) == ""
    ensures sub <= s ==> Replace(s, sub, ins) == ins + Replace(s[|sub|..], sub, ins)
    ensures s != "" && !(sub <= s) ==> Replace(s, sub, ins) == [s[0]] + Replace(s[1..], sub, ins)
  {
    if sub <= s {
      var rest := Split(s[|sub|..], sub, "");
      SplitNonEmpty(s[|sub|..], sub, "");
      assert ([""] + rest)[1..] == rest;
      assert "" + ins + Join(rest, ins) == ins + Join(rest, ins);
    } else if s != "" {
      PieceBegun(s[1..], sub, ins, [s[0]]);
      assert "" + [s[0]] == [s[0]];
      if |s| < |sub| { assert [s[0]] + s[1..] == s; }
    }
  }

  /** `join` undoes `split`. */
  lemma {:induction false} JoinUndoesSplit(s: string, sub: string)
    requires sub != ""
    ensures Join(Split(s, sub, ""), sub) == s
    decreases |s|
  {
    ReplaceStep(s, sub, sub);
    if sub <= s {
      JoinUndoesSplit(s[|sub|..], sub);
    } else if s != "" {
      JoinUndoesSplit(s[1..], sub);
    }
  }

  // ---------------------------------------------------------------- escaping

  const SPECIAL: set<char> := {'&', '<', '>', '"', '\''}

  function Entity(c: char): string
    requires c in SPECIAL
  {
    match c
    case '&' => "&amp;"
    case '<' => "&lt;"
    case '>' => "&gt;"
    case '"' => "&quot;"
    case _ => "&#039;"
  }

  function Token(c: char, active: set<char>): string
    requires active <= SPECIAL
  {
    if c in active then Entity(c) else [c]
  }

  /** `s` with the characters of `active` written as entities. */
  function Escaped(s: string, active: set<char>): string
    requires active <= SPECIAL
  {
    if s == "" then "" else Token(s[0], active) + Escaped(s[1..], active)
  }

  function Active(quotes: bool): set<char>
  {
    if quotes then SPECIAL else {'&', '<', '>'}
  }

  method HtmlEscape(s: string, quotes: bool) returns (buf: string)
    ensures buf == Escaped(s, Active(quotes))
    ensures '<' !in buf && '>' !in buf && (quotes ==> '"' !in buf && '\'' !in buf)
  {
    NoMarkup(s, quotes);
    buf := "";
    for i := 0 to |s|
      invariant buf == Escaped(s[..i], Active(quotes))
    {
      var code := s[i];
      EscapedSnoc(s[..i], code, Active(quotes));
      assert s[..i + 1] == s[..i] + [code];
      hide Escaped;
      if code == '&' {
        buf := buf + "&amp;";
      } else if code == '<' {
        buf := buf + "&lt;";
      } else if code == '>' {
        buf := buf + "&gt;";
      } else if code == '"' && quotes {
        buf := buf + "&quot;";
      } else if code == '\'' && quotes {
        buf := buf + "&#039;";
      } else {
        buf := buf + [code];
      }
    }
    assert s[..|s|] == s;
  }

  /** What each character becomes. */
  lemma EscapedCharacter(c: char, quotes: bool)
    ensures Escaped([c], Active(quotes)) ==
            if c == '&' then "&amp;" else if c == '<' then "&lt;" else if c == '>' then "&gt;"
            else if c == '"' && quotes then "&quot;" else if c == '\'' && quotes then "&#039;" else [c]
  {
    var t := Token(c, Active(quotes));
    assert [c][1..] == "" && t + "" == t;
  }

  /** Characters are escaped one by one. */
  lemma {:induction false} EscapedAppend(s: string, t: string, active: set<char>)
    requires active <= SPECIAL
    ensures Escaped(s + t, active) == Escaped(s, active) + Escaped(t, active)
  {
    if s == "" {
      assert s + t == t;
    } else {
      assert (s + t)[1..] == s[1..] + t;
      EscapedAppend(s[1..], t, active);
      Associative(Token(s[0], active), Escaped(s[1..], active), Escaped(t, active));
    }
  }

  lemma {:induction false} EscapedSnoc(s: string, c: char, active: set<char>)
    requires active <= SPECIAL
    ensures Escaped(s + [c], active) == Escaped(s, active) + Token(c, active)
  {
    if s == "" {
      assert (s + [c])[1..] == "";
    } else {
      assert (s + [c])[1..] == s[1..] + [c];
      EscapedSnoc(s[1..], c, active);
    }
  }

  function HtmlUnescape(s: string): string
  {
    Replace(Replace(Replace(Replace(Replace(s, "&gt;", ">"), "&lt;", "<"), "&quot;", "\""), "&#039;", "'"), "&amp;", "&")
  }

  /** Entities differ in their second character, and only their first one is an ampersand. */
  lemma EntitiesDiffer(c: char, x: char)
    requires c in SPECIAL && x in SPECIAL && c != x
    ensures |Entity(c)| > 1 && |Entity(x)| > 1 && Entity(c)[1] != Entity(x)[1]
    ensures Entity(x)[0] == '&' && '&' !in Entity(c)[1..]
  {
  }

  lemma {:induction false} PlainStays(u: string, rest: string, sub: string, ins: string)
    requires sub != "" && sub[0] == '&' && '&' !in u
    ensures Replace(u + rest, sub, ins) == u + Replace(rest, sub, ins)
  {
    if u == "" {
      assert u + rest == rest;
    } else {
      var s := u + rest;
      assert s[1..] == u[1..] + rest && s[0] == u[0] && u[0] in u;
      assert !(sub <= s);
      ReplaceStep(s, sub, ins);
      PlainStays(u[1..], rest, sub, ins);
      assert [u[0]] + (u[1..] + Replace(rest, sub, ins)) == u + Replace(rest, sub, ins);
    }
  }

  /** The entity of another character is no match, and neither is anything inside it. */
  lemma OtherEntityStays(c: char, x: char, rest: string, ins: string)
    requires c in SPECIAL && x in SPECIAL && c != x
    ensures Replace(Entity(c) + rest, Entity(x), ins) == Entity(c) + Replace(rest, Entity(x), ins)
  {
    EntitiesDiffer(c, x);
    var t := Entity(c);
    hide Entity;
    var s := t + rest;
    assert s[1] == t[1] && s[1..] == t[1..] + rest;
    assert !(Entity(x) <= s);
    ReplaceStep(s, Entity(x), ins);
    PlainStays(t[1..], rest, Entity(x), ins);
    assert [t[0]] + (t[1..] + Replace(rest, Entity(x), ins)) == t + Replace(rest, Entity(x), ins);
  }

  /** One pass takes back one kind of entity and touches nothing else, as long as ampersands are escaped. */
  lemma {:induction false} PassUndoes(s: string, active: set<char>, x: char)
    requires '&' in active && active <= SPECIAL && x in SPECIAL
    ensures Replace(Escaped(s, active), Entity(x), [x]) == Escaped(s, active - {x})
  {
    hide Replace;
    var e := Escaped(s, active);
    ReplaceStep(e, Entity(x), [x]);
    if s != "" {
      var c, rest := s[0], Escaped(s[1..], active);
      PassUndoes(s[1..], active, x);
      if c !in active {
        EntitiesDiffer(if x == '<' then '>' else '<', x);
        assert '&' !in [c] by { assert c != '&'; }
        PlainStays([c], rest, Entity(x), [x]);
      } else if c != x {
        OtherEntityStays(c, x, rest, [x]);
      } else {
        assert e[|Entity(x)|..] == rest;
      }
    }
  }

  lemma {:induction false} NothingActive(s: string)
    ensures Escaped(s, {}) == s
  {
    if s != "" { NothingActive(s[1..]); }
  }

  /** Unescaping undoes escaping, with or without quotes: the five passes take the entities back one kind
      after the other, and ampersands last. */
  lemma RoundTrip(s: string, quotes: bool)
    ensures HtmlUnescape(Escaped(s, Active(quotes))) == s
  {
    hide Replace, Escaped;
    var a := Active(quotes);
    var b := a - {'>'};
    var c := b - {'<'};
    var d := c - {'"'};
    var e := d - {'\''};
    PassUndoes(s, a, '>');
    PassUndoes(s, b, '<');
    PassUndoes(s, c, '"');
    PassUndoes(s, d, '\'');
    PassUndoes(s, e, '&');
    assert e - {'&'} == {};
    NothingActive(s);
  }

  /** The result of escaping holds no angle brackets, and no quotes where they are escaped too. */
  lemma {:induction false} NoMarkup(s: string, quotes: bool)
    ensures var e := Escaped(s, Active(quotes));
            '<' !in e && '>' !in e && (quotes ==> '"' !in e && '\'' !in e)
  {
    if s != "" { NoMarkup(s[1..], quotes); }
  }

  predicate BeginsEntity(s: string)
  {
    "&amp;" <= s || "&lt;" <= s || "&gt;" <= s || "&quot;" <= s || "&#039;" <= s
  }

  predicate OnlyInEntities(s: string)
  {
    forall i :: 0 <= i < |s| && s[i] == '&' ==> BeginsEntity(s[i..])
  }

  /** Every ampersand in it begins an entity. */
  lemma {:induction false} AmpersandsBeginEntities(s: string, quotes: bool)
    ensures OnlyInEntities(Escaped(s, Active(quotes)))
  {
    var active := Active(quotes);
    if s != "" {
      AmpersandsBeginEntities(s[1..], quotes);
      assert '&' in active;
      hide BeginsEntity, OnlyInEntities, Token, Active;
      InFront(s[0], active, Escaped(s[1..], active));
    }
  }

  lemma InFront(c: char, active: set<char>, rest: string)
    requires '&' in active && active <= SPECIAL && OnlyInEntities(rest)
    ensures OnlyInEntities(Token(c, active) + rest)
  {
    var t := Token(c, active);
    var s := t + rest;
    TokenBegins(c, active, rest);
    hide BeginsEntity, Token;
    forall i | 0 <= i < |s| && s[i] == '&' ensures BeginsEntity(s[i..]) {
      if i >= |t| {
        assert rest[i - |t|] == '&' && s[i..] == rest[i - |t|..];
      }
    }
  }

  /** In a token only the first character can be an ampersand, and then it begins an entity. */
  lemma TokenBegins(c: char, active: set<char>, rest: string)
    requires '&' in active && active <= SPECIAL
    ensures var s := Token(c, active) + rest; s[0] == '&' ==> BeginsEntity(s[0..])
    ensures forall i :: 0 < i < |Token(c, active)| ==> Token(c, active)[i] != '&'
  {
    var t := Token(c, active);
    assert (t + rest)[0..] == t + rest;
  }
}
