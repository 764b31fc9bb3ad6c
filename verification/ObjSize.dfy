/** `c_objsize` of libs/objsize/c_objsize.c: measures the blocks reachable from a value by painting their
    headers blue, then repaints them from the colour log by walking the graph a second time. */
module ObjSize {
  import opened HeapGraph
  import opened Rle
  import opened Sequences
  import ColorLog
  import Header

  type Colors = map<Id, Color>

  // ---------------------------------------------------------------- what a marking walk does

  /** Everything the marking walk updates. */
  datatype Marks = Marks(color: Colors, writer: Writer, hdrs: nat, data: nat, depth: nat)

  ghost function Paint(color: Colors, ids: set<Id>): Colors
  {
    map b | b in color :: if b in ids then BLUE else color[b]
  }

  ghost function Repaint(color: Colors, target: Colors, ids: set<Id>): Colors
  {
    map b | b in color :: if b in ids && b in target then target[b] else color[b]
  }

  ghost function ColorsOf(color: Colors, bs: seq<Id>): (cs: seq<Color>)
    ensures |cs| == |bs|
  {
    seq(|bs|, i requires 0 <= i < |bs| => if bs[i] in color then color[bs[i]] else WHITE)
  }

  function Max(a: nat, b: nat): nat { if a > b then a else b }

  /** One visit: the block is counted, its colour logged, its header painted. */
  ghost function AfterVisit(h: Heap, m: Marks, v: Visit): Marks
  {
    if v.id !in m.color then m
    else Marks(m.color[v.id := BLUE], WriteSpec(m.writer, m.color[v.id]),
               m.hdrs + 1, m.data + Size(h, v.id), Max(m.depth, v.depth))
  }

  ghost function AfterVisits(h: Heap, m: Marks, vs: seq<Visit>): Marks
    decreases |vs|
  {
    if vs == [] then m else AfterVisits(h, AfterVisit(h, m, vs[0]), vs[1..])
  }

  lemma {:induction false} AfterVisitsAppend(h: Heap, m: Marks, vs: seq<Visit>, ws: seq<Visit>)
    ensures AfterVisits(h, m, vs + ws) == AfterVisits(h, AfterVisits(h, m, vs), ws)
    decreases |vs|
  {
    if vs == [] {
      assert vs + ws == ws;
    } else {
      assert (vs + ws)[1..] == vs[1..] + ws;
      AfterVisitsAppend(h, AfterVisit(h, m, vs[0]), vs[1..], ws);
    }
  }

  lemma AfterNoVisits(h: Heap, m: Marks)
    ensures AfterVisits(h, m, []) == m
  {
  }

  lemma AfterOneVisit(h: Heap, m: Marks, v: Visit)
    ensures AfterVisits(h, m, [v]) == AfterVisit(h, m, v)
  {
    assert [v][1..] == [];
  }

  ghost function BlueIn(color: Colors): set<Id>
  {
    set b | b in color && color[b] == BLUE
  }

  lemma {:induction false} AfterVisitsPaint(h: Heap, m: Marks, vs: seq<Visit>)
    requires Ids(vs) <= m.color.Keys
    ensures AfterVisits(h, m, vs).color == Paint(m.color, Ids(vs))
    ensures BlueIn(AfterVisits(h, m, vs).color) == BlueIn(m.color) + Ids(vs)
    decreases |vs|
  {
    if vs == [] {
      assert Ids(vs) == {};
      assert Paint(m.color, {}) == m.color;
    } else {
      IdsCons(vs);
      AfterVisitsPaint(h, AfterVisit(h, m, vs[0]), vs[1..]);
      assert Paint(m.color[vs[0].id := BLUE], Ids(vs[1..])) == Paint(m.color, {vs[0].id} + Ids(vs[1..]));
    }
  }

  lemma IdsCons(vs: seq<Visit>)
    requires vs != []
    ensures Ids(vs) == {vs[0].id} + Ids(vs[1..])
  {
    assert [vs[0]] + vs[1..] == vs;
    IdsAppend([vs[0]], vs[1..]);
    assert Ids([vs[0]]) == {vs[0].id} by { assert vs[0] in [vs[0]]; }
  }

  lemma {:induction false} AfterVisitsCount(h: Heap, m: Marks, vs: seq<Visit>)
    ensures AfterVisits(h, m, vs).writer.count <= m.writer.count + |vs|
    decreases |vs|
  {
    if vs != [] {
      AfterVisitsCount(h, AfterVisit(h, m, vs[0]), vs[1..]);
    }
  }

  /** What a walk over distinct blocks adds up to: each is painted and counted once, and the log gets
      their original colours in visiting order. */
  lemma {:induction false} AfterDistinctVisits(h: Heap, m: Marks, vs: seq<Visit>)
    requires Distinct(vs) && Ids(vs) <= m.color.Keys
    ensures AfterVisits(h, m, vs) ==
            Marks(Paint(m.color, Ids(vs)), WriteAll(m.writer, ColorsOf(m.color, VisitIds(vs))),
                  m.hdrs + |vs|, m.data + TotalSize(h, VisitIds(vs)), Max(m.depth, MaxDepth(vs)))
    decreases |vs|
  {
    hide WriteSpec;
    AfterVisitsPaint(h, m, vs);
    if vs == [] {
      assert VisitIds(vs) == [] && ColorsOf(m.color, []) == [];
    } else {
      var v, rest := vs[0], vs[1..];
      IdsCons(vs);
      var next := AfterVisit(h, m, v);
      AfterDistinctVisits(h, next, rest);
      assert VisitIds(vs)[1..] == VisitIds(rest);
      assert ColorsOf(next.color, VisitIds(rest)) == ColorsOf(m.color, VisitIds(rest));
      assert ColorsOf(m.color, VisitIds(vs))[1..] == ColorsOf(m.color, VisitIds(rest));
    }
  }

  // ---------------------------------------------------------------- what a restoring walk does

  /** Everything the restoring walk updates. */
  datatype Paints = Paints(color: Colors, reader: Reader)

  /** One visit: the header gets the next colour of the log. */
  ghost function AfterRead(p: Paints, b: Id): Paints
  {
    var res := ReadSpec(p.reader);
    if res.None? then p else Paints(p.color[b := res.value.0], res.value.1)
  }

  ghost function AfterReads(p: Paints, vs: seq<Visit>): Paints
    decreases |vs|
  {
    if vs == [] then p else AfterReads(AfterRead(p, vs[0].id), vs[1..])
  }

  lemma AfterNoReads(p: Paints)
    ensures AfterReads(p, []) == p
  {
  }

  lemma AfterOneRead(p: Paints, v: Visit)
    ensures AfterReads(p, [v]) == AfterRead(p, v.id)
  {
    assert [v][1..] == [];
  }

  /** The log holds a colour other than blue for each of `n` reads to come. */
  ghost predicate HasColors(r: Reader, n: nat)
    decreases n
  {
    n > 0 ==>
      var res := ReadSpec(r);
      res.Some? && res.value.0 != BLUE && HasColors(res.value.1, n - 1)
  }

  lemma {:induction false} AfterReadsAppend(p: Paints, vs: seq<Visit>, ws: seq<Visit>)
    ensures AfterReads(p, vs + ws) == AfterReads(AfterReads(p, vs), ws)
    decreases |vs|
  {
    if vs == [] {
      assert vs + ws == ws;
    } else {
      assert (vs + ws)[1..] == vs[1..] + ws;
      AfterReadsAppend(AfterRead(p, vs[0].id), vs[1..], ws);
    }
  }

  lemma {:induction false} YieldsHasColors(r: Reader, cs: seq<Color>, rest: seq<Color>)
    requires Yields(r, cs + rest) && forall c <- cs :: c != BLUE
    ensures HasColors(r, |cs|)
    decreases |cs|
  {
    if cs != [] {
      assert cs + rest == [cs[0]] + (cs[1..] + rest);
      YieldsStep(r, cs[0], cs[1..] + rest);
      assert cs[0] in cs && forall c <- cs[1..] :: c in cs;
      YieldsHasColors(ReadSpec(r).value.1, cs[1..], rest);
    }
  }

  /** When the log yields the original colours in visiting order, the walk repaints exactly its visits. */
  lemma {:induction false} AfterReadsRepaint(p: Paints, target: Colors, vs: seq<Visit>, rest: seq<Color>)
    requires Ids(vs) <= p.color.Keys && Ids(vs) <= target.Keys
    requires Yields(p.reader, ColorsOf(target, VisitIds(vs)) + rest)
    ensures AfterReads(p, vs).color == Repaint(p.color, target, Ids(vs))
    ensures Yields(AfterReads(p, vs).reader, rest)
    decreases |vs|
  {
    hide ColorsOf, Repaint, Yields, ReadSpec;
    if vs == [] {
      NothingToRepaint(p.color, target, rest);
    } else {
      var b, more := vs[0].id, vs[1..];
      IdsCons(vs);
      RepaintStep(p.color, target, vs, rest);
      YieldsStep(p.reader, target[b], ColorsOf(target, VisitIds(more)) + rest);
      AfterReadsRepaint(AfterRead(p, b), target, more, rest);
    }
  }

  lemma NothingToRepaint(color: Colors, target: Colors, rest: seq<Color>)
    ensures Ids([]) == {} && Repaint(color, target, {}) == color
    ensures ColorsOf(target, VisitIds([])) + rest == rest
  {
    assert Repaint(color, target, {}) == color;
  }

  lemma RepaintStep(color: Colors, target: Colors, vs: seq<Visit>, rest: seq<Color>)
    requires vs != [] && vs[0].id in color && vs[0].id in target
    ensures var b, more := vs[0].id, vs[1..];
            && ColorsOf(target, VisitIds(vs)) + rest == [target[b]] + (ColorsOf(target, VisitIds(more)) + rest)
            && Repaint(color[b := target[b]], target, Ids(more)) == Repaint(color, target, {b} + Ids(more))
  {
    var b, more := vs[0].id, vs[1..];
    assert ColorsOf(target, VisitIds(vs)) == [target[b]] + ColorsOf(target, VisitIds(more));
    assert Repaint(color[b := target[b]], target, Ids(more)) == Repaint(color, target, {b} + Ids(more));
  }

  lemma {:induction false} AfterReadsNotBlue(p: Paints, vs: seq<Visit>, after: nat)
    requires Ids(vs) <= p.color.Keys && HasColors(p.reader, |vs| + after)
    ensures AfterReads(p, vs).color.Keys == p.color.Keys
    ensures BlueIn(AfterReads(p, vs).color) == BlueIn(p.color) - Ids(vs)
    decreases |vs|
  {
    if vs == [] {
      assert Ids(vs) == {};
    } else {
      IdsCons(vs);
      AfterReadsNotBlue(AfterRead(p, vs[0].id), vs[1..], after);
    }
  }

  // ---------------------------------------------------------------- the two list loops and the result

  /** The elements of a list without repetitions: what the painting loop over `scan` paints. */
  ghost function Firsts(xs: seq<Id>): (r: seq<Id>)
    ensures forall b :: b in r <==> b in xs
  {
    if xs == [] then []
    else
      var before, x := Firsts(xs[..|xs| - 1]), xs[|xs| - 1];
      assert xs == xs[..|xs| - 1] + [x];
      if x in before then before else before + [x]
  }

  lemma FirstsStep(xs: seq<Id>, n: nat)
    requires n < |xs|
    ensures Firsts(xs[..n + 1]) == if xs[n] in Firsts(xs[..n]) then Firsts(xs[..n]) else Firsts(xs[..n]) + [xs[n]]
  {
    assert xs[..n + 1][..n] == xs[..n];
  }

  lemma {:induction false} FirstsPrefix(xs: seq<Id>, n: nat)
    requires n <= |xs|
    ensures Firsts(xs[..n]) <= Firsts(xs)
    decreases |xs| - n
  {
    if n == |xs| {
      assert xs[..n] == xs;
    } else {
      FirstsStep(xs, n);
      FirstsPrefix(xs, n + 1);
    }
  }

  lemma {:induction false} FirstsList(xs: seq<Id>)
    ensures Lists(Firsts(xs), SeqSet(xs))
  {
    if xs != [] {
      FirstsList(xs[..|xs| - 1]);
    }
  }

  ghost function SeqSet(xs: seq<Id>): set<Id> {
    set b | b in xs
  }

  lemma {:induction false} ListsSize(bs: seq<Id>, s: set<Id>)
    requires Lists(bs, s)
    ensures |bs| == |s|
  {
    if bs == [] {
      assert s == {};
    } else {
      assert bs[0] in s;
      assert Lists(bs[1..], s - {bs[0]});
      ListsSize(bs[1..], s - {bs[0]});
    }
  }

  lemma SubsetSize(a: set<Id>, b: set<Id>)
    requires a <= b
    ensures |a| <= |b|
  {
    assert a + (b - a) == b;
  }

  lemma ListTail(xs: seq<Id>, n: nat)
    requires n < |xs|
    ensures xs[n..][0] == xs[n] && xs[n..][1..] == xs[n + 1..]
  {
  }

  /** The colours and the log after the first `n` cells of the painting loop. */
  ghost function AfterScan(color: Colors, scanned: seq<Id>, n: nat): (Colors, Writer)
    requires n <= |scanned|
  {
    (Paint(color, SeqSet(scanned[..n])), WriteAll(Writer(WHITE, 0, []), ColorsOf(color, Firsts(scanned[..n]))))
  }

  lemma PaintScanStart(color: Colors, scanned: seq<Id>)
    ensures AfterScan(color, scanned, 0) == (color, Writer(WHITE, 0, []))
  {
    assert scanned[..0] == [] && SeqSet([]) == {} && ColorsOf(color, []) == [];
    assert Paint(color, {}) == color;
  }

  /** One cell: a block painted already changes nothing, another is logged and painted. There are fewer
      logged colours than blocks, so the repeat count cannot overflow. */
  lemma PaintScanStep(h: Heap, color: Colors, scanned: seq<Id>, n: nat)
    requires n < |scanned| && color.Keys == h.Keys && |h| <= ColorLog.INT_MAX
    requires forall b <- scanned :: b in h && color[b] != BLUE
    ensures var (c, w) := AfterScan(color, scanned, n);
            var b := scanned[n];
            if c[b] == BLUE then AfterScan(color, scanned, n + 1) == (c, w)
            else w.count < ColorLog.INT_MAX && AfterScan(color, scanned, n + 1) == (c[b := BLUE], WriteSpec(w, c[b]))
  {
    hide Firsts, Paint, ColorsOf, WriteAll, WriteSpec;
    var before, b, w := Firsts(scanned[..n]), scanned[n], Writer(WHITE, 0, []);
    FirstsStep(scanned, n);
    FirstsList(scanned[..n]);
    SeqSetSnoc(scanned, n);
    PaintOneMore(color, SeqSet(scanned[..n]), b);
    if b !in before {
      ColorsSnoc(color, before, b);
      WriteAllSnoc(w, ColorsOf(color, before), color[b]);
      WriteAllCount(w, ColorsOf(color, before));
      FirstsList(scanned[..n + 1]);
      ListsSize(before + [b], SeqSet(scanned[..n + 1]));
      SubsetSize(SeqSet(scanned[..n + 1]), h.Keys);
    }
  }

  lemma PaintOneMore(color: Colors, s: set<Id>, b: Id)
    requires b in color && color[b] != BLUE
    ensures b in Paint(color, s) && Paint(color, s + {b}) == Paint(color, s)[b := BLUE]
    ensures b in s ==> Paint(color, s)[b] == BLUE && s + {b} == s
    ensures b !in s ==> Paint(color, s)[b] == color[b]
  {
    assert Paint(color, s + {b}) == Paint(color, s)[b := BLUE];
  }

  lemma ColorsSnoc(color: Colors, bs: seq<Id>, b: Id)
    requires b in color
    ensures ColorsOf(color, bs + [b]) == ColorsOf(color, bs) + [color[b]]
  {
  }

  /** What the log yields after the first `n` cells of the restoring loop. */
  ghost function StillLogged(target: Colors, scanned: seq<Id>, n: nat, rest: seq<Color>): seq<Color>
    requires n <= |scanned|
  {
    FirstsPrefix(scanned, n);
    ColorsOf(target, Firsts(scanned)[|Firsts(scanned[..n])|..]) + rest
  }

  lemma RestoreScanStart(color: Colors, target: Colors, scanned: seq<Id>, rest: seq<Color>)
    ensures StillLogged(target, scanned, 0, rest) == ColorsOf(target, Firsts(scanned)) + rest
    ensures Repaint(color, target, SeqSet(scanned[..0])) == color
  {
    assert scanned[..0] == [] && Firsts(scanned)[0..] == Firsts(scanned);
  }

  lemma RestoreScanEnd(target: Colors, scanned: seq<Id>, n: nat, rest: seq<Color>)
    requires n == |scanned|
    ensures StillLogged(target, scanned, n, rest) == rest && scanned[..n] == scanned
  {
    assert scanned[..n] == scanned;
    assert ColorsOf(target, Firsts(scanned)[|Firsts(scanned)|..]) == [];
  }

  /** One cell: a block restored already changes nothing, another gets the next colour of the log. */
  lemma RestoreScanStep(color: Colors, target: Colors, scanned: seq<Id>, n: nat, rest: seq<Color>)
    requires n < |scanned| && color.Keys == target.Keys
    requires forall b <- scanned :: b in color && color[b] == BLUE && target[b] != BLUE
    ensures var c := Repaint(color, target, SeqSet(scanned[..n]));
            var b := scanned[n];
            && Repaint(color, target, SeqSet(scanned[..n + 1])) == c[b := target[b]]
            && (if c[b] != BLUE then c[b] == target[b] && StillLogged(target, scanned, n + 1, rest) == StillLogged(target, scanned, n, rest)
                else StillLogged(target, scanned, n, rest) == [target[b]] + StillLogged(target, scanned, n + 1, rest))
  {
    hide Firsts, ColorsOf;
    var b := scanned[n];
    SeqSetSnoc(scanned, n);
    StillLoggedStep(target, scanned, n, rest);
    FirstsList(scanned[..n]);
  }

  lemma SeqSetSnoc(xs: seq<Id>, n: nat)
    requires n < |xs|
    ensures SeqSet(xs[..n + 1]) == SeqSet(xs[..n]) + {xs[n]}
  {
    assert xs[..n + 1] == xs[..n] + [xs[n]];
  }

  /** The log holds one colour for each first occurrence. */
  lemma StillLoggedStep(target: Colors, scanned: seq<Id>, n: nat, rest: seq<Color>)
    requires n < |scanned| && forall b <- scanned :: b in target
    ensures var b := scanned[n];
            StillLogged(target, scanned, n, rest) ==
            (if b in Firsts(scanned[..n]) then [] else [target[b]]) + StillLogged(target, scanned, n + 1, rest)
  {
    hide Firsts;
    var all, before, b := Firsts(scanned), Firsts(scanned[..n]), scanned[n];
    FirstsStep(scanned, n);
    FirstsPrefix(scanned, n + 1);
    FirstsList(scanned);
    if b !in before {
      var m := |before|;
      assert all[m] == Firsts(scanned[..n + 1])[m] == b;
      assert all[m..] == [b] + all[m + 1..];
      assert ColorsOf(target, all[m..]) == [target[b]] + ColorsOf(target, all[m + 1..]);
      Associative([target[b]], ColorsOf(target, all[m + 1..]), rest);
    }
  }

  /** What `c_objsize` measures: the blocks reachable from `v` without entering an excluded block. */
  ghost function Region(h: Heap, v: Value, excluded: set<Id>): set<Id>
  {
    if IsHeapBlock(h, v) && v.id !in excluded then set b | b in h && Reachable(h, v.id, b, excluded) else {}
  }

  /** `depth`: how deep the depth-first tree goes. */
  ghost function RegionDepth(h: Heap, v: Value, excluded: set<Id>): nat
  {
    MaxDepth(Pending(h, v, excluded, 0))
  }

  lemma RegionIsTheWalk(h: Heap, v: Value, excluded: set<Id>)
    ensures Ids(Pending(h, v, excluded, 0)) == Region(h, v, excluded)
    ensures Distinct(Pending(h, v, excluded, 0))
  {
    if IsHeapBlock(h, v) && v.id !in excluded {
      WalkDistinct(h, v.id, excluded, 0);
      forall b: Id
        ensures b in Ids(Walk(h, v.id, excluded, 0)) <==> b in Region(h, v, excluded)
      {
        WalkVisitsReachable(h, v.id, excluded, 0, b);
        if Reachable(h, v.id, b, excluded) {
          var p :| IsPath(h, p, excluded) && p[0] == v.id && p[|p| - 1] == b;
          assert b in h;
        }
      }
    } else {
      assert Ids([]) == {};
    }
  }

  /** `s` holds the block of `v`, if that may be entered, and with a block all that may be entered from its
      fields; blocks of tag 251 and above are not looked into. */
  ghost predicate ClosedFrom(h: Heap, v: Value, excluded: set<Id>, s: set<Id>)
  {
    && (v.Pointer? && v.id in h && h[v.id].inHeap && v.id !in excluded ==> v.id in s)
    && (forall b, i: nat :: b in s && b in h && h[b].tag < 251 && i < |h[b].fields| ==> EntersOnly(h, h[b].fields[i], excluded, s))
  }

  ghost predicate EntersOnly(h: Heap, f: Value, excluded: set<Id>, s: set<Id>)
  {
    f.Pointer? && f.id in h && h[f.id].inHeap && f.id !in excluded ==> f.id in s
  }

  /** The region is the least set of blocks that is closed in this way. */
  lemma RegionIsLeast(h: Heap, v: Value, excluded: set<Id>)
    ensures var r := Region(h, v, excluded);
            && ClosedFrom(h, v, excluded, r)
            && (forall b <- r :: b in h && b !in excluded)
            && (forall s: set<Id> :: ClosedFrom(h, v, excluded, s) ==> r <= s)
  {
    var r := Region(h, v, excluded);
    if IsHeapBlock(h, v) && v.id !in excluded {
      assert IsPath(h, [v.id], excluded);
      forall b, i: nat | b in r && h[b].tag < 251 && i < |h[b].fields|
        ensures EntersOnly(h, h[b].fields[i], excluded, r)
      {
        var f := h[b].fields[i];
        if f.Pointer? && f.id in h && h[f.id].inHeap && f.id !in excluded {
          var p :| IsPath(h, p, excluded) && p[0] == v.id && p[|p| - 1] == b;
          assert IsPath(h, p + [f.id], excluded);
        }
      }
      forall s: set<Id>, b | ClosedFrom(h, v, excluded, s) && b in r ensures b in s {
        var p :| IsPath(h, p, excluded) && p[0] == v.id && p[|p| - 1] == b;
        PathStaysInside(h, v, excluded, s, p, |p| - 1);
      }
      forall b | b in r ensures b !in excluded {
        var p :| IsPath(h, p, excluded) && p[0] == v.id && p[|p| - 1] == b;
      }
    }
  }

  lemma {:induction false} PathStaysInside(h: Heap, v: Value, excluded: set<Id>, s: set<Id>, p: seq<Id>, i: nat)
    requires IsHeapBlock(h, v) && v.id !in excluded && ClosedFrom(h, v, excluded, s)
    requires IsPath(h, p, excluded) && p[0] == v.id && i < |p|
    ensures p[i] in s
  {
    if i > 0 {
      PathStaysInside(h, v, excluded, s, p, i - 1);
      assert Pointer(p[i]) in Scanned(h, p[i - 1]) && Scanned(h, p[i - 1]) == h[p[i - 1]].fields;
      var k :| 0 <= k < |h[p[i - 1]].fields| && h[p[i - 1]].fields[k] == Pointer(p[i]);
      assert EntersOnly(h, h[p[i - 1]].fields[k], excluded, s);
    }
  }

  ghost predicate IsGreatestDepth(vs: seq<Visit>, d: nat)
  {
    (forall x <- vs :: x.depth <= d) && exists x :: x in vs && x.depth == d
  }

  /** The depth measured is the greatest in the depth-first order of the region, counted from 0. */
  lemma RegionDepthIsGreatest(h: Heap, v: Value, excluded: set<Id>)
    ensures if Region(h, v, excluded) == {} then RegionDepth(h, v, excluded) == 0
            else v.Pointer? && exists vs: seq<Visit> ::
              && IsDepthFirst(h, v.id, excluded, 0, vs) && Ids(vs) == Region(h, v, excluded)
              && IsGreatestDepth(vs, RegionDepth(h, v, excluded))
  {
    RegionIsTheWalk(h, v, excluded);
    var walk := Pending(h, v, excluded, 0);
    MaxDepthIsGreatest(walk);
    assert walk == [] || walk[0].id in Ids(walk);
    if Region(h, v, excluded) != {} {
      DepthFirstIsTheWalk(h, v.id, excluded, 0, walk);
    }
  }

  /** No block that a run touches is blue before it: live values never are. */
  ghost predicate NoneBlue(h: Heap, color: Colors, v: Value, scanned: seq<Id>, reaching: seq<Id>)
  {
    forall b :: b in scanned || b in reaching || b in Region(h, v, SeqSet(scanned)) ==> b in color && color[b] != BLUE
  }

  /** The marking walk starts with the excluded blocks blue, and with any blue blocks it cannot meet. */
  lemma MarkingWalk(h: Heap, v: Value, excluded: set<Id>, blue: set<Id>)
    requires blue !! Region(h, v, excluded)
    ensures Pending(h, v, excluded + blue, 0) == Pending(h, v, excluded, 0)
  {
    RegionIsTheWalk(h, v, excluded);
    if IsHeapBlock(h, v) && v.id !in excluded {
      WalkSame(h, v.id, excluded, excluded + blue, 0);
    }
  }

  /** The restoring walk starts with just the measured blocks blue, and any blue blocks it cannot meet. */
  lemma RestoringWalk(h: Heap, v: Value, excluded: set<Id>, blue: set<Id>)
    requires excluded <= h.Keys && blue !! Region(h, v, excluded) && blue !! excluded
    ensures Pending(h, v, h.Keys - (blue + Region(h, v, excluded)), 0) == Pending(h, v, excluded, 0)
  {
    RegionIsTheWalk(h, v, excluded);
    var seen := h.Keys - (blue + Region(h, v, excluded));
    if IsHeapBlock(h, v) {
      if v.id !in excluded {
        ComplementWalk(h, v.id, excluded, blue, 0);
      }
    }
  }

  // ---------------------------------------------------------------- why no block may be blue before

  /** The blocks the marking walk paints: those already blue stop it like the excluded ones. */
  ghost function Marking(h: Heap, v: Value, excluded: set<Id>, blue: set<Id>): seq<Visit>
  {
    Pending(h, v, excluded + blue, 0)
  }

  /** The blocks the restoring walk enters: all that are blue by then and not restored yet. */
  ghost function Restoring(h: Heap, v: Value, excluded: set<Id>, blue: set<Id>): seq<Visit>
  {
    Pending(h, v, h.Keys - (blue + Ids(Marking(h, v, excluded, blue)) - excluded), 0)
  }

  /** How many colours are written to the log, from the excluded blocks and from the walk. */
  ghost function Writes(h: Heap, v: Value, excluded: set<Id>, blue: set<Id>): nat
  {
    |excluded - blue| + |Marking(h, v, excluded, blue)|
  }

  /** How many are read from it. */
  ghost function Reads(h: Heap, v: Value, excluded: set<Id>, blue: set<Id>): nat
  {
    |excluded| + |Restoring(h, v, excluded, blue)|
  }

  lemma RestoringCoversMarking(h: Heap, v: Value, excluded: set<Id>, blue: set<Id>)
    requires blue <= h.Keys
    ensures Ids(Marking(h, v, excluded, blue)) <= Ids(Restoring(h, v, excluded, blue))
  {
    var marked, seen := Ids(Marking(h, v, excluded, blue)), h.Keys - (blue + Ids(Marking(h, v, excluded, blue)) - excluded);
    RegionIsTheWalk(h, v, excluded + blue);
    RegionIsTheWalk(h, v, seen);
    forall b | b in marked ensures b in Region(h, v, seen) {
      var p :| IsPath(h, p, excluded + blue) && p[0] == v.id && p[|p| - 1] == b;
      PathIsMarked(h, v, excluded + blue, p);
      assert IsPath(h, p, seen);
    }
  }

  lemma PathIsMarked(h: Heap, v: Value, avoid: set<Id>, p: seq<Id>)
    requires IsHeapBlock(h, v) && IsPath(h, p, avoid) && p[0] == v.id
    ensures forall x <- p :: x in Region(h, v, avoid) && x !in avoid
  {
    forall i | 0 <= i < |p| ensures p[i] in Region(h, v, avoid) {
      var q := p[..i + 1];
      assert IsPath(h, q, avoid) && q[0] == v.id && q[|q| - 1] == p[i];
    }
  }

  /** A blue block in the region is entered by the restoring walk, or another one before it, though the
      marking walk enters none. */
  lemma {:induction false} BlueIsEntered(h: Heap, v: Value, excluded: set<Id>, blue: set<Id>, p: seq<Id>) returns (b: Id)
    requires blue <= h.Keys && IsHeapBlock(h, v)
    requires IsPath(h, p, excluded) && p[0] == v.id && p[|p| - 1] in blue
    ensures b in blue && b in Ids(Restoring(h, v, excluded, blue)) && b !in Ids(Marking(h, v, excluded, blue))
    decreases |p|
  {
    hide Marking, Restoring;
    if k :| 0 <= k < |p| - 1 && p[k] in blue {
      var q := p[..k + 1];
      assert IsPath(h, q, excluded);
      b := BlueIsEntered(h, v, excluded, blue, q);
    } else {
      b := p[|p| - 1];
      assert forall i :: 0 <= i < |p| - 1 ==> p[..|p| - 1][i] == p[i];
      FirstBlueEntered(h, v, excluded, blue, p);
    }
  }

  lemma FirstBlueEntered(h: Heap, v: Value, excluded: set<Id>, blue: set<Id>, p: seq<Id>)
    requires blue <= h.Keys && IsHeapBlock(h, v)
    requires IsPath(h, p, excluded) && p[0] == v.id && p[|p| - 1] in blue && forall x <- p[..|p| - 1] :: x !in blue
    ensures var b := p[|p| - 1]; b in Ids(Restoring(h, v, excluded, blue)) && b !in Ids(Marking(h, v, excluded, blue))
  {
    hide Pending, Region, Reachable;
    var n := |p| - 1;
    var seen := h.Keys - (blue + Ids(Marking(h, v, excluded, blue)) - excluded);
    RegionIsTheWalk(h, v, excluded + blue);
    RegionIsTheWalk(h, v, seen);
    RegionAvoids(h, v, excluded + blue);
    if n > 0 {
      assert IsPath(h, p[..n], excluded + blue);
      PathIsMarked(h, v, excluded + blue, p[..n]);
    }
    assert forall i :: 0 <= i < n ==> p[i] == p[..n][i] && p[i] in p[..n];
    assert IsPath(h, p, seen);
    PathIsMarked(h, v, seen, p);
  }

  lemma RegionAvoids(h: Heap, v: Value, avoid: set<Id>)
    ensures Region(h, v, avoid) !! avoid && Region(h, v, avoid) <= h.Keys
  {
    forall b | b in Region(h, v, avoid)
      ensures b !in avoid
    {
      var p :| IsPath(h, p, avoid) && p[0] == v.id && p[|p| - 1] == b;
    }
  }

  /** Every colour that was written is read, and no more, exactly when no excluded block and no block of
      the region is blue at the start. Otherwise the reads outnumber the writes. */
  lemma ReadsMatchWritesIff(h: Heap, v: Value, excluded: set<Id>, blue: set<Id>)
    requires blue <= h.Keys && excluded <= h.Keys
    ensures Reads(h, v, excluded, blue) >= Writes(h, v, excluded, blue)
    ensures Reads(h, v, excluded, blue) == Writes(h, v, excluded, blue) <==>
            blue !! excluded && blue !! Region(h, v, excluded)
  {
    var marking, restoring := Marking(h, v, excluded, blue), Restoring(h, v, excluded, blue);
    RegionIsTheWalk(h, v, excluded + blue);
    RegionIsTheWalk(h, v, h.Keys - (blue + Ids(marking) - excluded));
    DistinctCount(marking);
    DistinctCount(restoring);
    RestoringCoversMarking(h, v, excluded, blue);
    SubsetSize(Ids(marking), Ids(restoring));
    SubsetSize(excluded - blue, excluded);
    if b :| b in blue && b in excluded {
      SubsetSize(excluded - blue, excluded - {b});
    } else if b :| b in blue && b in Region(h, v, excluded) {
      var p :| IsPath(h, p, excluded) && p[0] == v.id && p[|p| - 1] == b;
      var c := BlueIsEntered(h, v, excluded, blue, p);
      SubsetSize(Ids(marking), Ids(restoring) - {c});
    } else {
      MarkingWalk(h, v, excluded, blue);
      RestoringWalk(h, v, excluded, blue);
      RegionIsTheWalk(h, v, excluded);
      RegionAvoids(h, v, excluded);
      assert blue + Region(h, v, excluded) - excluded == blue + Region(h, v, excluded);
      assert excluded - blue == excluded;
    }
  }

  /** A log that has yielded all it holds refuses the next read: `readbit` asserts there is a bit. */
  lemma EmptyLogRefuses(r: Reader)
    requires Yields(r, [])
    ensures ReadSpec(r).None?
  {
  }

  lemma ColorsNotBlue(color: Colors, vs: seq<Visit>)
    requires forall b <- Ids(vs) :: b in color && color[b] != BLUE
    ensures forall c <- ColorsOf(color, VisitIds(vs)) :: c != BLUE
  {
    assert forall i :: 0 <= i < |vs| ==> vs[i] in vs && vs[i].id in Ids(vs);
  }

  lemma FirstsNotBlue(color: Colors, xs: seq<Id>)
    requires forall b <- xs :: b in color && color[b] != BLUE
    ensures forall c <- ColorsOf(color, Firsts(xs)) :: c != BLUE
  {
    assert forall i :: 0 <= i < |Firsts(xs)| ==> Firsts(xs)[i] in xs;
  }

  /** A run of `c_objsize`: its inputs and the colours it starts from. */
  datatype Run = Run(h: Heap, color: Colors, v: Value, scanned: seq<Id>)
  {
    ghost predicate Valid() {
      && color.Keys == h.Keys
      && (forall b <- scanned :: b in h && color[b] != BLUE)
      && (forall b <- Measured() :: b in h && color[b] != BLUE)
    }

    ghost function Excluded(): set<Id> { SeqSet(scanned) }

    ghost function Measured(): set<Id> { Region(h, v, Excluded()) }

    ghost function Visits(): seq<Visit> { Pending(h, v, Excluded(), 0) }

    ghost function ScanColors(): seq<Color> { ColorsOf(color, Firsts(scanned)) }

    ghost function WalkColors(): seq<Color> { ColorsOf(color, VisitIds(Visits())) }

    ghost function Logged(): Writer { WriteAll(Writer(WHITE, 0, []), ScanColors() + WalkColors()) }

    /** The marking walk makes the visits of the walk that avoids the excluded blocks. */
    lemma MarkStart(painted: Colors, w: Writer)
      requires Valid() && |h| <= ColorLog.INT_MAX
      requires (painted, w) == AfterScan(color, scanned, |scanned|)
      ensures painted == Paint(color, Excluded()) && w == WriteAll(Writer(WHITE, 0, []), ScanColors())
      ensures Pending(h, v, BlueIn(painted), 0) == Visits()
      ensures w.count + |Visits()| <= ColorLog.INT_MAX
    {
      assert scanned[..|scanned|] == scanned;
      assert BlueIn(painted) == Excluded() + BlueIn(color);
      MarkingWalk(h, v, Excluded(), BlueIn(color));
      RegionIsTheWalk(h, v, Excluded());
      RegionAvoids(h, v, Excluded());
      WriteAllCount(Writer(WHITE, 0, []), ScanColors());
      FirstsList(scanned);
      ListsSize(Firsts(scanned), Excluded());
      DistinctCount(Visits());
      SubsetSize(Excluded() + Measured(), h.Keys);
    }

    /** What the marking walk leaves. */
    lemma MarkEnd(painted: Colors)
      requires Valid() && painted == Paint(color, Excluded())
      ensures var start := Marks(painted, WriteAll(Writer(WHITE, 0, []), ScanColors()), 0, 0, 0);
              AfterVisits(h, start, Visits()) ==
              Marks(Paint(painted, Measured()), Logged(), |Measured()|, TotalSize(h, VisitIds(Visits())), RegionDepth(h, v, Excluded()))
    {
      var start := Marks(painted, WriteAll(Writer(WHITE, 0, []), ScanColors()), 0, 0, 0);
      RegionIsTheWalk(h, v, Excluded());
      RegionAvoids(h, v, Excluded());
      AfterDistinctVisits(h, start, Visits());
      DistinctCount(Visits());
      assert ColorsOf(painted, VisitIds(Visits())) == WalkColors() by {
        assert forall i :: 0 <= i < |Visits()| ==> Visits()[i] in Visits() && Visits()[i].id in Ids(Visits());
      }
      WriteAllAppend(Writer(WHITE, 0, []), ScanColors(), WalkColors());
    }

    lemma TotalIsWords()
      ensures TotalSize(h, VisitIds(Visits())) == |Words(h, Measured())|
    {
      RegionIsTheWalk(h, v, Excluded());
      VisitIdsList(Visits());
      TotalSizeCounts(h, VisitIds(Visits()), Measured());
    }

    lemma Total()
      ensures forall bs: seq<Id> :: Lists(bs, Measured()) ==> TotalSize(h, VisitIds(Visits())) == TotalSize(h, bs)
    {
      RegionIsTheWalk(h, v, Excluded());
      VisitIdsList(Visits());
      forall bs: seq<Id> | Lists(bs, Measured())
        ensures TotalSize(h, VisitIds(Visits())) == TotalSize(h, bs)
      {
        TotalSizeOfSet(h, VisitIds(Visits()), bs, Measured());
      }
    }

    /** The flushed log yields the colours of the excluded blocks, then those of the walk. */
    lemma ReadBack()
      requires Valid()
      ensures Yields(Reader(WHITE, 0, FlushSpec(Logged()).bits, 0), ScanColors() + WalkColors())
    {
      RegionIsTheWalk(h, v, Excluded());
      ColorsNotBlue(color, Visits());
      FirstsNotBlue(color, scanned);
      RoundTrip(ScanColors() + WalkColors());
    }

    /** With the excluded blocks restored, the restoring walk makes the same visits once more. */
    lemma RestoreStart(restored: Colors)
      requires Valid()
      requires restored == Repaint(Paint(Paint(color, Excluded()), Measured()), color, Excluded())
      ensures restored == Paint(color, Measured())
      ensures BlueIn(restored) == BlueIn(color) + Measured()
      ensures Pending(h, v, h.Keys - BlueIn(restored), 0) == Visits() && Ids(Visits()) == Measured()
    {
      RegionAvoids(h, v, Excluded());
      RegionIsTheWalk(h, v, Excluded());
      assert restored == Paint(color, Measured());
      assert BlueIn(restored) == BlueIn(color) + Measured();
      RestoringWalk(h, v, Excluded(), BlueIn(color));
    }
  }

  lemma PaintedTwice(color: Colors, ids: set<Id>, more: set<Id>)
    ensures Paint(Paint(color, ids), more).Keys == color.Keys
    ensures forall b <- ids :: b in color ==> Paint(Paint(color, ids), more)[b] == BLUE
  {
  }

  lemma NothingLeft(r: Reader)
    requires Yields(r, [])
    ensures r.count == 0 && r.pos == |r.bits|
  {
  }

  lemma RepaintPainted(color: Colors, ids: set<Id>)
    ensures Repaint(Paint(color, ids), color, ids) == color
  {
  }

  class Walker {
    const heap: Heap
    const log: ColorLog.Log
    var header: map<Id, Header.Word>
    ghost var color: Colors // the colour bits of every header
    ghost const rest: map<Id, Header.Word> // its other bits
    var accHdrs: nat
    var accData: nat
    var accDepth: nat

    constructor (heap: Heap, header: map<Id, Header.Word>)
      requires header.Keys == heap.Keys
      ensures this.heap == heap && this.header == header && color == Header.ColorsOf(header)
      ensures color.Keys == heap.Keys && Painted() && fresh(log) && log.colors == null
    {
      this.heap, this.header := heap, header;
      color, rest := Header.ColorsOf(header), Header.RestOf(header);
      log := new ColorLog.Log();
      accHdrs, accData, accDepth := 0, 0, 0;
    }

    /** `color` is what the headers show. */
    ghost predicate Painted()
      reads this`header, this`color
    {
      Header.Show(header, color, rest)
    }

    ghost predicate Valid()
      reads this, log, log.colors
    {
      color.Keys == heap.Keys && Painted() && log.Valid()
    }

    /** `Colornum_hd(Hd_val(b))` */
    function ColorOf(b: Id): (c: Color)
      requires b in color && Painted()
      reads this`header, this`color
      ensures c == color[b]
    {
      Header.ColorOf(header[b])
    }

    /** `store_explicit(hd, b, col)` */
    method Store(b: Id, col: Color)
      requires b in color && Painted()
      modifies this`header, this`color
      ensures Painted() && color == old(color)[b := col]
    {
      hide Header.Painted, Header.Rest, Header.ColorOf;
      Header.ShowPainted(header, color, rest, b, col);
      header := header[b := Header.Painted(header[b], col)];
      color := color[b := col];
    }

    ghost function Blue(): set<Id>
      reads this`color
    {
      BlueIn(color)
    }

    ghost function State(): Marks
      requires Valid()
      reads this, log, log.colors
    {
      Marks(color, log.AsWriter(), accHdrs, accData, accDepth)
    }

    /** The marking walk has come from `start` through the visits `done`. */
    ghost predicate Marked(start: Marks, done: seq<Visit>)
      reads this, log, log.colors
    {
      && Valid()
      && State() == AfterVisits(heap, start, done)
    }

    lemma MarkedThrough(start: Marks, done: seq<Visit>, mid: Marks, more: seq<Visit>)
      requires mid == AfterVisits(heap, start, done) && Marked(mid, more)
      ensures Marked(start, done + more)
    {
      AfterVisitsAppend(heap, start, done, more);
    }

    /** The pending repeats never outnumber the logged colours. */
    lemma CountBound(start: Marks, done: seq<Visit>)
      requires Marked(start, done)
      ensures log.repeatCount <= start.writer.count + |done|
    {
      AfterVisitsCount(heap, start, done);
    }

    // ---------------------------------------------------------------- marking

    /** `c_rec_objsize` paints and counts exactly the visits of the plain depth-first walk, though it
        postpones each entry until the next block field and enters the last one by `goto`. */
    method CRecObjsize(v0: Id, depth0: nat)
      requires Valid() && v0 in heap && v0 !in Blue()
      requires log.repeatCount + |Walk(heap, v0, Blue(), depth0)| <= ColorLog.INT_MAX
      modifies this`header, this`color, this`accHdrs, this`accData, this`accDepth, log, log.colors
      ensures (log.colors == old(log.colors) || fresh(log.colors)) && log.readIndex == old(log.readIndex)
      ensures Marked(old(State()), Walk(heap, v0, old(Blue()), depth0))
      ensures Blue() == old(Blue()) + Ids(Walk(heap, v0, old(Blue()), depth0))
      decreases heap.Keys - Blue(), 1
    {
      hide Painted, Walk, WalkFields, AfterVisits;
      ghost var whole := Walk(heap, v0, Blue(), depth0);
      ghost var start := State();
      ghost var done: seq<Visit>;
      var depth, last := depth0, VAL_UNIT;
      last, done := RecEnter(v0, depth);
      while last != VAL_UNIT && ColorOf(last.id) != BLUE // `goto rec_enter`
        invariant log.colors == old(log.colors) || fresh(log.colors)
        invariant log.readIndex == old(log.readIndex)
        invariant Marked(start, done)
        invariant last != VAL_UNIT ==> IsHeapBlock(heap, last)
        invariant whole == done + Pending(heap, last, Blue(), depth + 1)
        decreases heap.Keys - Blue()
      {
        CountBound(start, done);
        ghost var mid := State();
        ghost var more: seq<Visit>;
        depth := depth + 1;
        last, more := RecEnter(last.id, depth);
        MarkedThrough(start, done, mid, more);
        Associative(done, more, Pending(heap, last, Blue(), depth + 1));
        done := done + more;
      }
      NothingPending(heap, done, last, Blue(), depth + 1);
      AfterVisitsPaint(heap, start, whole);
    }

    /** One round of `c_rec_objsize`, from `rec_enter` to the `goto`: counts the block, logs its colour,
        paints it, and walks its fields. `last` is the block left for the `goto`. */
    method RecEnter(v: Id, depth: nat) returns (last: Value, ghost done: seq<Visit>)
      requires Valid() && v in heap && v !in Blue()
      requires log.repeatCount + |Walk(heap, v, Blue(), depth)| <= ColorLog.INT_MAX
      modifies this`header, this`color, this`accHdrs, this`accData, this`accDepth, log, log.colors
      ensures (log.colors == old(log.colors) || fresh(log.colors)) && log.readIndex == old(log.readIndex)
      ensures Marked(old(State()), done) && old(Blue()) + {v} <= Blue()
      ensures last != VAL_UNIT ==> IsHeapBlock(heap, last)
      ensures Walk(heap, v, old(Blue()), depth) == done + Pending(heap, last, Blue(), depth + 1)
      decreases heap.Keys - Blue(), 0
    {
      hide Painted, WalkFields, AfterVisits;
      ghost var start := State();
      ghost var here := [Visit(v, depth)];
      Count(v, depth);
      last, done := VAL_UNIT, here;
      if heap[v].tag < NO_SCAN_TAG {
        ghost var mid := State();
        ghost var more: seq<Visit>;
        last, more := RecWalk(v, depth);
        MarkedThrough(start, here, mid, more);
        done := here + more;
        Associative(here, more, Pending(heap, last, Blue(), depth + 1));
      } else {
        WalkNoFields(heap, Scanned(heap, v), Blue(), depth + 1);
      }
    }

    /** The statements before `REC_WALK`. */
    method Count(v: Id, depth: nat)
      requires Valid() && v in heap && v !in Blue() && log.repeatCount < ColorLog.INT_MAX
      modifies this`header, this`color, this`accHdrs, this`accData, this`accDepth, log, log.colors
      ensures (log.colors == old(log.colors) || fresh(log.colors)) && log.readIndex == old(log.readIndex)
      ensures Marked(old(State()), [Visit(v, depth)]) && Blue() == old(Blue()) + {v}
      ensures log.repeatCount <= old(log.repeatCount) + 1
    {
      hide Painted;
      AfterOneVisit(heap, State(), Visit(v, depth));
      accData := accData + |heap[v].fields|;
      accHdrs := accHdrs + 1;
      if depth > accDepth {
        accDepth := depth;
      }
      var col := ColorOf(v);
      log.WriteColor(col);
      Store(v, BLUE);
    }

    /** The loop of the `REC_WALK` macro. */
    method RecWalk(v: Id, depth: nat) returns (last: Value, ghost done: seq<Visit>)
      requires Valid() && v in heap && heap[v].tag < NO_SCAN_TAG
      requires log.repeatCount + |WalkFields(heap, heap[v].fields, Blue(), depth + 1)| <= ColorLog.INT_MAX
      modifies this`header, this`color, this`accHdrs, this`accData, this`accDepth, log, log.colors
      ensures (log.colors == old(log.colors) || fresh(log.colors)) && log.readIndex == old(log.readIndex)
      ensures Marked(old(State()), done) && old(Blue()) <= Blue()
      ensures last != VAL_UNIT ==> IsHeapBlock(heap, last)
      ensures WalkFields(heap, heap[v].fields, old(Blue()), depth + 1) == done + Pending(heap, last, Blue(), depth + 1)
      decreases heap.Keys - Blue(), 3
    {
      hide Painted, Walk, WalkFields, AfterVisits;
      ghost var start := State();
      ghost var fs := heap[v].fields;
      ghost var whole := WalkFields(heap, fs, Blue(), depth + 1);
      done := [];
      last := VAL_UNIT;
      ghost var k := 0; // the fields before `k` have been walked
      var i := 0;
      assert fs[0..] == fs && [] + whole == whole;
      AfterNoVisits(heap, start);
      while i < |heap[v].fields|
        invariant k <= i <= |fs|
        invariant log.colors == old(log.colors) || fresh(log.colors)
        invariant log.readIndex == old(log.readIndex)
        invariant Marked(start, done) && old(Blue()) <= Blue()
        invariant Postponed(heap, fs, k, i, last)
        invariant whole == done + WalkFields(heap, fs[k..], Blue(), depth + 1)
      {
        var f := heap[v].fields[i];
        if IsHeapBlock(heap, f) {
          if last != VAL_UNIT {
            WalkPostponed(heap, fs, k, i, last, Blue(), depth + 1);
            CountBound(start, done);
            ghost var mid := State();
            ghost var more := RecCall(last, depth + 1);
            MarkedThrough(start, done, mid, more);
            Associative(done, more, WalkFields(heap, fs[i..], Blue(), depth + 1));
            done := done + more;
          }
          last := f;
          k := i;
        } else if last == VAL_UNIT {
          SkipNonBlocks(heap, fs, k, i + 1, Blue(), depth + 1);
          k := i + 1;
        }
        i := i + 1;
      }
      WalkEnds(heap, fs, k, last, Blue(), depth + 1);
    }

    /** The body of the macro's inner `if`: enters the postponed block unless it has been visited by now. */
    method RecCall(last: Value, depth: nat) returns (ghost more: seq<Visit>)
      requires Valid() && IsHeapBlock(heap, last)
      requires log.repeatCount + |Pending(heap, last, Blue(), depth)| <= ColorLog.INT_MAX
      modifies this`header, this`color, this`accHdrs, this`accData, this`accDepth, log, log.colors
      ensures (log.colors == old(log.colors) || fresh(log.colors)) && log.readIndex == old(log.readIndex)
      ensures more == old(Pending(heap, last, Blue(), depth))
      ensures Marked(old(State()), more) && Blue() == old(Blue()) + Ids(more)
      decreases heap.Keys - Blue(), 2
    {
      hide Painted, WalkFields, AfterVisits;
      more := Pending(heap, last, Blue(), depth);
      AfterNoVisits(heap, State());
      assert Ids([]) == {};
      if ColorOf(last.id) != BLUE {
        CRecObjsize(last.id, depth);
      }
    }

    // ---------------------------------------------------------------- restoring

    /** In the restoring walk "visited" means not blue. */
    ghost function NotBlue(): set<Id>
      reads this`color
    {
      heap.Keys - Blue()
    }

    ghost function PaintState(): Paints
      requires Valid()
      reads this, log, log.colors
    {
      Paints(color, log.AsReader())
    }

    /** The restoring walk has come from `start` through the visits `done`. */
    ghost predicate Restored(start: Paints, done: seq<Visit>)
      reads this, log, log.colors
    {
      && Valid()
      && PaintState() == AfterReads(start, done)
    }

    lemma RestoredThrough(start: Paints, done: seq<Visit>, mid: Paints, more: seq<Visit>)
      requires mid == AfterReads(start, done) && Restored(mid, more)
      ensures Restored(start, done + more)
    {
      AfterReadsAppend(start, done, more);
    }

    /** `restore_colors` repaints the visits of the depth-first walk that takes "not blue" for visited,
        with the next colours of the log in visiting order. */
    method RestoreColors(v0: Id, ghost depth0: nat, ghost after: nat)
      requires Valid() && v0 in heap && v0 !in NotBlue()
      requires HasColors(log.AsReader(), |Walk(heap, v0, NotBlue(), depth0)| + after)
      modifies this`header, this`color, log`readIndex, log`repeatCount, log`prevColor
      ensures Restored(old(PaintState()), Walk(heap, v0, old(NotBlue()), depth0))
      ensures HasColors(log.AsReader(), after)
      ensures NotBlue() == old(NotBlue()) + Ids(Walk(heap, v0, old(NotBlue()), depth0))
      decreases Blue(), 1
    {
      hide Painted, Walk, WalkFields, AfterReads, HasColors;
      ghost var whole := Walk(heap, v0, NotBlue(), depth0);
      ghost var start := PaintState();
      ghost var done: seq<Visit>;
      ghost var depth := depth0;
      var last := VAL_UNIT;
      last, done := RestoreEnter(v0, depth, after);
      while last != VAL_UNIT && ColorOf(last.id) == BLUE // `goto rec_restore`
        invariant Restored(start, done)
        invariant HasColors(log.AsReader(), |Pending(heap, last, NotBlue(), depth + 1)| + after)
        invariant last != VAL_UNIT ==> IsHeapBlock(heap, last)
        invariant whole == done + Pending(heap, last, NotBlue(), depth + 1)
        decreases Blue()
      {
        ghost var mid := PaintState();
        ghost var more: seq<Visit>;
        depth := depth + 1;
        last, more := RestoreEnter(last.id, depth, after);
        RestoredThrough(start, done, mid, more);
        Associative(done, more, Pending(heap, last, NotBlue(), depth + 1));
        done := done + more;
      }
      NothingPending(heap, done, last, NotBlue(), depth + 1);
      AfterReadsNotBlue(start, whole, after);
    }

    /** One round of `restore_colors`, from `rec_restore` to the `goto`. */
    method RestoreEnter(v: Id, ghost depth: nat, ghost after: nat) returns (last: Value, ghost done: seq<Visit>)
      requires Valid() && v in heap && v !in NotBlue()
      requires HasColors(log.AsReader(), |Walk(heap, v, NotBlue(), depth)| + after)
      modifies this`header, this`color, log`readIndex, log`repeatCount, log`prevColor
      ensures Restored(old(PaintState()), done) && Blue() <= old(Blue()) - {v}
      ensures HasColors(log.AsReader(), |Pending(heap, last, NotBlue(), depth + 1)| + after)
      ensures last != VAL_UNIT ==> IsHeapBlock(heap, last)
      ensures Walk(heap, v, old(NotBlue()), depth) == done + Pending(heap, last, NotBlue(), depth + 1)
      decreases Blue(), 0
    {
      hide Painted, WalkFields, ReadSpec;
      ghost var start := PaintState();
      ghost var here := [Visit(v, depth)];
      AfterOneRead(start, here[0]);
      var col := log.ReadColor();
      Store(v, col);
      assert NotBlue() == old(NotBlue()) + {v};
      last, done := VAL_UNIT, here;
      if heap[v].tag < NO_SCAN_TAG {
        ghost var mid := PaintState();
        ghost var more: seq<Visit>;
        last, more := RestoreWalk(v, depth, after);
        RestoredThrough(start, here, mid, more);
        done := here + more;
        Associative(here, more, Pending(heap, last, NotBlue(), depth + 1));
      } else {
        WalkNoFields(heap, Scanned(heap, v), NotBlue(), depth + 1);
      }
    }

    /** `REC_WALK` once more, with the restoring condition. */
    method RestoreWalk(v: Id, ghost depth: nat, ghost after: nat) returns (last: Value, ghost done: seq<Visit>)
      requires Valid() && v in heap && heap[v].tag < NO_SCAN_TAG
      requires HasColors(log.AsReader(), |WalkFields(heap, heap[v].fields, NotBlue(), depth + 1)| + after)
      modifies this`header, this`color, log`readIndex, log`repeatCount, log`prevColor
      ensures Restored(old(PaintState()), done) && Blue() <= old(Blue())
      ensures HasColors(log.AsReader(), |Pending(heap, last, NotBlue(), depth + 1)| + after)
      ensures last != VAL_UNIT ==> IsHeapBlock(heap, last)
      ensures WalkFields(heap, heap[v].fields, old(NotBlue()), depth + 1) ==
              done + Pending(heap, last, NotBlue(), depth + 1)
      decreases Blue(), 3
    {
      hide Painted, Walk, WalkFields, AfterReads, HasColors;
      ghost var start := PaintState();
      ghost var fs := heap[v].fields;
      ghost var whole := WalkFields(heap, fs, NotBlue(), depth + 1);
      done := [];
      last := VAL_UNIT;
      ghost var k := 0; // the fields before `k` have been walked
      var i := 0;
      assert fs[0..] == fs && [] + whole == whole;
      AfterNoReads(start);
      while i < |heap[v].fields|
        invariant k <= i <= |fs|
        invariant Restored(start, done) && Blue() <= old(Blue())
        invariant HasColors(log.AsReader(), |WalkFields(heap, fs[k..], NotBlue(), depth + 1)| + after)
        invariant Postponed(heap, fs, k, i, last)
        invariant whole == done + WalkFields(heap, fs[k..], NotBlue(), depth + 1)
      {
        var f := heap[v].fields[i];
        if IsHeapBlock(heap, f) {
          if last != VAL_UNIT {
            WalkPostponed(heap, fs, k, i, last, NotBlue(), depth + 1);
            ghost var still := WalkFields(heap, fs[i..], NotBlue() + Ids(Pending(heap, last, NotBlue(), depth + 1)), depth + 1);
            ghost var mid := PaintState();
            ghost var more := RestoreCall(last, depth + 1, |still| + after);
            RestoredThrough(start, done, mid, more);
            Associative(done, more, WalkFields(heap, fs[i..], NotBlue(), depth + 1));
            done := done + more;
          }
          last := f;
          k := i;
        } else if last == VAL_UNIT {
          SkipNonBlocks(heap, fs, k, i + 1, NotBlue(), depth + 1);
          k := i + 1;
        }
        i := i + 1;
      }
      WalkEnds(heap, fs, k, last, NotBlue(), depth + 1);
    }

    method RestoreCall(last: Value, ghost depth: nat, ghost after: nat) returns (ghost more: seq<Visit>)
      requires Valid() && IsHeapBlock(heap, last)
      requires HasColors(log.AsReader(), |Pending(heap, last, NotBlue(), depth)| + after)
      modifies this`header, this`color, log`readIndex, log`repeatCount, log`prevColor
      ensures more == old(Pending(heap, last, NotBlue(), depth))
      ensures Restored(old(PaintState()), more) && NotBlue() == old(NotBlue()) + Ids(more)
      ensures HasColors(log.AsReader(), after)
      ensures Blue() <= old(Blue())
      decreases Blue(), 2
    {
      hide Painted, WalkFields, AfterReads, HasColors;
      more := Pending(heap, last, NotBlue(), depth);
      AfterNoReads(PaintState());
      assert Ids([]) == {};
      if ColorOf(last.id) == BLUE {
        RestoreColors(last.id, depth, after);
      }
    }

    // ---------------------------------------------------------------- c_objsize

    /** The loop that paints the `scan` blocks, logging the colours of those not painted already. */
    method PaintScan(scan: Value, ghost scanned: seq<Id>)
      requires Valid() && IsList(heap, scan, scanned) && |heap| <= ColorLog.INT_MAX
      requires forall b <- scanned :: b in heap && color[b] != BLUE
      requires log.AsWriter() == Writer(WHITE, 0, [])
      modifies this`header, this`color, log, log.colors
      ensures Valid() && (log.colors == old(log.colors) || fresh(log.colors)) && log.readIndex == old(log.readIndex)
      ensures (color, log.AsWriter()) == AfterScan(old(color), scanned, |scanned|)
    {
      hide Painted, AfterScan;
      var head := scan;
      ghost var n := 0;
      assert scanned[0..] == scanned;
      PaintScanStart(color, scanned);
      while IsHeapBlock(heap, head)
        invariant Valid() && (log.colors == old(log.colors) || fresh(log.colors)) && log.readIndex == old(log.readIndex)
        invariant n <= |scanned| && IsList(heap, head, scanned[n..])
        invariant (color, log.AsWriter()) == AfterScan(old(color), scanned, n)
        decreases |scanned| - n
      {
        var b := heap[head.id].fields[0].id;
        head := heap[head.id].fields[1];
        ListTail(scanned, n);
        PaintScanStep(heap, old(color), scanned, n);
        n := n + 1;
        var col := ColorOf(b);
        if col == BLUE { continue; }
        log.WriteColor(col);
        Store(b, BLUE);
      }
    }

    /** The loop that restores the `scan` blocks, skipping those restored already. */
    method RestoreScan(scan: Value, ghost scanned: seq<Id>, ghost target: Colors, ghost rest: seq<Color>)
      requires Valid() && IsList(heap, scan, scanned) && target.Keys == heap.Keys
      requires forall b <- scanned :: b in heap && color[b] == BLUE && target[b] != BLUE
      requires Yields(log.AsReader(), ColorsOf(target, Firsts(scanned)) + rest)
      modifies this`header, this`color, log`readIndex, log`repeatCount, log`prevColor
      ensures Valid() && color == Repaint(old(color), target, SeqSet(scanned))
      ensures Yields(log.AsReader(), rest)
    {
      hide Painted, ReadSpec, Yields, StillLogged, Repaint, Paint;
      var head := scan;
      ghost var n := 0;
      assert scanned[0..] == scanned;
      RestoreScanStart(color, target, scanned, rest);
      while IsHeapBlock(heap, head)
        invariant Valid() && n <= |scanned| && IsList(heap, head, scanned[n..])
        invariant color == Repaint(old(color), target, SeqSet(scanned[..n]))
        invariant Yields(log.AsReader(), StillLogged(target, scanned, n, rest))
        decreases |scanned| - n
      {
        var b := heap[head.id].fields[0].id;
        head := heap[head.id].fields[1];
        ListTail(scanned, n);
        RestoreScanStep(old(color), target, scanned, n, rest);
        n := n + 1;
        if ColorOf(b) != BLUE { continue; }
        YieldsStep(log.AsReader(), target[b], StillLogged(target, scanned, n, rest));
        var col := log.ReadColor();
        Store(b, col);
      }
      RestoreScanEnd(target, scanned, n, rest);
    }

    /** The loop over `reach`: stops at the first blue block. */
    method FindReached(reach: Value, ghost reaching: seq<Id>) returns (reached: bool)
      requires color.Keys == heap.Keys && Painted() && IsList(heap, reach, reaching)
      ensures reached <==> exists b :: b in reaching && b in Blue()
    {
      hide Painted;
      var head := reach;
      ghost var n := 0;
      reached := false;
      assert reaching[0..] == reaching;
      while IsHeapBlock(heap, head)
        invariant n <= |reaching| && IsList(heap, head, reaching[n..])
        invariant !reached && forall i :: 0 <= i < n ==> reaching[i] !in Blue()
        decreases |reaching| - n
      {
        var b := heap[head.id].fields[0].id;
        ListTail(reaching, n);
        if ColorOf(b) == BLUE {
          reached := true;
          assert b in reaching && b in Blue();
          break;
        }
        head := heap[head.id].fields[1];
        n := n + 1;
      }
      assert !reached ==> n == |reaching|;
    }

    // ---------------------------------------------------------------- c_objsize

    /** Marks from `v` unless it is no heap block or blue already. */
    method MarkFrom(v: Value)
      requires Valid() && log.repeatCount + |Pending(heap, v, Blue(), 0)| <= ColorLog.INT_MAX
      modifies this`header, this`color, this`accHdrs, this`accData, this`accDepth, log, log.colors
      ensures (log.colors == old(log.colors) || fresh(log.colors)) && log.readIndex == old(log.readIndex)
      ensures Marked(old(State()), Pending(heap, v, old(Blue()), 0))
    {
      hide Painted;
      AfterNoVisits(heap, State());
      if IsHeapBlock(heap, v) && ColorOf(v.id) != BLUE {
        CRecObjsize(v.id, 0);
      }
    }

    /** Restores from `v` if it is a blue heap block, and leaves the log consumed. */
    method RestoreFrom(v: Value, ghost target: Colors)
      requires Valid() && target.Keys == heap.Keys
      requires forall b <- Ids(Pending(heap, v, NotBlue(), 0)) :: b in heap && target[b] != BLUE
      requires Yields(log.AsReader(), ColorsOf(target, VisitIds(Pending(heap, v, NotBlue(), 0))))
      modifies this`header, this`color, log`readIndex, log`repeatCount, log`prevColor
      ensures Valid() && color == Repaint(old(color), target, Ids(Pending(heap, v, old(NotBlue()), 0)))
      ensures Yields(log.AsReader(), [])
    {
      hide Painted, ReadSpec, ColorsOf, VisitIds, Repaint, Walk;
      ghost var vs := Pending(heap, v, NotBlue(), 0);
      ghost var cs := ColorsOf(target, VisitIds(vs));
      assert cs + [] == cs;
      ColorsNotBlue(target, vs);
      YieldsHasColors(log.AsReader(), cs, []);
      AfterReadsRepaint(PaintState(), target, vs, []);
      AfterNoReads(PaintState());
      if IsHeapBlock(heap, v) && ColorOf(v.id) == BLUE {
        RestoreColors(v.id, 0, 0);
      }
    }

    /** The first half of `c_objsize`: paints the excluded blocks, walks and counts, flushes the log. */
    method MarkPhase(v: Value, scan: Value, ghost run: Run) returns (headers: nat, data: nat, depth: nat)
      requires Valid() && |heap| <= ColorLog.INT_MAX && IsList(heap, scan, run.scanned)
      requires run.Valid() && run.h == heap && run.color == color && run.v == v
      requires log.AsWriter() == Writer(WHITE, 0, [])
      modifies this, log, log.colors
      ensures Valid() && (log.colors == old(log.colors) || fresh(log.colors)) && log.readIndex == old(log.readIndex)
      ensures color == Paint(Paint(run.color, run.Excluded()), run.Measured())
      ensures log.AsWriter() == FlushSpec(run.Logged())
      ensures headers == |run.Measured()|
      ensures data == TotalSize(heap, VisitIds(run.Visits()))
      ensures depth == RegionDepth(heap, v, run.Excluded())
    {
      hide Painted, Paint, AfterScan, AfterVisits, WriteAll, FlushSpec, Walk;
      PaintScan(scan, run.scanned);
      run.MarkStart(color, log.AsWriter());
      run.MarkEnd(color);
      accData := 0;
      accHdrs := 0;
      accDepth := 0;
      MarkFrom(v);
      headers, data, depth := accHdrs, accData, accDepth;
      log.RleWriteFlush();
    }

    /** The second half: restores the excluded blocks, looks for a `reach` block, restores the walk. */
    method RestorePhase(v: Value, scan: Value, reach: Value, ghost run: Run, ghost reaching: seq<Id>)
        returns (reached: int)
      requires Valid() && IsList(heap, scan, run.scanned) && IsList(heap, reach, reaching)
      requires run.Valid() && run.h == heap && run.v == v
      requires forall b <- reaching :: b in heap && run.color[b] != BLUE
      requires color == Paint(Paint(run.color, run.Excluded()), run.Measured())
      requires log.AsReader() == Reader(WHITE, 0, FlushSpec(run.Logged()).bits, 0)
      modifies this`header, this`color, log`readIndex, log`repeatCount, log`prevColor
      ensures Valid() && color == run.color
      ensures Yields(log.AsReader(), [])
      ensures reached == if exists b :: b in reaching && b in run.Measured() then 1 else 0
    {
      hide Painted, Paint, Repaint, Pending, FlushSpec, Yields, Region, Firsts;
      run.ReadBack();
      PaintedTwice(run.color, run.Excluded(), run.Measured());
      RestoreScan(scan, run.scanned, run.color, run.WalkColors());
      run.RestoreStart(color);
      var found := FindReached(reach, reaching);
      reached := if found then 1 else 0;
      RestoreFrom(v, run.color);
      RepaintPainted(run.color, run.Measured());
    }

    /** Measures what is reachable from `v` without entering a `scan` block, tells whether that includes a
        `reach` block, and leaves every header as it found it, bit for bit. */
    method CObjsize(v: Value, scan: Value, reach: Value, ghost scanned: seq<Id>, ghost reaching: seq<Id>)
        returns (reached: int, headers: nat, data: nat, depth: nat)
      requires color.Keys == heap.Keys && Painted() && |heap| <= ColorLog.INT_MAX && log.colors == null
      requires IsList(heap, scan, scanned) && IsList(heap, reach, reaching)
      requires NoneBlue(heap, color, v, scanned, reaching)
      modifies this, log
      ensures header == old(header) && Painted() && log.colors == null
      ensures headers == |Region(heap, v, SeqSet(scanned))|
      ensures data == |Words(heap, Region(heap, v, SeqSet(scanned)))|
      ensures forall bs: seq<Id> :: Lists(bs, Region(heap, v, SeqSet(scanned))) ==> data == TotalSize(heap, bs)
      ensures depth == RegionDepth(heap, v, SeqSet(scanned))
      ensures reached == if exists b :: b in reaching && b in Region(heap, v, SeqSet(scanned)) then 1 else 0
    {
      hide Paint, Pending, FlushSpec, TotalSize, Words, Lists, Region, Firsts, WriteAll, IsList;
      ghost var run := Run(heap, color, v, scanned);
      log.Open();
      headers, data, depth := MarkPhase(v, scan, run);
      run.Total();
      run.TotalIsWords();
      log.RleInit();
      reached := RestorePhase(v, scan, reach, run, reaching);
      NothingLeft(log.AsReader());
      assert log.repeatCount == 0 && log.readIndex == log.writeIndex; // rle_read_flush
      log.Close();
      Header.SameHeaders(header, old(header), color, rest);
    }
  }
}
