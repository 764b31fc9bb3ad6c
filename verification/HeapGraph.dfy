/** The heap graph that `c_objsize` measures and the plain depth-first walk it refines. */
module HeapGraph {

  type Id = nat

  /** A word of the heap: an immediate, or a pointer to a block. */
  datatype Value = Immediate(word: int) | Pointer(id: Id)

  /** `inHeap` stands for `Is_in_heap_or_young`; a block outside the heap still has a header. */
  datatype Block = Block(inHeap: bool, tag: nat, fields: seq<Value>)

  type Heap = map<Id, Block>

  const NO_SCAN_TAG := 251
  const VAL_UNIT := Immediate(0)

  /** `COND_BLOCK` */
  predicate IsHeapBlock(h: Heap, q: Value)
  {
    q.Pointer? && q.id in h && h[q.id].inHeap
  }

  /** The fields a walk looks into. */
  function Scanned(h: Heap, b: Id): seq<Value>
  {
    if b in h && h[b].tag < NO_SCAN_TAG then h[b].fields else []
  }

  /** `head` is an OCaml list of the blocks `xs`; cells are read with `Field(head, 0)` and `Field(head, 1)`. */
  ghost predicate IsList(h: Heap, head: Value, xs: seq<Id>)
    decreases |xs|
  {
    if xs == [] then !IsHeapBlock(h, head)
    else
      && IsHeapBlock(h, head)
      && |h[head.id].fields| >= 2
      && h[head.id].fields[0] == Pointer(xs[0]) && xs[0] in h
      && IsList(h, h[head.id].fields[1], xs[1..])
  }

  // ---------------------------------------------------------------- plain depth-first search

  /** What follows the head of a list: the next cell, or what ends it. */
  ghost function LinkTo(h: Heap, head: Value, cells: seq<Id>, i: nat): Value
    requires i <= |cells| && forall c <- cells :: c in h && |h[c].fields| >= 2
  {
    if i == 0 then head else h[cells[i - 1]].fields[1]
  }

  /** A chain of cells: the first field of each is the element, the second leads on, and no block of the
      heap ends it. */
  ghost predicate Chain(h: Heap, head: Value, xs: seq<Id>, cells: seq<Id>)
  {
    && |cells| == |xs|
    && (forall c <- cells :: c in h && |h[c].fields| >= 2 && h[c].inHeap)
    && (forall i :: 0 <= i < |xs| ==> LinkTo(h, head, cells, i) == Pointer(cells[i]))
    && (forall i :: 0 <= i < |xs| ==> h[cells[i]].fields[0] == Pointer(xs[i]) && xs[i] in h)
    && (var end := LinkTo(h, head, cells, |cells|); end.Pointer? && end.id in h ==> !h[end.id].inHeap)
  }

  /** A list of blocks is such a chain. */
  lemma {:induction false} ListIsChain(h: Heap, head: Value, xs: seq<Id>)
    ensures IsList(h, head, xs) <==> exists cells :: Chain(h, head, xs, cells)
    decreases |xs|
  {
    if xs == [] {
      assert IsList(h, head, xs) ==> Chain(h, head, xs, []);
    } else {
      if IsList(h, head, xs) {
        ListIsChain(h, h[head.id].fields[1], xs[1..]);
        var rest :| Chain(h, h[head.id].fields[1], xs[1..], rest);
        ChainGrows(h, head, xs, rest);
      }
      forall cells | Chain(h, head, xs, cells) ensures IsList(h, head, xs) {
        ChainShrinks(h, head, xs, cells);
        ListIsChain(h, h[head.id].fields[1], xs[1..]);
      }
    }
  }

  lemma ChainGrows(h: Heap, head: Value, xs: seq<Id>, rest: seq<Id>)
    requires xs != [] && IsHeapBlock(h, head) && |h[head.id].fields| >= 2
    requires h[head.id].fields[0] == Pointer(xs[0]) && xs[0] in h
    requires Chain(h, h[head.id].fields[1], xs[1..], rest)
    ensures Chain(h, head, xs, [head.id] + rest)
  {
    var cells := [head.id] + rest;
    var next := h[head.id].fields[1];
    forall c | c in cells ensures c in h && |h[c].fields| >= 2 && h[c].inHeap {
      assert c == head.id || c in rest;
    }
    forall i | 0 <= i < |xs|
      ensures LinkTo(h, head, cells, i) == Pointer(cells[i]) && h[cells[i]].fields[0] == Pointer(xs[i]) && xs[i] in h
    {
      if i > 0 {
        LinkOf(h, head, next, cells, rest, i);
        assert LinkTo(h, next, rest, i - 1) == Pointer(rest[i - 1]);
        assert xs[i] == xs[1..][i - 1] && cells[i] == rest[i - 1];
      }
    }
    LinkOf(h, head, next, cells, rest, |cells|);
  }

  lemma LinkOf(h: Heap, head: Value, next: Value, cells: seq<Id>, rest: seq<Id>, i: nat)
    requires 0 < i <= |cells| && cells[1..] == rest
    requires forall c <- cells :: c in h && |h[c].fields| >= 2
    requires forall c <- rest :: c in h && |h[c].fields| >= 2
    requires next == h[cells[0]].fields[1]
    ensures LinkTo(h, head, cells, i) == LinkTo(h, next, rest, i - 1)
  {
    if i > 1 { assert cells[i - 1] == rest[i - 2]; }
  }

  lemma ChainShrinks(h: Heap, head: Value, xs: seq<Id>, cells: seq<Id>)
    requires xs != [] && Chain(h, head, xs, cells)
    ensures IsHeapBlock(h, head) && |h[head.id].fields| >= 2
    ensures h[head.id].fields[0] == Pointer(xs[0]) && xs[0] in h
    ensures Chain(h, h[head.id].fields[1], xs[1..], cells[1..])
  {
    assert cells[0] in cells && LinkTo(h, head, cells, 0) == head;
    var rest, next := cells[1..], h[head.id].fields[1];
    forall i | 0 <= i <= |rest| ensures LinkTo(h, next, rest, i) == LinkTo(h, head, cells, i + 1) {
      LinkOf(h, head, next, cells, rest, i + 1);
    }
  }

  datatype Visit = Visit(id: Id, depth: nat)

  ghost function Ids(vs: seq<Visit>): set<Id>
  {
    set x | x in vs :: x.id
  }

  lemma IdsAppend(a: seq<Visit>, b: seq<Visit>)
    ensures Ids(a + b) == Ids(a) + Ids(b)
  {
    forall x | x in Ids(a) + Ids(b)
      ensures x in Ids(a + b)
    {
      if x in Ids(a) {
        var y :| y in a && y.id == x;
        assert y in a + b;
      } else {
        var y :| y in b && y.id == x;
        assert y in a + b;
      }
    }
  }

  /** The visits of a recursive depth-first search from `b` that treats `seen` as visited. */
  ghost function Walk(h: Heap, b: Id, seen: set<Id>, depth: nat): (vs: seq<Visit>)
    requires b in h && b !in seen
    ensures |vs| > 0 && vs[0] == Visit(b, depth) && b in Ids(vs)
    ensures Ids(vs) <= h.Keys - seen
    decreases h.Keys - seen, 0
  {
    var root := [Visit(b, depth)];
    var below := WalkFields(h, Scanned(h, b), seen + {b}, depth + 1);
    IdsAppend(root, below);
    assert root[0] in root;
    root + below
  }

  /** Each field in turn: entered when it is a heap block that has not been visited by then. */
  ghost function WalkFields(h: Heap, fs: seq<Value>, seen: set<Id>, depth: nat): (vs: seq<Visit>)
    ensures Ids(vs) <= h.Keys - seen
    decreases h.Keys - seen, |fs|
  {
    if fs == [] then []
    else if IsHeapBlock(h, fs[0]) && fs[0].id !in seen then
      var first := Walk(h, fs[0].id, seen, depth);
      var rest := WalkFields(h, fs[1..], seen + Ids(first), depth);
      IdsAppend(first, rest);
      first + rest
    else WalkFields(h, fs[1..], seen, depth)
  }

  // ---------------------------------------------------------------- every block once

  ghost predicate Distinct(vs: seq<Visit>)
  {
    forall i, j :: 0 <= i < j < |vs| ==> vs[i].id != vs[j].id
  }

  lemma DistinctAppend(a: seq<Visit>, b: seq<Visit>)
    requires Distinct(a) && Distinct(b) && Ids(a) !! Ids(b)
    ensures Distinct(a + b)
  {
    forall i, j | 0 <= i < j < |a + b|
      ensures (a + b)[i].id != (a + b)[j].id
    {
      if i < |a| <= j {
        assert a[i] in a && b[j - |a|] in b;
        assert a[i].id in Ids(a) && b[j - |a|].id in Ids(b);
      }
    }
  }

  lemma {:induction false} WalkDistinct(h: Heap, b: Id, seen: set<Id>, depth: nat)
    requires b in h && b !in seen
    ensures Distinct(Walk(h, b, seen, depth))
    decreases h.Keys - seen, 0
  {
    WalkFieldsDistinct(h, Scanned(h, b), seen + {b}, depth + 1);
    DistinctAppend([Visit(b, depth)], WalkFields(h, Scanned(h, b), seen + {b}, depth + 1));
  }

  lemma {:induction false} WalkFieldsDistinct(h: Heap, fs: seq<Value>, seen: set<Id>, depth: nat)
    ensures Distinct(WalkFields(h, fs, seen, depth))
    decreases h.Keys - seen, |fs|
  {
    if fs == [] {
    } else if IsHeapBlock(h, fs[0]) && fs[0].id !in seen {
      var first := Walk(h, fs[0].id, seen, depth);
      WalkDistinct(h, fs[0].id, seen, depth);
      WalkFieldsDistinct(h, fs[1..], seen + Ids(first), depth);
      DistinctAppend(first, WalkFields(h, fs[1..], seen + Ids(first), depth));
    } else {
      WalkFieldsDistinct(h, fs[1..], seen, depth);
    }
  }

  lemma {:induction false} DistinctCount(vs: seq<Visit>)
    requires Distinct(vs)
    ensures |Ids(vs)| == |vs|
  {
    if vs == [] {
      assert Ids(vs) == {};
    } else {
      var n := |vs| - 1;
      DistinctCount(vs[..n]);
      assert vs == vs[..n] + [vs[n]];
      IdsAppend(vs[..n], [vs[n]]);
      assert Ids([vs[n]]) == {vs[n].id} by { assert vs[n] in [vs[n]]; }
    }
  }

  // ---------------------------------------------------------------- the walk visits what can be reached

  /** A chain of scanned fields through heap blocks outside `avoid`. */
  ghost predicate IsPath(h: Heap, p: seq<Id>, avoid: set<Id>)
  {
    && |p| > 0
    && (forall i :: 0 <= i < |p| ==> p[i] in h && p[i] !in avoid)
    && (forall i :: 0 < i < |p| ==> h[p[i]].inHeap && Pointer(p[i]) in Scanned(h, p[i - 1]))
  }

  ghost predicate Reachable(h: Heap, from: Id, to: Id, avoid: set<Id>)
  {
    exists p :: IsPath(h, p, avoid) && p[0] == from && p[|p| - 1] == to
  }

  lemma ReachableSelf(h: Heap, b: Id, avoid: set<Id>)
    requires b in h && b !in avoid
    ensures Reachable(h, b, b, avoid)
  {
    assert IsPath(h, [b], avoid);
  }

  lemma ReachableStep(h: Heap, a: Id, b: Id, c: Id, avoid: set<Id>)
    requires a in h && a !in avoid && Pointer(b) in Scanned(h, a) && IsHeapBlock(h, Pointer(b))
    requires Reachable(h, b, c, avoid)
    ensures Reachable(h, a, c, avoid)
  {
    var p :| IsPath(h, p, avoid) && p[0] == b && p[|p| - 1] == c;
    assert IsPath(h, [a] + p, avoid);
  }

  /** Avoiding less reaches more. */
  lemma ReachableWeaken(h: Heap, a: Id, b: Id, avoid: set<Id>, less: set<Id>)
    requires less <= avoid && Reachable(h, a, b, avoid)
    ensures Reachable(h, a, b, less)
  {
    var p :| IsPath(h, p, avoid) && p[0] == a && p[|p| - 1] == b;
    assert IsPath(h, p, less);
  }

  lemma {:induction false} WalkIsReachable(h: Heap, b: Id, seen: set<Id>, depth: nat, c: Id)
    requires b in h && b !in seen && c in Ids(Walk(h, b, seen, depth))
    ensures Reachable(h, b, c, seen)
    decreases h.Keys - seen, 0
  {
    ReachableSelf(h, b, seen);
    if c != b {
      var below := WalkFields(h, Scanned(h, b), seen + {b}, depth + 1);
      IdsAppend([Visit(b, depth)], below);
      var f := WalkFieldsIsReachable(h, Scanned(h, b), seen + {b}, depth + 1, c);
      ReachableWeaken(h, f, c, seen + {b}, seen);
      ReachableStep(h, b, f, c, seen);
    }
  }

  lemma {:induction false} WalkFieldsIsReachable(h: Heap, fs: seq<Value>, seen: set<Id>, depth: nat, c: Id)
      returns (f: Id)
    requires c in Ids(WalkFields(h, fs, seen, depth))
    ensures Pointer(f) in fs && IsHeapBlock(h, Pointer(f)) && Reachable(h, f, c, seen)
    decreases h.Keys - seen, |fs|
  {
    if IsHeapBlock(h, fs[0]) && fs[0].id !in seen {
      var first := Walk(h, fs[0].id, seen, depth);
      IdsAppend(first, WalkFields(h, fs[1..], seen + Ids(first), depth));
      if c in Ids(first) {
        f := fs[0].id;
        WalkIsReachable(h, f, seen, depth, c);
      } else {
        f := WalkFieldsIsReachable(h, fs[1..], seen + Ids(first), depth, c);
        ReachableWeaken(h, f, c, seen + Ids(first), seen);
      }
    } else {
      f := WalkFieldsIsReachable(h, fs[1..], seen, depth, c);
    }
  }

  /** Every heap block that a block of `from` points to is in `known`. */
  ghost predicate Closed(h: Heap, from: set<Id>, known: set<Id>)
    requires from <= h.Keys
  {
    forall a, f :: a in from && f in Scanned(h, a) && IsHeapBlock(h, f) ==> f.id in known
  }

  lemma {:induction false} WalkClosed(h: Heap, b: Id, seen: set<Id>, depth: nat)
    requires b in h && b !in seen
    ensures Closed(h, Ids(Walk(h, b, seen, depth)), seen + Ids(Walk(h, b, seen, depth)))
    decreases h.Keys - seen, 0
  {
    var below := WalkFields(h, Scanned(h, b), seen + {b}, depth + 1);
    WalkFieldsClosed(h, Scanned(h, b), seen + {b}, depth + 1);
    IdsAppend([Visit(b, depth)], below);
    assert Ids([Visit(b, depth)]) == {b} by { assert Visit(b, depth) in [Visit(b, depth)]; }
  }

  lemma {:induction false} WalkFieldsClosed(h: Heap, fs: seq<Value>, seen: set<Id>, depth: nat)
    ensures Closed(h, Ids(WalkFields(h, fs, seen, depth)), seen + Ids(WalkFields(h, fs, seen, depth)))
    ensures forall f :: f in fs && IsHeapBlock(h, f) ==> f.id in seen + Ids(WalkFields(h, fs, seen, depth))
    decreases h.Keys - seen, |fs|
  {
    if fs == [] {
    } else if IsHeapBlock(h, fs[0]) && fs[0].id !in seen {
      var first := Walk(h, fs[0].id, seen, depth);
      var rest := WalkFields(h, fs[1..], seen + Ids(first), depth);
      WalkClosed(h, fs[0].id, seen, depth);
      WalkFieldsClosed(h, fs[1..], seen + Ids(first), depth);
      IdsAppend(first, rest);
    } else {
      WalkFieldsClosed(h, fs[1..], seen, depth);
    }
  }

  lemma {:induction false} PathStaysInClosed(h: Heap, p: seq<Id>, avoid: set<Id>, from: set<Id>)
    requires from <= h.Keys && Closed(h, from, avoid + from)
    requires IsPath(h, p, avoid) && p[0] in from
    ensures p[|p| - 1] in from
    decreases |p|
  {
    if |p| > 1 {
      assert IsHeapBlock(h, Pointer(p[1]));
      assert IsPath(h, p[1..], avoid);
      PathStaysInClosed(h, p[1..], avoid, from);
    }
  }

  /** The walk from `b` visits exactly the blocks reachable from `b` without entering `seen`. */
  lemma WalkVisitsReachable(h: Heap, b: Id, seen: set<Id>, depth: nat, c: Id)
    requires b in h && b !in seen
    ensures c in Ids(Walk(h, b, seen, depth)) <==> Reachable(h, b, c, seen)
  {
    var ids := Ids(Walk(h, b, seen, depth));
    if c in ids {
      WalkIsReachable(h, b, seen, depth, c);
    }
    if Reachable(h, b, c, seen) {
      var p :| IsPath(h, p, seen) && p[0] == b && p[|p| - 1] == c;
      WalkClosed(h, b, seen, depth);
      PathStaysInClosed(h, p, seen, ids);
    }
  }

  // ---------------------------------------------------------------- the restoring walk

  /** The visits depend on `seen` only through the blocks the walk meets: any larger set that holds
      none of the visited blocks gives the same walk. */
  lemma {:induction false} WalkSame(h: Heap, b: Id, seen: set<Id>, other: set<Id>, depth: nat)
    requires b in h && b !in seen && seen <= other && other !! Ids(Walk(h, b, seen, depth))
    ensures b !in other && Walk(h, b, other, depth) == Walk(h, b, seen, depth)
    decreases h.Keys - seen, 0
  {
    var below := WalkFields(h, Scanned(h, b), seen + {b}, depth + 1);
    IdsAppend([Visit(b, depth)], below);
    WalkFieldsSame(h, Scanned(h, b), seen + {b}, other + {b}, depth + 1);
  }

  lemma {:induction false} WalkFieldsSame(h: Heap, fs: seq<Value>, seen: set<Id>, other: set<Id>, depth: nat)
    requires seen <= other && other !! Ids(WalkFields(h, fs, seen, depth))
    ensures WalkFields(h, fs, other, depth) == WalkFields(h, fs, seen, depth)
    decreases h.Keys - seen, |fs|
  {
    if fs == [] {
    } else if IsHeapBlock(h, fs[0]) && fs[0].id !in seen {
      var first := Walk(h, fs[0].id, seen, depth);
      var rest := WalkFields(h, fs[1..], seen + Ids(first), depth);
      IdsAppend(first, rest);
      WalkSame(h, fs[0].id, seen, other, depth);
      WalkFieldsSame(h, fs[1..], seen + Ids(first), other + Ids(first), depth);
    } else {
      WalkFieldsSame(h, fs[1..], seen, other, depth);
    }
  }

  /** The restoring walk takes "not blue" for "visited". With the visited blocks blue, and with any `blue`
      blocks it cannot meet, it makes the same visits in the same order. */
  lemma ComplementWalk(h: Heap, b: Id, seen: set<Id>, blue: set<Id>, depth: nat)
    requires b in h && b !in seen && blue !! seen && blue !! Ids(Walk(h, b, seen, depth))
    ensures var other := h.Keys - (blue + Ids(Walk(h, b, seen, depth)));
            b !in other && Walk(h, b, other, depth) == Walk(h, b, seen, depth)
  {
    var inside := seen * h.Keys;
    WalkInside(h, b, seen, depth);
    WalkSame(h, b, inside, h.Keys - (blue + Ids(Walk(h, b, seen, depth))), depth);
  }

  /** Names outside the heap are never met. */
  lemma {:induction false} WalkInside(h: Heap, b: Id, seen: set<Id>, depth: nat)
    requires b in h && b !in seen
    ensures Walk(h, b, seen * h.Keys, depth) == Walk(h, b, seen, depth)
  {
    WalkSame(h, b, seen * h.Keys, seen, depth) by {
      WalkMeetsHeapOnly(h, b, seen * h.Keys, seen, depth);
    }
  }

  lemma WalkMeetsHeapOnly(h: Heap, b: Id, inside: set<Id>, seen: set<Id>, depth: nat)
    requires b in h && b !in seen && inside == seen * h.Keys
    ensures seen !! Ids(Walk(h, b, inside, depth))
  {
  }

  // ---------------------------------------------------------------- fields that are not blocks

  lemma WalkNoFields(h: Heap, fs: seq<Value>, seen: set<Id>, depth: nat)
    requires fs == []
    ensures WalkFields(h, fs, seen, depth) == []
  {
  }

  lemma {:induction false} SkipNonBlocks(h: Heap, fs: seq<Value>, k: nat, i: nat, seen: set<Id>, depth: nat)
    requires k <= i <= |fs| && forall j :: k <= j < i ==> !IsHeapBlock(h, fs[j])
    ensures WalkFields(h, fs[k..], seen, depth) == WalkFields(h, fs[i..], seen, depth)
    decreases i - k
  {
    if k < i {
      assert fs[k..][0] == fs[k] && fs[k..][1..] == fs[k + 1..];
      SkipNonBlocks(h, fs, k + 1, i, seen, depth);
    }
  }

  // ---------------------------------------------------------------- postponed entries

  /** The visits still to come through the block `last`. */
  ghost function Pending(h: Heap, last: Value, seen: set<Id>, depth: nat): seq<Visit>
  {
    if IsHeapBlock(h, last) && last.id !in seen then Walk(h, last.id, seen, depth) else []
  }

  lemma NothingPending(h: Heap, done: seq<Visit>, last: Value, seen: set<Id>, depth: nat)
    requires IsHeapBlock(h, last) ==> last.id in seen
    ensures done + Pending(h, last, seen, depth) == done
  {
  }

  /** `last` is field `k`, with no block between it and field `i`; or there is no `last` and `k` is `i`. */
  ghost predicate Postponed(h: Heap, fs: seq<Value>, k: nat, i: nat, last: Value)
    requires k <= i <= |fs|
  {
    if last == VAL_UNIT then k == i
    else k < i && fs[k] == last && IsHeapBlock(h, last) && forall j :: k < j < i ==> !IsHeapBlock(h, fs[j])
  }

  /** Postponing the entry of field `k` to field `i` loses nothing. */
  lemma WalkPostponed(h: Heap, fs: seq<Value>, k: nat, i: nat, last: Value, seen: set<Id>, depth: nat)
    requires k <= i <= |fs| && Postponed(h, fs, k, i, last) && last != VAL_UNIT
    ensures WalkFields(h, fs[k..], seen, depth) ==
            Pending(h, last, seen, depth) + WalkFields(h, fs[i..], seen + Ids(Pending(h, last, seen, depth)), depth)
  {
    assert fs[k..][0] == fs[k] && fs[k..][1..] == fs[k + 1..];
    SkipNonBlocks(h, fs, k + 1, i, seen + Ids(Pending(h, last, seen, depth)), depth);
    if last.id in seen {
      assert seen + Ids([]) == seen;
    }
  }

  /** After the last field only the postponed entry is left. */
  lemma WalkEnds(h: Heap, fs: seq<Value>, k: nat, last: Value, seen: set<Id>, depth: nat)
    requires k <= |fs| && Postponed(h, fs, k, |fs|, last)
    ensures WalkFields(h, fs[k..], seen, depth) == Pending(h, last, seen, depth)
  {
    if last != VAL_UNIT {
      WalkPostponed(h, fs, k, |fs|, last, seen, depth);
    }
  }

  // ---------------------------------------------------------------- depth-first order

  ghost predicate AllVisited(h: Heap, seen: set<Id>, fs: seq<Value>)
  {
    forall f :: f in fs && IsHeapBlock(h, f) ==> f.id in seen
  }

  /** `fs[i]` is the first field of `fs` that leads to an unvisited heap block, and leads to `b`. */
  ghost predicate FirstUnvisited(h: Heap, seen: set<Id>, fs: seq<Value>, i: nat, b: Id)
  {
    i < |fs| && fs[i] == Pointer(b) && IsHeapBlock(h, fs[i]) && b !in seen && AllVisited(h, seen, fs[..i])
  }

  /** When visit `k` happens, the block of visit `m` has nothing left to enter. */
  ghost predicate Complete(h: Heap, seen: set<Id>, vs: seq<Visit>, m: nat, k: nat)
    requires m < k < |vs|
  {
    AllVisited(h, seen + Ids(vs[..k]), Scanned(h, vs[m].id))
  }

  /** Visit `k` is one level below visit `j`: it enters the first unvisited field of `j`'s block, and
      everything opened since `j` lies deeper than `j` and is complete. */
  ghost predicate ChildOf(h: Heap, seen: set<Id>, vs: seq<Visit>, j: nat, k: nat)
    requires j < k < |vs|
  {
    && vs[k].depth == vs[j].depth + 1
    && (exists i :: FirstUnvisited(h, seen + Ids(vs[..k]), Scanned(h, vs[j].id), i, vs[k].id))
    && (forall m :: j < m < k ==> vs[m].depth > vs[j].depth && Complete(h, seen, vs, m, k))
  }

  /** The same for a visit at the top of a walk over the fields `fs`. */
  ghost predicate TopLevel(h: Heap, seen: set<Id>, fs: seq<Value>, depth: nat, vs: seq<Visit>, k: nat)
    requires k < |vs|
  {
    && vs[k].depth == depth
    && (exists i :: FirstUnvisited(h, seen + Ids(vs[..k]), fs, i, vs[k].id))
    && (forall m :: 0 <= m < k ==> vs[m].depth >= depth && Complete(h, seen, vs, m, k))
  }

  /** The walk is depth first: every later visit is a child of an earlier one. */
  lemma {:induction false} WalkIsDepthFirst(h: Heap, b: Id, seen: set<Id>, depth: nat, k: nat) returns (j: nat)
    requires b in h && b !in seen && 0 < k < |Walk(h, b, seen, depth)|
    ensures j < k && ChildOf(h, seen, Walk(h, b, seen, depth), j, k)
    decreases h.Keys - seen, 0
  {
    hide ChildOf, TopLevel, WalkFields;
    var root := [Visit(b, depth)];
    var below := WalkFields(h, Scanned(h, b), seen + {b}, depth + 1);
    var parent := WalkFieldsDepthFirst(h, Scanned(h, b), seen + {b}, depth + 1, k - 1);
    RootIds(b, depth);
    if parent == -1 {
      UnderRoot(h, seen, b, depth, below, k);
    } else {
      InRest(h, seen, root, below, parent, k);
    }
    j := parent + 1;
  }

  lemma RootIds(b: Id, depth: nat)
    ensures Ids([Visit(b, depth)]) == {b}
  {
    assert [Visit(b, depth)][0] in [Visit(b, depth)];
  }

  /** A visit at the top of the walk over the root's fields is a child of the root. */
  lemma UnderRoot(h: Heap, seen: set<Id>, b: Id, depth: nat, below: seq<Visit>, k: nat)
    requires 0 < k <= |below|
    requires TopLevel(h, seen + {b}, Scanned(h, b), depth + 1, below, k - 1)
    ensures ChildOf(h, seen, [Visit(b, depth)] + below, 0, k)
  {
    hide AllVisited;
    var root := [Visit(b, depth)];
    var vs := root + below;
    RootIds(b, depth);
    SeenInRest(seen, root, below, k);
    forall m | 0 < m < k
      ensures vs[m].depth > vs[0].depth && Complete(h, seen, vs, m, k)
    {
      SeenInRest(seen, root, below, m);
      assert Complete(h, seen + {b}, below, m - 1, k - 1);
    }
    var i :| FirstUnvisited(h, seen + {b} + Ids(below[..k - 1]), Scanned(h, b), i, below[k - 1].id);
    assert FirstUnvisited(h, seen + Ids(vs[..k]), Scanned(h, vs[0].id), i, vs[k].id);
  }

  /** `-1` stands for the top level. */
  lemma {:induction false} WalkFieldsDepthFirst(h: Heap, fs: seq<Value>, seen: set<Id>, depth: nat, k: nat)
      returns (j: int)
    requires k < |WalkFields(h, fs, seen, depth)|
    ensures -1 <= j < k
    ensures j == -1 ==> TopLevel(h, seen, fs, depth, WalkFields(h, fs, seen, depth), k)
    ensures j >= 0 ==> ChildOf(h, seen, WalkFields(h, fs, seen, depth), j, k)
    decreases h.Keys - seen, |fs|
  {
    hide ChildOf, Complete;
    var vs := WalkFields(h, fs, seen, depth);
    if IsHeapBlock(h, fs[0]) && fs[0].id !in seen {
      var first := Walk(h, fs[0].id, seen, depth);
      var rest := WalkFields(h, fs[1..], seen + Ids(first), depth);
      if k == 0 {
        j := -1;
        assert vs[..0] == [];
        assert FirstUnvisited(h, seen + Ids(vs[..0]), fs, 0, vs[0].id);
      } else if k < |first| {
        j := WalkIsDepthFirst(h, fs[0].id, seen, depth, k);
        InFirst(h, seen, first, rest, j, k);
      } else {
        j := WalkFieldsDepthFirst(h, fs[1..], seen + Ids(first), depth, k - |first|);
        WalkDepths(h, fs[0].id, seen, depth);
        WalkClosed(h, fs[0].id, seen, depth);
        if j == -1 {
          TopInRest(h, seen, first, rest, fs, depth, k);
        } else {
          InRest(h, seen, first, rest, j, k);
          j := j + |first|;
        }
      }
    } else {
      j := WalkFieldsDepthFirst(h, fs[1..], seen, depth, k);
      if j == -1 {
        var i :| FirstUnvisited(h, seen + Ids(vs[..k]), fs[1..], i, vs[k].id);
        FirstUnvisitedCons(h, seen + Ids(vs[..k]), fs, i, vs[k].id);
      }
    }
  }

  ghost predicate HasParent(h: Heap, seen: set<Id>, vs: seq<Visit>, k: nat)
    requires k < |vs|
  {
    exists j: nat :: j < k && ChildOf(h, seen, vs, j, k)
  }

  /** A visit sequence that starts at `b`, goes on depth first, and leaves nothing to enter. */
  ghost predicate IsDepthFirst(h: Heap, b: Id, seen: set<Id>, depth: nat, vs: seq<Visit>)
  {
    && vs != [] && vs[0] == Visit(b, depth)
    && (forall k :: 0 < k < |vs| ==> HasParent(h, seen, vs, k))
    && (forall m :: 0 <= m < |vs| ==> AllVisited(h, seen + Ids(vs), Scanned(h, vs[m].id)))
  }

  lemma WalkMeetsTheRules(h: Heap, b: Id, seen: set<Id>, depth: nat)
    requires b in h && b !in seen
    ensures IsDepthFirst(h, b, seen, depth, Walk(h, b, seen, depth))
  {
    var walk := Walk(h, b, seen, depth);
    forall k | 0 < k < |walk|
      ensures HasParent(h, seen, walk, k)
    {
      var j := WalkIsDepthFirst(h, b, seen, depth, k);
    }
    WalkClosed(h, b, seen, depth);
    forall m | 0 <= m < |walk|
      ensures AllVisited(h, seen + Ids(walk), Scanned(h, walk[m].id))
    {
      assert walk[m] in walk;
    }
  }

  /** These rules determine the visits, so they define the walk without its recursion. */
  lemma DepthFirstIsTheWalk(h: Heap, b: Id, seen: set<Id>, depth: nat, vs: seq<Visit>)
    requires b in h && b !in seen
    ensures IsDepthFirst(h, b, seen, depth, vs) <==> vs == Walk(h, b, seen, depth)
  {
    WalkMeetsTheRules(h, b, seen, depth);
    if IsDepthFirst(h, b, seen, depth, vs) {
      SameVisits(h, b, seen, depth, vs, Walk(h, b, seen, depth));
    }
  }

  lemma SameVisits(h: Heap, b: Id, seen: set<Id>, depth: nat, vs: seq<Visit>, ws: seq<Visit>)
    requires IsDepthFirst(h, b, seen, depth, vs) && IsDepthFirst(h, b, seen, depth, ws)
    ensures vs == ws
  {
    var n := if |vs| < |ws| then |vs| else |ws|;
    SamePrefix(h, b, seen, depth, vs, ws, n);
    NoMoreVisits(h, b, seen, depth, vs, ws, n);
    NoMoreVisits(h, b, seen, depth, ws, vs, n);
    assert vs == vs[..n] && ws == ws[..n];
  }

  lemma {:induction false} SamePrefix(h: Heap, b: Id, seen: set<Id>, depth: nat, vs: seq<Visit>, ws: seq<Visit>, n: nat)
    requires IsDepthFirst(h, b, seen, depth, vs) && IsDepthFirst(h, b, seen, depth, ws)
    requires n <= |vs| && n <= |ws|
    ensures vs[..n] == ws[..n]
  {
    hide HasParent, AllVisited;
    if n > 0 {
      var k := n - 1;
      SamePrefix(h, b, seen, depth, vs, ws, k);
      if k > 0 {
        SameVisit(h, seen, vs, ws, k);
      }
      assert vs[..n] == vs[..k] + [vs[k]] && ws[..n] == ws[..k] + [ws[k]];
    }
  }

  /** The next visit is determined by the visits so far: its parent is the last one not complete. */
  lemma SameVisit(h: Heap, seen: set<Id>, vs: seq<Visit>, ws: seq<Visit>, k: nat)
    requires k < |vs| && k < |ws| && vs[..k] == ws[..k]
    requires HasParent(h, seen, vs, k) && HasParent(h, seen, ws, k)
    ensures vs[k] == ws[k]
  {
    var i: nat :| i < k && ChildOf(h, seen, vs, i, k);
    var j: nat :| j < k && ChildOf(h, seen, ws, j, k);
    LaterParent(h, seen, vs, ws, i, j, k);
    LaterParent(h, seen, ws, vs, j, i, k);
    SameFirstUnvisited(h, seen + Ids(vs[..k]), Scanned(h, vs[i].id), vs[k].id, ws[k].id);
  }

  lemma LaterParent(h: Heap, seen: set<Id>, vs: seq<Visit>, ws: seq<Visit>, i: nat, j: nat, k: nat)
    requires i < k < |vs| && j < k < |ws| && vs[..k] == ws[..k]
    requires ChildOf(h, seen, vs, i, k) && ChildOf(h, seen, ws, j, k)
    ensures vs[i] == ws[i] && j <= i
  {
    assert vs[i] == vs[..k][i] == ws[i] && vs[j] == vs[..k][j] == ws[j];
    assert !Complete(h, seen, ws, j, k);
    assert Complete(h, seen, vs, j, k) == Complete(h, seen, ws, j, k);
  }

  lemma SameFirstUnvisited(h: Heap, seen: set<Id>, fs: seq<Value>, b: Id, c: Id)
    requires exists i :: FirstUnvisited(h, seen, fs, i, b)
    requires exists i :: FirstUnvisited(h, seen, fs, i, c)
    ensures b == c
  {
    var i: nat :| FirstUnvisited(h, seen, fs, i, b);
    var j: nat :| FirstUnvisited(h, seen, fs, j, c);
    assert forall m :: 0 <= m < i ==> fs[m] in fs[..i];
    assert forall m :: 0 <= m < j ==> fs[m] in fs[..j];
  }

  lemma NoMoreVisits(h: Heap, b: Id, seen: set<Id>, depth: nat, vs: seq<Visit>, ws: seq<Visit>, n: nat)
    requires IsDepthFirst(h, b, seen, depth, vs) && IsDepthFirst(h, b, seen, depth, ws)
    requires 0 < n <= |vs| && n <= |ws| && vs[..n] == ws[..n]
    ensures n == |vs| ==> n == |ws|
  {
    if n < |ws| {
      assert HasParent(h, seen, ws, n);
      var j: nat :| j < n && ChildOf(h, seen, ws, j, n);
      assert vs[j] == vs[..n][j] == ws[j];
      assert !AllVisited(h, seen + Ids(vs[..n]), Scanned(h, vs[j].id));
      assert vs[..|vs|] == vs;
    }
  }

  lemma FirstUnvisitedCons(h: Heap, seen: set<Id>, fs: seq<Value>, i: nat, b: Id)
    requires fs != [] && FirstUnvisited(h, seen, fs[1..], i, b)
    requires IsHeapBlock(h, fs[0]) ==> fs[0].id in seen
    ensures FirstUnvisited(h, seen, fs, i + 1, b)
  {
    assert fs[..i + 1] == [fs[0]] + fs[1..][..i];
  }

  lemma InFirst(h: Heap, seen: set<Id>, first: seq<Visit>, rest: seq<Visit>, j: nat, k: nat)
    requires j < k < |first| && ChildOf(h, seen, first, j, k)
    ensures ChildOf(h, seen, first + rest, j, k)
  {
    assert (first + rest)[..k] == first[..k];
    forall m | j < m < k
      ensures Complete(h, seen, first + rest, m, k)
    {
      assert Complete(h, seen, first, m, k);
    }
  }

  lemma SeenInRest(seen: set<Id>, first: seq<Visit>, rest: seq<Visit>, k: nat)
    requires |first| <= k <= |first + rest|
    ensures seen + Ids((first + rest)[..k]) == seen + Ids(first) + Ids(rest[..k - |first|])
  {
    assert (first + rest)[..k] == first + rest[..k - |first|];
    IdsAppend(first, rest[..k - |first|]);
  }

  lemma InRest(h: Heap, seen: set<Id>, first: seq<Visit>, rest: seq<Visit>, j: nat, k: nat)
    requires j < k - |first| < |rest| && ChildOf(h, seen + Ids(first), rest, j, k - |first|)
    ensures ChildOf(h, seen, first + rest, j + |first|, k)
  {
    SeenInRest(seen, first, rest, k);
    forall m | j + |first| < m < k
      ensures (first + rest)[m].depth > rest[j].depth && Complete(h, seen, first + rest, m, k)
    {
      assert Complete(h, seen + Ids(first), rest, m - |first|, k - |first|);
    }
  }

  lemma TopInRest(h: Heap, seen: set<Id>, first: seq<Visit>, rest: seq<Visit>, fs: seq<Value>, depth: nat, k: nat)
    requires fs != [] && |first| <= k < |first + rest|
    requires Ids(first) <= h.Keys && Closed(h, Ids(first), seen + Ids(first))
    requires IsHeapBlock(h, fs[0]) ==> fs[0].id in seen + Ids(first)
    requires forall x <- first :: x.depth >= depth
    requires TopLevel(h, seen + Ids(first), fs[1..], depth, rest, k - |first|)
    ensures TopLevel(h, seen, fs, depth, first + rest, k)
  {
    var vs := first + rest;
    SeenInRest(seen, first, rest, k);
    var i :| FirstUnvisited(h, seen + Ids(vs[..k]), fs[1..], i, vs[k].id);
    FirstUnvisitedCons(h, seen + Ids(vs[..k]), fs, i, vs[k].id);
    forall m | 0 <= m < k
      ensures vs[m].depth >= depth && Complete(h, seen, vs, m, k)
    {
      if m < |first| {
        assert first[m] in first;
      } else {
        assert Complete(h, seen + Ids(first), rest, m - |first|, k - |first|);
      }
    }
  }

  lemma {:induction false} WalkDepths(h: Heap, b: Id, seen: set<Id>, depth: nat)
    requires b in h && b !in seen
    ensures forall x <- Walk(h, b, seen, depth) :: x.depth >= depth
    decreases h.Keys - seen, 0
  {
    WalkFieldsDepths(h, Scanned(h, b), seen + {b}, depth + 1);
  }

  lemma {:induction false} WalkFieldsDepths(h: Heap, fs: seq<Value>, seen: set<Id>, depth: nat)
    ensures forall x <- WalkFields(h, fs, seen, depth) :: x.depth >= depth
    decreases h.Keys - seen, |fs|
  {
    if fs == [] {
    } else if IsHeapBlock(h, fs[0]) && fs[0].id !in seen {
      var first := Walk(h, fs[0].id, seen, depth);
      WalkDepths(h, fs[0].id, seen, depth);
      WalkFieldsDepths(h, fs[1..], seen + Ids(first), depth);
    } else {
      WalkFieldsDepths(h, fs[1..], seen, depth);
    }
  }

  // ---------------------------------------------------------------- totals

  function Size(h: Heap, b: Id): nat
  {
    if b in h then |h[b].fields| else 0
  }

  function TotalSize(h: Heap, bs: seq<Id>): nat
  {
    if bs == [] then 0 else Size(h, bs[0]) + TotalSize(h, bs[1..])
  }

  /** The words of the blocks of `s`, each named by its block and its place in it. */
  ghost function Words(h: Heap, s: set<Id>): (ws: set<(Id, nat)>)
    ensures forall b: Id, i: nat :: (b, i) in ws <==> b in s && b in h && i < |h[b].fields|
  {
    set b, i: nat | b in s && b in h && i < |h[b].fields| :: (b, i)
  }

  lemma {:induction false} RowSize(b: Id, n: nat, row: set<(Id, nat)>)
    requires forall w :: w in row <==> w.0 == b && w.1 < n
    ensures |row| == n
  {
    if n == 0 {
      assert row == {};
    } else {
      RowSize(b, n - 1, row - {(b, n - 1)});
    }
  }

  /** A total of sizes is the number of words. */
  lemma {:induction false} TotalSizeCounts(h: Heap, bs: seq<Id>, s: set<Id>)
    requires Lists(bs, s)
    ensures TotalSize(h, bs) == |Words(h, s)|
    decreases |bs|
  {
    if bs == [] {
      assert Words(h, s) == {};
    } else {
      var b := bs[0];
      var rest := Words(h, s - {b});
      var row := Words(h, {b});
      TotalSizeCounts(h, bs[1..], s - {b}) by { RemoveListed(bs, 0, s); assert bs[..0] + bs[1..] == bs[1..]; }
      RowSize(b, Size(h, b), row);
      assert b in s && Words(h, s) == row + rest && row !! rest;
    }
  }

  /** `bs` lists the blocks of `s`, each once, in some order. */
  ghost predicate Lists(bs: seq<Id>, s: set<Id>)
  {
    && (forall i, j :: 0 <= i < j < |bs| ==> bs[i] != bs[j])
    && (forall b :: b in bs <==> b in s)
  }

  lemma {:induction false} TotalSizeRemove(h: Heap, bs: seq<Id>, i: nat)
    requires i < |bs|
    ensures TotalSize(h, bs) == Size(h, bs[i]) + TotalSize(h, bs[..i] + bs[i + 1..])
  {
    if i == 0 {
      assert bs[..0] + bs[1..] == bs[1..];
    } else {
      TotalSizeRemove(h, bs[1..], i - 1);
      assert (bs[..i] + bs[i + 1..])[1..] == bs[1..][..i - 1] + bs[1..][i..];
    }
  }

  lemma ListsNothing(xs: seq<Id>, bs: seq<Id>, s: set<Id>)
    requires Lists(xs, s) && Lists(bs, s) && xs == []
    ensures bs == []
  {
    var b := if |bs| > 0 then bs[0] else 0;
    assert bs == [] || b in bs;
  }

  /** The total does not depend on the order of listing. */
  lemma {:induction false} TotalSizeOfSet(h: Heap, xs: seq<Id>, bs: seq<Id>, s: set<Id>)
    requires Lists(xs, s) && Lists(bs, s)
    ensures TotalSize(h, xs) == TotalSize(h, bs)
    decreases |xs|
  {
    if xs == [] {
      ListsNothing(xs, bs, s);
    } else {
      assert xs[0] in xs;
      var i :| 0 <= i < |bs| && bs[i] == xs[0];
      var fewer := bs[..i] + bs[i + 1..];
      TotalSizeRemove(h, bs, i);
      assert Lists(xs[1..], s - {xs[0]});
      assert Lists(fewer, s - {xs[0]}) by { RemoveListed(bs, i, s); }
      TotalSizeOfSet(h, xs[1..], fewer, s - {xs[0]});
    }
  }

  lemma RemoveListed(bs: seq<Id>, i: nat, s: set<Id>)
    requires i < |bs| && Lists(bs, s)
    ensures Lists(bs[..i] + bs[i + 1..], s - {bs[i]})
  {
    var fewer := bs[..i] + bs[i + 1..];
    forall b | b in s - {bs[i]}
      ensures b in fewer
    {
      var j :| 0 <= j < |bs| && bs[j] == b;
      assert b == fewer[if j < i then j else j - 1];
    }
  }

  ghost function VisitIds(vs: seq<Visit>): (bs: seq<Id>)
    ensures |bs| == |vs| && forall i :: 0 <= i < |vs| ==> bs[i] == vs[i].id
  {
    seq(|vs|, i requires 0 <= i < |vs| => vs[i].id)
  }

  lemma VisitIdsList(vs: seq<Visit>)
    requires Distinct(vs)
    ensures Lists(VisitIds(vs), Ids(vs))
  {
    forall b | b in Ids(vs)
      ensures b in VisitIds(vs)
    {
      var i :| 0 <= i < |vs| && vs[i].id == b;
      assert VisitIds(vs)[i] == b;
    }
  }

  ghost function MaxDepth(vs: seq<Visit>): nat
  {
    if vs == [] then 0
    else
      var rest := MaxDepth(vs[1..]);
      if vs[0].depth > rest then vs[0].depth else rest
  }

  lemma {:induction false} MaxDepthIsGreatest(vs: seq<Visit>)
    ensures forall x <- vs :: x.depth <= MaxDepth(vs)
    ensures if vs == [] then MaxDepth(vs) == 0 else exists x :: x in vs && x.depth == MaxDepth(vs)
  {
    if vs != [] {
      MaxDepthIsGreatest(vs[1..]);
      assert vs == [vs[0]] + vs[1..];
      assert vs[0] in vs;
      if vs[1..] != [] {
        var x :| x in vs[1..] && x.depth == MaxDepth(vs[1..]);
        assert x in vs;
      }
    }
  }
}
