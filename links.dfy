/** Directed links between 8-neighbours. A link is one object held both in
    its source's `outlinks` and in its target's `inlinks`; as values, the
    two copies are kept equal by updating both. `LinksOk` is the invariant
    that the linking operation maintains. */
module Links {
  import opened Catalog
  import opened Nodes

  /** `b` is one of the eight cells around `a`. */
  predicate Adjacent(a: Coord, b: Coord) {
    a != b && -1 <= a.x - b.x <= 1 && -1 <= a.y - b.y <= 1
  }

  // --------------------------------------------------- searching link lists

  /** Index of the first link to `t`, or `|ls|` when there is none. */
  function TargetIndex(ls: seq<Link>, t: Coord): (i: nat)
    ensures i <= |ls|
    ensures i < |ls| ==> ls[i].target == t
    ensures forall k :: 0 <= k < i ==> ls[k].target != t
    decreases |ls|
  {
    if ls == [] then 0 else if ls[0].target == t then 0 else 1 + TargetIndex(ls[1..], t)
  }

  /** Index of the first link from `s`, or `|ls|` when there is none. */
  function SourceIndex(ls: seq<Link>, s: Coord): (i: nat)
    ensures i <= |ls|
    ensures i < |ls| ==> ls[i].source == s
    ensures forall k :: 0 <= k < i ==> ls[k].source != s
    decreases |ls|
  {
    if ls == [] then 0 else if ls[0].source == s then 0 else 1 + SourceIndex(ls[1..], s)
  }

  /** Index of the first link equal to `x` (as Python's `list.remove`
      finds it), or `|ls|`. */
  function FirstIndex(ls: seq<Link>, x: Link): (i: nat)
    ensures i <= |ls|
    ensures i < |ls| ==> ls[i] == x
    ensures forall k :: 0 <= k < i ==> ls[k] != x
    ensures i == |ls| <==> x !in ls
    decreases |ls|
  {
    if ls == [] then 0 else if ls[0] == x then 0 else 1 + FirstIndex(ls[1..], x)
  }

  /** The loop of `link` that looks for an existing outgoing link to `t`. */
  method FindTarget(ls: seq<Link>, t: Coord) returns (i: nat)
    ensures i == TargetIndex(ls, t)
  {
    i := 0;
    while i < |ls| && ls[i].target != t
      invariant i <= |ls|
      invariant forall k :: 0 <= k < i ==> ls[k].target != t
    {
      i := i + 1;
    }
    TargetIndexIsFirst(ls, t, i);
  }

  /** The loop of `link` that looks for a reverse link from `s`. */
  method FindSource(ls: seq<Link>, s: Coord) returns (i: nat)
    ensures i == SourceIndex(ls, s)
  {
    i := 0;
    while i < |ls| && ls[i].source != s
      invariant i <= |ls|
      invariant forall k :: 0 <= k < i ==> ls[k].source != s
    {
      i := i + 1;
    }
    SourceIndexIsFirst(ls, s, i);
  }

  lemma TargetIndexIsFirst(ls: seq<Link>, t: Coord, i: nat)
    requires i <= |ls| && (i < |ls| ==> ls[i].target == t)
    requires forall k :: 0 <= k < i ==> ls[k].target != t
    ensures TargetIndex(ls, t) == i
  {
  }

  lemma SourceIndexIsFirst(ls: seq<Link>, s: Coord, i: nat)
    requires i <= |ls| && (i < |ls| ==> ls[i].source == s)
    requires forall k :: 0 <= k < i ==> ls[k].source != s
    ensures SourceIndex(ls, s) == i
  {
  }

  // ---------------------------------------------------- editing link lists

  function RemoveAt(ls: seq<Link>, i: nat): (r: seq<Link>)
    requires i < |ls|
    ensures |r| == |ls| - 1
    ensures forall k :: 0 <= k < |r| ==> r[k] == if k < i then ls[k] else ls[k + 1]
  {
    ls[..i] + ls[i + 1..]
  }

  function ReplaceFirst(ls: seq<Link>, x: Link, y: Link): seq<Link> {
    var i := FirstIndex(ls, x);
    if i < |ls| then ls[i := y] else ls
  }

  function RemoveFirst(ls: seq<Link>, x: Link): seq<Link> {
    var i := FirstIndex(ls, x);
    if i < |ls| then RemoveAt(ls, i) else ls
  }

  /** The shared link object `l`, seen from both endpoints, now reads `l'`. */
  function ReplaceLink(g: Grid, l: Link, l': Link): Grid {
    var g1 := if l.source in g then g[l.source := g[l.source].(outlinks := ReplaceFirst(g[l.source].outlinks, l, l'))] else g;
    if l.target in g1 then g1[l.target := g1[l.target].(inlinks := ReplaceFirst(g1[l.target].inlinks, l, l'))] else g1
  }

  /** Link `l` is removed from both endpoints' lists. */
  function DropLink(g: Grid, l: Link): Grid {
    var g1 := if l.source in g then g[l.source := g[l.source].(outlinks := RemoveFirst(g[l.source].outlinks, l))] else g;
    if l.target in g1 then g1[l.target := g1[l.target].(inlinks := RemoveFirst(g1[l.target].inlinks, l))] else g1
  }

  /** Link `l` is appended to both endpoints' lists. */
  function AddLink(g: Grid, l: Link): Grid {
    var g1 := if l.source in g then g[l.source := g[l.source].(outlinks := g[l.source].outlinks + [l])] else g;
    if l.target in g1 then g1[l.target := g1[l.target].(inlinks := g1[l.target].inlinks + [l])] else g1
  }

  function Tag(g: Grid, c: Coord, e: Event): Grid {
    if c in g then g[c := g[c].(lastevent := SetEvent(g[c].lastevent, e))] else g
  }

  // ------------------------------------------------------------ invariant

  predicate DistinctTargets(ls: seq<Link>) {
    forall i, j :: 0 <= i < j < |ls| ==> ls[i].target != ls[j].target
  }

  predicate DistinctSources(ls: seq<Link>) {
    forall i, j :: 0 <= i < j < |ls| ==> ls[i].source != ls[j].source
  }

  /** Every outgoing link of `c` starts at `c`, ends at a neighbour that
      exists, and is among that neighbour's incoming links. */
  ghost predicate OutOk(g: Grid, c: Coord)
    requires c in g
  {
    forall l :: l in g[c].outlinks ==>
      l.source == c && Adjacent(c, l.target) && l.target in g && l in g[l.target].inlinks
  }

  /** Every incoming link of `c` ends at `c` and is among its source's
      outgoing links. */
  ghost predicate InOk(g: Grid, c: Coord)
    requires c in g
  {
    forall l :: l in g[c].inlinks ==> l.target == c && l.source in g && l in g[l.source].outlinks
  }

  /** The link structure of a grid: both copies of every link agree, links
      join distinct 8-neighbours, and a node has at most one link to (and
      at most one link from) any other node. */
  ghost predicate LinksOk(g: Grid) {
    forall c {:trigger NodeOk(g, c)} :: c in g ==> NodeOk(g, c)
  }

  ghost predicate NodeOk(g: Grid, c: Coord)
    requires c in g
  {
    OutOk(g, c) && InOk(g, c) && DistinctTargets(g[c].outlinks) && DistinctSources(g[c].inlinks)
  }

  /** Two grids with the same nodes and the same links at every node. */
  predicate SameLinks(g: Grid, g': Grid) {
    g.Keys == g'.Keys &&
    forall c :: c in g ==> g'[c].outlinks == g[c].outlinks && g'[c].inlinks == g[c].inlinks
  }

  /** Changing anything but links (owners, types, power, events) keeps the
      link structure intact. */
  lemma LinksOkTransfer(g: Grid, g': Grid)
    requires LinksOk(g) && SameLinks(g, g')
    ensures LinksOk(g')
  {
    forall c | c in g' ensures NodeOk(g', c) {
      assert NodeOk(g, c);
    }
  }

  // ------------------------------------------ preserving the invariant

  lemma UniqueByTarget(ls: seq<Link>, i: nat)
    requires DistinctTargets(ls) && i < |ls|
    ensures forall k :: 0 <= k < |ls| && k != i ==> ls[k] != ls[i]
  {
    forall k | 0 <= k < |ls| && k != i ensures ls[k] != ls[i] {
      if k < i { assert ls[k].target != ls[i].target; } else { assert ls[i].target != ls[k].target; }
    }
  }

  lemma UniqueBySource(ls: seq<Link>, i: nat)
    requires DistinctSources(ls) && i < |ls|
    ensures forall k :: 0 <= k < |ls| && k != i ==> ls[k] != ls[i]
  {
    forall k | 0 <= k < |ls| && k != i ensures ls[k] != ls[i] {
      if k < i { assert ls[k].source != ls[i].source; } else { assert ls[i].source != ls[k].source; }
    }
  }

  lemma ReplaceMembers(ls: seq<Link>, i: nat, y: Link)
    requires i < |ls| && forall k :: 0 <= k < |ls| && k != i ==> ls[k] != ls[i]
    ensures ListChange(ls[i := y], ls, Some(ls[i]), Some(y))
  {
    var r := ls[i := y];
    forall m ensures m in r <==> Some(m) == Some(y) || (m in ls && Some(m) != Some(ls[i])) {
      if m in ls && m != ls[i] {
        var k :| 0 <= k < |ls| && ls[k] == m;
        assert r[k] == m;
      }
      if m == y {
        assert r[i] == y;
      }
      if m in r && m != y {
        var k :| 0 <= k < |r| && r[k] == m;
        assert ls[k] == m;
      }
    }
  }

  lemma RemoveMembers(ls: seq<Link>, i: nat)
    requires i < |ls| && forall k :: 0 <= k < |ls| && k != i ==> ls[k] != ls[i]
    ensures ListChange(RemoveAt(ls, i), ls, Some(ls[i]), None)
  {
    var r := RemoveAt(ls, i);
    forall m ensures m in r <==> m in ls && Some(m) != Some(ls[i]) {
      if m in ls && m != ls[i] {
        var k :| 0 <= k < |ls| && ls[k] == m;
        if k < i { assert r[k] == m; } else { assert r[k - 1] == m; }
      }
      if m in r {
        var k :| 0 <= k < |r| && r[k] == m;
        if k < i { assert ls[k] == m; } else { assert ls[k + 1] == m; }
      }
    }
  }

  lemma AppendMembers(ls: seq<Link>, y: Link)
    ensures ListChange(ls + [y], ls, None, Some(y))
  {
  }

  /** `ls'` holds, as far as membership goes, `ls` without `gone` and with
      `added`. */
  ghost predicate ListChange(ls': seq<Link>, ls: seq<Link>, gone: Option<Link>, added: Option<Link>) {
    forall m :: m in ls' <==> Some(m) == added || (m in ls && Some(m) != gone)
  }

  /** `x` at node `a`, nothing elsewhere. */
  function At(c: Coord, a: Coord, x: Option<Link>): Option<Link> {
    if c == a then x else None
  }

  /** The general step: if the outgoing lists change only at `a` (losing
      `gone`, gaining `added`) and the incoming lists only at `b` in the same
      way, the mirror and adjacency parts of the invariant carry over. */
  lemma Rewire(g: Grid, g': Grid, a: Coord, b: Coord, gone: Option<Link>, added: Option<Link>)
    requires LinksOk(g) && g'.Keys == g.Keys
    requires forall c :: c in g ==> ListChange(g'[c].outlinks, g[c].outlinks, At(c, a, gone), At(c, a, added))
    requires forall c :: c in g ==> ListChange(g'[c].inlinks, g[c].inlinks, At(c, b, gone), At(c, b, added))
    requires gone.Some? ==> gone.value.source == a && gone.value.target == b
    requires added.Some? ==> added.value.source == a && added.value.target == b && Adjacent(a, b) && a in g && b in g
    requires forall c :: c in g ==> DistinctTargets(g'[c].outlinks) && DistinctSources(g'[c].inlinks)
    ensures LinksOk(g')
  {
    forall c | c in g' ensures NodeOk(g', c) {
      assert NodeOk(g, c);
      assert ListChange(g'[c].outlinks, g[c].outlinks, At(c, a, gone), At(c, a, added));
      assert ListChange(g'[c].inlinks, g[c].inlinks, At(c, b, gone), At(c, b, added));
      forall m | m in g'[c].outlinks
        ensures m.source == c && Adjacent(c, m.target) && m.target in g' && m in g'[m.target].inlinks
      {
        var t := m.target;
        if Some(m) != At(c, a, added) {
          assert m in g[c].outlinks;
          assert m in g[t].inlinks;
          assert ListChange(g'[t].inlinks, g[t].inlinks, At(t, b, gone), At(t, b, added));
        } else {
          assert ListChange(g'[b].inlinks, g[b].inlinks, At(b, b, gone), At(b, b, added));
        }
      }
      forall m | m in g'[c].inlinks
        ensures m.target == c && m.source in g' && m in g'[m.source].outlinks
      {
        var s := m.source;
        if Some(m) != At(c, b, added) {
          assert m in g[c].inlinks;
          assert m in g[s].outlinks;
          assert ListChange(g'[s].outlinks, g[s].outlinks, At(s, a, gone), At(s, a, added));
        } else {
          assert ListChange(g'[a].outlinks, g[a].outlinks, At(a, a, gone), At(a, a, added));
        }
      }
    }
  }

  /** A link change touching only the lists of `a` and `b`, `a != b`. */
  lemma Rewired(g: Grid, a: Coord, b: Coord, out': seq<Link>, in': seq<Link>, gone: Option<Link>, added: Option<Link>)
    requires LinksOk(g) && a in g && b in g && a != b
    requires ListChange(out', g[a].outlinks, gone, added) && DistinctTargets(out')
    requires ListChange(in', g[b].inlinks, gone, added) && DistinctSources(in')
    requires gone.Some? ==> gone.value.source == a && gone.value.target == b
    requires added.Some? ==> added.value.source == a && added.value.target == b && Adjacent(a, b)
    ensures LinksOk(g[a := g[a].(outlinks := out')][b := g[b].(inlinks := in')])
  {
    var g' := g[a := g[a].(outlinks := out')][b := g[b].(inlinks := in')];
    forall c | c in g
      ensures ListChange(g'[c].outlinks, g[c].outlinks, At(c, a, gone), At(c, a, added))
      ensures ListChange(g'[c].inlinks, g[c].inlinks, At(c, b, gone), At(c, b, added))
      ensures DistinctTargets(g'[c].outlinks) && DistinctSources(g'[c].inlinks)
    {
      assert NodeOk(g, c);
      if c == a {
        assert g'[c].outlinks == out' && g'[c].inlinks == g[c].inlinks;
      } else if c == b {
        assert g'[c].inlinks == in' && g'[c].outlinks == g[c].outlinks;
      } else {
        assert g'[c] == g[c];
      }
    }
    Rewire(g, g', a, b, gone, added);
  }

  lemma ReplaceLinkOk(g: Grid, l: Link, q: real)
    requires LinksOk(g) && l.source in g && l in g[l.source].outlinks
    ensures LinksOk(ReplaceLink(g, l, l.(power := q)))
    ensures SameLinksExcept(g, ReplaceLink(g, l, l.(power := q)), l.source, l.target)
  {
    var a, b, l' := l.source, l.target, l.(power := q);
    assert NodeOk(g, a);
    var A, B := g[a], g[b];
    assert NodeOk(g, b);
    var i, j := FirstIndex(A.outlinks, l), FirstIndex(B.inlinks, l);
    UniqueByTarget(A.outlinks, i);
    UniqueBySource(B.inlinks, j);
    ReplaceMembers(A.outlinks, i, l');
    ReplaceMembers(B.inlinks, j, l');
    assert DistinctTargets(A.outlinks[i := l']);
    assert DistinctSources(B.inlinks[j := l']);
    assert ReplaceLink(g, l, l') == g[a := A.(outlinks := A.outlinks[i := l'])][b := B.(inlinks := B.inlinks[j := l'])];
    EditsOnly(g, a, b, A.outlinks[i := l'], B.inlinks[j := l']);
    Rewired(g, a, b, A.outlinks[i := l'], B.inlinks[j := l'], Some(l), Some(l'));
  }

  lemma DropLinkOk(g: Grid, l: Link)
    requires LinksOk(g) && l.source in g && l in g[l.source].outlinks
    ensures LinksOk(DropLink(g, l))
    ensures SameLinksExcept(g, DropLink(g, l), l.source, l.target)
  {
    var a, b := l.source, l.target;
    assert NodeOk(g, a);
    var A, B := g[a], g[b];
    assert NodeOk(g, b);
    var i, j := FirstIndex(A.outlinks, l), FirstIndex(B.inlinks, l);
    UniqueByTarget(A.outlinks, i);
    UniqueBySource(B.inlinks, j);
    RemoveMembers(A.outlinks, i);
    RemoveMembers(B.inlinks, j);
    RemoveKeepsDistinct(A.outlinks, B.inlinks, i, j);
    assert RemoveFirst(A.outlinks, l) == RemoveAt(A.outlinks, i);
    assert RemoveFirst(B.inlinks, l) == RemoveAt(B.inlinks, j);
    DropShape(g, l);
    EditsOnly(g, a, b, RemoveAt(A.outlinks, i), RemoveAt(B.inlinks, j));
    Rewired(g, a, b, RemoveAt(A.outlinks, i), RemoveAt(B.inlinks, j), Some(l), None);
  }

  lemma DropShape(g: Grid, l: Link)
    requires l.source in g && l.target in g && l.source != l.target
    ensures DropLink(g, l) == g[l.source := g[l.source].(outlinks := RemoveFirst(g[l.source].outlinks, l))]
                               [l.target := g[l.target].(inlinks := RemoveFirst(g[l.target].inlinks, l))]
  {
  }

  lemma RemoveKeepsDistinct(outs: seq<Link>, ins: seq<Link>, i: nat, j: nat)
    requires DistinctTargets(outs) && i < |outs| && DistinctSources(ins) && j < |ins|
    ensures DistinctTargets(RemoveAt(outs, i)) && DistinctSources(RemoveAt(ins, j))
  {
  }

  lemma AddLinkOk(g: Grid, l: Link)
    requires LinksOk(g) && l.source in g && l.target in g && Adjacent(l.source, l.target)
    requires TargetIndex(g[l.source].outlinks, l.target) == |g[l.source].outlinks|
    ensures LinksOk(AddLink(g, l))
    ensures SameLinksExcept(g, AddLink(g, l), l.source, l.target)
  {
    var a, b := l.source, l.target;
    var A, B := g[a], g[b];
    assert NodeOk(g, a) && NodeOk(g, b);
    forall k | 0 <= k < |B.inlinks| ensures B.inlinks[k].source != a {
    }
    AppendMembers(A.outlinks, l);
    AppendMembers(B.inlinks, l);
    assert AddLink(g, l) == g[a := A.(outlinks := A.outlinks + [l])][b := B.(inlinks := B.inlinks + [l])];
    EditsOnly(g, a, b, A.outlinks + [l], B.inlinks + [l]);
    Rewired(g, a, b, A.outlinks + [l], B.inlinks + [l], None, Some(l));
  }

  lemma TagOk(g: Grid, c: Coord, e: Event)
    requires LinksOk(g)
    ensures LinksOk(Tag(g, c, e)) && SameLinks(g, Tag(g, c, e))
  {
    LinksOkTransfer(g, Tag(g, c, e));
  }

  /** Only the nodes `a` and `b` have different link lists, and no node
      changed in anything but its links. */
  predicate SameLinksExcept(g: Grid, g': Grid, a: Coord, b: Coord) {
    g.Keys == g'.Keys &&
    forall c :: c in g ==>
      g'[c] == g[c].(outlinks := g'[c].outlinks, inlinks := g'[c].inlinks) &&
      (c != a && c != b ==> g'[c] == g[c])
  }

  /** New lists at `a` (outgoing) and `b` (incoming) change nothing else. */
  lemma EditsOnly(g: Grid, a: Coord, b: Coord, out': seq<Link>, in': seq<Link>)
    requires a in g && b in g
    ensures SameLinksExcept(g, g[a := g[a].(outlinks := out')][b := g[b].(inlinks := in')], a, b)
  {
  }

  // -------------------------------------------------------------- linking

  /** `link(source, target, power)` on the grid: refuse a non-neighbour;
      otherwise consolidate into an existing link to the target; otherwise
      net against a reverse link from a same-owner target; otherwise add a
      new link. (The source removes the reverse link from the wrong list,
      `source.inlinks` where the target's `outlinks` is meant, and drops the
      remainder of the power; here the remainder becomes a new link.) */
  function LinkGrid(g: Grid, s: Coord, t: Coord, p: real): Result<Grid> {
    if s !in g || t !in g then Fail(NoSuchNode)
    else if !Adjacent(s, t) then Fail(NonNeighbourLink)
    else
      var ns := g[s];
      var i := TargetIndex(ns.outlinks, t);
      if i < |ns.outlinks| then
        var l := ns.outlinks[i];
        Ok(Tag(ReplaceLink(g, l, l.(power := l.power + p)), t, PowerIncrease))
      else
        var j := SourceIndex(ns.inlinks, t);
        if j < |ns.inlinks| && g[t].owner == ns.owner then Ok(Net(g, s, t, p, ns.inlinks[j]))
        else Ok(AddLink(g, Link(s, t, p)))
  }

  /** `link` fails exactly for a missing node or a target that is not one of
      the eight neighbours, and then with the matching error. */
  lemma LinkRejects(g: Grid, s: Coord, t: Coord, p: real)
    ensures LinkGrid(g, s, t, p).Fail? <==> s !in g || t !in g || !Adjacent(s, t)
    ensures s !in g || t !in g ==> LinkGrid(g, s, t, p) == Fail(NoSuchNode)
    ensures s in g && t in g && (t == s || t.x - s.x > 1 || s.x - t.x > 1 || t.y - s.y > 1 || s.y - t.y > 1)
            ==> LinkGrid(g, s, t, p) == Fail(NonNeighbourLink)
  {
  }

  /** What `link` may change: the links at its endpoints and the target's
      event, nothing else. */
  predicate LinkFrame(g: Grid, g': Grid, s: Coord, t: Coord) {
    g'.Keys == g.Keys && s in g && t in g &&
    (forall c :: c in g && c != s && c != t ==> g'[c] == g[c]) &&
    g'[s] == g[s].(outlinks := g'[s].outlinks, inlinks := g'[s].inlinks) &&
    g'[t] == g[t].(outlinks := g'[t].outlinks, inlinks := g'[t].inlinks, lastevent := g'[t].lastevent)
  }

  lemma FrameOfSameLinks(g: Grid, g': Grid, s: Coord, t: Coord, a: Coord, b: Coord)
    requires SameLinksExcept(g, g', a, b) && s in g && t in g && s != t
    requires (a == s && b == t) || (a == t && b == s)
    ensures LinkFrame(g, g', s, t)
  {
  }

  lemma FrameTrans(g: Grid, g1: Grid, g2: Grid, s: Coord, t: Coord)
    requires LinkFrame(g, g1, s, t) && LinkFrame(g1, g2, s, t) && s != t
    ensures LinkFrame(g, g2, s, t)
  {
  }

  lemma ConsolidateOk(g: Grid, s: Coord, t: Coord, p: real, l: Link)
    requires LinksOk(g) && s in g && t in g && s != t
    requires l in g[s].outlinks && l.target == t
    ensures var g' := Tag(ReplaceLink(g, l, l.(power := l.power + p)), t, PowerIncrease);
            LinksOk(g') && LinkFrame(g, g', s, t)
  {
    assert NodeOk(g, s);
    var g1 := ReplaceLink(g, l, l.(power := l.power + p));
    ReplaceLinkOk(g, l, l.power + p);
    TagOk(g1, t, PowerIncrease);
    FrameOfSameLinks(g, g1, s, t, l.source, l.target);
  }

  /** The netting step of `link` against the reverse link `rev`: the
      reverse link is weakened, or removed and the rest of the power sent
      the other way. */
  function Net(g: Grid, s: Coord, t: Coord, p: real, rev: Link): Grid {
    if p < rev.power then ReplaceLink(g, rev, rev.(power := rev.power - p))
    else
      var g1 := DropLink(g, rev);
      if p - rev.power > 0.0 then AddLink(g1, Link(s, t, p - rev.power)) else g1
  }

  lemma NetWeakensOk(g: Grid, s: Coord, t: Coord, p: real, rev: Link)
    requires LinksOk(g) && s in g && t in g && s != t
    requires rev in g[t].outlinks && rev.target == s && p < rev.power
    ensures LinksOk(Net(g, s, t, p, rev)) && LinkFrame(g, Net(g, s, t, p, rev), s, t)
  {
    assert NodeOk(g, t);
    ReplaceLinkOk(g, rev, rev.power - p);
    FrameOfSameLinks(g, ReplaceLink(g, rev, rev.(power := rev.power - p)), s, t, t, s);
  }

  lemma NetRemovesOk(g: Grid, s: Coord, t: Coord, p: real, rev: Link)
    requires LinksOk(g) && s in g && t in g && Adjacent(s, t)
    requires rev in g[t].outlinks && rev.target == s && p >= rev.power
    requires TargetIndex(g[s].outlinks, t) == |g[s].outlinks|
    ensures LinksOk(Net(g, s, t, p, rev)) && LinkFrame(g, Net(g, s, t, p, rev), s, t)
  {
    assert NodeOk(g, t);
    DropLinkOk(g, rev);
    var g1 := DropLink(g, rev);
    FrameOfSameLinks(g, g1, s, t, t, s);
    if p - rev.power > 0.0 {
      var g2 := AddLink(g1, Link(s, t, p - rev.power));
      assert g1[s].outlinks == g[s].outlinks;
      AddLinkOk(g1, Link(s, t, p - rev.power));
      FrameOfSameLinks(g1, g2, s, t, s, t);
      FrameTrans(g, g1, g2, s, t);
    }
  }

  /** `link` keeps the invariant, changes links only at its two endpoints,
      and changes nothing but links and the target's event. */
  lemma LinkKeepsLinksOk(g: Grid, s: Coord, t: Coord, p: real)
    requires LinksOk(g) && LinkGrid(g, s, t, p).Ok?
    ensures LinksOk(LinkGrid(g, s, t, p).value)
    ensures LinkFrame(g, LinkGrid(g, s, t, p).value, s, t)
  {
    assert s in g && t in g && Adjacent(s, t);
    var ns := g[s];
    var i := TargetIndex(ns.outlinks, t);
    var j := SourceIndex(ns.inlinks, t);
    if i < |ns.outlinks| {
      var l := ns.outlinks[i];
      ConsolidateStep(g, s, t, p, i, l);
      ConsolidateOk(g, s, t, p, l);
    } else if j < |ns.inlinks| && g[t].owner == ns.owner {
      var rev := ns.inlinks[j];
      NetStep(g, s, t, p, j, rev);
      assert NodeOk(g, s);
      assert rev in ns.inlinks;
      if p < rev.power {
        NetWeakensOk(g, s, t, p, rev);
      } else {
        NetRemovesOk(g, s, t, p, rev);
      }
    } else {
      AddStep(g, s, t, p);
      AddLinkOk(g, Link(s, t, p));
      FrameOfSameLinks(g, AddLink(g, Link(s, t, p)), s, t, s, t);
    }
  }

  /** `link` with no link to the target, but a same-owner reverse link
      `rev` from it, nets against `rev`. */
  lemma NetStep(g: Grid, s: Coord, t: Coord, p: real, j: nat, rev: Link)
    requires s in g && t in g && Adjacent(s, t)
    requires TargetIndex(g[s].outlinks, t) == |g[s].outlinks|
    requires j < |g[s].inlinks| && SourceIndex(g[s].inlinks, t) == j && g[s].inlinks[j] == rev
    requires g[t].owner == g[s].owner
    ensures LinkGrid(g, s, t, p) == Ok(Net(g, s, t, p, rev))
  {
  }

  /** The netting step when the reverse link `rev` outweighs `p`: it is
      replaced by `rev'`, its weakened copy. */
  lemma WeakenStep(g: Grid, s: Coord, t: Coord, p: real, j: nat, rev: Link, rev': Link)
    requires s in g && t in g && Adjacent(s, t)
    requires TargetIndex(g[s].outlinks, t) == |g[s].outlinks|
    requires j < |g[s].inlinks| && SourceIndex(g[s].inlinks, t) == j && g[s].inlinks[j] == rev
    requires g[t].owner == g[s].owner && p < rev.power && rev' == rev.(power := rev.power - p)
    ensures LinkGrid(g, s, t, p) == Ok(ReplaceLink(g, rev, rev'))
  {
  }

  /** `link` with neither a link to the target nor a same-owner reverse
      link adds a new link. */
  lemma AddStep(g: Grid, s: Coord, t: Coord, p: real)
    requires s in g && t in g && Adjacent(s, t)
    requires TargetIndex(g[s].outlinks, t) == |g[s].outlinks|
    requires SourceIndex(g[s].inlinks, t) == |g[s].inlinks| || g[t].owner != g[s].owner
    ensures LinkGrid(g, s, t, p) == Ok(AddLink(g, Link(s, t, p)))
  {
  }

  /** Consolidation: linking to a target that already has a link from this
      node adds the power to that link, creates no link, and tags a power
      increase on the target. */
  lemma LinkConsolidates(g: Grid, s: Coord, t: Coord, p: real, k: nat)
    requires LinksOk(g) && s in g && t in g && Adjacent(s, t)
    requires k < |g[s].outlinks| && g[s].outlinks[k].target == t
    ensures LinkGrid(g, s, t, p).Ok?
    ensures var g' := LinkGrid(g, s, t, p).value;
            var l := g[s].outlinks[k];
            var l' := l.(power := l.power + p);
            g'[s].outlinks == g[s].outlinks[k := l'] && g'[s].inlinks == g[s].inlinks &&
            (exists j :: 0 <= j < |g[t].inlinks| && g[t].inlinks[j] == l && g'[t].inlinks == g[t].inlinks[j := l']) &&
            g'[t].outlinks == g[t].outlinks &&
            g'[t].lastevent == SetEvent(g[t].lastevent, PowerIncrease)
  {
    var ns := g[s];
    assert NodeOk(g, s);
    assert DistinctTargets(ns.outlinks);
    assert TargetIndex(ns.outlinks, t) == k;
    var l := ns.outlinks[k];
    assert NodeOk(g, s);
    assert l in ns.outlinks;
    assert l in g[t].inlinks;
    assert FirstIndex(ns.outlinks, l) == k;
    var j := FirstIndex(g[t].inlinks, l);
    ConsolidateStep(g, s, t, p, k, l);
    ReplaceShape(g, l, l.(power := l.power + p));
    var g' := LinkGrid(g, s, t, p).value;
    assert g'[t].inlinks == g[t].inlinks[j := l.(power := l.power + p)];
  }

  /** Consolidation law: with no link from `s` to `t` yet, and no reverse
      link the first command would net against (the two nodes have
      different owners, or there is no link from `t` to `s`), linking with
      `p1` and then with `p2` leaves exactly one new link, carrying
      `p1 + p2`, at the end of both lists. */
  lemma ConsolidationLaw(g: Grid, s: Coord, t: Coord, p1: real, p2: real)
    requires LinksOk(g) && s in g && t in g && Adjacent(s, t)
    requires forall l :: l in g[s].outlinks ==> l.target != t
    requires forall l :: l in g[s].inlinks ==> l.source != t || g[t].owner != g[s].owner
    ensures LinkGrid(g, s, t, p1).Ok?
    ensures LinkGrid(LinkGrid(g, s, t, p1).value, s, t, p2).Ok?
    ensures var g2 := LinkGrid(LinkGrid(g, s, t, p1).value, s, t, p2).value;
            g2[s].outlinks == g[s].outlinks + [Link(s, t, p1 + p2)] &&
            g2[t].inlinks == g[t].inlinks + [Link(s, t, p1 + p2)] &&
            g2[s].inlinks == g[s].inlinks && g2[t].outlinks == g[t].outlinks &&
            g2[t].lastevent == SetEvent(g[t].lastevent, PowerIncrease)
  {
    NotLinkedYet(g, s, t, Link(s, t, p1));
    LinkTwice(g, s, t, p1, p2);
  }

  /** The two links of the consolidation law, on the lists alone. */
  lemma LinkTwice(g: Grid, s: Coord, t: Coord, p1: real, p2: real)
    requires s in g && t in g && Adjacent(s, t)
    requires forall l :: l in g[s].outlinks ==> l.target != t
    requires forall l :: l in g[s].inlinks ==> l.source != t || g[t].owner != g[s].owner
    requires Link(s, t, p1) !in g[t].inlinks
    ensures LinkGrid(g, s, t, p1) == Ok(AddLink(g, Link(s, t, p1)))
    ensures var g2 := LinkGrid(AddLink(g, Link(s, t, p1)), s, t, p2);
            g2.Ok? &&
            g2.value[s] == g[s].(outlinks := g[s].outlinks + [Link(s, t, p1 + p2)]) &&
            g2.value[t] == g[t].(inlinks := g[t].inlinks + [Link(s, t, p1 + p2)],
                                 lastevent := SetEvent(g[t].lastevent, PowerIncrease))
  {
    var A, B := g[s], g[t];
    var l1 := Link(s, t, p1);
    FirstLinkAdds(g, s, t, p1);
    var g1 := AddLink(g, l1);
    AddShape(g, l1);
    assert g1[s] == A.(outlinks := A.outlinks + [l1]) && g1[t] == B.(inlinks := B.inlinks + [l1]);
    var k := |A.outlinks|;
    var l2 := Link(s, t, p1 + p2);
    TargetIndexIsFirst(g1[s].outlinks, t, k);
    ConsolidateStep(g1, s, t, p2, k, l1);
    FirstIndexAppended(A.outlinks, l1);
    FirstIndexAppended(B.inlinks, l1);
    assert l1.(power := l1.power + p2) == l2;
    ReplaceShape(g1, l1, l2);
    assert ReplaceFirst(A.outlinks + [l1], l1, l2) == A.outlinks + [l2];
    assert ReplaceFirst(B.inlinks + [l1], l1, l2) == B.inlinks + [l2];
    var r := ReplaceLink(g1, l1, l2);
    assert r == g1[s := A.(outlinks := A.outlinks + [l2])][t := B.(inlinks := B.inlinks + [l2])];
    var g2 := Tag(r, t, PowerIncrease);
    assert g2 == r[t := B.(inlinks := B.inlinks + [l2], lastevent := SetEvent(B.lastevent, PowerIncrease))];
    assert LinkGrid(g1, s, t, p2) == Ok(g2);
    assert g2[s] == A.(outlinks := A.outlinks + [l2]);
  }

  /** `link` to a target whose first outgoing link to it is `l` merges
      into `l`. */
  lemma ConsolidateStep(g: Grid, s: Coord, t: Coord, p: real, k: nat, l: Link)
    requires s in g && t in g && Adjacent(s, t)
    requires k < |g[s].outlinks| && TargetIndex(g[s].outlinks, t) == k && g[s].outlinks[k] == l
    ensures LinkGrid(g, s, t, p) == Ok(Tag(ReplaceLink(g, l, l.(power := l.power + p)), t, PowerIncrease))
  {
  }

  /** A link appended to a list without it is found at the end. */
  lemma FirstIndexAppended(ls: seq<Link>, x: Link)
    requires x !in ls
    ensures FirstIndex(ls + [x], x) == |ls|
  {
    assert (ls + [x])[|ls|] == x;
    assert forall k :: 0 <= k < |ls| ==> (ls + [x])[k] == ls[k];
  }

  /** The first link between two unlinked nodes is simply appended. */
  lemma FirstLinkAdds(g: Grid, s: Coord, t: Coord, p: real)
    requires s in g && t in g && Adjacent(s, t)
    requires forall l :: l in g[s].outlinks ==> l.target != t
    requires forall l :: l in g[s].inlinks ==> l.source != t || g[t].owner != g[s].owner
    ensures LinkGrid(g, s, t, p) == Ok(AddLink(g, Link(s, t, p)))
  {
    assert TargetIndex(g[s].outlinks, t) == |g[s].outlinks|;
    if g[t].owner == g[s].owner {
      assert SourceIndex(g[s].inlinks, t) == |g[s].inlinks|;
    }
    AddStep(g, s, t, p);
  }

  /** A node with no link to `t` has none in `t`'s incoming list either. */
  lemma NotLinkedYet(g: Grid, s: Coord, t: Coord, l: Link)
    requires LinksOk(g) && s in g && t in g
    requires forall m :: m in g[s].outlinks ==> m.target != t
    requires l.source == s && l.target == t
    ensures l !in g[t].inlinks
  {
    assert NodeOk(g, t);
  }

  lemma AddShape(g: Grid, l: Link)
    requires l.source in g && l.target in g && l.source != l.target
    ensures AddLink(g, l) == g[l.source := g[l.source].(outlinks := g[l.source].outlinks + [l])]
                              [l.target := g[l.target].(inlinks := g[l.target].inlinks + [l])]
  {
  }

  /** Where a reverse link `t -> s` sits in the two lists. */
  lemma ReverseIndices(g: Grid, s: Coord, t: Coord, q: real)
    requires LinksOk(g) && s in g && Link(t, s, q) in g[s].inlinks
    ensures t in g
    ensures var j := SourceIndex(g[s].inlinks, t);
            var i := TargetIndex(g[t].outlinks, s);
            j < |g[s].inlinks| && i < |g[t].outlinks| &&
            g[s].inlinks[j] == Link(t, s, q) && g[t].outlinks[i] == Link(t, s, q) &&
            FirstIndex(g[s].inlinks, Link(t, s, q)) == j && FirstIndex(g[t].outlinks, Link(t, s, q)) == i
  {
    var A := g[s];
    var rev := Link(t, s, q);
    assert NodeOk(g, s);
    var B := g[t];
    assert NodeOk(g, t);
    var j :| 0 <= j < |A.inlinks| && A.inlinks[j] == rev;
    SourceIndexIsFirst(A.inlinks, t, j);
    assert rev in B.outlinks;
    var i :| 0 <= i < |B.outlinks| && B.outlinks[i] == rev;
    TargetIndexIsFirst(B.outlinks, s, i);
  }

  lemma ReplaceShape(g: Grid, l: Link, l': Link)
    requires l.source in g && l.target in g && l.source != l.target
    ensures ReplaceLink(g, l, l') == g[l.source := g[l.source].(outlinks := ReplaceFirst(g[l.source].outlinks, l, l'))]
                                      [l.target := g[l.target].(inlinks := ReplaceFirst(g[l.target].inlinks, l, l'))]
  {
  }

  /** Conflict law, weakening half: a reverse link `t -> s` of power `q`
      from a same-owner target absorbs a link `s -> t` of smaller power
      `p`: it keeps power `q - p`, in place in both lists, and no forward
      link appears. */
  lemma ConflictWeakens(g: Grid, s: Coord, t: Coord, p: real, q: real)
    requires LinksOk(g) && s in g && t in g && Adjacent(s, t) && g[t].owner == g[s].owner
    requires forall l :: l in g[s].outlinks ==> l.target != t
    requires Link(t, s, q) in g[s].inlinks && p < q
    ensures LinkGrid(g, s, t, p).Ok?
    ensures var g' := LinkGrid(g, s, t, p).value;
            var j := SourceIndex(g[s].inlinks, t);
            var i := TargetIndex(g[t].outlinks, s);
            j < |g[s].inlinks| && i < |g[t].outlinks| &&
            g'[s].inlinks == g[s].inlinks[j := Link(t, s, q - p)] &&
            g'[t].outlinks == g[t].outlinks[i := Link(t, s, q - p)] &&
            g'[s].outlinks == g[s].outlinks && g'[t].inlinks == g[t].inlinks
  {
    ReverseIndices(g, s, t, q);
    assert TargetIndex(g[s].outlinks, t) == |g[s].outlinks|;
    WeakenShape(g, s, t, p, q);
  }

  /** The list edits of the weakening half, once the reverse link has been
      located in both lists. */
  lemma WeakenShape(g: Grid, s: Coord, t: Coord, p: real, q: real)
    requires s in g && t in g && Adjacent(s, t) && g[t].owner == g[s].owner && p < q
    requires TargetIndex(g[s].outlinks, t) == |g[s].outlinks|
    requires var j := SourceIndex(g[s].inlinks, t);
             var i := TargetIndex(g[t].outlinks, s);
             j < |g[s].inlinks| && i < |g[t].outlinks| &&
             g[s].inlinks[j] == Link(t, s, q) &&
             FirstIndex(g[s].inlinks, Link(t, s, q)) == j && FirstIndex(g[t].outlinks, Link(t, s, q)) == i
    ensures LinkGrid(g, s, t, p).Ok?
    ensures var g' := LinkGrid(g, s, t, p).value;
            var j := SourceIndex(g[s].inlinks, t);
            var i := TargetIndex(g[t].outlinks, s);
            j < |g[s].inlinks| && i < |g[t].outlinks| &&
            g'[s].inlinks == g[s].inlinks[j := Link(t, s, q - p)] &&
            g'[t].outlinks == g[t].outlinks[i := Link(t, s, q - p)] &&
            g'[s].outlinks == g[s].outlinks && g'[t].inlinks == g[t].inlinks
  {
    var rev, rev' := Link(t, s, q), Link(t, s, q - p);
    var j := SourceIndex(g[s].inlinks, t);
    var i := TargetIndex(g[t].outlinks, s);
    WeakenStep(g, s, t, p, j, rev, rev');
    ReplaceShape(g, rev, rev');
    var g' := ReplaceLink(g, rev, rev');
    ReplaceAt(g[s].inlinks, rev, rev', j);
    ReplaceAt(g[t].outlinks, rev, rev', i);
    assert g'[s] == g[s].(inlinks := g[s].inlinks[j := rev']);
    assert g'[t] == g[t].(outlinks := g[t].outlinks[i := rev']);
  }

  lemma ReplaceAt(ls: seq<Link>, x: Link, y: Link, i: nat)
    requires i < |ls| && FirstIndex(ls, x) == i
    ensures ReplaceFirst(ls, x, y) == ls[i := y]
  {
  }

  /** Conflict law, removing half: a reverse link `t -> s` of power `q`
      from a same-owner target meets a link `s -> t` of power `p >= q`: it
      is removed from both lists, and a forward link of power `p - q` is
      appended to both lists when that is positive. */
  lemma ConflictRemoves(g: Grid, s: Coord, t: Coord, p: real, q: real)
    requires LinksOk(g) && s in g && t in g && Adjacent(s, t) && g[t].owner == g[s].owner
    requires forall l :: l in g[s].outlinks ==> l.target != t
    requires Link(t, s, q) in g[s].inlinks && p >= q
    ensures LinkGrid(g, s, t, p).Ok?
    ensures var g' := LinkGrid(g, s, t, p).value;
            var j := SourceIndex(g[s].inlinks, t);
            var i := TargetIndex(g[t].outlinks, s);
            j < |g[s].inlinks| && i < |g[t].outlinks| &&
            g'[s].inlinks == RemoveAt(g[s].inlinks, j) &&
            g'[t].outlinks == RemoveAt(g[t].outlinks, i) &&
            g'[s].outlinks == g[s].outlinks + (if p > q then [Link(s, t, p - q)] else []) &&
            g'[t].inlinks == g[t].inlinks + (if p > q then [Link(s, t, p - q)] else [])
  {
    var rev := Link(t, s, q);
    ReverseIndices(g, s, t, q);
    assert TargetIndex(g[s].outlinks, t) == |g[s].outlinks|;
    var j := SourceIndex(g[s].inlinks, t);
    NetStep(g, s, t, p, j, rev);
    DropShape(g, rev);
    var g1 := DropLink(g, rev);
    assert g1[s].outlinks == g[s].outlinks && g1[t].inlinks == g[t].inlinks;
  }
}
