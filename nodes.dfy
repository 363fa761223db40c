/** Node records on the coordinate grid, and the read-only quantities the
    engine derives from a snapshot of the grid: energy, strength, the
    specialising window, neighbourhoods and vision. The sustain cascade of a
    node tick is specified here as a function on one node of the grid. */
module Nodes {
  import opened Catalog

  /** A player is identified by its position in the game's player list. */
  type PlayerId = nat

  datatype Coord = Coord(x: int, y: int)

  /** A directed link; two links are equal when source, target and power are. */
  datatype Link = Link(source: Coord, target: Coord, power: real)

  datatype Node = Node(
    kind: Kind,
    power: real,
    outlinks: seq<Link>,
    inlinks: seq<Link>,
    owner: Option<PlayerId>,
    buildtime: int,
    hidden: bool,
    lastevent: Option<Event>)

  /** The game's nodes, keyed by their coordinates; an empty cell has no key. */
  type Grid = map<Coord, Node>

  function OwnerAt(g: Grid, c: Coord): Option<PlayerId> {
    if c in g then g[c].owner else None
  }

  function KindAt(g: Grid, c: Coord): Kind {
    if c in g then g[c].kind else Unspecialised
  }

  // ---------------------------------------------------------------- energy

  /** The power the node's own type consumes; a cloak doubles it. */
  function Upkeep(n: Node): real {
    if n.hidden then 2.0 * TypeOf(n.kind).consumption else TypeOf(n.kind).consumption
  }

  /** Whether link `l` of node `n` moves power to or from `n`: its source is
      owned by `n`'s owner, or `n` is a collaborator. (The source reads
      `link.owner`, which links do not have; the source's owner is meant.) */
  predicate Shares(g: Grid, n: Node, l: Link) {
    OwnerAt(g, l.source) == n.owner || n.kind == Collaborator
  }

  /** The summed power of the links in `ls` that move power for `n`. */
  function Transfer(g: Grid, n: Node, ls: seq<Link>): real
    decreases |ls|
  {
    if ls == [] then 0.0
    else Transfer(g, n, ls[..|ls| - 1]) + (if Shares(g, n, ls[|ls| - 1]) then ls[|ls| - 1].power else 0.0)
  }

  /** Net energy of the node at `c`: subgrid power, minus upkeep, minus what
      flows out, plus what flows in. */
  function Energy(g: Grid, c: Coord): real
    requires c in g
  {
    var n := g[c];
    n.power - Upkeep(n) - Transfer(g, n, n.outlinks) + Transfer(g, n, n.inlinks)
  }

  /** Transfer depends on the grid only through the owners of link sources,
      and on the node only through its owner and type. */
  lemma {:induction false} TransferFrame(g: Grid, g': Grid, n: Node, n': Node, ls: seq<Link>)
    requires n.owner == n'.owner && n.kind == n'.kind
    requires forall l :: l in ls ==> OwnerAt(g, l.source) == OwnerAt(g', l.source)
    ensures Transfer(g, n, ls) == Transfer(g', n', ls)
    decreases |ls|
  {
    if ls != [] {
      var front := ls[..|ls| - 1];
      forall l | l in front ensures OwnerAt(g, l.source) == OwnerAt(g', l.source) {
        assert l in ls;
      }
      TransferFrame(g, g', n, n', front);
    }
  }

  /** Replacing the node at `c` by one with the same owner, type and links
      leaves the energy of every node unchanged except through the
      replaced node's own power and cloak. */
  lemma EnergyFrame(g: Grid, c: Coord, m: Node, d: Coord)
    requires c in g && d in g
    requires m.owner == g[c].owner
    requires d == c ==> m.kind == g[c].kind && m.outlinks == g[c].outlinks && m.inlinks == g[c].inlinks
    ensures d != c ==> Energy(g[c := m], d) == Energy(g, d)
    ensures d == c ==> Energy(g[c := m], c) == Energy(g, c) - g[c].power + m.power + Upkeep(g[c]) - Upkeep(m)
  {
    var g' := g[c := m];
    forall e ensures OwnerAt(g, e) == OwnerAt(g', e) { }
    var n := g[d];
    var n' := g'[d];
    TransferFrame(g, g', n, n', n.outlinks);
    TransferFrame(g, g', n, n', n.inlinks);
  }

  /** What `hide` checks: the energy left once the cloak's extra upkeep is
      paid, for a node that is not cloaked yet, is the energy minus the
      type's consumption. */
  lemma HideCost(g: Grid, c: Coord)
    requires c in g && !g[c].hidden
    ensures Energy(g[c := g[c].(hidden := true)], c) == Energy(g, c) - TypeOf(g[c].kind).consumption
  {
    EnergyFrame(g, c, g[c].(hidden := true), c);
  }

  /** What `specialise` checks: for an uncloaked node, and when neither the
      old nor the new type is a collaborator, energy after the change of
      type is the energy plus the old consumption minus the new one. */
  lemma SpecialiseCost(g: Grid, c: Coord, k: Kind, b: int)
    requires c in g && !g[c].hidden
    requires g[c].kind != Collaborator && k != Collaborator
    ensures Energy(g[c := g[c].(kind := k, buildtime := b)], c)
            == Energy(g, c) + TypeOf(g[c].kind).consumption - TypeOf(k).consumption
  {
    var n := g[c];
    var m := n.(kind := k, buildtime := b);
    var g' := g[c := m];
    forall e ensures OwnerAt(g, e) == OwnerAt(g', e) { }
    TransferShares(g, g', n, m, n.outlinks);
    TransferShares(g, g', n, m, n.inlinks);
  }

  /** Transfer over a list is the same on two (grid, node) pairs that agree,
      link by link, on which links share power. */
  lemma {:induction false} TransferShares(g: Grid, g': Grid, n: Node, n': Node, ls: seq<Link>)
    requires n.owner == n'.owner
    requires forall e :: OwnerAt(g, e) == OwnerAt(g', e)
    requires n.kind == Collaborator <==> n'.kind == Collaborator
    ensures Transfer(g, n, ls) == Transfer(g', n', ls)
    decreases |ls|
  {
    if ls != [] {
      TransferShares(g, g', n, n', ls[..|ls| - 1]);
    }
  }

  // -------------------------------------------------------------- strength

  /** A node is specialising while its build time lies in the future. */
  predicate Specialising(n: Node, time: int) {
    n.buildtime > time
  }

  /** Each enemy, non-specialising sabotage node this node links to
      multiplies its resistance by the sabotage type's modifier. */
  function SabotageFactor(g: Grid, time: int, n: Node, outs: seq<Link>): (f: real)
    ensures 0.0 < f <= 1.0
    decreases |outs|
  {
    if outs == [] then 1.0
    else
      var l := outs[|outs| - 1];
      var rest := SabotageFactor(g, time, n, outs[..|outs| - 1]);
      if l.target in g && g[l.target].kind == Sabotage && g[l.target].owner != n.owner
         && !Specialising(g[l.target], time)
      then rest * TypeOf(g[l.target].kind).resistancemodifier
      else rest
  }

  /** Each incoming link from a non-specialising enemy attack node, or from
      a non-specialising core node, multiplies the resistance by that
      node's modifier. The source's core test compares the link's target's
      owner (the node itself) with the node's owner, which always holds. */
  function SupportFactor(g: Grid, time: int, n: Node, ins: seq<Link>): (f: real)
    ensures f > 0.0
    decreases |ins|
  {
    if ins == [] then 1.0
    else
      var l := ins[|ins| - 1];
      var rest := SupportFactor(g, time, n, ins[..|ins| - 1]);
      if l.source in g && !Specialising(g[l.source], time) &&
         ((g[l.source].kind == Attack && g[l.source].owner != n.owner) || g[l.source].kind == Core)
      then rest * TypeOf(g[l.source].kind).resistancemodifier
      else rest
  }

  /** Defence value: raw energy while specialising, otherwise energy scaled
      by the type's resistance and the modifiers of linked nodes. */
  function Strength(g: Grid, time: int, c: Coord): real
    requires c in g
  {
    var n := g[c];
    if Specialising(n, time) then Energy(g, c)
    else TypeOf(n.kind).resistance * SabotageFactor(g, time, n, n.outlinks)
         * SupportFactor(g, time, n, n.inlinks) * Energy(g, c)
  }

  /** Strength has the sign of energy; a node without energy has no
      defence at all, and a resistant node with energy has some. */
  lemma StrengthSign(g: Grid, time: int, c: Coord)
    requires c in g
    ensures Energy(g, c) <= 0.0 ==> Strength(g, time, c) <= 0.0
    ensures Energy(g, c) > 0.0 ==> Strength(g, time, c) >= 0.0
    ensures Energy(g, c) > 0.0 && (Specialising(g[c], time) || TypeOf(g[c].kind).resistance > 0.0)
            ==> Strength(g, time, c) > 0.0
  {
    var n := g[c];
    if !Specialising(n, time) {
      ScaledSign(TypeOf(n.kind).resistance, SabotageFactor(g, time, n, n.outlinks),
                 SupportFactor(g, time, n, n.inlinks), Energy(g, c));
    }
  }

  /** Scaling by a non-negative resistance and two positive factors keeps
      the sign. */
  lemma ScaledSign(r: real, f1: real, f2: real, e: real)
    requires r >= 0.0 && f1 > 0.0 && f2 > 0.0
    ensures e <= 0.0 ==> r * f1 * f2 * e <= 0.0
    ensures e > 0.0 ==> r * f1 * f2 * e >= 0.0
    ensures e > 0.0 && r > 0.0 ==> r * f1 * f2 * e > 0.0
  {
    var f := r * f1;
    assert f >= 0.0;
    assert r > 0.0 ==> f > 0.0;
    var h := f * f2;
    assert h >= 0.0;
    assert r > 0.0 ==> h > 0.0;
    assert r * f1 * f2 * e == h * e;
  }

  // ------------------------------------------------- neighbours and vision

  function Min(a: int, b: int): int { if a < b then a else b }

  function Dist(a: Coord, b: Coord): nat {
    var dx := if a.x < b.x then b.x - a.x else a.x - b.x;
    var dy := if a.y < b.y then b.y - a.y else a.y - b.y;
    if dx < dy then dy else dx
  }

  /** The nodes in the square of half-width `depth` around `c`, clipped to
      the grid, without `c` itself (the corrected form of the source's
      range loops). */
  function Neighbours(g: Grid, width: int, height: int, c: Coord, depth: nat): set<Coord> {
    set d | d in g && Max(1, c.x - depth) <= d.x < Min(c.x + depth + 1, width + 1)
                   && Max(1, c.y - depth) <= d.y < Min(c.y + depth + 1, height + 1)
                   && (d.x != c.x || d.y != c.y)
  }

  predicate InBounds(g: Grid, width: int, height: int) {
    forall d :: d in g ==> 1 <= d.x <= width && 1 <= d.y <= height
  }

  /** On a grid whose nodes lie inside the board, the neighbours are exactly
      the other nodes within Chebyshev distance `depth`. */
  lemma NeighboursAreBall(g: Grid, width: int, height: int, c: Coord, depth: nat)
    requires InBounds(g, width, height)
    ensures forall d :: d in Neighbours(g, width, height, c, depth) <==> d in g && d != c && Dist(c, d) <= depth
  {
  }

  /** The range loops exactly as the source writes them: `min` for the lower
      bound, an exclusive upper bound at the board edge, and `and` where
      `or` was meant when leaving out the node itself. */
  function NeighboursAsWritten(g: Grid, width: int, height: int, c: Coord, depth: nat): set<Coord> {
    set d | d in g && Min(1, c.x - depth) <= d.x < Min(c.x + depth + 1, width)
                   && Min(1, c.y - depth) <= d.y < Min(c.y + depth + 1, height)
                   && d.x != c.x && d.y != c.y
  }

  /** On a 5x5 board, the loops as written report a node two cells away and
      miss the node directly above. */
  lemma NeighboursAsWrittenDiffer(n: Node)
    ensures var g := map[Coord(3, 3) := n, Coord(1, 1) := n, Coord(3, 4) := n];
            Coord(1, 1) in NeighboursAsWritten(g, 5, 5, Coord(3, 3), 1) &&
            Coord(1, 1) !in Neighbours(g, 5, 5, Coord(3, 3), 1) &&
            Coord(3, 4) !in NeighboursAsWritten(g, 5, 5, Coord(3, 3), 1) &&
            Coord(3, 4) in Neighbours(g, 5, 5, Coord(3, 3), 1)
  {
  }

  /** Vision radius: 1 while specialising, otherwise the type's vision.
      (The source reads `self.vision`, which nodes do not have; the vision
      of the node's type is meant.) */
  function Sightline(n: Node, time: int): nat {
    if Specialising(n, time) then 1 else TypeOf(n.kind).vision
  }

  /** The nodes the node at `c` reveals to its owner: neighbours within its
      vision that its owner does not own. */
  function VisibleFrom(g: Grid, width: int, height: int, time: int, c: Coord): (r: set<Coord>)
    requires c in g
  {
    set d | d in Neighbours(g, width, height, c, Sightline(g[c], time)) && OwnerAt(g, d) != g[c].owner
  }

  lemma VisibleWithinSight(g: Grid, width: int, height: int, time: int, c: Coord)
    requires c in g && InBounds(g, width, height)
    ensures forall d :: d in VisibleFrom(g, width, height, time, c) <==>
              d in g && d != c && g[d].owner != g[c].owner && Dist(c, d) <= Sightline(g[c], time)
    ensures forall d :: d in VisibleFrom(g, width, height, time, c) ==>
              Dist(c, d) <= (if g[c].kind == Sensor && !Specialising(g[c], time) then 3 else 1)
  {
    NeighboursAreBall(g, width, height, c, Sightline(g[c], time));
  }

  // ------------------------------------------------------ sustain cascade

  /** How many downgrades a node can still suffer: cloak, specialisation
      and ownership, one each. */
  function Rank(n: Node): nat {
    (if n.hidden then 1 else 0) + (if n.kind != Unspecialised then 1 else 0) + (if n.owner.Some? then 1 else 0)
  }

  /** Fields the sustain cascade never touches. */
  predicate SameBody(n: Node, m: Node) {
    n.power == m.power && n.outlinks == m.outlinks && n.inlinks == m.inlinks && n.buildtime == m.buildtime
  }

  /** One step of the sustain cascade: drop the cloak, else the
      specialisation, else the ownership, tagging the matching event. */
  function Downgrade(n: Node): (r: Node)
    requires n.owner.Some?
    ensures Rank(r) + 1 == Rank(n) && SameBody(n, r)
    ensures r.owner != n.owner ==> r.owner.None? && !n.hidden && n.kind == Unspecialised
    ensures r.kind != n.kind ==> r.kind == Unspecialised && !n.hidden && r.owner == n.owner
    ensures r.hidden != n.hidden ==> n.hidden && r.kind == n.kind && r.owner == n.owner
  {
    if n.hidden then n.(hidden := false, lastevent := SetEvent(n.lastevent, LostCloak))
    else if n.kind != Unspecialised then n.(kind := Unspecialised, lastevent := SetEvent(n.lastevent, LostSpec))
    else n.(owner := None, lastevent := SetEvent(n.lastevent, LostNode))
  }

  /** The sustain cascade: while the node is owned and its energy is not
      positive, downgrade it once more. */
  function Settle(g: Grid, c: Coord): (r: Grid)
    requires c in g
    ensures c in r && r.Keys == g.Keys
    ensures forall d :: d in g && d != c ==> r[d] == g[d]
    ensures SameBody(g[c], r[c])
    ensures r[c].owner.None? || Energy(r, c) > 0.0
    ensures r[c].owner == g[c].owner || r[c].owner.None?
    ensures r[c].hidden ==> r[c] == g[c]
    ensures r[c].kind != Unspecialised ==> r[c].kind == g[c].kind && r[c].owner == g[c].owner
    ensures r[c].owner != g[c].owner ==> !r[c].hidden && r[c].kind == Unspecialised
    ensures g[c].lastevent.Some? && Priority(g[c].lastevent.value) >= Priority(LostSpec) ==> r[c].lastevent == g[c].lastevent
    ensures g[c].owner.None? || Energy(g, c) > 0.0 ==> r == g
    ensures g[c].owner.Some? && Energy(g, c) <= 0.0 && Energy(g[c := Downgrade(g[c])], c) > 0.0 ==> r == g[c := Downgrade(g[c])]
    decreases Rank(g[c])
  {
    if g[c].owner.Some? && Energy(g, c) <= 0.0 then Settle(g[c := Downgrade(g[c])], c) else g
  }

  /** The grid after at most `k` downgrades of the node at `c`, stopping
      early once the node is unowned. */
  function Downgrades(g: Grid, c: Coord, k: nat): (r: Grid)
    requires c in g
    ensures c in r && r.Keys == g.Keys
    decreases k
  {
    if k == 0 || g[c].owner.None? then g else Downgrades(g[c := Downgrade(g[c])], c, k - 1)
  }

  /** The cascade stops at the first grid of the downgrade chain on which
      the node is unowned or has positive energy: every grid before it
      still has an owned node without energy. */
  lemma {:induction false} SettleStopsFirst(g: Grid, c: Coord)
    requires c in g
    ensures Settle(g, c) == Downgrades(g, c, SettleSteps(g, c))
    ensures forall j: nat :: j < SettleSteps(g, c) ==>
              Downgrades(g, c, j)[c].owner.Some? && Energy(Downgrades(g, c, j), c) <= 0.0
    decreases Rank(g[c])
  {
    if g[c].owner.Some? && Energy(g, c) <= 0.0 {
      var g' := g[c := Downgrade(g[c])];
      SettleStopsFirst(g', c);
      forall j: nat | j < SettleSteps(g, c)
        ensures Downgrades(g, c, j)[c].owner.Some? && Energy(Downgrades(g, c, j), c) <= 0.0
      {
        if j > 0 {
          assert Downgrades(g, c, j) == Downgrades(g', c, j - 1);
        }
      }
    }
  }

  /** The number of downgrades the cascade applies. */
  function SettleSteps(g: Grid, c: Coord): (k: nat)
    requires c in g
    ensures k <= Rank(g[c]) <= 3
    ensures k == 0 <==> Settle(g, c) == g
    ensures k == 0 <==> g[c].owner.None? || Energy(g, c) > 0.0
    decreases Rank(g[c])
  {
    if g[c].owner.Some? && Energy(g, c) <= 0.0 then 1 + SettleSteps(g[c := Downgrade(g[c])], c) else 0
  }
}
