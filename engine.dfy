/** The game: the grid of nodes, the roster of players, the global turn
    counter and the per-tick visibility and core count, with the commands
    that change them and the game tick. */
module Engine {
  import opened Catalog
  import opened Nodes
  import opened Links
  import opened Attack
  import opened Takeover
  import opened Turns

  /** The order in which `for node in self` visits the grid. It walks the
      values of dictionaries keyed by column and then by row, whose order
      the language does not promise, so the model takes the order as given
      and asks only that it visits no cell twice. */
  predicate VisitsOnce(order: seq<Coord>) {
    forall i, j :: 0 <= i < j < |order| ==> order[i] != order[j]
  }

  /** Every owner is a player on the roster. */
  predicate OwnersBelow(g: Grid, count: nat) {
    forall d :: d in g && g[d].owner.Some? ==> g[d].owner.value < count
  }

  /** A node may become a player's starting core: it is plain and has at
      least six neighbours. (The source compares the type with a string;
      the comparison with the type is meant.) */
  predicate Eligible(g: Grid, width: int, height: int, c: Coord) {
    c in g && g[c].kind == Unspecialised && |Neighbours(g, width, height, c, 1)| >= 6
  }

  const BeginPower: real := 2000.0

  /** The standing facts about the grid of a game: `order` lists its cells
      in visiting order, every node lies on the board, the links are
      consistent and every owner is on a roster of `count` players. */
  ghost predicate WellFormed(g: Grid, order: seq<Coord>, width: int, height: int, count: nat) {
    (forall c :: c in g <==> c in order) && VisitsOnce(order) &&
    InBounds(g, width, height) && LinksOk(g) && OwnersBelow(g, count)
  }

  /** Replacing one node by one with the same links and a rostered owner
      keeps the standing facts. */
  lemma NodeEditKeepsWellFormed(g: Grid, order: seq<Coord>, width: int, height: int, count: nat, c: Coord, m: Node)
    requires WellFormed(g, order, width, height, count) && c in g
    requires m.outlinks == g[c].outlinks && m.inlinks == g[c].inlinks
    requires m.owner.None? || m.owner.value < count
    ensures WellFormed(g[c := m], order, width, height, count)
  {
    LinksOkTransfer(g, g[c := m]);
  }

  /** A takeover keeps the standing facts. */
  lemma AssimilationKeepsWellFormed(g: Grid, order: seq<Coord>, width: int, height: int, count: nat,
                               c: Coord, attacker: Option<PlayerId>)
    requires WellFormed(g, order, width, height, count) && c in g
    ensures WellFormed(Assimilation(g, c, attacker), order, width, height, count)
  {
    AssimilationKeepsLinks(g, c, attacker);
    AssimilationOwners(g, c, attacker);
  }

  /** An attacker is the owner of some linked node, so a rostered player or
      nobody. */
  lemma AttackerRostered(g: Grid, order: seq<Coord>, width: int, height: int, count: nat,
                         c: Coord, a: Option<PlayerId>)
    requires WellFormed(g, order, width, height, count) && c in g
    requires a in Attackers(g, g[c], g[c].inlinks)
    ensures a.None? || a.value < count
  {
    AttackersAreHostileOwners(g, g[c], g[c].inlinks, a);
    var l :| l in g[c].inlinks && Hostile(g, g[c], l) && OwnerAt(g, l.source) == a;
    assert NodeOk(g, c);
  }

  /** A longer roster keeps the standing facts. */
  lemma NewPlayerKeepsWellFormed(g: Grid, order: seq<Coord>, width: int, height: int, count: nat)
    requires WellFormed(g, order, width, height, count)
    ensures WellFormed(g, order, width, height, count + 1)
  {
  }

  /** A link command keeps the standing facts. */
  lemma LinkingKeepsWellFormed(g: Grid, g': Grid, order: seq<Coord>, width: int, height: int, count: nat, s: Coord, t: Coord)
    requires WellFormed(g, order, width, height, count) && LinksOk(g') && LinkFrame(g, g', s, t)
    ensures WellFormed(g', order, width, height, count)
  {
    assert OwnersBelow(g', count) by {
      forall d | d in g' && g'[d].owner.Some? ensures g'[d].owner.value < count {
        assert g'[d].owner == g[d].owner;
      }
    }
  }

  /** The tick of the node at `c` at game time `time` takes grid `before`
      to grid `after`: `verdict` is an outcome the attack phase may reach
      on `before`, the takeover it names is applied, and the sustain
      cascade runs. */
  ghost predicate NodeTicked(before: Grid, after: Grid, time: int, c: Coord, verdict: Option<Option<PlayerId>>) {
    c in before && Decides(before, time, c, verdict) && after == Settle(Taken(before, c, verdict), c)
  }

  /** What the game tick gathers from the node at `c` right after its own
      tick: the node as it then stands, and what it reveals to its owner. */
  predicate Gathered(g: Grid, width: int, height: int, time: int, c: Coord, n: Node, step: Reveal) {
    c in g && n == g[c] && step == (n.owner, VisibleFrom(g, width, height, time, c))
  }

  /** The first `i` steps of the node loop of the game tick from grid `g0`:
      step `k` ticks the node at `order[k]` on the grid step `k - 1` left
      (`g0` for the first), giving grid `snaps[k]` and attack outcome
      `verdicts[k]`, and gathers node `ticked[k]` and reveal `steps[k]`. */
  ghost predicate Traced(g0: Grid, order: seq<Coord>, width: int, height: int, time: int, snaps: seq<Grid>,
                         verdicts: seq<Option<Option<PlayerId>>>, ticked: seq<Node>, steps: seq<Reveal>, i: nat) {
    i <= |order| && |snaps| == |verdicts| == |ticked| == |steps| == i &&
    forall k {:trigger verdicts[k]} :: 0 <= k < i ==>
      NodeTicked(if k == 0 then g0 else snaps[k - 1], snaps[k], time, order[k], verdicts[k]) &&
      Gathered(snaps[k], width, height, time, order[k], ticked[k], steps[k])
  }

  lemma TracedExtend(g0: Grid, order: seq<Coord>, width: int, height: int, time: int, snaps: seq<Grid>,
                     verdicts: seq<Option<Option<PlayerId>>>, ticked: seq<Node>, steps: seq<Reveal>, i: nat,
                     before: Grid, after: Grid, verdict: Option<Option<PlayerId>>, n: Node, step: Reveal)
    requires Traced(g0, order, width, height, time, snaps, verdicts, ticked, steps, i) && i < |order|
    requires before == if i == 0 then g0 else snaps[i - 1]
    requires NodeTicked(before, after, time, order[i], verdict) && Gathered(after, width, height, time, order[i], n, step)
    ensures Traced(g0, order, width, height, time, snaps + [after], verdicts + [verdict], ticked + [n], steps + [step], i + 1)
  {
    var snaps', verdicts', ticked', steps' := snaps + [after], verdicts + [verdict], ticked + [n], steps + [step];
    forall k | 0 <= k < i + 1
      ensures NodeTicked(if k == 0 then g0 else snaps'[k - 1], snaps'[k], time, order[k], verdicts'[k])
      ensures Gathered(snaps'[k], width, height, time, order[k], ticked'[k], steps'[k])
    {
      if k < i {
        assert verdicts[k] == verdicts'[k];
        if k > 0 { assert snaps'[k - 1] == snaps[k - 1]; }
      }
    }
  }

  /** The player a node's tick defeats, if any: the owner of the core
      that the verdict captures when it was that owner's last core. */
  ghost function Loser(before: Grid, c: Coord, verdict: Option<Option<PlayerId>>): Option<PlayerId> {
    if verdict.Some? && c in before && Defeats(before, c) then before[c].owner else None
  }

  /** Step `k` of the node loop traced from `g0` defeats `losers[k]`. */
  ghost predicate LosersTraced(g0: Grid, order: seq<Coord>, snaps: seq<Grid>,
                               verdicts: seq<Option<Option<PlayerId>>>, losers: seq<Option<PlayerId>>, i: nat) {
    i <= |order| && |snaps| == |verdicts| == |losers| == i &&
    forall k {:trigger losers[k]} :: 0 <= k < i ==>
      losers[k] == Loser(if k == 0 then g0 else snaps[k - 1], order[k], verdicts[k])
  }

  lemma LosersExtend(g0: Grid, order: seq<Coord>, snaps: seq<Grid>, verdicts: seq<Option<Option<PlayerId>>>,
                     losers: seq<Option<PlayerId>>, i: nat, before: Grid, after: Grid,
                     verdict: Option<Option<PlayerId>>)
    requires LosersTraced(g0, order, snaps, verdicts, losers, i) && i < |order|
    requires before == if i == 0 then g0 else snaps[i - 1]
    ensures LosersTraced(g0, order, snaps + [after], verdicts + [verdict], losers + [Loser(before, order[i], verdict)], i + 1)
  {
    var snaps', verdicts', losers' := snaps + [after], verdicts + [verdict], losers + [Loser(before, order[i], verdict)];
    forall k | 0 <= k < i + 1
      ensures losers'[k] == Loser(if k == 0 then g0 else snaps'[k - 1], order[k], verdicts'[k])
    {
      if k < i {
        assert losers'[k] == losers[k] && verdicts'[k] == verdicts[k];
        if k > 0 { assert snaps'[k - 1] == snaps[k - 1]; }
      }
    }
  }

  /** The roster `after` is `before` with exactly the players named in
      `losers` marked as lost. */
  predicate LostBy(before: seq<Player>, after: seq<Player>, losers: seq<Option<PlayerId>>) {
    |after| == |before| &&
    forall k :: 0 <= k < |after| ==> after[k] == if Some(k) in losers then before[k].(lost := true) else before[k]
  }

  /** Marking one more defeated player extends the list of losers. */
  lemma LostByExtend(before: seq<Player>, after: seq<Player>, losers: seq<Option<PlayerId>>, o: Option<PlayerId>)
    requires LostBy(before, after, losers) && (o.Some? ==> o.value < |after|)
    ensures LostBy(before, if o.Some? then after[o.value := after[o.value].(lost := true)] else after, losers + [o])
  {
    var after' := if o.Some? then after[o.value := after[o.value].(lost := true)] else after;
    forall k | 0 <= k < |after'|
      ensures after'[k] == if Some(k) in losers + [o] then before[k].(lost := true) else before[k]
    {
      assert Some(k) in losers + [o] <==> Some(k) in losers || o == Some(k);
    }
  }

  /** The roster `after` differs from `before` at most by players who have
      lost. */
  predicate LostOnly(before: seq<Player>, after: seq<Player>) {
    |after| == |before| && forall k :: 0 <= k < |after| ==> after[k] == before[k] || after[k] == before[k].(lost := true)
  }

  lemma LostOnlyTrans(a: seq<Player>, b: seq<Player>, c: seq<Player>)
    requires LostOnly(a, b) && LostOnly(b, c)
    ensures LostOnly(a, c)
  {
  }

  /** Marking one player as lost changes nothing else on the roster. */
  lemma LostMark(ps: seq<Player>, i: nat, marked: bool)
    requires marked ==> i < |ps|
    ensures LostOnly(ps, if marked then ps[i := ps[i].(lost := true)] else ps)
  {
  }

  /** A roster that changed only in `lost` flags kept its counters. */
  lemma LostOnlyKeepsCounters(before: seq<Player>, after: seq<Player>)
    requires LostOnly(before, after)
    ensures CountersKept(before, after)
  {
  }

  /** Declaring a winner changes only that player's `wins` flag. */
  lemma WinKeepsCounters(before: seq<Player>, roster: seq<Player>, w: nat)
    requires CountersKept(before, roster) && w < |roster|
    ensures CountersKept(before, roster[w := roster[w].(wins := true)])
  {
  }

  /** `Node.link` on the grid: the two list searches are the loops of the
      source, and the outcome is `LinkGrid`'s. */
  method PlanLink(g: Grid, s: Coord, t: Coord, p: real) returns (r: Result<Grid>)
    ensures r == LinkGrid(g, s, t, p)
  {
    if s !in g || t !in g {
      return Fail(NoSuchNode);
    }
    if s == t || t.x - s.x > 1 || s.x - t.x > 1 || t.y - s.y > 1 || s.y - t.y > 1 {
      return Fail(NonNeighbourLink);
    }
    var ns := g[s];
    var i := FindTarget(ns.outlinks, t);
    if i < |ns.outlinks| {
      var l := ns.outlinks[i];
      return Ok(Tag(ReplaceLink(g, l, l.(power := l.power + p)), t, PowerIncrease));
    }
    var j := FindSource(ns.inlinks, t);
    if j < |ns.inlinks| && g[t].owner == ns.owner {
      return Ok(Net(g, s, t, p, ns.inlinks[j]));
    }
    return Ok(AddLink(g, Link(s, t, p)));
  }

  /** The destructor loop of `onassimilation`. */
  method DestroyGrid(g: Grid, ins: seq<Link>, attacker: Option<PlayerId>) returns (r: Grid)
    ensures r == Destroy(g, ins, attacker)
  {
    r := g;
    var i := 0;
    while i < |ins|
      invariant i <= |ins|
      invariant r == Destroy(g, ins[..i], attacker)
    {
      assert ins[..i + 1][..i] == ins[..i];
      var s := ins[i].source;
      if s in r && r[s].owner == attacker && r[s].kind != Unspecialised {
        r := r[s := r[s].(kind := Unspecialised)];
      }
      i := i + 1;
    }
    assert ins[..i] == ins;
  }

  /** The search loop of the core defeat: does `o` still hold a core?
      (The source iterates `for node in self` inside a node, which is not
      iterable; the game's nodes are meant.) */
  method HasCore(g: Grid, order: seq<Coord>, o: Option<PlayerId>) returns (b: bool)
    requires forall c :: c in g <==> c in order
    ensures b <==> CoreOwned(g, o)
  {
    b := false;
    var i := 0;
    while i < |order| && !b
      invariant i <= |order|
      invariant b <==> exists k :: 0 <= k < i && g[order[k]].kind == Core && g[order[k]].owner == o
    {
      var d := order[i];
      if g[d].kind == Core && g[d].owner == o {
        b := true;
      }
      i := i + 1;
    }
  }

  /** The disowning loop of the core defeat over the game's nodes (the
      source's `for node in self` inside a node), comparing with the loser
      captured before the loop (see `DisownAsWritten` for the comparison as
      the source writes it). */
  method DisownGrid(g: Grid, order: seq<Coord>, o: Option<PlayerId>) returns (r: Grid)
    requires forall c :: c in g <==> c in order
    ensures r == DisownAll(g, o)
  {
    r := g;
    var i := 0;
    while i < |order|
      invariant i <= |order| && r.Keys == g.Keys
      invariant forall d :: d in r ==>
                  r[d] == if d in order[..i] && g[d].owner == o then g[d].(owner := None) else g[d]
    {
      var d := order[i];
      assert order[..i + 1] == order[..i] + [d];
      if r[d].owner == o {
        r := r[d := r[d].(owner := None)];
      }
      i := i + 1;
    }
    assert order[..i] == order;
  }

  /** `onassimilation(attacker)` on the grid, reporting whether the owner
      of the taken core is defeated. */
  method Assimilate(g: Grid, order: seq<Coord>, c: Coord, attacker: Option<PlayerId>) returns (r: Grid, defeated: bool)
    requires (forall d :: d in g <==> d in order) && c in g
    ensures r == Assimilation(g, c, attacker)
    ensures defeated <==> Defeats(g, c)
  {
    var n := g[c];
    var tagged := n.(lastevent := SetEvent(n.lastevent, AssimilateSuccess));
    r := g[c := tagged];
    defeated := false;
    if n.kind == Corruption {
      if n.power > 0.0 {
        r := r[c := tagged.(power := -n.power, lastevent := SetEvent(tagged.lastevent, CorruptionEvent))];
      }
    } else if n.kind == Destructor {
      r := DestroyGrid(r, n.inlinks, attacker);
    } else if n.kind == Core {
      r := r[c := tagged.(kind := Unspecialised)];
      var left := HasCore(r, order, n.owner);
      CoreOwnedElsewhere(r, g[c := g[c].(kind := Unspecialised)], c, n.owner);
      if n.owner.Some? && !left {
        defeated := true;
        r := DisownGrid(r, order, n.owner);
      }
    }
    r := r[c := r[c].(kind := Unspecialised, hidden := false)];
  }

  /** The sustain loop of the node tick on the grid: `Settle`, and the
      number of downgrades it took. */
  method Cascade(g: Grid, c: Coord) returns (r: Grid, steps: nat)
    requires c in g
    ensures r == Settle(g, c) && steps == SettleSteps(g, c)
  {
    r := g;
    steps := 0;
    while r[c].owner.Some? && Energy(r, c) <= 0.0
      invariant c in r
      invariant Settle(r, c) == Settle(g, c)
      invariant steps + SettleSteps(r, c) == SettleSteps(g, c)
      decreases Rank(r[c])
    {
      r := r[c := Downgrade(r[c])];
      steps := steps + 1;
    }
  }

  /** The sustain cascade keeps the standing facts. */
  lemma {:induction false} SettleKeepsWellFormed(g: Grid, order: seq<Coord>, width: int, height: int, count: nat, c: Coord)
    requires WellFormed(g, order, width, height, count) && c in g
    ensures WellFormed(Settle(g, c), order, width, height, count)
    decreases Rank(g[c])
  {
    if g[c].owner.Some? && Energy(g, c) <= 0.0 {
      NodeEditKeepsWellFormed(g, order, width, height, count, c, Downgrade(g[c]));
      SettleKeepsWellFormed(g[c := Downgrade(g[c])], order, width, height, count, c);
    }
  }

  class Game {
    const width: int
    const height: int
    var nodes: Grid
    var order: seq<Coord>
    var players: seq<Player>
    var time: nat
    var visible: map<PlayerId, set<Coord>>
    var cores: map<Option<PlayerId>, nat>

    ghost predicate Valid()
      reads this
    {
      WellFormed(nodes, order, width, height, |players|) && NoneAhead(players, time)
    }

    /** A new game over a generated grid: nodes are unowned and unlinked,
        and `order` lists each of their cells once, in any order. */
    constructor (width: int, height: int, grid: Grid, order: seq<Coord>)
      requires forall c :: c in grid <==> c in order
      requires VisitsOnce(order) && InBounds(grid, width, height)
      requires forall c :: c in grid ==> grid[c].owner.None? && grid[c].outlinks == [] && grid[c].inlinks == []
      ensures Valid()
      ensures this.width == width && this.height == height && nodes == grid && this.order == order
      ensures players == [] && time == 0 && visible == map[] && cores == map[]
    {
      this.width := width;
      this.height := height;
      nodes := grid;
      this.order := order;
      players := [];
      time := 0;
      visible := map[];
      cores := map[];
      new;
      forall c | c in grid ensures NodeOk(grid, c) { }
    }

    /** `addplayer` with the generator's random choice of begin node given
        as `begin`: an eligible node becomes a core with the begin power,
        owned by the new player; for an ineligible choice nothing changes
        and the generator would choose again. (The source's `makebeginnode`
        does not return the node it picks; returning it is meant.) */
    method AddPlayer(name: string, begin: Coord) returns (ok: bool)
      requires Valid()
      modifies this
      ensures Valid()
      ensures ok <==> Eligible(old(nodes), width, height, begin)
      ensures ok ==> nodes == old(nodes)[begin := old(nodes)[begin].(kind := Core, power := BeginPower, owner := Some(|old(players)|))] &&
                     players == old(players) + [Player(name, begin, 0, false, false)]
      ensures !ok ==> nodes == old(nodes) && players == old(players)
      ensures order == old(order) && time == old(time) && visible == old(visible) && cores == old(cores)
    {
      ok := Eligible(nodes, width, height, begin);
      if ok {
        var g, ps := nodes, players;
        var m := g[begin].(kind := Core, power := BeginPower, owner := Some(|ps|));
        var ps' := ps + [Player(name, begin, 0, false, false)];
        NewPlayerKeepsWellFormed(g, order, width, height, |ps|);
        NodeEditKeepsWellFormed(g, order, width, height, |ps'|, begin, m);
        assert NoneAhead(ps', time) by {
          forall k | 0 <= k < |ps'| ensures ps'[k].time <= time + 1 {
            if k < |ps| { assert ps'[k] == ps[k]; }
          }
        }
        nodes := g[begin := m];
        players := ps';
      }
    }

    /** `link` from the node at `s` to the node at `t` with power `p`: the
        grid becomes `LinkGrid`'s, or is left as it was on a refusal. The
        two searches are the loops of the source. (The `link` command of
        `post` passes no power; the power argument is meant.) */
    method Link(s: Coord, t: Coord, p: real) returns (r: Result<()>)
      requires Valid()
      modifies this
      ensures Valid()
      ensures r.Ok? <==> LinkGrid(old(nodes), s, t, p).Ok?
      ensures r.Ok? ==> nodes == LinkGrid(old(nodes), s, t, p).value
      ensures r.Fail? ==> nodes == old(nodes) && r.fault == LinkGrid(old(nodes), s, t, p).fault
      ensures order == old(order) && players == old(players) && time == old(time)
      ensures visible == old(visible) && cores == old(cores)
    {
      var res := PlanLink(nodes, s, t, p);
      if res.Fail? {
        return Fail(res.fault);
      }
      LinkKeepsLinksOk(nodes, s, t, p);
      LinkingKeepsWellFormed(nodes, res.value, order, width, height, |players|, s, t);
      nodes := res.value;
      r := Ok(());
    }

    /** `hide`: refused with `NotEnoughPower`, changing nothing, when the
        energy less the type's consumption is not positive; otherwise the
        node is cloaked. A node cloaked this way keeps positive energy.
        (The source reads `self.energy` without calling it.) */
    method Hide(c: Coord) returns (r: Result<()>)
      requires Valid() && c in nodes
      modifies this
      ensures Valid()
      ensures r.Fail? <==> Energy(old(nodes), c) - TypeOf(old(nodes)[c].kind).consumption <= 0.0
      ensures r.Fail? ==> r.fault == NotEnoughPower && nodes == old(nodes)
      ensures r.Ok? ==> nodes == old(nodes)[c := old(nodes)[c].(hidden := true)]
      ensures r.Ok? ==> Energy(nodes, c) > 0.0
      ensures order == old(order) && players == old(players) && time == old(time)
      ensures visible == old(visible) && cores == old(cores)
    {
      if Energy(nodes, c) - TypeOf(nodes[c].kind).consumption <= 0.0 {
        return Fail(NotEnoughPower);
      }
      var g := nodes;
      var m := g[c].(hidden := true);
      NodeEditKeepsWellFormed(g, order, width, height, |players|, c, m);
      if !g[c].hidden {
        HideCost(g, c);
      } else {
        assert g[c := m] == g;
      }
      nodes := g[c := m];
      r := Ok(());
    }

    /** `specialise` into `k`: refused with `NotEnoughPower`, changing
        nothing, when the energy plus the old consumption less the new one
        is not positive; otherwise the node takes type `k` and is
        specialising for exactly the next `buildduration` turns. (The
        source reads `self.energy` without calling it and `self.gametime`
        for the game's time.) */
    method Specialise(c: Coord, k: Kind) returns (r: Result<()>)
      requires Valid() && c in nodes
      modifies this
      ensures Valid()
      ensures r.Fail? <==>
                Energy(old(nodes), c) + TypeOf(old(nodes)[c].kind).consumption - TypeOf(k).consumption <= 0.0
      ensures r.Fail? ==> r.fault == NotEnoughPower && nodes == old(nodes)
      ensures r.Ok? ==> nodes == old(nodes)[c := old(nodes)[c].(kind := k, buildtime := time + TypeOf(k).buildduration)]
      ensures r.Ok? ==> forall t :: Specialising(nodes[c], t) <==> t < time + TypeOf(k).buildduration
      ensures r.Ok? && !old(nodes)[c].hidden && old(nodes)[c].kind != Collaborator && k != Collaborator
              ==> Energy(nodes, c) > 0.0
      ensures order == old(order) && players == old(players) && time == old(time)
      ensures visible == old(visible) && cores == old(cores)
    {
      if Energy(nodes, c) + TypeOf(nodes[c].kind).consumption - TypeOf(k).consumption <= 0.0 {
        return Fail(NotEnoughPower);
      }
      var g := nodes;
      var b := time + TypeOf(k).buildduration;
      var m := g[c].(kind := k, buildtime := b);
      NodeEditKeepsWellFormed(g, order, width, height, |players|, c, m);
      if !g[c].hidden && g[c].kind != Collaborator && k != Collaborator {
        SpecialiseCost(g, c, k, b);
      }
      assert forall t :: Specialising(m, t) <==> t < b;
      nodes := g[c := m];
      r := Ok(());
    }

    /** The sustain loop of the node tick: `Settle`, in at most three
        steps. */
    method Sustain(c: Coord) returns (steps: nat)
      requires Valid() && c in nodes
      modifies this
      ensures Valid()
      ensures nodes == Settle(old(nodes), c) && steps == SettleSteps(old(nodes), c) && steps <= 3
      ensures order == old(order) && players == old(players) && time == old(time)
      ensures visible == old(visible) && cores == old(cores)
    {
      var g;
      g, steps := Cascade(nodes, c);
      SettleKeepsWellFormed(nodes, order, width, height, |players|, c);
      nodes := g;
    }

    /** `onassimilation(attacker)` on the node at `c`: the grid becomes
        `Assimilation`'s, and a defeated owner is marked as lost. */
    method OnAssimilation(c: Coord, attacker: Option<PlayerId>)
      requires Valid() && c in nodes
      modifies this
      ensures Valid()
      ensures nodes == Assimilation(old(nodes), c, attacker)
      ensures Defeats(old(nodes), c) ==>
                players == old(players)[old(nodes)[c].owner.value := old(players)[old(nodes)[c].owner.value].(lost := true)]
      ensures !Defeats(old(nodes), c) ==> players == old(players)
      ensures order == old(order) && time == old(time) && visible == old(visible) && cores == old(cores)
    {
      var r, defeated := Assimilate(nodes, order, c, attacker);
      AssimilationKeepsWellFormed(nodes, order, width, height, |players|, c, attacker);
      if defeated {
        var loser := nodes[c].owner.value;
        players := players[loser := players[loser].(lost := true)];
      }
      nodes := r;
    }

    /** The tick of the node at `c`: the attack phase decides at most one
        takeover, by the strongest attacker whose attack exceeds the
        strength; then the sustain cascade runs. (The source keys the
        attack by source node where the owner is meant, and its
        `type is None` test never holds.) */
    method TickNode(c: Coord) returns (v: Verdict, ghost verdict: Option<Option<PlayerId>>)
      requires Valid() && c in nodes
      modifies this
      ensures Valid()
      ensures v.TakenBy? ==>
                v.attacker in Attackers(old(nodes), old(nodes)[c], old(nodes)[c].inlinks) &&
                AttackBy(old(nodes), old(nodes)[c], old(nodes)[c].inlinks, v.attacker) > Strength(old(nodes), time, c) &&
                forall a :: a in Attackers(old(nodes), old(nodes)[c], old(nodes)[c].inlinks) ==>
                  AttackBy(old(nodes), old(nodes)[c], old(nodes)[c].inlinks, a) <=
                  AttackBy(old(nodes), old(nodes)[c], old(nodes)[c].inlinks, v.attacker)
      ensures v.Holds? <==>
                forall a :: a in Attackers(old(nodes), old(nodes)[c], old(nodes)[c].inlinks) ==>
                  AttackBy(old(nodes), old(nodes)[c], old(nodes)[c].inlinks, a) <= Strength(old(nodes), time, c)
      ensures verdict == (if v.Holds? then None else Some(v.attacker))
      ensures Decides(old(nodes), time, c, verdict)
      ensures nodes == Settle(Taken(old(nodes), c, verdict), c)
      ensures v.TakenBy? && Defeats(old(nodes), c) ==>
                players == old(players)[old(nodes)[c].owner.value := old(players)[old(nodes)[c].owner.value].(lost := true)]
      ensures !(v.TakenBy? && Defeats(old(nodes), c)) ==> players == old(players)
      ensures order == old(order) && time == old(time) && visible == old(visible) && cores == old(cores)
    {
      ghost var g0, ps0 := nodes, players;
      v := ResolveAttack(nodes, time, c);
      if v.TakenBy? {
        verdict := Some(v.attacker);
        AttackerRostered(g0, order, width, height, |players|, c, v.attacker);
        OnAssimilation(c, v.attacker);
        NodeEditKeepsWellFormed(nodes, order, width, height, |players|, c, nodes[c].(owner := v.attacker));
        nodes := nodes[c := nodes[c].(owner := v.attacker)];
        assert nodes == Taken(g0, c, verdict);
      } else {
        verdict := None;
      }
      assert players == if v.TakenBy? && Defeats(g0, c) then ps0[g0[c].owner.value := ps0[g0[c].owner.value].(lost := true)] else ps0;
      var steps := Sustain(c);
    }

    /** One step of the node loop of `Game.tick`: the node at `c` ticks,
        and what it then reveals and whether it is a core are gathered. */
    method TickAndGather(c: Coord) returns (ghost verdict: Option<Option<PlayerId>>, n: Node, step: Reveal)
      requires Valid() && c in nodes
      requires forall o :: o in cores && o.Some? ==> o.value < |players|
      modifies this
      ensures Valid()
      ensures order == old(order) && time == old(time) && nodes.Keys == old(nodes).Keys
      ensures NodeTicked(old(nodes), nodes, time, c, verdict) && Gathered(nodes, width, height, time, c, n, step)
      ensures cores == CountCore(old(cores), n) && visible == AddSight(old(visible), step)
      ensures forall o :: o in cores && o.Some? ==> o.value < |players|
      ensures LostOnly(old(players), players)
      ensures var o := Loser(old(nodes), c, verdict);
              (o.Some? ==> o.value < |old(players)|) &&
              players == if o.Some? then old(players)[o.value := old(players)[o.value].(lost := true)] else old(players)
    {
      ghost var g0, ps0 := nodes, players;
      assert OwnersBelow(g0, |ps0|);
      var v;
      v, verdict := TickNode(c);
      ghost var marked := v.TakenBy? && Defeats(g0, c);
      LostMark(ps0, if marked then g0[c].owner.value else 0, marked);
      n := nodes[c];
      assert OwnersBelow(nodes, |players|);
      step := (n.owner, VisibleFrom(nodes, width, height, time, c));
      cores := CountCore(cores, n);
      visible := AddSight(visible, step);
    }

    /** The node loop of `Game.tick`: every node ticks in visiting order, each
        on the grid the previous one left, and the nodes each owner sees and
        the cores each owner holds are gathered from each node right after
        its own tick. The players marked as lost are exactly those whose
        last core some step captured. */
    method TickNodes() returns (ghost snaps: seq<Grid>, ghost verdicts: seq<Option<Option<PlayerId>>>,
                                ghost ticked: seq<Node>, ghost steps: seq<Reveal>, ghost losers: seq<Option<PlayerId>>)
      requires Valid()
      modifies this
      ensures Valid()
      ensures order == old(order) && time == old(time)
      ensures Traced(old(nodes), order, width, height, time, snaps, verdicts, ticked, steps, |order|)
      ensures nodes == if |order| == 0 then old(nodes) else snaps[|order| - 1]
      ensures cores == CoreTally(ticked) && visible == Sight(steps)
      ensures forall o :: o in cores && o.Some? ==> o.value < |players|
      ensures LostOnly(old(players), players)
      ensures LosersTraced(old(nodes), order, snaps, verdicts, losers, |order|) && LostBy(old(players), players, losers)
    {
      visible := map[];
      cores := map[];
      snaps, verdicts, ticked, steps, losers := [], [], [], [], [];
      var i := 0;
      while i < |order|
        invariant i <= |order| && Valid()
        invariant order == old(order) && time == old(time) && nodes.Keys == old(nodes).Keys
        invariant Traced(old(nodes), order, width, height, time, snaps, verdicts, ticked, steps, i)
        invariant nodes == if i == 0 then old(nodes) else snaps[i - 1]
        invariant cores == CoreTally(ticked) && visible == Sight(steps)
        invariant forall o :: o in cores && o.Some? ==> o.value < |players|
        invariant LostOnly(old(players), players)
        invariant LosersTraced(old(nodes), order, snaps, verdicts, losers, i) && LostBy(old(players), players, losers)
      {
        ghost var roster := players;
        snaps, verdicts, ticked, steps, losers := TickStep(old(nodes), old(players), i, snaps, verdicts, ticked, steps, losers);
        LostOnlyTrans(old(players), roster, players);
        i := i + 1;
      }
    }

    /** Step `i` of the node loop of `Game.tick`, extending the record of
        the steps before it. */
    method TickStep(ghost g0: Grid, ghost ps0: seq<Player>, i: nat, ghost snaps: seq<Grid>,
                    ghost verdicts: seq<Option<Option<PlayerId>>>, ghost ticked: seq<Node>, ghost steps: seq<Reveal>,
                    ghost losers: seq<Option<PlayerId>>)
      returns (ghost snaps': seq<Grid>, ghost verdicts': seq<Option<Option<PlayerId>>>,
               ghost ticked': seq<Node>, ghost steps': seq<Reveal>, ghost losers': seq<Option<PlayerId>>)
      requires Valid() && i < |order| && g0.Keys == nodes.Keys
      requires Traced(g0, order, width, height, time, snaps, verdicts, ticked, steps, i)
      requires nodes == if i == 0 then g0 else snaps[i - 1]
      requires cores == CoreTally(ticked) && visible == Sight(steps)
      requires forall o :: o in cores && o.Some? ==> o.value < |players|
      requires LosersTraced(g0, order, snaps, verdicts, losers, i) && LostBy(ps0, players, losers)
      modifies this
      ensures Valid()
      ensures order == old(order) && time == old(time) && nodes.Keys == old(nodes).Keys
      ensures Traced(g0, order, width, height, time, snaps', verdicts', ticked', steps', i + 1)
      ensures LosersTraced(g0, order, snaps', verdicts', losers', i + 1) && LostBy(ps0, players, losers')
      ensures nodes == snaps'[i]
      ensures cores == CoreTally(ticked') && visible == Sight(steps')
      ensures forall o :: o in cores && o.Some? ==> o.value < |players|
      ensures LostOnly(old(players), players)
    {
      ghost var before, roster := nodes, players;
      ghost var verdict;
      var n, step;
      assert order[i] in nodes;
      verdict, n, step := TickAndGather(order[i]);
      CoreTallySnoc(ticked, n);
      SightSnoc(steps, step);
      TracedExtend(g0, order, width, height, time, snaps, verdicts, ticked, steps, i, before, nodes, verdict, n, step);
      ghost var o := Loser(before, order[i], verdict);
      LosersExtend(g0, order, snaps, verdicts, losers, i, before, nodes, verdict);
      LostByExtend(ps0, roster, losers, o);
      snaps', verdicts', ticked', steps', losers' := snaps + [nodes], verdicts + [verdict], ticked + [n], steps + [step], losers + [o];
    }

    /** `Game.tick`: the node loop, then the game time moves on, and if the
        core count has a single owner that is a player, that player wins.
        (The source never moves the game time on; moving it on is meant. A
        count whose only owner is `None` names no winner.) */
    method Tick() returns (r: Result<()>, ghost snaps: seq<Grid>, ghost verdicts: seq<Option<Option<PlayerId>>>,
                           ghost ticked: seq<Node>, ghost steps: seq<Reveal>, ghost losers: seq<Option<PlayerId>>,
                           ghost roster: seq<Player>)
      requires Valid()
      modifies this
      ensures Valid()
      ensures order == old(order) && time == old(time) + 1
      ensures Traced(old(nodes), order, width, height, old(time), snaps, verdicts, ticked, steps, |order|)
      ensures nodes == if |order| == 0 then old(nodes) else snaps[|order| - 1]
      ensures cores == CoreTally(ticked) && visible == Sight(steps)
      ensures LostOnly(old(players), roster) && CountersKept(old(players), players)
      ensures LosersTraced(old(nodes), order, snaps, verdicts, losers, |order|) && LostBy(old(players), roster, losers)
      ensures r.Fail? <==> |cores| == 1 && None !in cores
      ensures r.Fail? ==> r.fault.Won? && cores.Keys == {Some(r.fault.winner)} && r.fault.winner < |roster| &&
                          players == roster[r.fault.winner := roster[r.fault.winner].(wins := true)]
      ensures r.Ok? ==> players == roster
    {
      snaps, verdicts, ticked, steps, losers := TickNodes();
      roster := players;
      LostOnlyKeepsCounters(old(players), roster);
      time := time + 1;
      r := Ok(());
      if |cores| == 1 && None !in cores {
        var o :| o in cores;
        SingleKey(cores, o);
        var winner := o.value;
        WinKeepsCounters(old(players), roster, winner);
        players := players[winner := players[winner].(wins := true)];
        r := Fail(Won(winner));
      }
      NoneAheadCarries(old(players), players, old(time), time);
    }

    /** The `done` command of `post` from the player called `name`, after
        `getplayer`: an unknown name is refused; a player already a turn
        ahead of the game is told who is still playing; a player who lost is
        told so; otherwise the player's counter moves on, and the game ticks
        when then no player lags that counter. `Ok(true)` reports a tick.
        (`getplayer` does not return the player it finds, and it and
        `waiting` read `self.game.time` inside the game itself; `waiting`
        yields players where their names are joined, and the barrier calls
        `self.game.tick()`, also inside the game. Returning the player, the
        game's own time, the names and the game's own tick are meant.) */
    method Done(name: string) returns (r: Result<bool>)
      requires Valid()
      modifies this
      ensures Valid() && order == old(order)
      ensures var i := LastNamed(old(players), name);
              i == |old(players)| ==> r == Fail(NoSuchPlayer)
      ensures var i := LastNamed(old(players), name);
              i < |old(players)| && old(players)[i].time > old(time) ==> r == Fail(Waiting(Pending(old(players), old(time))))
      ensures var i := LastNamed(old(players), name);
              i < |old(players)| && old(players)[i].time <= old(time) && old(players)[i].lost ==> r == Fail(YouLost)
      ensures var i := LastNamed(old(players), name);
              i == |old(players)| || old(players)[i].time > old(time) || old(players)[i].lost ==>
                nodes == old(nodes) && players == old(players) && time == old(time) &&
                visible == old(visible) && cores == old(cores)
      ensures var i := LastNamed(old(players), name);
              i < |old(players)| && old(players)[i].time <= old(time) && !old(players)[i].lost ==>
                var advanced := old(players)[i := Advance(old(players)[i])];
                (NobodyLags(advanced, advanced[i].time) <==> time == old(time) + 1) &&
                (!NobodyLags(advanced, advanced[i].time) ==>
                   r == Ok(false) && players == advanced && nodes == old(nodes) && time == old(time) &&
                   visible == old(visible) && cores == old(cores)) &&
                (NobodyLags(advanced, advanced[i].time) ==>
                   (r == Ok(true) || (r.Fail? && r.fault.Won?)) && CountersKept(advanced, players))
    {
      var i := FindPlayer(players, name);
      if i == |players| {
        return Fail(NoSuchPlayer);
      }
      if players[i].time > time {
        return Fail(Waiting(Pending(players, time)));
      }
      if players[i].lost {
        return Fail(YouLost);
      }
      DoneKeepsNoneAhead(players, time, i, false);
      players := players[i := Advance(players[i])];
      var alldone := AllCaughtUp(players, players[i].time);
      if !alldone {
        return Ok(false);
      }
      var result;
      ghost var snaps, verdicts, ticked, steps, losers, roster;
      result, snaps, verdicts, ticked, steps, losers, roster := Tick();
      r := if result.Ok? then Ok(true) else Fail(result.fault);
    }
  }

  /** A map with one key has no key but that one. */
  lemma SingleKey<K, V>(m: map<K, V>, k: K)
    requires |m| == 1 && k in m
    ensures m.Keys == {k}
  {
    assert |m.Keys - {k}| == 0;
  }

  /** Whether an owner holds a core does not depend on a node that is not
      a core on either grid. */
  lemma CoreOwnedElsewhere(g1: Grid, g2: Grid, c: Coord, o: Option<PlayerId>)
    requires g1.Keys == g2.Keys && c in g1
    requires forall d :: d in g1 && d != c ==> g1[d] == g2[d]
    requires g1[c].kind != Core && g2[c].kind != Core
    ensures CoreOwned(g1, o) <==> CoreOwned(g2, o)
  {
    if CoreOwned(g1, o) {
      var d :| d in g1 && g1[d].kind == Core && g1[d].owner == o;
      assert g2[d] == g1[d];
    }
    if CoreOwned(g2, o) {
      var d :| d in g2 && g2[d].kind == Core && g2[d].owner == o;
      assert g2[d] == g1[d];
    }
  }
}
