/** What an enemy takeover does to the grid (`onassimilation`, followed by
    the change of owner in the node tick), specified as functions on the
    grid together with the laws they obey. */
module Takeover {
  import opened Catalog
  import opened Nodes
  import opened Links

  // ------------------------------------------------------- destructor

  /** The destructor's effect: every node that links into the destructor
      and belongs to the attacker loses its specialisation, visiting the
      links in order. (The source reads `link.owner`; the source node's
      owner is meant.) */
  function Destroy(g: Grid, ins: seq<Link>, attacker: Option<PlayerId>): (r: Grid)
    ensures r.Keys == g.Keys
    decreases |ins|
  {
    if ins == [] then g
    else
      var r := Destroy(g, ins[..|ins| - 1], attacker);
      var s := ins[|ins| - 1].source;
      if s in r && r[s].owner == attacker && r[s].kind != Unspecialised then r[s := r[s].(kind := Unspecialised)] else r
  }

  /** The node `d` is hit by the destructor: it links in and is the
      attacker's. */
  predicate Hit(g: Grid, ins: seq<Link>, attacker: Option<PlayerId>, d: Coord) {
    d in g && g[d].owner == attacker && exists l :: l in ins && l.source == d
  }

  /** Exactly the attacker's nodes that link in lose their specialisation;
      nothing else changes. */
  lemma {:induction false} DestroyHits(g: Grid, ins: seq<Link>, attacker: Option<PlayerId>)
    ensures forall d :: d in g ==>
              Destroy(g, ins, attacker)[d] == if Hit(g, ins, attacker, d) then g[d].(kind := Unspecialised) else g[d]
    decreases |ins|
  {
    if ins != [] {
      var front, l := ins[..|ins| - 1], ins[|ins| - 1];
      DestroyHits(g, front, attacker);
      assert ins == front + [l];
      forall d | d in g
        ensures Destroy(g, ins, attacker)[d] == if Hit(g, ins, attacker, d) then g[d].(kind := Unspecialised) else g[d]
      {
        if Hit(g, front, attacker, d) {
          var l' :| l' in front && l'.source == d;
          assert l' in ins;
        }
      }
    }
  }

  // ------------------------------------------------------- core defeat

  /** Owner `o` still holds a core node somewhere on the grid. */
  predicate CoreOwned(g: Grid, o: Option<PlayerId>) {
    exists d :: d in g && g[d].kind == Core && g[d].owner == o
  }

  /** The core defeat: every node of `o` on the grid becomes unowned;
      types stay. (The source iterates `for node in self` inside a node;
      the game's nodes are meant.) */
  function DisownAll(g: Grid, o: Option<PlayerId>): (r: Grid)
    ensures r.Keys == g.Keys
  {
    map d | d in g :: if g[d].owner == o then g[d].(owner := None) else g[d]
  }

  /** Taking the core node at `c` defeats its owner: it is a core of a
      player, and once it is a plain node that player holds no core. (For
      an unowned core with no other unowned core left, the source would
      set `lost` on `None` and fail; the model treats that capture as no
      defeat.) */
  predicate Defeats(g: Grid, c: Coord)
    requires c in g
  {
    g[c].kind == Core && g[c].owner.Some? && !CoreOwned(g[c := g[c].(kind := Unspecialised)], g[c].owner)
  }

  /** The disowning loop as the source writes it: each node is compared
      with the captured node's *current* owner, which the loop itself
      clears when it reaches that node. */
  function DisownAsWritten(g: Grid, order: seq<Coord>, c: Coord): (r: Grid)
    requires c in g
    ensures r.Keys == g.Keys && c in r
    decreases |order|
  {
    if order == [] then g
    else
      var r := DisownAsWritten(g, order[..|order| - 1], c);
      var d := order[|order| - 1];
      if d in r && r[d].owner == r[c].owner then r[d := r[d].(owner := None)] else r
  }

  /** With the captured core first in the visiting order, the loop as
      written leaves the loser's later node owned. */
  lemma DisownAsWrittenMissesLaterNodes(n: Node)
    requires n.owner == Some(0)
    ensures var g := map[Coord(1, 1) := n, Coord(1, 2) := n];
            DisownAsWritten(g, [Coord(1, 1), Coord(1, 2)], Coord(1, 1))[Coord(1, 2)].owner == Some(0) &&
            DisownAll(g, Some(0))[Coord(1, 2)].owner.None?
  {
    var g := map[Coord(1, 1) := n, Coord(1, 2) := n];
    var g1 := DisownAsWritten(g, [Coord(1, 1)], Coord(1, 1));
    assert [Coord(1, 1), Coord(1, 2)][..1] == [Coord(1, 1)];
    assert [Coord(1, 1)][..0] == [];
    assert g1[Coord(1, 1)].owner.None?;
  }

  /** After a defeat the loser owns nothing, in particular no core. */
  lemma DisownAllClears(g: Grid, o: Option<PlayerId>)
    requires o.Some?
    ensures forall d :: d in g ==> DisownAll(g, o)[d].owner == (if g[d].owner == o then None else g[d].owner)
    ensures !CoreOwned(DisownAll(g, o), o)
  {
  }

  // -------------------------------------------------------- assimilation

  /** `onassimilation(attacker)` on the node at `c`: tag the success; a
      corruption node turns positive power negative (tagging the
      corruption), a destructor strips the attacker's linking nodes of
      their specialisation, a core node turns plain and, if its owner then
      holds no core, that owner loses everything; finally the node is
      plain and uncloaked. (The source compares the types with strings, so
      the destructor and core branches never run; the comparison with the
      type is meant. The nested re-tick after a corruption is not part of
      this function: every change it makes to the node is overwritten by
      the assignments after it, and the events it can tag rank below the
      success already tagged.) */
  function Assimilation(g: Grid, c: Coord, attacker: Option<PlayerId>): (r: Grid)
    requires c in g
    ensures r.Keys == g.Keys
  {
    var n := g[c];
    var tagged := n.(lastevent := SetEvent(n.lastevent, AssimilateSuccess));
    var g1 := g[c := tagged];
    var g2 :=
      if n.kind == Corruption then
        if n.power > 0.0 then g1[c := tagged.(power := -n.power, lastevent := SetEvent(tagged.lastevent, CorruptionEvent))]
        else g1
      else if n.kind == Destructor then Destroy(g1, n.inlinks, attacker)
      else if n.kind == Core then
        var plain := g1[c := tagged.(kind := Unspecialised)];
        if Defeats(g, c) then DisownAll(plain, n.owner) else plain
      else g1;
    g2[c := g2[c].(kind := Unspecialised, hidden := false)]
  }

  /** The grid after the attack phase of a tick: unchanged when the node
      holds; otherwise assimilated and handed to the attacker. */
  function Taken(g: Grid, c: Coord, attacker: Option<Option<PlayerId>>): (r: Grid)
    requires c in g
    ensures r.Keys == g.Keys
  {
    if attacker.None? then g
    else
      var g1 := Assimilation(g, c, attacker.value);
      g1[c := g1[c].(owner := attacker.value)]
  }

  /** The taken node itself: plain, uncloaked, its links and build time
      unchanged, the success event tagged, and its power negated exactly
      when it was a corruption node with positive power. */
  lemma AssimilatedNode(g: Grid, c: Coord, attacker: Option<PlayerId>)
    requires c in g
    ensures var n, m := g[c], Assimilation(g, c, attacker)[c];
            m.kind == Unspecialised && !m.hidden &&
            m.outlinks == n.outlinks && m.inlinks == n.inlinks && m.buildtime == n.buildtime &&
            m.power == (if n.kind == Corruption && n.power > 0.0 then -n.power else n.power) &&
            m.lastevent == SetEvent(n.lastevent, AssimilateSuccess) &&
            (m.owner == n.owner || (Defeats(g, c) && m.owner.None?))
  {
    var n := g[c];
    var tagged := n.(lastevent := SetEvent(n.lastevent, AssimilateSuccess));
    var g1 := g[c := tagged];
    if n.kind == Corruption && n.power > 0.0 {
      assert SetEvent(tagged.lastevent, CorruptionEvent) == tagged.lastevent;
    } else if n.kind == Destructor {
      DestroyHits(g1, n.inlinks, attacker);
      var r := Destroy(g1, n.inlinks, attacker);
      assert r[c] == tagged || r[c] == tagged.(kind := Unspecialised);
    }
  }

  /** A corruption cannot be reversed: power that is not positive is left
      as it is, and positive power of a corruption node ends negative. */
  lemma CorruptionIrreversible(g: Grid, c: Coord, attacker: Option<PlayerId>)
    requires c in g
    ensures g[c].power <= 0.0 ==> Assimilation(g, c, attacker)[c].power == g[c].power
    ensures g[c].kind == Corruption && g[c].power > 0.0 ==> Assimilation(g, c, attacker)[c].power < 0.0
  {
    AssimilatedNode(g, c, attacker);
  }

  /** What a takeover does to the rest of the grid: a destructor strips
      exactly the attacker's linking nodes of their specialisation, a
      defeated core's owner loses every node, and nothing else changes. */
  lemma AssimilationElsewhere(g: Grid, c: Coord, attacker: Option<PlayerId>, d: Coord)
    requires c in g && d in g && d != c
    ensures var n, r := g[c], Assimilation(g, c, attacker);
            r[d] == if n.kind == Destructor && Hit(g, n.inlinks, attacker, d) then g[d].(kind := Unspecialised)
                    else if Defeats(g, c) && g[d].owner == n.owner then g[d].(owner := None)
                    else g[d]
  {
    var n := g[c];
    var tagged := n.(lastevent := SetEvent(n.lastevent, AssimilateSuccess));
    var g1 := g[c := tagged];
    if n.kind == Destructor {
      DestroyHits(g1, n.inlinks, attacker);
      assert Hit(g1, n.inlinks, attacker, d) == Hit(g, n.inlinks, attacker, d);
    }
  }

  /** A takeover changes no link anywhere. */
  lemma AssimilationKeepsLinks(g: Grid, c: Coord, attacker: Option<PlayerId>)
    requires c in g && LinksOk(g)
    ensures SameLinks(g, Assimilation(g, c, attacker))
    ensures LinksOk(Assimilation(g, c, attacker))
  {
    var r := Assimilation(g, c, attacker);
    AssimilatedNode(g, c, attacker);
    forall d | d in g ensures r[d].outlinks == g[d].outlinks && r[d].inlinks == g[d].inlinks {
      if d != c { AssimilationElsewhere(g, c, attacker, d); }
    }
    LinksOkTransfer(g, r);
  }

  /** A takeover gives no node a new owner: owners are kept or cleared. */
  lemma AssimilationOwners(g: Grid, c: Coord, attacker: Option<PlayerId>)
    requires c in g
    ensures forall d :: d in g ==>
              Assimilation(g, c, attacker)[d].owner == g[d].owner || Assimilation(g, c, attacker)[d].owner.None?
  {
    AssimilatedNode(g, c, attacker);
    forall d | d in g && d != c
      ensures Assimilation(g, c, attacker)[d].owner == g[d].owner || Assimilation(g, c, attacker)[d].owner.None?
    {
      AssimilationElsewhere(g, c, attacker, d);
    }
  }
}
