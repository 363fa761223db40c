/** The attack phase of a node tick: incoming links from other owners'
    non-collaborator nodes are summed per attacking owner, and the node is
    taken over when the strongest attack exceeds its strength. */
module Attack {
  import opened Catalog
  import opened Nodes

  /** Link `l` into `n` is an attack: its source belongs to someone other
      than `n`'s owner and is not a collaborator. (The source reads
      `link.owner`, which links do not have; the source's owner is meant.) */
  predicate Hostile(g: Grid, n: Node, l: Link) {
    OwnerAt(g, l.source) != n.owner && KindAt(g, l.source) != Collaborator
  }

  /** The owners attacking `n` through the links `ins`. */
  function Attackers(g: Grid, n: Node, ins: seq<Link>): set<Option<PlayerId>>
    decreases |ins|
  {
    if ins == [] then {}
    else
      var l := ins[|ins| - 1];
      Attackers(g, n, ins[..|ins| - 1]) + (if Hostile(g, n, l) then {OwnerAt(g, l.source)} else {})
  }

  /** The summed power with which owner `a` attacks `n` through `ins`. */
  function AttackBy(g: Grid, n: Node, ins: seq<Link>, a: Option<PlayerId>): real
    decreases |ins|
  {
    if ins == [] then 0.0
    else
      var l := ins[|ins| - 1];
      AttackBy(g, n, ins[..|ins| - 1], a) + (if Hostile(g, n, l) && OwnerAt(g, l.source) == a then l.power else 0.0)
  }

  /** An owner attacks exactly when one of the links is a hostile link
      from a node of theirs; in particular the node's own owner never
      attacks it, and neither does any collaborator node. */
  lemma {:induction false} AttackersAreHostileOwners(g: Grid, n: Node, ins: seq<Link>, a: Option<PlayerId>)
    ensures a in Attackers(g, n, ins) <==> exists l :: l in ins && Hostile(g, n, l) && OwnerAt(g, l.source) == a
    ensures n.owner !in Attackers(g, n, ins)
    decreases |ins|
  {
    if ins != [] {
      var front, l := ins[..|ins| - 1], ins[|ins| - 1];
      AttackersAreHostileOwners(g, n, front, a);
      AttackersAreHostileOwners(g, n, front, n.owner);
      assert ins == front + [l];
      if a in Attackers(g, n, front) {
        var l' :| l' in front && Hostile(g, n, l') && OwnerAt(g, l'.source) == a;
        assert l' in ins;
      }
    }
  }

  /** Someone who is not among the attackers contributes no attack. */
  lemma {:induction false} OutsidersDoNotAttack(g: Grid, n: Node, ins: seq<Link>, a: Option<PlayerId>)
    requires a !in Attackers(g, n, ins)
    ensures AttackBy(g, n, ins, a) == 0.0
    decreases |ins|
  {
    if ins != [] {
      OutsidersDoNotAttack(g, n, ins[..|ins| - 1], a);
    }
  }

  /** The attack summed per attacking owner over the node's incoming
      links, in the order the source's loop visits them. */
  method Tally(g: Grid, n: Node, ins: seq<Link>) returns (m: map<Option<PlayerId>, real>)
    ensures m.Keys == Attackers(g, n, ins)
    ensures forall a :: a in m ==> m[a] == AttackBy(g, n, ins, a)
  {
    m := map[];
    var i := 0;
    while i < |ins|
      invariant i <= |ins|
      invariant m.Keys == Attackers(g, n, ins[..i])
      invariant forall a :: a in m ==> m[a] == AttackBy(g, n, ins[..i], a)
    {
      var l := ins[i];
      assert ins[..i + 1][..i] == ins[..i];
      if Hostile(g, n, l) {
        var a := OwnerAt(g, l.source);
        if a !in m {
          OutsidersDoNotAttack(g, n, ins[..i], a);
          m := m[a := 0.0];
        }
        m := m[a := m[a] + l.power];
      }
      i := i + 1;
    }
    assert ins[..i] == ins;
  }

  /** The outcomes the attack phase may reach for the node at `c` on grid
      `g` at game time `time`: `None`, the node holds, exactly when no
      attack exceeds the strength; otherwise `Some(a)` for an attacker `a`
      whose summed attack is the largest and exceeds the strength. */
  ghost predicate Decides(g: Grid, time: int, c: Coord, verdict: Option<Option<PlayerId>>)
    requires c in g
  {
    var n, ins := g[c], g[c].inlinks;
    (verdict.None? <==> forall a :: a in Attackers(g, n, ins) ==> AttackBy(g, n, ins, a) <= Strength(g, time, c)) &&
    (verdict.Some? ==>
       verdict.value in Attackers(g, n, ins) && AttackBy(g, n, ins, verdict.value) > Strength(g, time, c) &&
       forall a :: a in Attackers(g, n, ins) ==> AttackBy(g, n, ins, a) <= AttackBy(g, n, ins, verdict.value))
  }

  /** The attack phase is determined up to ties: whether the node holds,
      and the winning attack, are the same for every admissible outcome,
      and the winner is never the node's own owner. */
  lemma DecidesUpToTies(g: Grid, time: int, c: Coord, v1: Option<Option<PlayerId>>, v2: Option<Option<PlayerId>>)
    requires c in g && Decides(g, time, c, v1) && Decides(g, time, c, v2)
    ensures v1.None? <==> v2.None?
    ensures v1.Some? ==> AttackBy(g, g[c], g[c].inlinks, v1.value) == AttackBy(g, g[c], g[c].inlinks, v2.value)
    ensures v1.Some? ==> v1.value != g[c].owner
  {
    AttackersAreHostileOwners(g, g[c], g[c].inlinks, g[c].owner);
  }

  /** The outcome of the attack phase. */
  datatype Verdict = Holds | TakenBy(attacker: Option<PlayerId>)

  /** The node at `c` is taken over by the attacker with the largest summed
      attack when that attack exceeds the node's strength, and holds
      otherwise (the source sorts the attackers by attack and takes the
      first that succeeds; see the finding on its sort key). */
  method ResolveAttack(g: Grid, time: int, c: Coord) returns (v: Verdict)
    requires c in g
    ensures v.TakenBy? ==>
              v.attacker in Attackers(g, g[c], g[c].inlinks) && v.attacker != g[c].owner &&
              AttackBy(g, g[c], g[c].inlinks, v.attacker) > Strength(g, time, c) &&
              forall a :: a in Attackers(g, g[c], g[c].inlinks) ==>
                AttackBy(g, g[c], g[c].inlinks, a) <= AttackBy(g, g[c], g[c].inlinks, v.attacker)
    ensures v.Holds? <==>
              forall a :: a in Attackers(g, g[c], g[c].inlinks) ==> AttackBy(g, g[c], g[c].inlinks, a) <= Strength(g, time, c)
  {
    var n := g[c];
    var m := Tally(g, n, n.inlinks);
    var strength := Strength(g, time, c);
    var keys := m.Keys;
    var found := false;
    var best: Option<PlayerId> := None;
    var most := 0.0;
    while keys != {}
      invariant keys <= m.Keys
      invariant !found ==> keys == m.Keys
      invariant found ==> best in m && m[best] == most
      invariant found ==> forall a :: a in m && a !in keys ==> m[a] <= most
      decreases keys
    {
      var a :| a in keys;
      if !found || m[a] > most {
        best, most, found := a, m[a], true;
      }
      keys := keys - {a};
    }
    if found && most > strength {
      v := TakenBy(best);
      AttackersAreHostileOwners(g, n, n.inlinks, n.owner);
    } else {
      v := Holds;
    }
  }

  /** The source's selection loop as written: its sort key negates each
      (attacker, attack) pair as a tuple, which yields the empty tuple for
      every pair, so the sort keeps the tally's order and the first
      attacker whose attack exceeds the strength wins. */
  function FirstOverAsWritten(tally: seq<(Option<PlayerId>, real)>, strength: real): (r: Option<Option<PlayerId>>)
    ensures r.Some? <==> exists k :: 0 <= k < |tally| && tally[k].1 > strength
    ensures r.Some? ==> exists k :: 0 <= k < |tally| && tally[k].1 > strength && r.value == tally[k].0 &&
                                    forall j :: 0 <= j < k ==> tally[j].1 <= strength
    decreases |tally|
  {
    if tally == [] then None
    else if tally[0].1 > strength then Some(tally[0].0)
    else
      FirstOverAsWritten(tally[1..], strength)
  }

  /** With two attackers of attack 10 and 20 against strength 5, the loop
      as written hands the node to the weaker one. */
  lemma SortKeyKeepsOrder()
    ensures FirstOverAsWritten([(Some(0), 10.0), (Some(1), 20.0)], 5.0) == Some(Some(0))
  {
  }
}
