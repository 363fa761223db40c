/** Players and the per-player turn counters that gate the game tick, and
    the two per-tick accumulations of the game: the core count per owner
    and the nodes each player sees. */
module Turns {
  import opened Catalog
  import opened Nodes

  datatype Player = Player(name: string, begin: Coord, time: nat, wins: bool, lost: bool)

  /** `Player.tick`: the submitted-turn counter moves on by one. */
  function Advance(p: Player): (r: Player)
    ensures r.time == p.time + 1
    ensures r.name == p.name && r.begin == p.begin && r.wins == p.wins && r.lost == p.lost
  {
    p.(time := p.time + 1)
  }

  /** The names of the players still to finish turn `t`, in roster order
      (the `waiting` generator; it compares with the game's own time). */
  function Pending(ps: seq<Player>, t: nat): (r: seq<string>)
    ensures |r| <= |ps|
    decreases |ps|
  {
    if ps == [] then []
    else Pending(ps[..|ps| - 1], t) + (if ps[|ps| - 1].time == t then [ps[|ps| - 1].name] else [])
  }

  /** A name is pending exactly when some player of that name is at `t`. */
  lemma {:induction false} PendingNames(ps: seq<Player>, t: nat, name: string)
    ensures name in Pending(ps, t) <==> exists i :: 0 <= i < |ps| && ps[i].time == t && ps[i].name == name
    decreases |ps|
  {
    if ps != [] {
      var front := ps[..|ps| - 1];
      PendingNames(front, t, name);
      if name in Pending(front, t) {
        var i :| 0 <= i < |front| && front[i].time == t && front[i].name == name;
        assert ps[i] == front[i];
      }
      if exists i :: 0 <= i < |ps| && ps[i].time == t && ps[i].name == name {
        var i :| 0 <= i < |ps| && ps[i].time == t && ps[i].name == name;
        if i < |front| { assert front[i] == ps[i]; }
      }
    }
  }

  /** The roster position `getplayer` settles on for `name`: its loop has no
      `break`, so the last player of that name, or `|ps|` for none. */
  function LastNamed(ps: seq<Player>, name: string): (i: nat)
    ensures i <= |ps|
    ensures i < |ps| ==> ps[i].name == name
    ensures forall k :: i < k < |ps| ==> ps[k].name != name
    ensures i == |ps| ==> forall k :: 0 <= k < |ps| ==> ps[k].name != name
    decreases |ps|
  {
    if ps == [] then 0
    else if ps[|ps| - 1].name == name then |ps| - 1
    else
      var i := LastNamed(ps[..|ps| - 1], name);
      if i == |ps| - 1 then |ps| else i
  }

  /** The lookup loop of `getplayer`. */
  method FindPlayer(ps: seq<Player>, name: string) returns (i: nat)
    ensures i == LastNamed(ps, name)
  {
    i := |ps|;
    var k := 0;
    while k < |ps|
      invariant k <= |ps|
      invariant i == |ps| || (i < k && ps[i].name == name)
      invariant forall j :: i < j < k && i < |ps| ==> ps[j].name != name
      invariant i == |ps| ==> forall j :: 0 <= j < k ==> ps[j].name != name
    {
      if ps[k].name == name {
        i := k;
      }
      k := k + 1;
    }
    LastNamedIs(ps, name, i);
  }

  lemma {:induction false} LastNamedIs(ps: seq<Player>, name: string, i: nat)
    requires i <= |ps| && (i < |ps| ==> ps[i].name == name)
    requires forall k :: i < k < |ps| ==> ps[k].name != name
    requires i == |ps| ==> forall k :: 0 <= k < |ps| ==> ps[k].name != name
    ensures LastNamed(ps, name) == i
    decreases |ps|
  {
    if ps != [] && ps[|ps| - 1].name != name {
      var front := ps[..|ps| - 1];
      if i == |ps| {
        LastNamedIs(front, name, |front|);
      } else {
        LastNamedIs(front, name, i);
      }
    }
  }

  /** No player lags behind turn `t`. */
  predicate NobodyLags(ps: seq<Player>, t: nat) {
    forall i :: 0 <= i < |ps| ==> ps[i].time >= t
  }

  /** The `alldone` loop of the `done` command. (The source compares the
      player itself with the issuer's counter; the player's counter is
      meant.) */
  method AllCaughtUp(ps: seq<Player>, t: nat) returns (alldone: bool)
    ensures alldone <==> NobodyLags(ps, t)
  {
    alldone := true;
    var i := 0;
    while i < |ps|
      invariant i <= |ps|
      invariant alldone <==> forall k :: 0 <= k < i ==> ps[k].time >= t
    {
      if ps[i].time < t {
        alldone := false;
      }
      i := i + 1;
    }
  }

  /** Whether the `alldone` loop as written opens the barrier. It compares
      each player object itself with the issuer's counter; Python 2 orders
      an instance of a classic class against an int by a fixed rule that
      does not look at the int, so every comparison gives the same answer
      `below`, and the counters play no part. */
  function OpensAsWritten(ps: seq<Player>, below: bool): bool {
    |ps| == 0 || !below
  }

  /** The `alldone` loop as written, with `below` the fixed answer of its
      comparison. */
  method AllCaughtUpAsWritten(ps: seq<Player>, t: nat, below: bool) returns (alldone: bool)
    ensures alldone == OpensAsWritten(ps, below)
  {
    alldone := true;
    var i := 0;
    while i < |ps|
      invariant i <= |ps|
      invariant alldone <==> i == 0 || !below
    {
      if below {
        alldone := false;
      }
      i := i + 1;
    }
  }

  /** Whichever answer the comparison as written gives, some roster makes
      the barrier disagree with the counters: with `below` false it opens
      although a player lags, with `below` true it never opens, even when
      the issuer was the last to finish. */
  lemma BarrierAsWrittenDiffers(below: bool)
    ensures var a, b := Player("a", Coord(1, 1), 1, false, false), Player("b", Coord(2, 2), 0, false, false);
            var ps := if below then [a] else [a, b];
            OpensAsWritten(ps, below) != NobodyLags(ps, 1)
  {
    var a, b := Player("a", Coord(1, 1), 1, false, false), Player("b", Coord(2, 2), 0, false, false);
    if !below {
      assert [a, b][1] == b;
    }
  }

  /** No player's counter is more than one turn ahead of the game. */
  predicate NoneAhead(ps: seq<Player>, time: nat) {
    forall i :: 0 <= i < |ps| ==> ps[i].time <= time + 1
  }

  /** The barrier keeps every counter within one turn of the game: a `done`
      is accepted only from a player not ahead of the game, and moves it one
      turn on; the game tick, when it runs, moves the game one turn on. */
  lemma DoneKeepsNoneAhead(ps: seq<Player>, time: nat, i: nat, ticks: bool)
    requires NoneAhead(ps, time) && i < |ps| && ps[i].time <= time
    ensures NoneAhead(ps[i := Advance(ps[i])], if ticks then time + 1 else time)
  {
  }

  /** The roster `after` differs from `before` at most in the `lost` and
      `wins` flags: names, begin cells and turn counters are kept. */
  predicate CountersKept(before: seq<Player>, after: seq<Player>) {
    |after| == |before| &&
    forall k :: 0 <= k < |after| ==> after[k].(lost := before[k].lost, wins := before[k].wins) == before[k]
  }

  /** Changing only flags keeps every counter within one turn of a game
      that does not move back. */
  lemma NoneAheadCarries(before: seq<Player>, after: seq<Player>, time: nat, time': nat)
    requires CountersKept(before, after) && NoneAhead(before, time) && time <= time'
    ensures NoneAhead(after, time')
  {
    forall i | 0 <= i < |after| ensures after[i].time <= time' + 1 {
      assert after[i].(lost := before[i].lost, wins := before[i].wins) == before[i];
    }
  }

  /** After the issuer's `done`, the tick runs exactly when every other
      player was already a turn ahead of the issuer: the issuer is the last
      to finish the turn. */
  lemma TickOnlyWhenLast(ps: seq<Player>, i: nat)
    requires i < |ps|
    ensures NobodyLags(ps[i := Advance(ps[i])], ps[i].time + 1) <==>
              forall k :: 0 <= k < |ps| && k != i ==> ps[k].time > ps[i].time
  {
    var ps' := ps[i := Advance(ps[i])];
    if forall k :: 0 <= k < |ps| && k != i ==> ps[k].time > ps[i].time {
      forall k | 0 <= k < |ps'| ensures ps'[k].time >= ps[i].time + 1 {
        if k != i { assert ps'[k] == ps[k]; }
      }
    }
    if NobodyLags(ps', ps[i].time + 1) {
      forall k | 0 <= k < |ps| && k != i ensures ps[k].time > ps[i].time {
        assert ps'[k] == ps[k];
      }
    }
  }

  /** `done` is refused to a player who lost, so such a player's counter
      never moves again. When it stands at the game time, a `done` from
      any player at the game time leaves that lost player lagging, and the
      barrier stays shut. */
  lemma LostPlayerHoldsBarrier(ps: seq<Player>, time: nat, i: nat, k: nat)
    requires i < |ps| && k < |ps| && ps[k].lost && !ps[i].lost
    requires ps[i].time == time && ps[k].time == time
    ensures !NobodyLags(ps[i := Advance(ps[i])], ps[i].time + 1)
  {
    assert ps[i := Advance(ps[i])][k] == ps[k];
  }

  // ---------------------------------------------------- per-tick tallies

  /** The core count per owner after the node loop of the game tick, over
      the nodes as they stand right after their own ticks. Unowned cores
      are counted under `None`. */
  function CoreTally(ticked: seq<Node>): (m: map<Option<PlayerId>, nat>)
    ensures forall o :: o in m ==> m[o] >= 1
    decreases |ticked|
  {
    if ticked == [] then map[] else CountCore(CoreTally(ticked[..|ticked| - 1]), ticked[|ticked| - 1])
  }

  /** One node's contribution to the core count. */
  function CountCore(m: map<Option<PlayerId>, nat>, n: Node): map<Option<PlayerId>, nat> {
    if n.kind == Core then m[n.owner := (if n.owner in m then m[n.owner] else 0) + 1] else m
  }

  /** The owners in the core count are exactly the owners of a core node
      in the tick. */
  lemma {:induction false} CoreTallyOwners(ticked: seq<Node>, o: Option<PlayerId>)
    ensures o in CoreTally(ticked) <==> exists i :: 0 <= i < |ticked| && ticked[i].kind == Core && ticked[i].owner == o
    decreases |ticked|
  {
    if ticked != [] {
      var k := |ticked| - 1;
      var front := ticked[..k];
      CoreTallyOwners(front, o);
      if exists i :: 0 <= i < |ticked| && ticked[i].kind == Core && ticked[i].owner == o {
        var i :| 0 <= i < |ticked| && ticked[i].kind == Core && ticked[i].owner == o;
        if i < k { assert front[i] == ticked[i]; }
      }
      if o in CoreTally(front) {
        var i :| 0 <= i < k && front[i].kind == Core && front[i].owner == o;
        assert front[i] == ticked[i];
      }
    }
  }

  /** The win test: a count with the single owner `o` means some core was
      seen in the tick and every core seen belonged to `o`. */
  lemma SoleCoreOwner(ticked: seq<Node>, o: Option<PlayerId>)
    requires CoreTally(ticked).Keys == {o}
    ensures forall i :: 0 <= i < |ticked| && ticked[i].kind == Core ==> ticked[i].owner == o
    ensures exists i :: 0 <= i < |ticked| && ticked[i].kind == Core
  {
    CoreTallyOwners(ticked, o);
    forall i | 0 <= i < |ticked| && ticked[i].kind == Core ensures ticked[i].owner == o {
      CoreTallyOwners(ticked, ticked[i].owner);
    }
  }

  /** One node's contribution to the visibility of the tick: its owner
      after its own tick, and the cells it reveals. */
  type Reveal = (Option<PlayerId>, set<Coord>)

  /** What each player sees: the union of what their nodes reveal. */
  function Sight(steps: seq<Reveal>): map<PlayerId, set<Coord>>
    decreases |steps|
  {
    if steps == [] then map[] else AddSight(Sight(steps[..|steps| - 1]), steps[|steps| - 1])
  }

  /** One node's contribution to what its owner sees. */
  function AddSight(m: map<PlayerId, set<Coord>>, step: Reveal): map<PlayerId, set<Coord>> {
    var (o, cells) := step;
    if o.Some? then m[o.value := (if o.value in m then m[o.value] else {}) + cells] else m
  }

  lemma SightSnoc(steps: seq<Reveal>, step: Reveal)
    ensures Sight(steps + [step]) == AddSight(Sight(steps), step)
  {
    assert (steps + [step])[..|steps|] == steps;
  }

  lemma CoreTallySnoc(ticked: seq<Node>, n: Node)
    ensures CoreTally(ticked + [n]) == CountCore(CoreTally(ticked), n)
  {
    assert (ticked + [n])[..|ticked|] == ticked;
  }

  /** A player has a visibility entry exactly when they own a node after
      its tick, and sees a cell exactly when one of their nodes reveals it. */
  lemma {:induction false} SightIsUnion(steps: seq<Reveal>, p: PlayerId, d: Coord)
    ensures p in Sight(steps) <==> exists i :: 0 <= i < |steps| && steps[i].0 == Some(p)
    ensures (p in Sight(steps) && d in Sight(steps)[p]) <==>
              exists i :: 0 <= i < |steps| && steps[i].0 == Some(p) && d in steps[i].1
    decreases |steps|
  {
    if steps != [] {
      var k := |steps| - 1;
      var front := steps[..k];
      SightIsUnion(front, p, d);
      if exists i :: 0 <= i < |steps| && steps[i].0 == Some(p) && d in steps[i].1 {
        var i :| 0 <= i < |steps| && steps[i].0 == Some(p) && d in steps[i].1;
        if i < k { assert front[i] == steps[i]; }
      }
      if exists i :: 0 <= i < |steps| && steps[i].0 == Some(p) {
        var i :| 0 <= i < |steps| && steps[i].0 == Some(p);
        if i < k { assert front[i] == steps[i]; }
      }
      if p in Sight(front) {
        var i :| 0 <= i < k && front[i].0 == Some(p);
        assert front[i] == steps[i];
        if d in Sight(front)[p] {
          var j :| 0 <= j < k && front[j].0 == Some(p) && d in front[j].1;
          assert front[j] == steps[j];
        }
      }
    }
  }
}
