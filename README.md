# Battle-node simulation engine, in Dafny

This project models the simulation engine of the battle-node game server
(`battlenode-server.py`) and proves properties of that model. Players own
nodes on a rectangular grid. Nodes are joined by directed, power-carrying
links between 8-neighbours, and the players compete for core nodes. The
model covers these parts:

- the node-type and event catalogues, and priority-based event tagging
  (`catalog.dfy`);
- node records on the grid, with the read-only quantities derived from a
  snapshot: energy, strength, the specialising window, neighbourhoods and
  vision. The sustain cascade is a function here (`nodes.dfy`);
- linking: rejecting non-neighbours, merging into an existing link, netting
  against a same-owner reverse link, and the link-consistency invariant
  that linking keeps (`links.dfy`);
- the attack phase of a node tick: attacks are summed per attacking owner,
  and the strongest attack that beats the node's strength takes it
  (`attack.dfy`);
- assimilation side effects: corruption, the destructor, and core defeat
  (`takeover.dfy`);
- players and their turn counters, the turn barrier, and the per-tick core
  count and visibility (`turns.dfy`);
- the `Game` class, which holds the grid, the roster, the game time, the
  visibility map and the core count. Its methods are the node operations
  `link`, `hide` and `specialise`, the `done` command, joining a player,
  the node tick with its sustain loop, and the game tick (`engine.dfy`).
  The program's `post` reaches `link` and `specialise` (as `spec`) and
  `done`; no command reaches `hide`.

The grid is a `map<Coord, Node>` of node records. A link is a value
`Link(source, target, power)`. In the program one link object sits in
both its source's `outlinks` and its target's `inlinks`. Here both copies
are updated together, and `Links.LinksOk` states that they stay mirrored.
Players are identified by their index in the roster, and a node's owner is
`Option<PlayerId>`. Power is a `real`. The commands return a `Result`
instead of raising exceptions.

The source has many slips that would stop it from running. The model
follows what is evidently meant, and a doc comment at each place names the
slip:

- `self.energy` is read without a call;
- `link.owner` is read, where the source node's owner is meant;
- `self.link.power` is read, where `link.power` is meant;
- `self.resistance` is read, where the type's resistance is meant;
- the resistance modifier is taken from the wrong node; the linked node's
  type is meant;
- `self.gametime` is read, where the game's time is meant;
- the type is compared with strings in `onassimilation` and
  `makebeginnode`;
- the attack map is keyed by source node instead of owner;
- `changednodes` does not exist;
- reverse-link deletion uses the wrong list, and the remaining power is
  dropped;
- `self.targetnode` is written, where the argument is meant;
- `getplayer` and `makebeginnode` return nothing;
- `waiting` reads `self.game.time` and joins player objects;
- `getplayer` reads `self.game.time` inside the game itself, where the
  game's own time is meant;
- the barrier of `done` calls `self.game.tick()` inside the game itself,
  where the game's own tick is meant;
- `visiblenodes` reads `self.vision`, which nodes do not have; the vision
  of the node's type is meant;
- the core defeat in `onassimilation` iterates `for node in self` inside a
  node, both to look for a remaining core and to disown the loser; the
  game's nodes are meant;
- `Game.tick` never moves the game time on;
- the `link` command passes no power.

Four further slips would change results without stopping the program,
and they are listed under "## Findings". Each sits on a path that one of
the slips above blocks, so it takes effect only once those are corrected:
the disown loop, for instance, runs only with `for node in self` read as
the game's nodes.

In these places the model follows the code rather than what its names or
comments suggest:

- `setevent` keeps the event with the numerically larger priority;
- strength multiplies by a linked node's modifier once per qualifying
  link, not once in all;
- the core-support condition compares the node's own owner with itself, so
  any non-specialising linked core counts;
- a node's outgoing links always count against its energy;
- the core count also counts unowned cores, under `None`;
- the barrier ticks when nobody lags the issuer's new counter;
- `done` is refused to a player who lost, and the barrier still waits for
  every player, so a lost player whose counter stands at the game time
  keeps the barrier shut for every player at the game time;
- the destructor tags no event;
- a player's counter starts at 0.

## Model

| member | source | states |
|---|---|---|
| Catalog.TypeOf | battlenode-server.py:97-107 | The node-type table. Every type consumes power and takes at least one turn to build. The modifier is 0.5, 1 or 2: below 1 exactly for sabotage and attack nodes, above 1 exactly for core nodes. |
| Catalog.SetEvent | battlenode-server.py:520-522 | A tag always leaves an event stored, either the old one or the new one. The stored priority becomes the maximum of the two, and a new event of no greater priority leaves the old one in place. |
| Catalog.TagAllKeepsFirstMaximum | battlenode-server.py:520-522 | After any series of tags, the stored event has maximal priority among all events tagged. It is either the original or the first tagged event of that priority, so ties keep the first. |
| Nodes.Energy | battlenode-server.py:403-414 | Definition of energy; see `Nodes.EnergyFrame`, `Nodes.HideCost` and `Nodes.SpecialiseCost`. |
| Nodes.Strength | battlenode-server.py:416-433 | Definition of strength; see `Nodes.StrengthSign`, `Nodes.SabotageFactor` and `Nodes.SupportFactor`. |
| Nodes.Specialising | battlenode-server.py:443-445 | Definition of the specialising window; see `Engine.Game.Specialise`. |
| Nodes.Neighbours | battlenode-server.py:525-530 | Definition of the neighbourhood as evidently meant; see `Nodes.NeighboursAreBall`. |
| Nodes.NeighboursAsWritten | battlenode-server.py:526-528 | Definition of the neighbourhood as the loops are written; see `Nodes.NeighboursAsWrittenDiffer`. |
| Nodes.VisibleFrom | battlenode-server.py:532-536 | Definition of what a node reveals; see `Nodes.VisibleWithinSight`. |
| Nodes.EnergyFrame | battlenode-server.py:403-414 | Replacing a node by one with the same owner and links changes no other node's energy. The node's own energy changes only by the change in its power and upkeep. |
| Nodes.HideCost | battlenode-server.py:396-400 | Cloaking an uncloaked node lowers its energy by exactly its type's consumption. This is the amount `hide` checks. |
| Nodes.SpecialiseCost | battlenode-server.py:435-441 | For an uncloaked node, when neither the old nor the new type is a collaborator, the energy after the change of type is the energy plus the old consumption minus the new. This is the amount `specialise` checks. |
| Nodes.SabotageFactor | battlenode-server.py:424-427 | The factor from enemy sabotage targets that are not specialising lies in (0, 1]. It never increases the resistance. |
| Nodes.SupportFactor | battlenode-server.py:428-431 | The factor from incoming attack-node and core-node links is positive. |
| Nodes.StrengthSign | battlenode-server.py:416-433 | Strength has the sign of energy. A node without positive energy has no defence. A node that has energy and is specialising or resistant has positive strength. |
| Nodes.NeighboursAreBall | battlenode-server.py:525-530 | On a grid whose nodes lie on the board, the neighbours at depth `d` are exactly the other nodes within Chebyshev distance `d`. |
| Nodes.NeighboursAsWrittenDiffer | battlenode-server.py:526-528 | The range loops as written include a node two cells away and miss the node directly above (finding). |
| Nodes.VisibleWithinSight | battlenode-server.py:532-536 | A node reveals exactly the nodes within its sight that its owner does not own. Sight is radius 1 while specialising, otherwise the type's vision: at most 3, and 3 only for a sensor. |
| Nodes.Downgrade | battlenode-server.py:502-514 | One cascade step drops exactly one of the cloak, the specialisation or the ownership, in that order of precedence. Power, links and build time are untouched. |
| Nodes.Settle | battlenode-server.py:500-515 | After the cascade the node is unowned or has positive energy, and no other node changes. An unowned node, or one with positive energy, is left as it is, and a node that one downgrade gives positive energy gets exactly that one. Ownership is only ever cleared. A node still cloaked or specialised was not downgraded past that point. An event of priority at least that of "lost specialisation" survives. |
| Nodes.SettleSteps | battlenode-server.py:500-515 | The cascade takes at most three steps, bounded by how many of cloak, specialisation and ownership the node has. It takes none exactly when the node is unowned or has positive energy, which is exactly when the node is left as it was. |
| Nodes.SettleStopsFirst | battlenode-server.py:500-515 | The cascade's result is the grid after its number of downgrades, and every grid before that still has the node owned and without positive energy. So the loop stops at the first grid that meets its exit condition. |
| Links.FirstIndex | battlenode-server.py:340-341 | Locates a link by value equality (source, target and power), as list removal does. The index is the list's length exactly when the link is absent. |
| Links.FindTarget | battlenode-server.py:373-377 | The search loop for an existing outgoing link returns the first index whose target is the given node, or the length when there is none. |
| Links.FindSource | battlenode-server.py:380-381 | The search loop for a reverse link returns the first index whose source is the target node, or the length when there is none. |
| Links.LinkGrid | battlenode-server.py:367-394 | Definition of `link` on the grid; see `Links.LinkRejects`, `Links.LinkKeepsLinksOk`, `Links.LinkConsolidates`, `Links.ConsolidationLaw`, `Links.ConflictWeakens` and `Links.ConflictRemoves`. |
| Links.Net | battlenode-server.py:380-390 | Definition of netting against a reverse link; see `Links.ConflictWeakens` and `Links.ConflictRemoves`. |
| Links.LinkRejects | battlenode-server.py:367-371 | `link` fails exactly when a node is missing or the target is not one of the eight neighbours. A target in the same cell, or more than one cell away in x or in y, gets `NonNeighbourLink`. |
| Links.LinkKeepsLinksOk | battlenode-server.py:367-394 | A successful `link` keeps the links mirrored, adjacent and without duplicates. It changes only the links at its two endpoints and the target's event. |
| Links.LinkConsolidates | battlenode-server.py:373-377 | Linking to a target that already has a link from this node adds the power to that link in both lists. It creates no link and tags a power increase on the target. |
| Links.ConsolidationLaw | battlenode-server.py:373-394 | With no link from the source to the target yet, and no reverse link the first command would net against (none at all, or the nodes have different owners), linking with `p1` and then `p2` leaves exactly one new link carrying `p1 + p2` in both lists. |
| Links.ConflictWeakens | battlenode-server.py:380-384 | A same-owner reverse link of power `q > p` keeps its place in both lists with power `q - p`, and no forward link appears. |
| Links.ConflictRemoves | battlenode-server.py:385-390 | A same-owner reverse link of power `q <= p` is removed from both lists. A forward link of power `p - q` is appended when that is positive. |
| Attack.AttackersAreHostileOwners | battlenode-server.py:487-490 | An owner attacks exactly when some incoming link is from a non-collaborator node of theirs that is not the node's owner. The node's own owner never attacks it. |
| Attack.OutsidersDoNotAttack | battlenode-server.py:487-490 | An owner who is not an attacker contributes no attack power. |
| Attack.Tally | battlenode-server.py:487-490 | The aggregation loop yields exactly the attackers as keys, each with its summed attack over the incoming links. |
| Attack.ResolveAttack | battlenode-server.py:492-497 | The node is taken exactly when some attack exceeds its strength. The attacker that takes it is not its owner, beats the strength, and has an attack no smaller than any other attacker's. |
| Attack.Decides | battlenode-server.py:487-497 | Definition of the admissible outcomes of the attack phase; see `Attack.ResolveAttack` and `Attack.DecidesUpToTies`. |
| Attack.DecidesUpToTies | battlenode-server.py:487-497 | Any two admissible outcomes agree on whether the node holds and on the size of the winning attack, and the winner is never the node's owner. |
| Attack.Attackers | battlenode-server.py:487-490 | Definition of the owners attacking through the incoming links; see `Attack.AttackersAreHostileOwners`. |
| Attack.AttackBy | battlenode-server.py:487-490 | Definition of an owner's summed attack; see `Attack.OutsidersDoNotAttack` and `Attack.Tally`. |
| Attack.FirstOverAsWritten | battlenode-server.py:492-497 | The selection loop as written hands the node to the first attacker in tally order whose attack exceeds the strength (finding). |
| Attack.SortKeyKeepsOrder | battlenode-server.py:492 | With attacks 10 then 20 against strength 5, the loop as written picks the weaker attacker. |
| Turns.Advance | battlenode-server.py:27-28 | `Player.tick` moves the counter on by exactly one and changes nothing else. |
| Turns.Pending | battlenode-server.py:216-219 | Definition of the pending names, in roster order; see `Turns.PendingNames`. |
| Turns.PendingNames | battlenode-server.py:216-219 | A name is reported as pending exactly when a player of that name is at the game's current time. |
| Turns.LastNamed | battlenode-server.py:238-243 | The lookup settles on the last player of that name, or reports none when no player has it. |
| Turns.FindPlayer | battlenode-server.py:240-243 | The lookup loop, which has no early exit, returns that last matching position. |
| Turns.AllCaughtUp | battlenode-server.py:288-291 | The `alldone` loop, comparing counters as meant, is true exactly when no player's counter is below the issuer's. |
| Turns.AllCaughtUpAsWritten | battlenode-server.py:288-291 | The `alldone` loop as written, whose comparison of a player object with a number has one fixed answer, opens the barrier on every roster or on none but the empty one, whatever the counters (finding). |
| Turns.OpensAsWritten | battlenode-server.py:288-291 | Definition of the barrier as written; see `Turns.AllCaughtUpAsWritten` and `Turns.BarrierAsWrittenDiffers`. |
| Turns.BarrierAsWrittenDiffers | battlenode-server.py:288-291 | For either fixed answer of that comparison, a roster exists on which the barrier as written disagrees with the counters (finding). |
| Turns.LostPlayerHoldsBarrier | battlenode-server.py:260-291 | A lost player at the game time makes every player at the game time lag after their `done`, so the barrier stays shut. |
| Turns.DoneKeepsNoneAhead | battlenode-server.py:247-248 | Because `done` is refused to a player ahead of the game, no counter ever gets more than one turn ahead of the game time, whether or not the tick runs. `Engine.Game.Valid` carries this, and every command keeps it. |
| Turns.NoneAheadCarries | battlenode-server.py:222-236 | A change confined to the `lost` and `wins` flags, with the game time not moving back, keeps every counter within one turn of the game. |
| Turns.TickOnlyWhenLast | battlenode-server.py:286-293 | After a `done`, the tick runs exactly when every other player was already a turn ahead of the issuer, so the issuer is the last to finish the turn. |
| Turns.CoreTallyOwners | battlenode-server.py:226-231 | The core count has an entry for an owner exactly when some node, right after its own tick, is a core of that owner. |
| Turns.SoleCoreOwner | battlenode-server.py:234-236 | A count with a single owner means at least one core was seen, and every core seen belongs to that owner. |
| Turns.SightIsUnion | battlenode-server.py:226-229 | A player has a visibility entry exactly when they own a node after its tick. They see a cell exactly when one of their nodes reveals it. |
| Takeover.DestroyHits | battlenode-server.py:455-459 | Exactly the attacker's nodes that link into the destructor lose their specialisation, and nothing else changes. |
| Takeover.DisownAllClears | battlenode-server.py:468-473 | After the defeat the loser owns no node, and so no core. Every other node keeps its owner. |
| Takeover.DisownAsWrittenMissesLaterNodes | battlenode-server.py:471-473 | The disown loop as written compares with the captured node's current owner. Once it clears that node, it leaves the loser's later nodes owned (finding). |
| Takeover.Assimilation | battlenode-server.py:448-478 | Definition of `onassimilation` on the grid; see `Takeover.AssimilatedNode`, `Takeover.AssimilationElsewhere`, `Takeover.AssimilationKeepsLinks` and `Takeover.AssimilationOwners`. |
| Takeover.Taken | battlenode-server.py:492-497 | Definition of the attack phase's effect: the grid is unchanged when the node holds, otherwise assimilated and handed to the attacker. See `Engine.Game.TickNode`. |
| Takeover.DisownAsWritten | battlenode-server.py:471-473 | Definition of the disown loop as written; see `Takeover.DisownAsWrittenMissesLaterNodes`. |
| Takeover.AssimilatedNode | battlenode-server.py:448-478 | The taken node ends plain and uncloaked with its links and build time kept, and the success event is tagged. Its power is negated exactly when it was a corruption node with positive power. |
| Takeover.CorruptionIrreversible | battlenode-server.py:450-454 | Power that is not positive is left alone. A corruption node with positive power ends with negative power. |
| Takeover.AssimilationElsewhere | battlenode-server.py:455-473 | On other nodes, a destructor strips exactly the attacker's linking nodes, a defeated core's owner loses every node, and nothing else changes. |
| Takeover.AssimilationKeepsLinks | battlenode-server.py:448-478 | A takeover changes no link anywhere and keeps the link invariant. |
| Takeover.AssimilationOwners | battlenode-server.py:448-478 | A takeover gives no node a new owner. Owners are kept or cleared. |
| Engine.PlanLink | battlenode-server.py:367-394 | The link command with its two search loops produces exactly the grid `Links.LinkGrid` describes, or its refusal. |
| Engine.DestroyGrid | battlenode-server.py:455-459 | The destructor loop produces the grid `Takeover.Destroy` describes. |
| Engine.HasCore | battlenode-server.py:463-467 | The search loop finds a core exactly when the owner still holds one. |
| Engine.DisownGrid | battlenode-server.py:471-473 | The disown loop, comparing with the captured loser, clears exactly the loser's nodes. |
| Engine.Assimilate | battlenode-server.py:448-478 | `onassimilation` on the grid produces `Takeover.Assimilation`'s result. It reports a defeat exactly when the taken core was its player's last. |
| Engine.Game.constructor | battlenode-server.py:136-147 | A new game over a generated, unowned, unlinked grid, visited in any order that lists each cell once, satisfies the invariant. It starts with no players, time 0, and empty visibility and core count. |
| Engine.Game.AddPlayer | battlenode-server.py:163-180 | An eligible begin node (plain, at least six neighbours) becomes a core with power 2000 owned by the new player, and the player joins with counter 0. Otherwise nothing changes. |
| Engine.Game.Link | battlenode-server.py:367-394 | The command succeeds exactly when `Links.LinkGrid` does, and the nodes become its grid. A refusal reports the same fault and changes nothing. The invariant is kept. |
| Engine.Game.Hide | battlenode-server.py:396-400 | Refuses with `NotEnoughPower` and changes nothing exactly when energy minus consumption is not positive. Otherwise it cloaks the node, and the node keeps positive energy. |
| Engine.Game.Specialise | battlenode-server.py:435-445 | Refuses with `NotEnoughPower` and changes nothing exactly when energy plus old minus new consumption is not positive. Otherwise it sets the type and build time, and the node is specialising exactly before `time + buildduration`. |
| Engine.Cascade | battlenode-server.py:500-515 | The sustain loop, run on a grid, leaves it as `Nodes.Settle` describes and counts the downgrades that `Nodes.SettleSteps` gives. |
| Engine.SettleKeepsWellFormed | battlenode-server.py:500-515 | The sustain cascade keeps the links consistent and every owner on the roster. |
| Engine.Game.Sustain | battlenode-server.py:500-515 | The sustain loop leaves the grid as `Nodes.Settle` describes, in at most three iterations. |
| Engine.Game.OnAssimilation | battlenode-server.py:448-478 | The grid becomes `Takeover.Assimilation`'s, and the owner of a taken last core is marked as lost. |
| Engine.Game.TickNode | battlenode-server.py:481-517 | At most one takeover happens, and only by an attacker whose summed attack exceeds the strength and is the largest of all attacks. The node holds exactly when no attack exceeds the strength. The outcome satisfies `Attack.Decides`. Afterwards the sustain cascade has run, and the invariant is kept. |
| Engine.Game.TickAndGather | battlenode-server.py:226-231 | One step of the node loop: the node ticks, with a takeover only as `Attack.Decides` admits, then its reveal and core are added to the game's tallies. |
| Engine.Game.TickStep | battlenode-server.py:226-231 | One step of the node loop extends the record of the loop by the node ticked, its reveal and its core, and keeps the core count and visibility equal to the tallies of that record. |
| Engine.Loser | battlenode-server.py:460-469 | Definition of the player a node's tick defeats, the owner of a captured last core; see `Engine.Game.TickNodes`. |
| Engine.Game.TickNodes | battlenode-server.py:224-231 | Every node ticks in the game's visiting order on the grid the previous one left, each taken over only by the strongest attacker beating its strength on that grid. The core count and visibility are those of the nodes just after their own ticks. Exactly the players whose last core a step captured are marked as lost, and the roster changes in nothing else. |
| Engine.Game.Tick | battlenode-server.py:222-236 | After the node loop, in which every node ticks as in `Engine.Game.TickNodes`, the game time moves on. Exactly the owners of the last cores captured in the loop are marked as lost. The game is won exactly when the core count has a single owner who is a player, and that player is marked as the winner. Names and counters on the roster are kept, and no counter gets more than one turn ahead. |
| Engine.Game.Done | battlenode-server.py:286-293 | An unknown name is refused, a player ahead of the game is told who is pending, and a player who lost is told so, each with nothing changed. Otherwise the counter moves on by one, and the game ticks exactly when nobody then lags that counter. Without a tick nothing else changes. With a tick the result is `Ok(true)` or a win, and every player keeps name and counter, the issuer's moved on by one, changing only `lost` and `wins` flags. |

## Left out

- Random grid generation (`createnodes`) and the random choice of the begin node. The generated grid and the chosen begin cell are parameters, and `Engine.Eligible` states the eligibility test.
- The HTTP resources, the server loop, JSON and `dict()` serialisation, version and argument parsing in `post`, and its check that the source node belongs to the player. These are transport and encoding with no engine logic.
- The `link` and `spec` branches of `post` are not modelled separately. The `Game` methods `Link` and `Specialise` take coordinates and a kind directly. `post` has no branch for `hide`, so no client reaches `Engine.Game.Hide`; it models the node operation itself.
- Floating point: power is an exact `real`, and the 0.5 and 2 modifiers are exact.
- Exceptions are values of `Catalog.Result`. `GameOver` is `Won`, and `Waiting` carries the pending names.
- `changednodes` does not exist in the program and is dropped.
- Node objects are values in a map, so aliasing is not modelled. A link held in two lists is two equal values, updated together.
- The nested `self.tick()` after a corruption is not modelled. Every change it makes to the node is overwritten by the assignments that follow, and the events it can tag rank below the success already tagged.
- The `type is None` test of the node tick never holds, and is left out.
- Which of several equally strong attackers takes a node is not fixed. The program's order is undefined there as well.
- Ticks after a win are not refused. The program raises `GameOver` from the tick and keeps no game-over state.
- Engine.Game.Specialise: positive energy afterwards is stated only for uncloaked nodes when neither type is a collaborator. The other cases move energy through the links and are not bounded.
- Engine.Game.Done: when the tick runs, the result is only stated to be `Ok(true)` or a win, and the roster only to keep names and counters. The rest of the tick's effect is given by `Engine.Game.Tick`.
- A core count whose single owner is `None` names no winner. The program would read `wins` on `None` there and fail; the model chooses to let the game go on.
- Capturing an unowned core when no other unowned core is left is not a defeat in the model (`Takeover.Defeats` requires an owner). The program would set `lost` on `None` there and fail. The constructor admits unowned cores, so this case is reachable.
- `for node in self` walks the values of nested dictionaries, whose order the language does not promise. The visiting order is a parameter of the game, and the model asks only that it lists every cell once.

## Findings

| source | as written | input that shows it | evidently intended | confidence | as-written member | corrected member |
|---|---|---|---|---|---|---|
| battlenode-server.py:526-528 | The range loops start at `min(1, x - depth)`, use the exclusive bound `width`, and skip every node in the same row or the same column. | On a 5x5 board around (3,3) at depth 1, (1,1) is reported and (3,4) is not. | Start at `max(1, x - depth)`, clip at `width + 1`, and skip only the node itself. | not executed | Nodes.NeighboursAsWrittenDiffer | Nodes.NeighboursAreBall |
| battlenode-server.py:492 | The sort key negates each (attacker, attack) tuple, which yields the empty tuple, so the attackers stay in tally order and the first one over the strength wins. | Attacks 10 and 20 against strength 5: the attacker with 10 takes the node. | Sort by decreasing attack, so that the strongest attack that succeeds wins. | not executed | Attack.SortKeyKeepsOrder | Attack.ResolveAttack |
| battlenode-server.py:471-473 | The disown loop compares each node with `self.owner`, which the loop itself clears when it reaches the captured core. | The captured core is visited first and the loser owns a later node: that node stays owned. | Compare with the loser captured before the loop, so every node of the loser is disowned. | not executed | Takeover.DisownAsWrittenMissesLaterNodes | Takeover.DisownAllClears |
| battlenode-server.py:288-291 | The barrier compares each player object with the issuer's counter. `Player` is a classic class, and Python 2 orders its instances against an int by a fixed rule that ignores the int. | Two players, the issuer advanced to 1 and the other still at 0: when the comparison answers false the game ticks although the other player has not finished. When it answers true, one player who has finished never gets a tick. | Compare each player's counter with the issuer's, so the game ticks exactly when nobody lags. | not executed | Turns.BarrierAsWrittenDiffers | Turns.TickOnlyWhenLast |
