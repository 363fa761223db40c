/** The static catalogues of the battle-node engine: node types (their
    resistance, power consumption, vision, build duration and resistance
    modifier), the prioritised events that are tagged on nodes, and the
    outcome types that replace the server's exceptions. */
module Catalog {

  datatype Option<T> = None | Some(value: T)

  /** The specialisations a node can have; `Unspecialised` is the plain node. */
  datatype Kind =
    | Unspecialised | Shield | Sabotage | Attack | Corruption
    | Destructor | Sensor | Core | Collaborator

  datatype NodeType = NodeType(
    resistance: real,
    consumption: real,
    vision: nat,
    buildduration: nat,
    resistancemodifier: real)

  /** The node-type table, one entry per kind. */
  function TypeOf(k: Kind): (t: NodeType)
    ensures t.consumption > 0.0 && t.resistance >= 0.0 && t.buildduration >= 1
    ensures t.resistancemodifier == 0.5 || t.resistancemodifier == 1.0 || t.resistancemodifier == 2.0
    ensures t.resistancemodifier < 1.0 <==> k == Sabotage || k == Attack
    ensures t.resistancemodifier > 1.0 <==> k == Core
  {
    match k
    case Unspecialised => NodeType(1.0, 10.0, 1, 1, 1.0)
    case Shield        => NodeType(5.0, 50.0, 1, 2, 1.0)
    case Sabotage      => NodeType(4.0, 200.0, 1, 3, 0.5)
    case Attack        => NodeType(3.0, 150.0, 1, 2, 0.5)
    case Corruption    => NodeType(0.0, 200.0, 1, 3, 1.0)
    case Destructor    => NodeType(2.0, 200.0, 1, 3, 1.0)
    case Sensor        => NodeType(2.0, 100.0, 3, 2, 1.0)
    case Core          => NodeType(20.0, 1000.0, 1, 10, 2.0)
    case Collaborator  => NodeType(1.0, 200.0, 1, 1, 1.0)
  }

  /** The events a node can be tagged with. */
  datatype Event =
    | LostNode | LostCloak | LostSpec | LostAssimilated | AssimilateSuccess
    | PowerIncrease | PowerDecrease | CorruptionEvent | DestructionEvent

  function Priority(e: Event): nat {
    match e
    case LostNode => 2
    case LostCloak => 3
    case LostSpec => 4
    case LostAssimilated => 1
    case AssimilateSuccess => 5
    case PowerIncrease => 7
    case PowerDecrease => 6
    case CorruptionEvent => 1
    case DestructionEvent => 1
  }

  function Max(a: int, b: int): int { if a < b then b else a }

  /** Tagging an event on a node: the stored event is replaced only when
      none is stored or the new one has a strictly greater priority. */
  function SetEvent(last: Option<Event>, e: Event): (r: Option<Event>)
    ensures r.Some? && (r == last || r == Some(e))
    ensures last.Some? ==> Priority(r.value) == Max(Priority(last.value), Priority(e))
    ensures last.Some? && Priority(e) <= Priority(last.value) ==> r == last
  {
    if last.None? || Priority(e) > Priority(last.value) then Some(e) else last
  }

  /** Tagging the events `es` one after the other. */
  function TagAll(last: Option<Event>, es: seq<Event>): Option<Event>
    decreases |es|
  {
    if es == [] then last else TagAll(SetEvent(last, es[0]), es[1..])
  }

  /** After a series of tags the node holds an event of maximal priority
      among everything tagged, and of all the maximal ones the first. */
  lemma {:induction false} TagAllKeepsFirstMaximum(last: Option<Event>, es: seq<Event>)
    requires last.Some? || es != []
    ensures TagAll(last, es).Some?
    ensures forall j :: 0 <= j < |es| ==> Priority(es[j]) <= Priority(TagAll(last, es).value)
    ensures last.Some? ==> Priority(last.value) <= Priority(TagAll(last, es).value)
    ensures TagAll(last, es) == last ||
            exists k :: 0 <= k < |es| && TagAll(last, es) == Some(es[k]) &&
                        (forall j :: 0 <= j < k ==> Priority(es[j]) < Priority(es[k])) &&
                        (last.Some? ==> Priority(last.value) < Priority(es[k]))
    decreases |es|
  {
    if es != [] {
      var next := SetEvent(last, es[0]);
      TagAllKeepsFirstMaximum(next, es[1..]);
      var r := TagAll(last, es);
      assert r == TagAll(next, es[1..]);
      forall j | 0 <= j < |es|
        ensures Priority(es[j]) <= Priority(r.value)
      {
        if j > 0 { assert es[j] == es[1..][j - 1]; }
      }
      if r != next {
        var k :| 0 <= k < |es[1..]| && r == Some(es[1..][k]) &&
                 (forall j :: 0 <= j < k ==> Priority(es[1..][j]) < Priority(es[1..][k])) &&
                 (next.Some? ==> Priority(next.value) < Priority(es[1..][k]));
        assert r == Some(es[k + 1]);
        forall j | 0 <= j < k + 1
          ensures Priority(es[j]) < Priority(es[k + 1])
        {
          if j > 0 { assert es[j] == es[1..][j - 1]; }
        }
      } else if next != last {
        assert r == Some(es[0]);
      }
    }
  }

  /** The rule violations, synchronisation signals and terminal outcomes
      that the server raises as exceptions. */
  datatype Fault =
    | NonNeighbourLink
    | NotEnoughPower
    | NoSuchNode
    | NoSuchPlayer
    | Waiting(pending: seq<string>)
    | YouLost
    | Won(winner: nat)

  datatype Result<T> = Ok(value: T) | Fail(fault: Fault)
}
