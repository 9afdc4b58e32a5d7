/**
 * A Hermite node as the boundary-condition code sees it: four dof slots,
 * each with a pinned flag and a value, changed in place by pin(k) and
 * set_value(k, v). The rest of the node (positions, x_gen, time history)
 * belongs to the mesh framework and is not part of this model.
 */
module HermiteNodes {

  /** Number of dof slots of a 2D Hermite node. */
  const NSLOT: nat := 4

  /** The abstract content of a node: per slot, the pinned flag and the value. */
  datatype NodeState = NodeState(pinned: seq<bool>, value: seq<real>) {
    predicate WellFormed() {
      |pinned| == NSLOT && |value| == NSLOT
    }
  }

  /** The node after pin(k) followed by set_value(k, v). */
  function PinAndSet(s: NodeState, k: nat, v: real): (t: NodeState)
    requires s.WellFormed() && k < NSLOT
    ensures t.WellFormed() && t.pinned[k] && t.value[k] == v
    ensures forall j :: 0 <= j < NSLOT && j != k ==> t.pinned[j] == s.pinned[j] && t.value[j] == s.value[j]
  {
    NodeState(s.pinned[k := true], s.value[k := v])
  }

  class HermiteNode {
    const pinned: array<bool>
    const value: array<real>

    ghost predicate Valid() {
      pinned.Length == NSLOT && value.Length == NSLOT
    }

    ghost function State(): (s: NodeState)
      reads pinned, value
      requires Valid()
      ensures s.WellFormed()
    {
      NodeState(pinned[..], value[..])
    }

    /** A node whose slots are all free and zero. */
    constructor ()
      ensures Valid() && fresh(pinned) && fresh(value)
      ensures State() == NodeState([false, false, false, false], [0.0, 0.0, 0.0, 0.0])
    {
      pinned := new bool[NSLOT](_ => false);
      value := new real[NSLOT](_ => 0.0);
    }

    /** Pin slot k: it is no longer an unknown. */
    method Pin(k: nat)
      requires Valid() && k < NSLOT
      modifies pinned
      ensures State() == NodeState(old(State()).pinned[k := true], old(State()).value)
    {
      pinned[k] := true;
    }

    /** Overwrite the value of slot k. */
    method SetValue(k: nat, v: real)
      requires Valid() && k < NSLOT
      modifies value
      ensures State() == NodeState(old(State()).pinned, old(State()).value[k := v])
    {
      value[k] := v;
    }
  }

  /** Every node is valid and no two positions of the boundary share a node. */
  ghost predicate ValidBoundary(nodes: seq<HermiteNode>) {
    && (forall i :: 0 <= i < |nodes| ==> nodes[i].Valid())
    && (forall i, j :: 0 <= i < |nodes| && 0 <= j < |nodes| && i != j ==>
          nodes[i].pinned != nodes[j].pinned && nodes[i].value != nodes[j].value)
  }

  /** The arrays the boundary-condition code may change. */
  ghost function Footprint(nodes: seq<HermiteNode>): set<object> {
    (set i | 0 <= i < |nodes| :: nodes[i].pinned as object)
      + (set i | 0 <= i < |nodes| :: nodes[i].value as object)
  }
}
