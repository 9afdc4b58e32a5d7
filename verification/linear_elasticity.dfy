/**
 * The bookkeeping of LinearElasticityEquations (linear_elasticity_elements.h):
 * where the displacement components are stored at a node, which of them
 * are unknowns, how they are classified into dof types for block
 * preconditioning, and the field accessors used for projection.
 *
 * An element is represented by what these operations read: its spatial
 * dimension DIM, nodal_local_eqn(n, k) for every node n and value k
 * (negative when the value is pinned), and eqn_number, the global
 * equation number of each local unknown.
 */
module LinearElasticity {
  import opened Wrappers

  datatype ElementDofs = ElementDofs(dim: nat, localEqn: seq<seq<int>>, eqnNumber: seq<nat>) {
    /** Every node stores required_nvalue values, each pinned or a local unknown of the element. */
    predicate WellFormed() {
      && (forall n :: 0 <= n < |localEqn| ==> |localEqn[n]| == RequiredNvalue(dim))
      && (forall n, k :: 0 <= n < |localEqn| && 0 <= k < |localEqn[n]| ==> localEqn[n][k] < |eqnNumber|)
    }

    function NNode(): nat {
      |localEqn|
    }
  }

  // ----- storage -----

  /** u_index_linear_elasticity: displacement component i is nodal value i. */
  function UIndex(i: nat): nat {
    i
  }

  /** required_nvalue: a node stores DIM values. */
  function RequiredNvalue(dim: nat): nat {
    dim
  }

  /** Every displacement component has a slot among the values a node stores, and no two share one. */
  lemma UIndexFitsStorage(dim: nat)
    ensures forall i :: 0 <= i < dim ==> UIndex(i) < RequiredNvalue(dim)
    ensures forall i, j :: 0 <= i < j < dim ==> UIndex(i) != UIndex(j)
  {
  }

  // ----- dof classification -----

  /** A (global equation number, dof type) pair of the dof lookup list. */
  datatype DofLookup = DofLookup(eqn: nat, dofType: nat)

  /** Value `p.1` of node `p.0` is a displacement component of the element and is not pinned. */
  predicate IsFree(e: ElementDofs, p: (nat, nat))
    requires e.WellFormed()
  {
    p.0 < e.NNode() && p.1 < e.dim && e.localEqn[p.0][p.1] >= 0
  }

  /** The free values of node `node` among directions 0..i-1, in loop order, as (node, direction). */
  function FreeInNode(e: ElementDofs, node: nat, i: nat): (r: seq<(nat, nat)>)
    requires e.WellFormed() && node < e.NNode() && i <= e.dim
    ensures forall k :: 0 <= k < |r| ==> IsFree(e, r[k]) && r[k].0 == node && r[k].1 < i
  {
    if i == 0 then []
    else FreeInNode(e, node, i - 1) + (if e.localEqn[node][i - 1] >= 0 then [(node, i - 1)] else [])
  }

  /** The free displacement values of nodes 0..n-1, in the loop order nodes-then-directions. */
  function FreeUnknowns(e: ElementDofs, n: nat): (r: seq<(nat, nat)>)
    requires e.WellFormed() && n <= e.NNode()
    ensures forall k :: 0 <= k < |r| ==> IsFree(e, r[k]) && r[k].0 < n
  {
    if n == 0 then []
    else FreeUnknowns(e, n - 1) + FreeInNode(e, n - 1, e.dim)
  }

  /** A sequence of (node, direction) pairs in strictly increasing loop order: nothing appears twice. */
  predicate InLoopOrder(ps: seq<(nat, nat)>) {
    forall a, b :: 0 <= a < b < |ps| ==> ps[a].0 < ps[b].0 || (ps[a].0 == ps[b].0 && ps[a].1 < ps[b].1)
  }

  /** The free values of a node are listed direction by direction. */
  lemma {:induction false} FreeInNodeInLoopOrder(e: ElementDofs, node: nat, i: nat)
    requires e.WellFormed() && node < e.NNode() && i <= e.dim
    ensures InLoopOrder(FreeInNode(e, node, i))
  {
    if i > 0 {
      FreeInNodeInLoopOrder(e, node, i - 1);
    }
  }

  /** The free values are listed node by node, so none is listed twice. */
  lemma {:induction false} FreeUnknownsInLoopOrder(e: ElementDofs, n: nat)
    requires e.WellFormed() && n <= e.NNode()
    ensures InLoopOrder(FreeUnknowns(e, n))
  {
    if n > 0 {
      FreeUnknownsInLoopOrder(e, n - 1);
      FreeInNodeInLoopOrder(e, n - 1, e.dim);
    }
  }

  /** Every free value of node `node` below direction i is listed. */
  lemma {:induction false} FreeInNodeComplete(e: ElementDofs, node: nat, i: nat)
    requires e.WellFormed() && node < e.NNode() && i <= e.dim
    ensures forall d :: 0 <= d < i && e.localEqn[node][d] >= 0 ==> (node, d) in FreeInNode(e, node, i)
  {
    if i > 0 {
      FreeInNodeComplete(e, node, i - 1);
    }
  }

  /** Every free value of nodes 0..n-1 is listed: with the contract of FreeUnknowns, exactly the free values. */
  lemma {:induction false} FreeUnknownsComplete(e: ElementDofs, n: nat)
    requires e.WellFormed() && n <= e.NNode()
    ensures forall p: (nat, nat) :: IsFree(e, p) && p.0 < n ==> p in FreeUnknowns(e, n)
  {
    if n > 0 {
      FreeUnknownsComplete(e, n - 1);
      FreeInNodeComplete(e, n - 1, e.dim);
    }
  }

  /**
   * The lookup pair of a free value: its global equation number and its
   * direction as dof type. Only free values are ever looked up; for the
   * others the equation number is irrelevant and taken as 0.
   */
  function Lookup(e: ElementDofs, p: (nat, nat)): DofLookup
    requires e.WellFormed()
  {
    DofLookup(if IsFree(e, p) then e.eqnNumber[e.localEqn[p.0][p.1]] else 0, p.1)
  }

  /**
   * push_front, once per pair of ps in order, of its lookup pair onto r0:
   * the pair pushed last ends up first.
   */
  function PushAll(e: ElementDofs, ps: seq<(nat, nat)>, r0: seq<DofLookup>): (r: seq<DofLookup>)
    requires e.WellFormed()
    ensures |r| == |ps| + |r0|
    decreases |ps|
  {
    if ps == [] then r0 else [Lookup(e, ps[|ps| - 1])] + PushAll(e, ps[..|ps| - 1], r0)
  }

  /** After pushing ps onto r0, the k-th element is the lookup pair of the k-th last pair of ps, and r0 follows. */
  lemma {:induction false} PushAllAt(e: ElementDofs, ps: seq<(nat, nat)>, r0: seq<DofLookup>)
    requires e.WellFormed()
    ensures forall k :: 0 <= k < |ps| ==> PushAll(e, ps, r0)[k] == Lookup(e, ps[|ps| - 1 - k])
    ensures PushAll(e, ps, r0) == PushAll(e, ps, []) + r0
    decreases |ps|
  {
    if ps != [] {
      PushAllAt(e, ps[..|ps| - 1], r0);
    }
  }

  /** Pushing ps and then qs is pushing ps + qs. */
  lemma {:induction false} PushAllAppend(e: ElementDofs, ps: seq<(nat, nat)>, qs: seq<(nat, nat)>, r0: seq<DofLookup>)
    requires e.WellFormed()
    ensures PushAll(e, ps + qs, r0) == PushAll(e, qs, PushAll(e, ps, r0))
    decreases |qs|
  {
    if qs == [] {
      assert ps + qs == ps;
    } else {
      var qs' := qs[..|qs| - 1];
      assert (ps + qs)[..|ps + qs| - 1] == ps + qs';
      PushAllAppend(e, ps, qs', r0);
    }
  }

  /** The pairs get_dof_numbers_for_unknowns puts in front of the list, in list order. */
  function NewDofLookups(e: ElementDofs): seq<DofLookup>
    requires e.WellFormed()
  {
    PushAll(e, FreeUnknowns(e, e.NNode()), [])
  }

  /**
   * get_dof_numbers_for_unknowns: for every node and every direction
   * i < DIM whose value is free, push (eqn_number(local eqn), i) onto the
   * front of the list. The pairs that were there stay, unchanged, behind
   * the new ones, which appear in reverse loop order.
   */
  method GetDofNumbersForUnknowns(e: ElementDofs, list: seq<DofLookup>) returns (r: seq<DofLookup>)
    requires e.WellFormed()
    ensures r == NewDofLookups(e) + list
  {
    r := list;
    var n: nat := 0;
    while n < e.NNode()
      invariant n <= e.NNode()
      invariant r == PushedNodes(e, n, list)
    {
      r := PushFreeValuesOfNode(e, n, r);
      n := n + 1;
    }
    PushedNodesIsPushAll(e, n, list);
    PushAllAt(e, FreeUnknowns(e, n), list);
  }

  /** The inner loop of get_dof_numbers_for_unknowns: push the free values of node n onto r0. */
  method PushFreeValuesOfNode(e: ElementDofs, n: nat, r0: seq<DofLookup>) returns (r: seq<DofLookup>)
    requires e.WellFormed() && n < e.NNode()
    ensures r == PushedUpTo(e, n, e.dim, r0)
  {
    r := r0;
    var i: nat := 0;
    while i < e.dim
      invariant i <= e.dim
      invariant r == PushedUpTo(e, n, i, r0)
    {
      var localUnknown := e.localEqn[n][i];
      if localUnknown >= 0 {
        var dofLookup := DofLookup(e.eqnNumber[localUnknown], i);
        r := [dofLookup] + r;
      }
      i := i + 1;
    }
  }

  /** The list r0 after the free values of node n below direction i have been pushed onto it, one at a time. */
  function PushedUpTo(e: ElementDofs, n: nat, i: nat, r0: seq<DofLookup>): seq<DofLookup>
    requires e.WellFormed() && n < e.NNode() && i <= e.dim
  {
    if i == 0 then r0
    else if e.localEqn[n][i - 1] >= 0 then [DofLookup(e.eqnNumber[e.localEqn[n][i - 1]], i - 1)] + PushedUpTo(e, n, i - 1, r0)
    else PushedUpTo(e, n, i - 1, r0)
  }

  /** The list after the free values of nodes 0..n-1 have been pushed onto it, one at a time. */
  function PushedNodes(e: ElementDofs, n: nat, list: seq<DofLookup>): seq<DofLookup>
    requires e.WellFormed() && n <= e.NNode()
  {
    if n == 0 then list else PushedUpTo(e, n - 1, e.dim, PushedNodes(e, n - 1, list))
  }

  /** The inner loop pushes exactly the free values of node n, in loop order. */
  lemma {:induction false} PushedUpToIsPushAll(e: ElementDofs, n: nat, i: nat, r0: seq<DofLookup>)
    requires e.WellFormed() && n < e.NNode() && i <= e.dim
    ensures PushedUpTo(e, n, i, r0) == PushAll(e, FreeInNode(e, n, i), r0)
  {
    if i > 0 {
      PushedUpToIsPushAll(e, n, i - 1, r0);
      var before := FreeInNode(e, n, i - 1);
      if e.localEqn[n][i - 1] >= 0 {
        assert (before + [(n, i - 1)])[..|before|] == before;
      } else {
        assert FreeInNode(e, n, i) == before;
      }
    }
  }

  /** The outer loop pushes exactly the free values of nodes 0..n-1, in loop order. */
  lemma {:induction false} PushedNodesIsPushAll(e: ElementDofs, n: nat, list: seq<DofLookup>)
    requires e.WellFormed() && n <= e.NNode()
    ensures PushedNodes(e, n, list) == PushAll(e, FreeUnknowns(e, n), list)
  {
    if n > 0 {
      var earlier := FreeUnknowns(e, n - 1);
      var mine := FreeInNode(e, n - 1, e.dim);
      PushedNodesIsPushAll(e, n - 1, list);
      PushedUpToIsPushAll(e, n - 1, e.dim, PushedNodes(e, n - 1, list));
      PushAllAppend(e, earlier, mine, list);
      assert FreeUnknowns(e, n) == earlier + mine;
    }
  }

  /**
   * Every free value gets its pair: one pair per free value, carrying the
   * global equation number of the value and its direction as dof type.
   */
  lemma NewDofLookupsComplete(e: ElementDofs)
    requires e.WellFormed()
    ensures |NewDofLookups(e)| == |FreeUnknowns(e, e.NNode())|
    ensures forall p: (nat, nat) :: IsFree(e, p) ==> Lookup(e, p) in NewDofLookups(e)
  {
    var ps := FreeUnknowns(e, e.NNode());
    var r := NewDofLookups(e);
    FreeUnknownsComplete(e, e.NNode());
    PushAllAt(e, ps, []);
    forall p: (nat, nat) | IsFree(e, p)
      ensures Lookup(e, p) in r
    {
      assert p in ps;
      var k :| 0 <= k < |ps| && ps[k] == p;
      assert r[|ps| - 1 - k] == Lookup(e, p);
    }
  }

  /**
   * Every new pair comes from a free value (pinned values get none), and
   * its dof type is a direction, below DIM.
   */
  lemma NewDofLookupsSound(e: ElementDofs)
    requires e.WellFormed()
    ensures forall d :: d in NewDofLookups(e) ==> d.dofType < e.dim
    ensures forall d :: d in NewDofLookups(e) ==> exists p :: IsFree(e, p) && d == Lookup(e, p)
  {
    var ps := FreeUnknowns(e, e.NNode());
    var r := NewDofLookups(e);
    PushAllAt(e, ps, []);
    forall d | d in r
      ensures d.dofType < e.dim
      ensures exists p :: IsFree(e, p) && d == Lookup(e, p)
    {
      var k :| 0 <= k < |r| && r[k] == d;
      var p := ps[|ps| - 1 - k];
      assert IsFree(e, p) && d == Lookup(e, p);
    }
  }

  /** ndof_types as written: every unknown is said to be of one of 2 dof types. */
  function NdofTypesAsWritten(): nat {
    2
  }

  /** ndof_types matching the classification: one dof type per displacement direction. */
  function NdofTypes(dim: nat): nat {
    dim
  }

  /** Every pair of the list is classified into one of the element's dof types. */
  predicate DofTypesInRange(list: seq<DofLookup>, ndofTypes: nat) {
    forall d :: d in list ==> d.dofType < ndofTypes
  }

  /** With ndof_types equal to DIM, every pair get_dof_numbers_for_unknowns adds has a valid dof type. */
  lemma NewDofLookupsWithinNdofTypes(e: ElementDofs)
    requires e.WellFormed()
    ensures DofTypesInRange(NewDofLookups(e), NdofTypes(e.dim))
  {
    NewDofLookupsSound(e);
  }

  /**
   * As written, a 3D element with one node whose three displacements are
   * free gets a pair of dof type 2, which is not below ndof_types() == 2.
   */
  lemma NdofTypesAsWrittenTooSmallIn3D()
    ensures var e := ElementDofs(3, [[0, 1, 2]], [10, 11, 12]);
      && e.WellFormed()
      && DofLookup(12, 2) in NewDofLookups(e)
      && !DofTypesInRange(NewDofLookups(e), NdofTypesAsWritten())
  {
    var e := ElementDofs(3, [[0, 1, 2]], [10, 11, 12]);
    NewDofLookupsComplete(e);
    assert e.localEqn[0][2] == 2;
  }

  // ----- projection accessors -----

  /** nvalue_of_field: a field has one value per node. */
  function NvalueOfField(e: ElementDofs, fld: nat): nat {
    e.NNode()
  }

  /** local_equation: the local equation of value j of field fld, nodal_local_eqn(j, fld) (arguments swapped). */
  function LocalEquation(e: ElementDofs, fld: nat, j: nat): int
    requires e.WellFormed() && j < e.NNode() && fld < e.dim
  {
    e.localEqn[j][fld]
  }

  /**
   * The projection sees the same unknowns as the dof classification:
   * value j of field fld has a local equation exactly when node j's
   * displacement fld is among the free values.
   */
  lemma LocalEquationMatchesFreeUnknowns(e: ElementDofs, fld: nat, j: nat)
    requires e.WellFormed() && j < NvalueOfField(e, fld) && fld < e.dim
    ensures LocalEquation(e, fld, j) >= 0 <==> (j, fld) in FreeUnknowns(e, e.NNode())
  {
    FreeUnknownsComplete(e, e.NNode());
  }

  /** A nodal value: the node (by local index) and the index of the value in it. */
  datatype DataValue = DataValue(node: nat, index: nat)

  /** data_values_of_field: value fld of every node, in node order. */
  method DataValuesOfField(e: ElementDofs, fld: nat) returns (r: seq<DataValue>)
    ensures |r| == NvalueOfField(e, fld)
    ensures forall j :: 0 <= j < |r| ==> r[j] == DataValue(j, fld)
  {
    r := [];
    var j := 0;
    while j < e.NNode()
      invariant 0 <= j <= e.NNode()
      invariant |r| == j
      invariant forall k :: 0 <= k < j ==> r[k] == DataValue(k, fld)
    {
      r := r + [DataValue(j, fld)];
      j := j + 1;
    }
  }

  // ----- body force -----

  /**
   * body_force: with no body-force function the first dim() entries of b
   * become 0 and the others are left alone; otherwise the function, given
   * the time of the first node's time stepper, x and the vector b as it
   * was, decides every entry of b (keeping an entry is its choice).
   */
  method BodyForce(elementDim: nat, time: real, x: seq<real>,
                   fct: Option<(real, seq<real>, seq<real>) -> seq<real>>, b: array<real>)
    requires fct.None? ==> elementDim <= b.Length
    requires fct.Some? ==> |fct.value(time, x, b[..])| == b.Length
    modifies b
    ensures fct.None? ==> forall i :: 0 <= i < b.Length ==> b[i] == if i < elementDim then 0.0 else old(b[i])
    ensures fct.Some? ==> b[..] == fct.value(time, x, old(b[..]))
  {
    if fct.None? {
      var i := 0;
      while i < elementDim
        invariant 0 <= i <= elementDim
        invariant forall k :: 0 <= k < b.Length ==> b[k] == if k < i then 0.0 else old(b[k])
      {
        b[i] := 0.0;
        i := i + 1;
      }
    } else {
      var v := fct.value(time, x, b[..]);
      var i := 0;
      while i < b.Length
        invariant 0 <= i <= b.Length
        invariant forall k :: 0 <= k < i ==> b[k] == v[k]
      {
        b[i] := v[i];
        i := i + 1;
      }
      assert b[..] == v;
    }
  }

  // ----- acceleration -----

  /** The sum over the stored history values of weight(2, t) times nodal_value(t, n, k). */
  function WeightedSum(weights: seq<real>, history: seq<real>): real
    requires |weights| == |history|
    decreases |weights|
  {
    if weights == [] then 0.0
    else WeightedSum(weights[..|weights| - 1], history[..|history| - 1])
         + weights[|weights| - 1] * history[|history| - 1]
  }

  function Sum(s: seq<real>): real
    decreases |s|
  {
    if s == [] then 0.0 else Sum(s[..|s| - 1]) + s[|s| - 1]
  }

  /**
   * A displacement that has stayed at c over the stored history has
   * acceleration c times the sum of the weights, which is 0 for any
   * consistent second-derivative scheme.
   */
  lemma {:induction false} WeightedSumOfConstantHistory(weights: seq<real>, history: seq<real>, c: real)
    requires |weights| == |history|
    requires forall t :: 0 <= t < |history| ==> history[t] == c
    ensures WeightedSum(weights, history) == c * Sum(weights)
    decreases |weights|
  {
    if weights != [] {
      var k := |weights| - 1;
      WeightedSumOfConstantHistory(weights[..k], history[..k], c);
      assert history[k] == c;
      assert c * Sum(weights) == c * Sum(weights[..k]) + c * weights[k];
    }
  }

  /**
   * d2u_dt2_linear_elasticity at a node for direction i: 0 when the time
   * stepper is steady, otherwise the weighted sum of the history values of
   * displacement component i. nodalValue[t] holds the node's values at
   * history level t.
   */
  method D2UDt2(steady: bool, weights: seq<real>, nodalValue: seq<seq<real>>, i: nat) returns (r: real)
    requires |weights| == |nodalValue|
    requires forall t :: 0 <= t < |nodalValue| ==> UIndex(i) < |nodalValue[t]|
    ensures r == if steady then 0.0 else WeightedSum(weights, History(nodalValue, UIndex(i)))
  {
    r := 0.0;
    if !steady {
      var uNodalIndex := UIndex(i);
      var nTime := |weights|;
      ghost var history := History(nodalValue, uNodalIndex);
      var t := 0;
      while t < nTime
        invariant 0 <= t <= nTime
        invariant r == WeightedSum(weights[..t], history[..t])
      {
        assert weights[..t + 1][..t] == weights[..t];
        assert history[..t + 1][..t] == history[..t];
        r := r + weights[t] * nodalValue[t][uNodalIndex];
        t := t + 1;
      }
      assert weights[..nTime] == weights;
      assert history[..nTime] == history;
    }
  }

  /** Value k of a node at every history level. */
  function History(nodalValue: seq<seq<real>>, k: nat): (h: seq<real>)
    requires forall t :: 0 <= t < |nodalValue| ==> k < |nodalValue[t]|
    ensures |h| == |nodalValue|
    ensures forall t :: 0 <= t < |h| ==> h[t] == nodalValue[t][k]
  {
    seq(|nodalValue|, t requires 0 <= t < |nodalValue| => nodalValue[t][k])
  }
}
