/**
 * BiharmonicFluidProblem (biharmonic_problem.cc): the stream function psi
 * of a 2D Stokes flow solves the biharmonic equation, and fluid boundary
 * conditions become conditions on the Hermite dofs of the boundary nodes:
 * a solid wall (impose_solid_boundary_on_edge), a traction-free edge
 * (impose_traction_free_edge, pinning or equation elements) and a
 * prescribed flow (impose_fluid_flow_on_edge). The equation element
 * BiharmonicFluidBoundaryElement imposes du/ds_n = dt/ds_n ds_t/dt du/ds_t.
 */
module BiharmonicFluidProblem {
  import opened Wrappers
  import opened BiharmonicFace
  import opened HermiteNodes
  import opened BiharmonicStencils

  // ----- solid wall -----

  /** A node on a solid wall: every slot pinned, psi in slot 0 and no velocity. */
  function SolidNode(psi: real): (t: NodeState)
    ensures t.WellFormed()
    ensures forall k :: 0 <= k < NSLOT ==> t.pinned[k]
    ensures t.value[U_SLOT] == psi
    ensures forall k :: 1 <= k < NSLOT ==> t.value[k] == 0.0
  {
    NodeState([true, true, true, true], [psi, 0.0, 0.0, 0.0])
  }

  /** One iteration of impose_solid_boundary_on_edge: slots 1 to 3 pinned to 0, then slot 0 to psi. */
  method ImposeSolidAtNode(node: HermiteNode, psi: real)
    requires node.Valid()
    modifies node.pinned, node.value
    ensures node.State() == SolidNode(psi)
  {
    var k := 1;
    while k < 4
      invariant 1 <= k <= 4
      invariant forall j :: 1 <= j < k ==> node.pinned[j] && node.value[j] == 0.0
    {
      node.Pin(k);
      node.SetValue(k, 0.0);
      k := k + 1;
    }
    node.Pin(U_SLOT);
    node.SetValue(U_SLOT, psi);
    assert node.pinned[..] == [true, true, true, true];
    assert node.value[..] == [psi, 0.0, 0.0, 0.0];
  }

  // ----- prescribed flow -----

  /** A node after impose_fluid_flow_on_edge: the three derivative slots pinned, slot 0 left alone. */
  function FlowNode(s: NodeState, sFixed: nat, v: FlowSlots): (t: NodeState)
    requires s.WellFormed() && sFixed < 2
    ensures t.WellFormed()
    ensures t.pinned[NormalSlot(sFixed)] && t.value[NormalSlot(sFixed)] == v.dudsn
    ensures t.pinned[TangentialSlot(sFixed)] && t.value[TangentialSlot(sFixed)] == v.dudst
    ensures t.pinned[MIXED_SLOT] && t.value[MIXED_SLOT] == v.d2udsnDst
    ensures t.pinned[U_SLOT] == s.pinned[U_SLOT] && t.value[U_SLOT] == s.value[U_SLOT]
  {
    PinAndSet(PinAndSet(PinAndSet(s, NormalSlot(sFixed), v.dudsn), TangentialSlot(sFixed), v.dudst),
              MIXED_SLOT, v.d2udsnDst)
  }

  /**
   * A prescribed flow that is zero everywhere pins the derivative slots
   * exactly as a solid wall does, and leaves slot 0 (psi) free for the
   * caller.
   */
  lemma ZeroFlowIsSolidWall(s: NodeState, face: int, g: EdgeGeometry, pos: NodePosition, m0: real, m1: real,
                            flow: real -> (real, real), psi: real)
    requires s.WellFormed() && IsQuadFace(face)
    requires forall x :: flow(x) == (0.0, 0.0)
    ensures var d := FluidFaceDecode(face).value;
      var t := FlowNode(s, d.0, FlowSlotValues(g, d.1, pos, m0, m1, flow));
      && t.pinned[1..] == SolidNode(psi).pinned[1..]
      && t.value[1..] == SolidNode(psi).value[1..]
  {
    var d := FluidFaceDecode(face).value;
    FlowSlotValuesOfConstantFlow(g, d.1, pos, m0, m1, flow, 0.0, 0.0);
    SlotsPartition(d.0);
    var t := FlowNode(s, d.0, FlowSlotValues(g, d.1, pos, m0, m1, flow));
    assert t.pinned[1..] == [true, true, true] by {
      assert t.pinned[1] && t.pinned[2] && t.pinned[3];
    }
    assert t.value[1..] == [0.0, 0.0, 0.0] by {
      assert t.value[1] == 0.0 && t.value[2] == 0.0 && t.value[3] == 0.0;
    }
  }

  /** One iteration of impose_fluid_flow_on_edge. */
  method ImposeFlowAtNode(node: HermiteNode, sFixed: nat, edgeSign: int, pos: NodePosition, m0: real, m1: real,
                          g: EdgeGeometry, flow: real -> (real, real))
    requires node.Valid() && sFixed < 2
    modifies node.pinned, node.value
    ensures node.State() == FlowNode(old(node.State()), sFixed, FlowSlotValues(g, edgeSign, pos, m0, m1, flow))
  {
    var imposed := flow(m0);
    var u0 := imposed.0 * (edgeSign as real);
    var u1 := imposed.1 * (-edgeSign as real);
    var p := FirstDiffPoints(pos, m0);
    var uL := flow(p.left);
    var uR := flow(p.right);
    var ddmDudn := (uR.1 - uL.1) / H;
    var ddmDudt := (uR.0 - uL.0) / H;
    var dudst := g.dtDst * u0;
    var dudsn := g.dnDsn * u1 + g.dtDsn * u0;
    var d2udsnDst := g.dnDsn * m1 * ddmDudn + g.d2tDsnDst * u0 + g.dtDsn * m1 * ddmDudt;
    assert FlowSlotValues(g, edgeSign, pos, m0, m1, flow) == FlowSlots(dudsn, dudst, d2udsnDst);
    ghost var s0 := node.State();
    node.Pin(NormalSlot(sFixed));
    node.SetValue(NormalSlot(sFixed), dudsn);
    assert node.State() == PinAndSet(s0, NormalSlot(sFixed), dudsn);
    ghost var s1 := node.State();
    node.Pin(TangentialSlot(sFixed));
    node.SetValue(TangentialSlot(sFixed), dudst);
    assert node.State() == PinAndSet(s1, TangentialSlot(sFixed), dudst);
    ghost var s2 := node.State();
    node.Pin(MIXED_SLOT);
    node.SetValue(MIXED_SLOT, d2udsnDst);
    assert node.State() == PinAndSet(s2, MIXED_SLOT, d2udsnDst);
  }

  /** impose_fluid_flow_on_edge at node n of the edge; no other node changes. */
  method ImposeFlowAtEdgeNode(nodes: seq<HermiteNode>, n: nat, sFixed: nat, edgeSign: int, coords: seq<BoundaryCoords>,
                              geometry: seq<EdgeGeometry>, flow: real -> (real, real))
    requires ValidBoundary(nodes) && n < |nodes| == |coords| == |geometry| && sFixed < 2
    modifies nodes[n].pinned, nodes[n].value
    ensures nodes[n].State() == FlowNode(old(nodes[n].State()), sFixed,
      FlowSlotValues(geometry[n], edgeSign, PositionOf(n, |nodes|), coords[n].m0, coords[n].m1, flow))
    ensures forall j :: 0 <= j < |nodes| && j != n ==> nodes[j].State() == old(nodes[j].State())
  {
    ImposeFlowAtNode(nodes[n], sFixed, edgeSign, PositionOf(n, |nodes|), coords[n].m0, coords[n].m1, geometry[n], flow);
  }

  // ----- traction-free edge -----

  /**
   * The local nodes (left element, right element) whose normal-derivative
   * value is hijacked on boundaries 0 to 3 of the rectangular mesh; no
   * other boundary hijacks anything.
   */
  function HijackedLocalNodes(b: nat): (r: Option<(nat, nat)>)
    ensures r.Some? <==> b < 4
    // the node's two elements see it at different corners
    ensures r.Some? ==> r.value.0 < 4 && r.value.1 < 4 && r.value.0 != r.value.1
  {
    if b == 0 then Some((1, 0))
    else if b == 1 then Some((3, 1))
    else if b == 2 then Some((3, 2))
    else if b == 3 then Some((2, 0))
    else None
  }

  /** A nodal value hijacked (its bulk equation deleted) in boundary element `boundaryElement` of boundary `boundary`. */
  datatype Hijack = Hijack(boundary: nat, boundaryElement: nat, localNode: nat, slot: nat)

  /** A BiharmonicFluidBoundaryElement added to the mesh at node `node` of boundary `boundary`. */
  datatype PointElement = PointElement(boundary: nat, node: nat, sFixedIndex: nat)

  /** The hijacks made for node n of a boundary with nNode nodes. */
  function NodeHijacks(b: nat, sFixed: nat, n: nat, nNode: nat): seq<Hijack>
    requires sFixed < 2
  {
    match HijackedLocalNodes(b)
    case None => []
    case Some((left, right)) =>
      (if n > 0 then [Hijack(b, n - 1, left, NormalSlot(sFixed))] else [])
      + (if n + 1 < nNode then [Hijack(b, n, right, NormalSlot(sFixed))] else [])
  }

  /** A node whose dt/ds_n is 0: the traction-free condition is a pinned zero normal derivative. */
  predicate Degenerate(g: EdgeGeometry) {
    g.dtDsn == 0.0
  }

  /** The hijacks made for the first n nodes. */
  function TractionHijacks(b: nat, sFixed: nat, geometry: seq<EdgeGeometry>, n: nat): seq<Hijack>
    requires sFixed < 2 && n <= |geometry|
  {
    if n == 0 then []
    else TractionHijacks(b, sFixed, geometry, n - 1)
         + (if Degenerate(geometry[n - 1]) then [] else NodeHijacks(b, sFixed, n - 1, |geometry|))
  }

  /** The point elements added for the first n nodes. */
  function TractionPoints(b: nat, sFixed: nat, geometry: seq<EdgeGeometry>, n: nat): seq<PointElement>
    requires n <= |geometry|
  {
    if n == 0 then []
    else TractionPoints(b, sFixed, geometry, n - 1)
         + (if Degenerate(geometry[n - 1]) then [] else [PointElement(b, n - 1, sFixed)])
  }

  /** A node after impose_traction_free_edge. */
  function TractionFreeNode(s: NodeState, sFixed: nat, g: EdgeGeometry): (t: NodeState)
    requires s.WellFormed() && sFixed < 2
    ensures t.WellFormed()
    ensures Degenerate(g) ==> t.pinned[NormalSlot(sFixed)] && t.value[NormalSlot(sFixed)] == 0.0
    ensures !Degenerate(g) ==> t == s
    ensures forall k :: 0 <= k < NSLOT && k != NormalSlot(sFixed) ==> t.pinned[k] == s.pinned[k] && t.value[k] == s.value[k]
  {
    if Degenerate(g) then PinAndSet(s, NormalSlot(sFixed), 0.0) else s
  }

  /**
   * Every hijack of the first n nodes is of the normal slot in an element
   * of this boundary before element n, and one in element n-1 is the
   * right-element hijack of node n-1.
   */
  lemma {:induction false} TractionHijacksShape(b: nat, sFixed: nat, geometry: seq<EdgeGeometry>, n: nat)
    requires sFixed < 2 && n <= |geometry|
    ensures forall h :: h in TractionHijacks(b, sFixed, geometry, n) ==>
      && h.boundary == b && h.slot == NormalSlot(sFixed) && b < 4
      && h.boundaryElement < n && h.boundaryElement + 1 < |geometry|
      && (h.boundaryElement + 1 == n ==> h.localNode == HijackedLocalNodes(b).value.1)
  {
    if n > 0 {
      TractionHijacksShape(b, sFixed, geometry, n - 1);
    }
  }

  /** No two hijacks name the same local node of the same element. */
  predicate NoValueHijackedTwice(hs: seq<Hijack>) {
    forall i, j :: 0 <= i < j < |hs| ==>
      hs[i].boundaryElement != hs[j].boundaryElement || hs[i].localNode != hs[j].localNode
  }

  /**
   * No nodal value is hijacked twice: each boundary element loses at most
   * the value of its right-hand corner (to node e) and of its left-hand
   * corner (to node e+1), and these are different local nodes.
   */
  lemma {:induction false} TractionHijacksDistinct(b: nat, sFixed: nat, geometry: seq<EdgeGeometry>, n: nat)
    requires sFixed < 2 && n <= |geometry|
    ensures NoValueHijackedTwice(TractionHijacks(b, sFixed, geometry, n))
  {
    if n > 0 {
      TractionHijacksDistinct(b, sFixed, geometry, n - 1);
      TractionHijacksShape(b, sFixed, geometry, n - 1);
      var old_ := TractionHijacks(b, sFixed, geometry, n - 1);
      var added := if Degenerate(geometry[n - 1]) then [] else NodeHijacks(b, sFixed, n - 1, |geometry|);
      var hs := TractionHijacks(b, sFixed, geometry, n);
      assert hs == old_ + added;
      forall i, j | 0 <= i < j < |hs|
        ensures hs[i].boundaryElement != hs[j].boundaryElement || hs[i].localNode != hs[j].localNode
      {
        if j >= |old_| {
          var corners := HijackedLocalNodes(b).value;
          assert hs[j] in added;
          // node n-1 hijacks corner .0 of element n-2 and corner .1 of element n-1
          assert (hs[j].boundaryElement + 2 == n && hs[j].localNode == corners.0)
              || (hs[j].boundaryElement + 1 == n && hs[j].localNode == corners.1);
          if i < |old_| {
            assert hs[i] in old_;
            assert hs[i].boundaryElement + 1 < n;
            assert hs[i].boundaryElement + 2 == n ==> hs[i].localNode == corners.1;
            assert corners.0 != corners.1;
          } else {
            assert |added| <= 2;
            assert i - |old_| == 0 && j - |old_| == 1;
            assert added[0].boundaryElement + 2 == n && added[1].boundaryElement + 1 == n;
            assert hs[i] == added[0] && hs[j] == added[1];
          }
        } else {
          assert hs[i] == old_[i] && hs[j] == old_[j];
        }
      }
    }
  }

  /** Point elements listed in strictly increasing node order: no node has two. */
  predicate NodesIncreasing(pts: seq<PointElement>) {
    forall i, j :: 0 <= i < j < |pts| ==> pts[i].node < pts[j].node
  }

  /**
   * Every node of the edge gets exactly one traction-free condition: a
   * degenerate node has its normal slot pinned to 0, and every other node
   * has a point element. The point elements follow the nodes in strictly
   * increasing order, so no node gets two of them.
   */
  lemma {:induction false} TractionPointsCoverNodes(b: nat, sFixed: nat, geometry: seq<EdgeGeometry>, n: nat)
    requires n <= |geometry|
    ensures forall i :: 0 <= i < n ==>
      (PointElement(b, i, sFixed) in TractionPoints(b, sFixed, geometry, n) <==> !Degenerate(geometry[i]))
    ensures forall p :: p in TractionPoints(b, sFixed, geometry, n) ==>
      p.boundary == b && p.sFixedIndex == sFixed && p.node < n
    ensures NodesIncreasing(TractionPoints(b, sFixed, geometry, n))
  {
    if n > 0 {
      TractionPointsCoverNodes(b, sFixed, geometry, n - 1);
      var before := TractionPoints(b, sFixed, geometry, n - 1);
      var pts := TractionPoints(b, sFixed, geometry, n);
      forall i, j | 0 <= i < j < |pts|
        ensures pts[i].node < pts[j].node
      {
        assert pts[i] == before[i] && before[i] in before;
        if j >= |before| {
          // the new point element is that of node n - 1, after every earlier one
          assert pts[j] == PointElement(b, n - 1, sFixed);
        } else {
          assert pts[j] == before[j];
        }
      }
    }
  }

  /** A node whose dt/ds_n is 0: pin its normal derivative to 0. */
  method PinNormalDerivative(node: HermiteNode, sFixed: nat)
    requires node.Valid() && sFixed < 2
    modifies node.pinned, node.value
    ensures node.State() == PinAndSet(old(node.State()), NormalSlot(sFixed), 0.0)
  {
    node.Pin(NormalSlot(sFixed));
    node.SetValue(NormalSlot(sFixed), 0.0);
  }

  // ----- the equation element -----

  /** The residual the point element adds: du/ds_n - c du/ds_t, with c = dt/ds_n ds_t/dt. */
  function BoundaryEquationResidual(vN: real, vT: real, c: real): real {
    vN - c * vT
  }

  /**
   * The boundary equation holds exactly when du/ds_n is what the chain
   * rule gives for du/dn = 0 (no tangential traction), with du/ds_t taken
   * from the tangential slot.
   */
  lemma BoundaryEquationMeansZeroNormalDerivative(g: EdgeGeometry, edgeSign: int, m1: real, d2udm2: real,
                                                  ddmDudn: real, vN: real, vT: real)
    ensures BoundaryEquationResidual(vN, vT, g.dtDsn * g.dstDt) == 0.0
      <==> vN == DudnSlotValues(g, edgeSign, m1, 0.0, d2udm2, ddmDudn, vT).dudsn
  {
  }

  /**
   * The Jacobian entries the element adds (1 for du/ds_n, -c for du/ds_t)
   * are the exact derivatives of its residual, which is linear.
   */
  lemma BoundaryEquationJacobianExact(vN: real, vT: real, c: real, dN: real, dT: real)
    ensures BoundaryEquationResidual(vN + dN, vT + dT, c)
      == BoundaryEquationResidual(vN, vT, c) + 1.0 * dN + (-c) * dT
  {
  }

  /**
   * The Jacobian contribution at (i, j) of an element whose equation is
   * eqn and whose tangential dof is dofT (negative when pinned).
   */
  function JacobianContribution(jflag: nat, eqn: int, dofT: int, c: real, i: int, j: int): real {
    if jflag == 1 && eqn >= 0 && i == eqn then
      (if j == eqn then 1.0 else 0.0) - (if dofT >= 0 && j == dofT then c else 0.0)
    else 0.0
  }

  /** The Jacobian contribution is the derivative of the residual with respect to the free dofs. */
  lemma JacobianContributionIsDerivative(eqn: nat, dofT: int, c: real, vN: real, vT: real, dN: real, dT: real)
    requires dofT != eqn
    ensures var dT' := if dofT >= 0 then dT else 0.0;
      BoundaryEquationResidual(vN + dN, vT + dT', c)
        == BoundaryEquationResidual(vN, vT, c)
           + JacobianContribution(1, eqn, dofT, c, eqn, eqn) * dN
           + (if dofT >= 0 then JacobianContribution(1, eqn, dofT, c, eqn, dofT) * dT else 0.0)
  {
  }

  class BiharmonicFluidBoundaryElement {
    /** The single node of the point element. */
    const node: HermiteNode
    const sFixedIndex: nat
    /** nodal_local_eqn(0, k) for the four slots; negative when the slot is pinned. */
    const localEqn: seq<int>
    /** The node's geometric factors (dt/ds_n and ds_t/dt are used). */
    const geometry: EdgeGeometry

    ghost predicate Valid() {
      node.Valid() && sFixedIndex < 2 && |localEqn| == NSLOT
    }

    constructor (node: HermiteNode, sFixedIndex: nat, localEqn: seq<int>, geometry: EdgeGeometry)
      requires node.Valid() && sFixedIndex < 2 && |localEqn| == NSLOT
      ensures Valid()
      ensures this.node == node && this.sFixedIndex == sFixedIndex
      ensures this.localEqn == localEqn && this.geometry == geometry
    {
      this.node := node;
      this.sFixedIndex := sFixedIndex;
      this.localEqn := localEqn;
      this.geometry := geometry;
    }

    /**
     * Add the element's residual (and, when jflag is 1, its Jacobian) to
     * the element vectors. Nothing is added when the normal slot is pinned.
     */
    method FillInGenericResidualContributionBiharmonicBoundary(residual: array<real>, jacobian: array2<real>,
                                                              jflag: nat)
      requires Valid()
      requires residual != node.value
      requires forall k :: 0 <= k < NSLOT ==>
        localEqn[k] < residual.Length && localEqn[k] < jacobian.Length0 && localEqn[k] < jacobian.Length1
      modifies residual, jacobian
      ensures var eqn := localEqn[NormalSlot(sFixedIndex)];
        var c := geometry.dtDsn * geometry.dstDt;
        residual[..] == if eqn < 0 then old(residual[..])
          else old(residual[..])[eqn := old(residual[eqn])
            + BoundaryEquationResidual(node.value[NormalSlot(sFixedIndex)], node.value[TangentialSlot(sFixedIndex)], c)]
      ensures forall i, j :: 0 <= i < jacobian.Length0 && 0 <= j < jacobian.Length1 ==>
        jacobian[i, j] == old(jacobian[i, j])
          + JacobianContribution(jflag, localEqn[NormalSlot(sFixedIndex)], localEqn[TangentialSlot(sFixedIndex)],
                                 geometry.dtDsn * geometry.dstDt, i, j)
    {
      var kNormal := NormalSlot(sFixedIndex);
      var kTangential := TangentialSlot(sFixedIndex);
      var c := geometry.dtDsn * geometry.dstDt;
      var eqn := localEqn[kNormal];
      if eqn >= 0 {
        var vN := node.value[kNormal];
        var vT := node.value[kTangential];
        residual[eqn] := residual[eqn] + (vN - c * vT);
        assert residual[eqn] == old(residual[eqn]) + BoundaryEquationResidual(vN, vT, c);
        assert forall k :: 0 <= k < residual.Length && k != eqn ==> residual[k] == old(residual[k]);
        assert residual[..] == old(residual[..])[eqn := old(residual[eqn]) + BoundaryEquationResidual(vN, vT, c)];
        if jflag == 1 {
          var dof := localEqn[kNormal];
          if dof >= 0 {
            jacobian[eqn, dof] := jacobian[eqn, dof] + 1.0;
          }
          dof := localEqn[kTangential];
          if dof >= 0 {
            jacobian[eqn, dof] := jacobian[eqn, dof] - c;
          }
        }
      }
    }
  }

  // ----- the problem -----

  class BiharmonicFluidProblem {
    /** The point elements appended to the mesh after the bulk elements. */
    var pointElements: seq<PointElement>
    /** Npoint_element. */
    var npointElement: nat
    /** The nodal values hijacked so far. */
    var hijacked: seq<Hijack>

    /** Npoint_element counts the elements after the bulk ones, which doc_solution relies on. */
    ghost predicate Valid()
      reads this
    {
      npointElement == |pointElements|
    }

    constructor ()
      ensures Valid()
      ensures pointElements == [] && npointElement == 0 && hijacked == []
    {
      pointElements := [];
      npointElement := 0;
      hijacked := [];
    }

    /** Pin all four slots of every node of the edge: psi in slot 0, zero velocity. */
    method ImposeSolidBoundaryOnEdge(nodes: seq<HermiteNode>, psi: real)
      requires ValidBoundary(nodes)
      modifies Footprint(nodes)
      ensures forall i :: 0 <= i < |nodes| ==> nodes[i].State() == SolidNode(psi)
    {
      var n := 0;
      while n < |nodes|
        invariant 0 <= n <= |nodes|
        invariant forall j :: 0 <= j < n ==> nodes[j].State() == SolidNode(psi)
      {
        ImposeSolidAtNode(nodes[n], psi);
        n := n + 1;
      }
    }

    /**
     * Impose no tangential traction on the edge with face index `face`:
     * pin du/ds_n = 0 where dt/ds_n = 0, else hijack the node's normal
     * value in the elements on either side and add a point element.
     */
    method ImposeTractionFreeEdge(b: nat, face: int, nodes: seq<HermiteNode>, geometry: seq<EdgeGeometry>)
      returns (thrown: Option<FaceError>)
      requires Valid() && ValidBoundary(nodes) && |geometry| == |nodes|
      modifies this, Footprint(nodes)
      ensures Valid()
      ensures thrown.Some? <==> !IsQuadFace(face)
      ensures thrown.Some? ==> thrown.value == FaceIndexNotQuad(face)
      ensures thrown.Some? ==>
        && pointElements == old(pointElements) && npointElement == old(npointElement) && hijacked == old(hijacked)
        && forall i :: 0 <= i < |nodes| ==> nodes[i].State() == old(nodes[i].State())
      ensures thrown.None? ==>
        && pointElements == old(pointElements) + TractionPoints(b, SFixedIndex(face).value, geometry, |nodes|)
        && hijacked == old(hijacked) + TractionHijacks(b, SFixedIndex(face).value, geometry, |nodes|)
        && forall i :: 0 <= i < |nodes| ==>
             nodes[i].State() == TractionFreeNode(old(nodes[i].State()), SFixedIndex(face).value, geometry[i])
    {
      thrown := None;
      var decoded := SFixedIndex(face);
      if decoded.Err? {
        return Some(decoded.error);
      }
      var sFixed := decoded.value;
      var nNode := |nodes|;
      var n := 0;
      while n < nNode
        invariant 0 <= n <= nNode
        invariant Valid()
        invariant pointElements == old(pointElements) + TractionPoints(b, sFixed, geometry, n)
        invariant hijacked == old(hijacked) + TractionHijacks(b, sFixed, geometry, n)
        invariant forall j :: 0 <= j < n ==>
          nodes[j].State() == TractionFreeNode(old(nodes[j].State()), sFixed, geometry[j])
        invariant forall j :: n <= j < nNode ==> nodes[j].State() == old(nodes[j].State())
      {
        TractionFreeStep(b, sFixed, nodes, geometry, n, old(pointElements), old(hijacked));
        n := n + 1;
      }
    }

    /** One node of impose_traction_free_edge: pin du/dn, or add the point element that carries the condition. */
    method TractionFreeStep(b: nat, sFixed: nat, nodes: seq<HermiteNode>, geometry: seq<EdgeGeometry>, n: nat,
                            ghost points0: seq<PointElement>, ghost hijacked0: seq<Hijack>)
      requires Valid() && sFixed < 2 && n < |nodes| == |geometry| && nodes[n].Valid()
      requires pointElements == points0 + TractionPoints(b, sFixed, geometry, n)
      requires hijacked == hijacked0 + TractionHijacks(b, sFixed, geometry, n)
      modifies this, nodes[n].pinned, nodes[n].value
      ensures Valid()
      ensures pointElements == points0 + TractionPoints(b, sFixed, geometry, n + 1)
      ensures hijacked == hijacked0 + TractionHijacks(b, sFixed, geometry, n + 1)
      ensures nodes[n].State() == TractionFreeNode(old(nodes[n].State()), sFixed, geometry[n])
    {
      if geometry[n].dtDsn == 0.0 {
        PinNormalDerivative(nodes[n], sFixed);
      } else {
        AddBoundaryEquation(b, sFixed, n, |nodes|);
      }
    }

    /**
     * A node whose dt/ds_n is not 0: hijack its normal value in the
     * boundary elements to its left and right, and add a point element.
     */
    method AddBoundaryEquation(b: nat, sFixed: nat, n: nat, nNode: nat)
      requires Valid() && sFixed < 2 && n < nNode
      modifies this
      ensures Valid()
      ensures hijacked == old(hijacked) + NodeHijacks(b, sFixed, n, nNode)
      ensures pointElements == old(pointElements) + [PointElement(b, n, sFixed)]
    {
      var corners := HijackedLocalNodes(b);
      if corners.Some? {
        if n > 0 {
          hijacked := hijacked + [Hijack(b, n - 1, corners.value.0, NormalSlot(sFixed))];
        }
        if n < nNode - 1 {
          hijacked := hijacked + [Hijack(b, n, corners.value.1, NormalSlot(sFixed))];
        }
      }
      pointElements := pointElements + [PointElement(b, n, sFixed)];
      npointElement := npointElement + 1;
    }

    /** Pin the three derivative slots of every node of the edge to the prescribed flow. */
    method ImposeFluidFlowOnEdge(face: int, nodes: seq<HermiteNode>, coords: seq<BoundaryCoords>,
                                 geometry: seq<EdgeGeometry>, flow: real -> (real, real))
      returns (thrown: Option<FaceError>)
      requires ValidBoundary(nodes) && |coords| == |nodes| && |geometry| == |nodes|
      modifies Footprint(nodes)
      ensures thrown.Some? <==> !IsQuadFace(face)
      ensures thrown.Some? ==> thrown.value == FaceIndexNotQuad(face)
      ensures thrown.Some? ==> forall i :: 0 <= i < |nodes| ==> nodes[i].State() == old(nodes[i].State())
      ensures thrown.None? ==> forall i :: 0 <= i < |nodes| ==>
        var d := FluidFaceDecode(face).value;
        nodes[i].State() == FlowNode(old(nodes[i].State()), d.0,
          FlowSlotValues(geometry[i], d.1, PositionOf(i, |nodes|), coords[i].m0, coords[i].m1, flow))
    {
      thrown := None;
      var decoded := FluidFaceDecode(face);
      if decoded.Err? {
        return Some(decoded.error);
      }
      var (sFixed, edgeSign) := decoded.value;
      var nNode := |nodes|;
      var n := 0;
      while n < nNode
        invariant 0 <= n <= nNode
        invariant forall j :: 0 <= j < n ==>
          nodes[j].State() == FlowNode(old(nodes[j].State()), sFixed,
            FlowSlotValues(geometry[j], edgeSign, PositionOf(j, nNode), coords[j].m0, coords[j].m1, flow))
        invariant forall j :: n <= j < nNode ==> nodes[j].State() == old(nodes[j].State())
      {
        ImposeFlowAtEdgeNode(nodes, n, sFixed, edgeSign, coords, geometry, flow);
        n := n + 1;
      }
    }
  }
}
