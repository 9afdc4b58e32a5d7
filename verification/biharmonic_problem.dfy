/**
 * BiharmonicProblem (biharmonic_problem.cc): clamped edges imposed by
 * pinning Hermite dofs (set_dirichlet_boundary_condition) and free edges
 * imposed with flux elements (set_neumann_boundary_condition).
 *
 * The bulk mesh is represented by what these operations take from it: the
 * nodes of boundary b in order, their coordinates on the boundary, their
 * geometric factors, the face index of the first boundary element, and the
 * face indices of the boundary elements.
 */
module BiharmonicProblem {
  import opened Wrappers
  import opened BiharmonicFace
  import opened HermiteNodes
  import opened BiharmonicStencils

  // ----- Dirichlet: the u pass -----

  /** The u pass at one node: pin slot 0 to u(m0) and the tangential slot to du/ds_t. */
  function UPassNode(s: NodeState, pos: NodePosition, sFixed: nat, at: BoundaryCoords, u: real -> real): (t: NodeState)
    requires s.WellFormed() && sFixed < 2
    ensures t.WellFormed()
    ensures t.pinned[U_SLOT] && t.value[U_SLOT] == u(at.m0)
    ensures t.pinned[TangentialSlot(sFixed)]
    ensures t.value[TangentialSlot(sFixed)] == TangentialDerivative(u, pos, at.m0, at.m1)
    ensures t.pinned[NormalSlot(sFixed)] == s.pinned[NormalSlot(sFixed)]
    ensures t.value[NormalSlot(sFixed)] == s.value[NormalSlot(sFixed)]
    ensures t.pinned[MIXED_SLOT] == s.pinned[MIXED_SLOT] && t.value[MIXED_SLOT] == s.value[MIXED_SLOT]
  {
    PinAndSet(PinAndSet(s, U_SLOT, u(at.m0)), TangentialSlot(sFixed), TangentialDerivative(u, pos, at.m0, at.m1))
  }

  /** A node after the u pass, which runs only when u_fn is set. */
  function AfterUPass(s: NodeState, pos: NodePosition, sFixed: nat, at: BoundaryCoords, uFn: Option<real -> real>): NodeState
    requires s.WellFormed() && sFixed < 2
  {
    if uFn.Some? then UPassNode(s, pos, sFixed, at, uFn.value) else s
  }

  // ----- Dirichlet: the dudn pass -----

  /**
   * The second difference of u over the samples p. At an interior node the
   * middle sample is not evaluated but read back from slot 0.
   */
  function SecondDifferenceReadingBack(s: NodeState, pos: NodePosition, p: Triple, u: real -> real): real
    requires s.WellFormed()
  {
    var uN := if pos == Interior then s.value[U_SLOT] else u(p.mid);
    SecondDifference(u(p.left), uN, u(p.right))
  }

  /** The second difference of u the dudn pass forms at a node, with the corrected samples. */
  function DudnPassSecondDifference(s: NodeState, pos: NodePosition, m0: real, u: real -> real): real
    requires s.WellFormed()
  {
    SecondDifferenceReadingBack(s, pos, SecondDiffPoints(pos, m0), u)
  }

  /** Pin the normal slot and the mixed slot to the values v. */
  function PinDudnSlots(s: NodeState, sFixed: nat, v: DudnSlots): (t: NodeState)
    requires s.WellFormed() && sFixed < 2
    ensures t.pinned == s.pinned[NormalSlot(sFixed) := true][MIXED_SLOT := true]
  {
    PinAndSet(PinAndSet(s, NormalSlot(sFixed), v.dudsn), MIXED_SLOT, v.d2udsnDst)
  }

  /**
   * The dudn pass at one node: pin the normal slot and the mixed slot. The
   * values are those of the corrected stencil (SecondDiffPoints) and of the
   * corrected ds_t/dt (DudnSlotValues); DudnPassNodeAsWritten is the pass
   * as the source computes it.
   */
  function DudnPassNode(s: NodeState, pos: NodePosition, sFixed: nat, edgeSign: int, at: BoundaryCoords,
                        g: EdgeGeometry, u: real -> real, dudn: real -> real): (t: NodeState)
    requires s.WellFormed() && sFixed < 2
    ensures t.WellFormed()
    ensures t.pinned[NormalSlot(sFixed)] && t.pinned[MIXED_SLOT]
    ensures t.pinned[U_SLOT] == s.pinned[U_SLOT] && t.value[U_SLOT] == s.value[U_SLOT]
    ensures t.pinned[TangentialSlot(sFixed)] == s.pinned[TangentialSlot(sFixed)]
    ensures t.value[TangentialSlot(sFixed)] == s.value[TangentialSlot(sFixed)]
    // the normal slot obeys the chain rule with the du/ds_t read from the tangential slot
    ensures t.value[NormalSlot(sFixed)]
      == g.dnDsn * dudn(at.m0) + g.dtDsn * (g.dstDt * s.value[TangentialSlot(sFixed)])
  {
    var v := DudnSlotValues(g, edgeSign, at.m1, dudn(at.m0), DudnPassSecondDifference(s, pos, at.m0, u),
                            FirstDifference(dudn, FirstDiffPoints(pos, at.m0)), s.value[TangentialSlot(sFixed)]);
    PinDudnSlots(s, sFixed, v)
  }

  /**
   * The dudn pass at one node as the source computes it: the first node's
   * third sample at m - 2h (line 219) and ds_t/dt overwritten by d2u/dndt
   * (line 258) before the normal and mixed values are formed.
   */
  function DudnPassNodeAsWritten(s: NodeState, pos: NodePosition, sFixed: nat, edgeSign: int, at: BoundaryCoords,
                                 g: EdgeGeometry, u: real -> real, dudn: real -> real): (t: NodeState)
    requires s.WellFormed() && sFixed < 2
    ensures t.WellFormed()
    ensures t.pinned[NormalSlot(sFixed)] && t.pinned[MIXED_SLOT]
    ensures t.pinned[U_SLOT] == s.pinned[U_SLOT] && t.value[U_SLOT] == s.value[U_SLOT]
    ensures t.pinned[TangentialSlot(sFixed)] == s.pinned[TangentialSlot(sFixed)]
    ensures t.value[TangentialSlot(sFixed)] == s.value[TangentialSlot(sFixed)]
    // d2u/dndt = dt/ds_t m1 d/dm(du/dn) stands where the chain rule has ds_t/dt
    ensures t.value[NormalSlot(sFixed)]
      == g.dnDsn * dudn(at.m0)
         + g.dtDsn * (g.dtDst * at.m1 * FirstDifference(dudn, FirstDiffPoints(pos, at.m0))) * s.value[TangentialSlot(sFixed)]
  {
    var d2udm2 := SecondDifferenceReadingBack(s, pos, SecondDiffPointsAsWritten(pos, at.m0), u);
    var v := DudnSlotValuesAsWritten(g, edgeSign, at.m1, dudn(at.m0), d2udm2,
                                     FirstDifference(dudn, FirstDiffPoints(pos, at.m0)), s.value[TangentialSlot(sFixed)]);
    PinDudnSlots(s, sFixed, v)
  }

  /**
   * The pass as written and the corrected pass pin the same slots and leave
   * slot 0 and the tangential slot alike.
   */
  lemma DudnPassNodeAsWrittenSamePins(s: NodeState, pos: NodePosition, sFixed: nat, edgeSign: int, at: BoundaryCoords,
                                      g: EdgeGeometry, u: real -> real, dudn: real -> real)
    requires s.WellFormed() && sFixed < 2
    ensures var w := DudnPassNodeAsWritten(s, pos, sFixed, edgeSign, at, g, u, dudn);
      var c := DudnPassNode(s, pos, sFixed, edgeSign, at, g, u, dudn);
      && w.pinned == c.pinned
      && w.value[U_SLOT] == c.value[U_SLOT] && w.value[TangentialSlot(sFixed)] == c.value[TangentialSlot(sFixed)]
  {
  }

  /**
   * The normal values of the pass as written and of the corrected pass
   * differ by dt/ds_n (d2u/dndt - ds_t/dt) du/ds_t.
   */
  lemma DudnPassNodeAsWrittenVsCorrected(s: NodeState, pos: NodePosition, sFixed: nat, edgeSign: int, at: BoundaryCoords,
                                         g: EdgeGeometry, u: real -> real, dudn: real -> real)
    requires s.WellFormed() && sFixed < 2
    ensures DudnPassNodeAsWritten(s, pos, sFixed, edgeSign, at, g, u, dudn).value[NormalSlot(sFixed)]
            - DudnPassNode(s, pos, sFixed, edgeSign, at, g, u, dudn).value[NormalSlot(sFixed)]
           == g.dtDsn * (g.dtDst * at.m1 * FirstDifference(dudn, FirstDiffPoints(pos, at.m0)) - g.dstDt)
              * s.value[TangentialSlot(sFixed)]
  {
    var w := DudnPassNodeAsWritten(s, pos, sFixed, edgeSign, at, g, u, dudn).value[NormalSlot(sFixed)];
    var c := DudnPassNode(s, pos, sFixed, edgeSign, at, g, u, dudn).value[NormalSlot(sFixed)];
    var x, d := g.dnDsn * dudn(at.m0), s.value[TangentialSlot(sFixed)];
    var k := g.dtDst * at.m1 * FirstDifference(dudn, FirstDiffPoints(pos, at.m0));
    calc {
      w - c;
      (x + g.dtDsn * k * d) - (x + g.dtDsn * (g.dstDt * d));
      { NormalValuesDiffer(x, g.dtDsn, k, g.dstDt, d); }
      g.dtDsn * (k - g.dstDt) * d;
    }
  }

  /** The arithmetic of DudnPassNodeAsWrittenVsCorrected: the common term cancels and dt/ds_n du/ds_t factors out. */
  lemma NormalValuesDiffer(x: real, a: real, k: real, e: real, d: real)
    ensures (x + a * k * d) - (x + a * (e * d)) == a * (k - e) * d
  {
  }

  /** Away from the first node the two passes coincide whenever d2u/dndt happens to equal ds_t/dt. */
  lemma DudnPassNodeAsWrittenAgrees(s: NodeState, pos: NodePosition, sFixed: nat, edgeSign: int, at: BoundaryCoords,
                                    g: EdgeGeometry, u: real -> real, dudn: real -> real)
    requires s.WellFormed() && sFixed < 2
    requires pos != First
    requires g.dtDst * at.m1 * FirstDifference(dudn, FirstDiffPoints(pos, at.m0)) == g.dstDt
    ensures DudnPassNodeAsWritten(s, pos, sFixed, edgeSign, at, g, u, dudn) == DudnPassNode(s, pos, sFixed, edgeSign, at, g, u, dudn)
  {
    var ddm := FirstDifference(dudn, FirstDiffPoints(pos, at.m0));
    var dudst := s.value[TangentialSlot(sFixed)];
    assert SecondDiffPointsAsWritten(pos, at.m0) == SecondDiffPoints(pos, at.m0);
    var d2 := DudnPassSecondDifference(s, pos, at.m0, u);
    assert DudnSlotValuesAsWritten(g, edgeSign, at.m1, dudn(at.m0), d2, ddm, dudst)
        == DudnSlotValues(g, edgeSign, at.m1, dudn(at.m0), d2, ddm, dudst);
  }

  /**
   * The two differ on an interior node with dn/ds_n = dt/ds_n = dt/ds_t =
   * ds_t/dt = 1, du/ds_t = 1 in the tangential slot and du/dn = 0: the
   * source pins du/ds_n to 0, where the chain rule gives 1.
   */
  lemma DudnPassNodeAsWrittenDiffers()
    ensures var s := NodeState([false, false, false, false], [0.0, 0.0, 1.0, 0.0]);
      var g := EdgeGeometry(1.0, 1.0, 1.0, 1.0, 1.0, 0.0, 0.0, 1.0);
      var at := BoundaryCoords(0.0, 1.0);
      var zero := (x: real) => 0.0;
      && DudnPassNodeAsWritten(s, Interior, 0, 1, at, g, zero, zero).value[1] == 0.0
      && DudnPassNode(s, Interior, 0, 1, at, g, zero, zero).value[1] == 1.0
  {
  }

  /** A node after set_dirichlet_boundary_condition: the u pass, then the dudn pass. */
  function DirichletNode(s: NodeState, pos: NodePosition, sFixed: nat, edgeSign: int, at: BoundaryCoords,
                         g: EdgeGeometry, uFn: Option<real -> real>, dudnFn: Option<real -> real>): NodeState
    requires s.WellFormed() && sFixed < 2
    requires dudnFn.Some? ==> uFn.Some?
  {
    var s1 := AfterUPass(s, pos, sFixed, at, uFn);
    if dudnFn.Some? then DudnPassNode(s1, pos, sFixed, edgeSign, at, g, uFn.value, dudnFn.value) else s1
  }

  /**
   * The pin pattern: with u_fn, slot 0 (set to u(m0)) and the tangential
   * slot; with dudn_fn, the normal slot and the mixed slot; a slot is
   * changed only when its pass runs.
   */
  lemma DirichletPinPattern(s: NodeState, pos: NodePosition, sFixed: nat, edgeSign: int, at: BoundaryCoords,
                            g: EdgeGeometry, uFn: Option<real -> real>, dudnFn: Option<real -> real>)
    requires s.WellFormed() && sFixed < 2
    requires dudnFn.Some? ==> uFn.Some?
    ensures var t := DirichletNode(s, pos, sFixed, edgeSign, at, g, uFn, dudnFn);
      && t.WellFormed()
      && (uFn.Some? ==> t.pinned[U_SLOT] && t.pinned[TangentialSlot(sFixed)] && t.value[U_SLOT] == uFn.value(at.m0))
      && (uFn.None? ==> t.pinned[U_SLOT] == s.pinned[U_SLOT] && t.value[U_SLOT] == s.value[U_SLOT])
      && (uFn.None? ==> t.pinned[TangentialSlot(sFixed)] == s.pinned[TangentialSlot(sFixed)]
                        && t.value[TangentialSlot(sFixed)] == s.value[TangentialSlot(sFixed)])
      && (dudnFn.Some? ==> t.pinned[NormalSlot(sFixed)] && t.pinned[MIXED_SLOT])
      && (dudnFn.None? ==> t.pinned[NormalSlot(sFixed)] == s.pinned[NormalSlot(sFixed)]
                           && t.value[NormalSlot(sFixed)] == s.value[NormalSlot(sFixed)]
                           && t.pinned[MIXED_SLOT] == s.pinned[MIXED_SLOT] && t.value[MIXED_SLOT] == s.value[MIXED_SLOT])
  {
  }

  /**
   * The dudn pass reads what the u pass wrote: at an interior node the
   * middle sample read back from slot 0 is u at the node, so every
   * second difference samples u at three evenly spaced points, and the
   * du/ds_t it uses is the tangential derivative of u.
   */
  lemma DudnPassReadsUPass(s: NodeState, pos: NodePosition, sFixed: nat, at: BoundaryCoords, u: real -> real)
    requires s.WellFormed() && sFixed < 2
    ensures var s1 := UPassNode(s, pos, sFixed, at, u);
      var p := SecondDiffPoints(pos, at.m0);
      && DudnPassSecondDifference(s1, pos, at.m0, u) == SecondDifference(u(p.left), u(p.mid), u(p.right))
      && s1.value[TangentialSlot(sFixed)] == TangentialDerivative(u, pos, at.m0, at.m1)
  {
    var p := SecondDiffPoints(pos, at.m0);
    if pos == Interior {
      assert p.mid == at.m0;
    }
  }

  /** Consequently, for a quadratic u the dudn pass's second difference is exactly u'' at every node. */
  lemma DirichletSecondDifferenceExact(s: NodeState, pos: NodePosition, sFixed: nat, at: BoundaryCoords,
                                       u: real -> real, a: real, b: real, c: real)
    requires s.WellFormed() && sFixed < 2
    requires forall x :: u(x) == a * x * x + b * x + c
    ensures DudnPassSecondDifference(UPassNode(s, pos, sFixed, at, u), pos, at.m0, u) == 2.0 * a
  {
    DudnPassReadsUPass(s, pos, sFixed, at, u);
    SecondDiffPointsExact(u, a, b, c, pos, at.m0);
  }

  /**
   * A constant u = c with a constant du/dn = d: slot 0 gets c, the
   * tangential and mixed slots get 0, and the normal slot gets dn/ds_n d,
   * at every node and for every geometry.
   */
  lemma DirichletOfConstants(s: NodeState, pos: NodePosition, sFixed: nat, edgeSign: int, at: BoundaryCoords,
                             g: EdgeGeometry, u: real -> real, dudn: real -> real, c: real, d: real)
    requires s.WellFormed() && sFixed < 2
    requires forall x :: u(x) == c
    requires forall x :: dudn(x) == d
    ensures var t := DirichletNode(s, pos, sFixed, edgeSign, at, g, Some(u), Some(dudn));
      && t.value[U_SLOT] == c
      && t.value[TangentialSlot(sFixed)] == 0.0
      && t.value[NormalSlot(sFixed)] == g.dnDsn * d
      && t.value[MIXED_SLOT] == 0.0
  {
    var s1 := UPassNode(s, pos, sFixed, at, u);
    TangentialDerivativeOfLinear(u, 0.0, c, pos, at.m0, at.m1);
    DirichletSecondDifferenceExact(s, pos, sFixed, at, u, 0.0, 0.0, c);
    FirstDifferenceExactForLinear(dudn, 0.0, d, pos, at.m0);
    DudnSlotValuesOfConstants(g, edgeSign, at.m1, d);
  }

  // ----- Neumann -----

  /** Identity of a user flux function (a function pointer). */
  type FluxFct = nat

  /**
   * A BiharmonicFluxElement built on boundary element `boundaryElement` of
   * boundary `boundary`; flux1 stays unset when no second flux is given.
   */
  datatype FluxElement = FluxElement(boundaryElement: nat, faceIndex: int, boundary: nat,
                                     flux0: Option<FluxFct>, flux1: Option<FluxFct>)

  /** The flux elements set_neumann_boundary_condition appends for boundary b. */
  function NeumannFluxElements(b: nat, faceIndices: seq<int>, flux0: Option<FluxFct>, flux1: Option<FluxFct>)
    : (r: seq<FluxElement>)
    // one per boundary element, in order, on that element's face
    ensures |r| == |faceIndices|
    ensures forall e :: 0 <= e < |r| ==>
      r[e].boundaryElement == e && r[e].faceIndex == faceIndices[e] && r[e].boundary == b
    ensures forall e :: 0 <= e < |r| ==> r[e].flux0 == flux0 && r[e].flux1 == flux1
  {
    seq(|faceIndices|, e requires 0 <= e < |faceIndices| => FluxElement(e, faceIndices[e], b, flux0, flux1))
  }

  /** The mesh of face elements, grown by add_element_pt. */
  class FaceElementMesh {
    var elements: seq<FluxElement>

    constructor ()
      ensures elements == []
    {
      elements := [];
    }

    method AddElement(e: FluxElement)
      modifies this
      ensures elements == old(elements) + [e]
    {
      elements := elements + [e];
    }
  }

  /** One iteration of the u pass of set_dirichlet_boundary_condition. */
  method ImposeUAtNode(node: HermiteNode, pos: NodePosition, sFixed: nat, at: BoundaryCoords, u: real -> real)
    requires node.Valid() && sFixed < 2
    modifies node.pinned, node.value
    ensures node.State() == UPassNode(old(node.State()), pos, sFixed, at, u)
  {
    var p := FirstDiffPoints(pos, at.m0);
    var uValue := u(at.m0);
    var uL := u(p.left);
    var uR := u(p.right);
    var dudmT := (uR - uL) / H;
    var dudsT := at.m1 * dudmT;
    var tangential := TangentialSlot(sFixed);
    assert dudsT == TangentialDerivative(u, pos, at.m0, at.m1);
    ghost var s0 := node.State();
    node.Pin(U_SLOT);
    node.SetValue(U_SLOT, uValue);
    assert node.State() == PinAndSet(s0, U_SLOT, uValue);
    ghost var s1 := node.State();
    node.Pin(tangential);
    node.SetValue(tangential, dudsT);
    assert node.State() == PinAndSet(s1, tangential, dudsT);
  }

  /** One iteration of the dudn pass of set_dirichlet_boundary_condition. */
  method ImposeDudnAtNode(node: HermiteNode, pos: NodePosition, sFixed: nat, edgeSign: int, at: BoundaryCoords,
                          g: EdgeGeometry, u: real -> real, dudn: real -> real)
    requires node.Valid() && sFixed < 2
    modifies node.pinned, node.value
    ensures node.State() == DudnPassNode(old(node.State()), pos, sFixed, edgeSign, at, g, u, dudn)
  {
    var p2 := SecondDiffPoints(pos, at.m0);
    var u2L := u(p2.left);
    var uN := if pos == Interior then node.value[U_SLOT] else u(p2.mid);
    var u2R := u(p2.right);
    var p1 := FirstDiffPoints(pos, at.m0);
    var dudnL := dudn(p1.left);
    var dudnR := dudn(p1.right);
    var d2udm2 := (u2L + u2R - 2.0 * uN) / (H * H);
    var ddmDudn := (dudnR - dudnL) / H;
    var tangential := TangentialSlot(sFixed);
    var normal := NormalSlot(sFixed);
    var v := DudnSlotValues(g, edgeSign, at.m1, dudn(at.m0), d2udm2, ddmDudn, node.value[tangential]);
    ghost var s0 := node.State();
    assert d2udm2 == DudnPassSecondDifference(s0, pos, at.m0, u);
    assert ddmDudn == FirstDifference(dudn, p1);
    node.Pin(normal);
    node.SetValue(normal, v.dudsn);
    assert node.State() == PinAndSet(s0, normal, v.dudsn);
    ghost var s1 := node.State();
    node.Pin(MIXED_SLOT);
    node.SetValue(MIXED_SLOT, v.d2udsnDst);
    assert node.State() == PinAndSet(s1, MIXED_SLOT, v.d2udsnDst);
  }

  /** The u pass at node n of the edge; no other node changes. */
  method ImposeUAtEdgeNode(nodes: seq<HermiteNode>, n: nat, sFixed: nat, coords: seq<BoundaryCoords>, u: real -> real)
    requires ValidBoundary(nodes) && n < |nodes| == |coords| && sFixed < 2
    modifies nodes[n].pinned, nodes[n].value
    ensures nodes[n].State() == UPassNode(old(nodes[n].State()), PositionOf(n, |nodes|), sFixed, coords[n], u)
    ensures forall j :: 0 <= j < |nodes| && j != n ==> nodes[j].State() == old(nodes[j].State())
  {
    ImposeUAtNode(nodes[n], PositionOf(n, |nodes|), sFixed, coords[n], u);
  }

  /** The du/dn pass at node n of the edge; no other node changes. */
  method ImposeDudnAtEdgeNode(nodes: seq<HermiteNode>, n: nat, coords: seq<BoundaryCoords>, geometry: seq<EdgeGeometry>,
                              sFixed: nat, edgeSign: int, u: real -> real, dudn: real -> real)
    requires ValidBoundary(nodes) && n < |nodes| == |coords| == |geometry| && sFixed < 2
    modifies nodes[n].pinned, nodes[n].value
    ensures nodes[n].State() == DudnPassNode(old(nodes[n].State()), PositionOf(n, |nodes|), sFixed, edgeSign,
                                             coords[n], geometry[n], u, dudn)
    ensures forall j :: 0 <= j < |nodes| && j != n ==> nodes[j].State() == old(nodes[j].State())
  {
    ImposeDudnAtNode(nodes[n], PositionOf(n, |nodes|), sFixed, edgeSign, coords[n], geometry[n], u, dudn);
  }

  /** The u pass over the nodes of a boundary. */
  method UPass(nodes: seq<HermiteNode>, coords: seq<BoundaryCoords>, sFixed: nat, u: real -> real)
    requires ValidBoundary(nodes) && |coords| == |nodes| && sFixed < 2
    modifies Footprint(nodes)
    ensures forall i :: 0 <= i < |nodes| ==>
      nodes[i].State() == UPassNode(old(nodes[i].State()), PositionOf(i, |nodes|), sFixed, coords[i], u)
  {
    var nNode := |nodes|;
    var n := 0;
    while n < nNode
      invariant 0 <= n <= nNode
      invariant forall j :: 0 <= j < n ==>
        nodes[j].State() == UPassNode(old(nodes[j].State()), PositionOf(j, nNode), sFixed, coords[j], u)
      invariant forall j :: n <= j < nNode ==> nodes[j].State() == old(nodes[j].State())
    {
      ImposeUAtEdgeNode(nodes, n, sFixed, coords, u);
      n := n + 1;
    }
  }

  /** The dudn pass over the nodes of a boundary. */
  method DudnPass(nodes: seq<HermiteNode>, coords: seq<BoundaryCoords>, geometry: seq<EdgeGeometry>,
                  sFixed: nat, edgeSign: int, u: real -> real, dudn: real -> real)
    requires ValidBoundary(nodes) && |coords| == |nodes| && |geometry| == |nodes| && sFixed < 2
    modifies Footprint(nodes)
    ensures forall i :: 0 <= i < |nodes| ==>
      nodes[i].State() == DudnPassNode(old(nodes[i].State()), PositionOf(i, |nodes|), sFixed, edgeSign,
                                       coords[i], geometry[i], u, dudn)
  {
    var nNode := |nodes|;
    var n := 0;
    while n < nNode
      invariant 0 <= n <= nNode
      invariant forall j :: 0 <= j < n ==>
        nodes[j].State() == DudnPassNode(old(nodes[j].State()), PositionOf(j, nNode), sFixed, edgeSign,
                                         coords[j], geometry[j], u, dudn)
      invariant forall j :: n <= j < nNode ==> nodes[j].State() == old(nodes[j].State())
    {
      ImposeDudnAtEdgeNode(nodes, n, coords, geometry, sFixed, edgeSign, u, dudn);
      n := n + 1;
    }
  }

  class BiharmonicProblem {
    /** Face_element_mesh_pt: null until the first Neumann edge is set. */
    var faceElementMesh: Option<FaceElementMesh>

    constructor ()
      ensures faceElementMesh == None
    {
      faceElementMesh := None;
    }

    /**
     * Pin and set the value dofs of boundary b (u_fn) and its normal-derivative
     * dofs (dudn_fn). A face index other than +/-1, +/-2 throws before any
     * node is touched. The dudn pass calls u_fn at every node, so the source
     * requires u_fn whenever dudn_fn is given and the boundary has nodes.
     */
    method SetDirichletBoundaryCondition(face: int, nodes: seq<HermiteNode>, coords: seq<BoundaryCoords>,
                                         geometry: seq<EdgeGeometry>,
                                         uFn: Option<real -> real>, dudnFn: Option<real -> real>)
      returns (thrown: Option<FaceError>)
      requires ValidBoundary(nodes) && |coords| == |nodes| && |geometry| == |nodes|
      requires dudnFn.Some? && |nodes| > 0 ==> uFn.Some?
      modifies Footprint(nodes)
      ensures thrown.Some? <==> !IsQuadFace(face)
      ensures thrown.Some? ==> thrown.value == FaceIndexNotQuad(face)
      ensures thrown.Some? ==> forall i :: 0 <= i < |nodes| ==> nodes[i].State() == old(nodes[i].State())
      ensures thrown.None? ==> forall i :: 0 <= i < |nodes| ==>
        nodes[i].State() == DirichletNode(old(nodes[i].State()), PositionOf(i, |nodes|), SFixedIndex(face).value,
                                          EdgeSign(face), coords[i], geometry[i], uFn, dudnFn)
    {
      thrown := None;
      var decoded := SFixedIndex(face);
      if decoded.Err? {
        return Some(decoded.error);
      }
      var sFixed := decoded.value;
      var edgeSign := EdgeSign(face);
      var nNode := |nodes|;

      if uFn.Some? {
        UPass(nodes, coords, sFixed, uFn.value);
      }
      if dudnFn.Some? && nNode > 0 {
        DudnPass(nodes, coords, geometry, sFixed, edgeSign, uFn.value, dudnFn.value);
      }
    }

    /**
     * Append one flux element per boundary element of boundary b to the
     * face-element mesh, creating the mesh if it does not exist yet.
     */
    method SetNeumannBoundaryCondition(b: nat, faceIndices: seq<int>, flux0: Option<FluxFct>, flux1: Option<FluxFct>)
      modifies this, if faceElementMesh.Some? then {faceElementMesh.value} else {}
      ensures faceElementMesh.Some?
      ensures old(faceElementMesh).Some? ==> faceElementMesh == old(faceElementMesh)
      ensures old(faceElementMesh).None? ==> fresh(faceElementMesh.value)
      ensures faceElementMesh.value.elements
        == (if old(faceElementMesh).Some? then old(faceElementMesh.value.elements) else [])
           + NeumannFluxElements(b, faceIndices, flux0, flux1)
    {
      if faceElementMesh.None? {
        var mesh := new FaceElementMesh();
        faceElementMesh := Some(mesh);
      }
      var mesh := faceElementMesh.value;
      ghost var before := mesh.elements;
      var e := 0;
      while e < |faceIndices|
        invariant 0 <= e <= |faceIndices|
        invariant faceElementMesh == Some(mesh)
        invariant mesh.elements == before + NeumannFluxElements(b, faceIndices, flux0, flux1)[..e]
      {
        var fluxElement := FluxElement(e, faceIndices[e], b, flux0, None);
        if flux1.Some? {
          fluxElement := fluxElement.(flux1 := flux1);
        }
        mesh.AddElement(fluxElement);
        e := e + 1;
      }
      assert NeumannFluxElements(b, faceIndices, flux0, flux1)[..e] == NeumannFluxElements(b, faceIndices, flux0, flux1);
    }
  }
}
