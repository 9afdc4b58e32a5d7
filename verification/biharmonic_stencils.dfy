/**
 * The finite-difference stencils and the derived slot values of the
 * boundary-condition code in biharmonic_problem.cc, over exact reals.
 *
 * The geometric factors of a boundary node (dn/ds_n, dt/ds_n, ...) are
 * computed in the source from the node's x_gen data with sqrt and pow; here
 * they are given per node as an EdgeGeometry. The user's boundary functions
 * are plain functions real -> real.
 */
module BiharmonicStencils {

  /** The finite-difference step h (written 10e-8 in the source, i.e. 1e-7). */
  const H: real := 0.0000001

  /** Where a node sits on its boundary; the stencils differ at the two ends. */
  datatype NodePosition = First | Last | Interior

  function PositionOf(n: nat, nNode: nat): (p: NodePosition)
    requires n < nNode
    ensures p == First <==> n == 0
    ensures p == Last <==> n != 0 && n == nNode - 1
    ensures p == Interior <==> 0 < n < nNode - 1
  {
    if n == 0 then First else if n == nNode - 1 then Last else Interior
  }

  // ----- first derivative -----

  /** Two sample points of a first difference. */
  datatype Pair = Pair(left: real, right: real)

  /**
   * The sample points for d/dm at a node at m: forward at the first node,
   * backward at the last node, centred (half steps) in between.
   */
  function FirstDiffPoints(pos: NodePosition, m: real): (p: Pair)
    ensures p.right - p.left == H
    ensures pos == First ==> p.left == m
    ensures pos == Last ==> p.right == m
    ensures pos == Interior ==> p.left + p.right == 2.0 * m
  {
    match pos
    case First => Pair(m, m + H)
    case Last => Pair(m - H, m)
    case Interior => Pair(m - 0.5 * H, m + 0.5 * H)
  }

  function FirstDifference(f: real -> real, p: Pair): real {
    (f(p.right) - f(p.left)) / H
  }

  /** Since the spacing equals the divisor h, every first-difference stencil is exact for linear functions. */
  lemma FirstDifferenceExactForLinear(f: real -> real, a: real, b: real, pos: NodePosition, m: real)
    requires forall x :: f(x) == a * x + b
    ensures FirstDifference(f, FirstDiffPoints(pos, m)) == a
  {
    var p := FirstDiffPoints(pos, m);
    assert f(p.right) - f(p.left) == a * H;
  }

  /** du/ds_t as the u pass computes it: the stretching factor m1 times du/dm by first difference. */
  function TangentialDerivative(u: real -> real, pos: NodePosition, m0: real, m1: real): real {
    m1 * FirstDifference(u, FirstDiffPoints(pos, m0))
  }

  /** For u linear in the boundary coordinate, the tangential slot gets exactly m1 times the slope. */
  lemma TangentialDerivativeOfLinear(u: real -> real, a: real, b: real, pos: NodePosition, m0: real, m1: real)
    requires forall x :: u(x) == a * x + b
    ensures TangentialDerivative(u, pos, m0, m1) == m1 * a
  {
    FirstDifferenceExactForLinear(u, a, b, pos, m0);
  }

  // ----- second derivative -----

  /** The three sample points (u_2L, u_N, u_2R) of a second difference. */
  datatype Triple = Triple(left: real, mid: real, right: real)

  predicate EvenlySpaced(p: Triple) {
    p.left == p.mid - H && p.right == p.mid + H
  }

  /**
   * The sample points of the dudn pass as written (lines 215-238). At an
   * interior node the middle sample is not evaluated but read back from
   * slot 0; its position is m.
   */
  function SecondDiffPointsAsWritten(pos: NodePosition, m: real): (p: Triple)
    ensures pos != First <==> EvenlySpaced(p)
    ensures pos == First ==> p.left == m
    ensures pos == Last ==> p.right == m
    ensures pos == Interior ==> p.mid == m
  {
    match pos
    case First => Triple(m, m + H, m - 2.0 * H)
    case Last => Triple(m - 2.0 * H, m - H, m)
    case Interior => Triple(m - H, m, m + H)
  }

  /**
   * The sample points with the first node's third sample at m + 2h: every
   * stencil is then an evenly spaced second difference with the node as
   * one of its samples.
   */
  function SecondDiffPoints(pos: NodePosition, m: real): (p: Triple)
    ensures EvenlySpaced(p)
    ensures pos == First ==> p.left == m
    ensures pos == Last ==> p.right == m
    ensures pos == Interior ==> p.mid == m
    ensures pos != First ==> p == SecondDiffPointsAsWritten(pos, m)
  {
    match pos
    case First => Triple(m, m + H, m + 2.0 * H)
    case Last => Triple(m - 2.0 * H, m - H, m)
    case Interior => Triple(m - H, m, m + H)
  }

  function SecondDifference(uL: real, uN: real, uR: real): real {
    (uL + uR - 2.0 * uN) / (H * H)
  }

  /** An evenly spaced second difference is exact for quadratics. */
  lemma SecondDifferenceExactForQuadratics(f: real -> real, a: real, b: real, c: real, p: Triple)
    requires forall x :: f(x) == a * x * x + b * x + c
    requires EvenlySpaced(p)
    ensures SecondDifference(f(p.left), f(p.mid), f(p.right)) == 2.0 * a
  {
    var m := p.mid;
    assert f(p.left) == a * (m - H) * (m - H) + b * (m - H) + c;
    assert f(p.right) == a * (m + H) * (m + H) + b * (m + H) + c;
    assert f(m) == a * m * m + b * m + c;
    assert f(p.left) + f(p.right) - 2.0 * f(m) == 2.0 * a * (H * H);
  }

  /** The corrected stencil is exact for quadratics at every node position. */
  lemma SecondDiffPointsExact(f: real -> real, a: real, b: real, c: real, pos: NodePosition, m: real)
    requires forall x :: f(x) == a * x * x + b * x + c
    ensures var p := SecondDiffPoints(pos, m);
      SecondDifference(f(p.left), f(p.mid), f(p.right)) == 2.0 * a
  {
    SecondDifferenceExactForQuadratics(f, a, b, c, SecondDiffPoints(pos, m));
  }

  /**
   * As written, the first node samples m, m + h and m - 2h: for u(x) = x at
   * m = 0, whose second derivative is 0, the stencil yields -4/h, where the
   * corrected stencil yields 0.
   */
  lemma SecondDiffPointsAsWrittenFirstNodeWrong(f: real -> real)
    requires forall x :: f(x) == x
    ensures !EvenlySpaced(SecondDiffPointsAsWritten(First, 0.0))
    ensures var p := SecondDiffPointsAsWritten(First, 0.0);
      SecondDifference(f(p.left), f(p.mid), f(p.right)) == -4.0 / H
    ensures var p := SecondDiffPoints(First, 0.0);
      SecondDifference(f(p.left), f(p.mid), f(p.right)) == 0.0
  {
    var p := SecondDiffPointsAsWritten(First, 0.0);
    assert f(p.left) + f(p.right) - 2.0 * f(p.mid) == -4.0 * H;
    SecondDiffPointsExact(f, 0.0, 1.0, 0.0, First, 0.0);
  }

  // ----- derived slot values -----

  /**
   * What get_coordinates_on_boundary gives for a node: m0, the position
   * along the edge in the macro element's [-1,1], and m1, the stretching
   * factor dm/ds_t.
   */
  datatype BoundaryCoords = BoundaryCoords(m0: real, m1: real)

  /**
   * Geometric factors of a boundary node as seen from the boundary being
   * processed (the source derives them from x_gen with sqrt and pow).
   */
  datatype EdgeGeometry = EdgeGeometry(
    dnDsn: real,      // dn/ds_n
    dtDsn: real,      // dt/ds_n
    dtDst: real,      // dt/ds_t
    dsnDn: real,      // ds_n/dn
    dstDt: real,      // ds_t/dt
    d2tDsnDst: real,  // d2t/ds_n ds_t
    d2stDsnDt: real,  // d2s_t/ds_n dt
    cross: real)      // dxds_t[0]*dxds_n[1] - dxds_n[0]*dxds_t[1]

  /** The values the dudn pass pins into the normal slot and the mixed slot. */
  datatype DudnSlots = DudnSlots(dudsn: real, d2udsnDst: real)

  /**
   * Lines 247-273 of the dudn pass. `dstDtAfter` is the value the variable
   * ds_tdt holds after line 258, which lines 263, 264 and 270 read.
   */
  function DudnSlotsFrom(g: EdgeGeometry, edgeSign: int, m1: real, dudn: real, d2udm2: real,
                         ddmDudn: real, dudst: real, dstDtAfter: real): DudnSlots
  {
    var d2udst2 := m1 * m1 * d2udm2;
    var dudt := g.dstDt * dudst;
    var d2udndt := g.dtDst * m1 * ddmDudn;
    var dtdsnD2udt2 := (edgeSign as real) * g.cross
      * (dstDtAfter * (d2udndt - g.dsnDn * (g.d2stDsnDt * dudt + dstDtAfter * d2udst2)));
    var ddsnDudt := dtdsnD2udt2 + g.dnDsn * d2udndt;
    DudnSlots(g.dnDsn * dudn + g.dtDsn * dstDtAfter * dudst, g.d2tDsnDst * dudt + g.dtDst * ddsnDudt)
  }

  /** As written: the chained assignment of line 258 leaves d2u/dndt in ds_tdt. */
  function DudnSlotValuesAsWritten(g: EdgeGeometry, edgeSign: int, m1: real, dudn: real, d2udm2: real,
                              ddmDudn: real, dudst: real): (r: DudnSlots)
    // d2u/dndt takes the place of ds_t/dt in the chain rule for the normal slot
    ensures r.dudsn == g.dnDsn * dudn + g.dtDsn * (g.dtDst * m1 * ddmDudn) * dudst
  {
    DudnSlotsFrom(g, edgeSign, m1, dudn, d2udm2, ddmDudn, dudst, g.dtDst * m1 * ddmDudn)
  }

  /**
   * With ds_tdt keeping ds_t/dt: the normal slot obeys the chain rule
   * du/ds_n = dn/ds_n du/dn + dt/ds_n du/dt, with du/dt = ds_t/dt du/ds_t
   * as computed at line 255.
   */
  function DudnSlotValues(g: EdgeGeometry, edgeSign: int, m1: real, dudn: real, d2udm2: real,
                      ddmDudn: real, dudst: real): (r: DudnSlots)
    ensures r.dudsn == g.dnDsn * dudn + g.dtDsn * (g.dstDt * dudst)
  {
    DudnSlotsFrom(g, edgeSign, m1, dudn, d2udm2, ddmDudn, dudst, g.dstDt)
  }

  /**
   * As written the normal slot breaks the chain rule: on a node with
   * dn/ds_n = dt/ds_n = dt/ds_t = ds_t/dt = 1, du/ds_t = 1 and a constant
   * du/dn = 0, it gets 0 where the chain rule gives 1.
   */
  lemma DudnSlotValuesAsWrittenBreaksChainRule()
    ensures var g := EdgeGeometry(1.0, 1.0, 1.0, 1.0, 1.0, 0.0, 0.0, 1.0);
      && DudnSlotValuesAsWritten(g, 1, 1.0, 0.0, 0.0, 0.0, 1.0).dudsn == 0.0
      && g.dnDsn * 0.0 + g.dtDsn * (g.dstDt * 1.0) == 1.0
  {
  }

  /**
   * A constant u (so du/ds_t = 0 and d2u/dm2 = 0) with a constant du/dn
   * (so d/dm du/dn = 0): the mixed slot is 0 and the normal slot is
   * dn/ds_n times du/dn, whatever the geometry.
   */
  lemma DudnSlotValuesOfConstants(g: EdgeGeometry, edgeSign: int, m1: real, dudn: real)
    ensures DudnSlotValues(g, edgeSign, m1, dudn, 0.0, 0.0, 0.0) == DudnSlots(g.dnDsn * dudn, 0.0)
  {
  }

  // ----- prescribed flow -----

  /** The values impose_fluid_flow_on_edge pins into the normal, tangential and mixed slots. */
  datatype FlowSlots = FlowSlots(dudsn: real, dudst: real, d2udsnDst: real)

  /**
   * Lines 759-798: the imposed velocities are scaled by the edge sign, the
   * finite differences are taken of the unscaled samples.
   */
  function FlowSlotValues(g: EdgeGeometry, edgeSign: int, pos: NodePosition, m0: real, m1: real,
                          flow: real -> (real, real)): FlowSlots
  {
    var u := flow(m0);
    var u0 := u.0 * (edgeSign as real);
    var u1 := u.1 * (-edgeSign as real);
    var p := FirstDiffPoints(pos, m0);
    var ddmDudn := (flow(p.right).1 - flow(p.left).1) / H;
    var ddmDudt := (flow(p.right).0 - flow(p.left).0) / H;
    FlowSlots(g.dnDsn * u1 + g.dtDsn * u0, g.dtDst * u0,
              g.dnDsn * m1 * ddmDudn + g.d2tDsnDst * u0 + g.dtDsn * m1 * ddmDudt)
  }

  /**
   * A constant flow (c0, c1) gives the normal slot dn/ds_n (-s c1) + dt/ds_n (s c0),
   * the tangential slot dt/ds_t (s c0) and the mixed slot d2t/ds_n ds_t (s c0),
   * where s is the edge sign; with no flow all three are 0, which is what
   * impose_solid_boundary_on_edge pins.
   */
  lemma FlowSlotValuesOfConstantFlow(g: EdgeGeometry, edgeSign: int, pos: NodePosition, m0: real, m1: real,
                                     flow: real -> (real, real), c0: real, c1: real)
    requires forall x :: flow(x) == (c0, c1)
    ensures var s := edgeSign as real;
      FlowSlotValues(g, edgeSign, pos, m0, m1, flow)
        == FlowSlots(g.dnDsn * (c1 * -s) + g.dtDsn * (c0 * s), g.dtDst * (c0 * s), g.d2tDsnDst * (c0 * s))
    ensures c0 == 0.0 && c1 == 0.0 ==> FlowSlotValues(g, edgeSign, pos, m0, m1, flow) == FlowSlots(0.0, 0.0, 0.0)
  {
    var p := FirstDiffPoints(pos, m0);
    assert flow(p.right) == flow(p.left) == flow(m0) == (c0, c1);
  }
}
