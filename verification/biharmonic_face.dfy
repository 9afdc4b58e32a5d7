/**
 * Decoding of the signed face index of a 2D quadrilateral Hermite element
 * (biharmonic_problem.cc) and the choice of the nodal dof slots a boundary
 * condition acts on.
 *
 * A Hermite node carries four dof slots: 0 = u, 1 = du/ds_0, 2 = du/ds_1,
 * 3 = d2u/ds_0 ds_1. On a face where local coordinate s_fixed is constant,
 * slot 1 + s_fixed is the derivative across the edge ("normal" slot) and
 * slot 2 - s_fixed the derivative along it ("tangential" slot).
 */
module BiharmonicFace {
  import opened Wrappers

  /** The error thrown for a face index other than +/-1 or +/-2. */
  datatype FaceError = FaceIndexNotQuad(faceIndex: int)

  predicate IsQuadFace(face: int) {
    face == 1 || face == -1 || face == 2 || face == -2
  }

  function Abs(x: int): nat {
    if x < 0 then -x else x
  }

  /** The first switch: which local coordinate is constant along the face. */
  function SFixedIndex(face: int): (r: Result<nat, FaceError>)
    ensures r.Ok? <==> IsQuadFace(face)
    ensures r.Ok? ==> r.value < 2 && r.value + 1 == Abs(face)
    ensures r.Err? ==> r.error == FaceIndexNotQuad(face)
  {
    if face == -1 || face == 1 then Ok(0)
    else if face == -2 || face == 2 then Ok(1)
    else Err(FaceIndexNotQuad(face))
  }

  /**
   * The second switch: the edge sign. It has no default branch, so a face
   * index it does not list leaves the sign at its initial value 0.
   */
  function EdgeSign(face: int): (r: int)
    ensures IsQuadFace(face) ==> (r == 1 || r == -1)
    // on faces +/-1 the sign is that of the face index, on faces +/-2 its opposite
    ensures IsQuadFace(face) ==> r * face == (if Abs(face) == 1 then 1 else -2)
    ensures !IsQuadFace(face) ==> r == 0
  {
    if face == -1 || face == 2 then -1
    else if face == 1 || face == -2 then 1
    else 0
  }

  /** The single combined switch of impose_fluid_flow_on_edge. */
  function FluidFaceDecode(face: int): (r: Result<(nat, int), FaceError>)
    ensures r.Ok? <==> IsQuadFace(face)
  {
    if face == -1 then Ok((0, -1))
    else if face == 1 then Ok((0, 1))
    else if face == -2 then Ok((1, 1))
    else if face == 2 then Ok((1, -1))
    else Err(FaceIndexNotQuad(face))
  }

  /** The combined switch decodes every face index exactly as the two separate switches do. */
  lemma FluidFaceDecodeAgrees(face: int)
    ensures FluidFaceDecode(face) ==
      match SFixedIndex(face)
      case Ok(s) => Ok((s, EdgeSign(face)))
      case Err(e) => Err(e)
  {
  }

  /** Slot 0 holds u, slot 3 the mixed second derivative. */
  const U_SLOT: nat := 0
  const MIXED_SLOT: nat := 3

  /** The slot of the derivative across the edge. */
  function NormalSlot(sFixed: nat): (k: nat)
    requires sFixed < 2
    ensures k == 1 || k == 2
  {
    1 + sFixed
  }

  /** The slot of the derivative along the edge. */
  function TangentialSlot(sFixed: nat): (k: nat)
    requires sFixed < 2
    ensures k == 1 || k == 2
    ensures k != NormalSlot(sFixed)
  {
    2 - sFixed
  }

  /** The normal, tangential, value and mixed slots are the four slots of a node, each once. */
  lemma SlotsPartition(sFixed: nat)
    requires sFixed < 2
    ensures {U_SLOT, NormalSlot(sFixed), TangentialSlot(sFixed), MIXED_SLOT} == {0, 1, 2, 3}
    ensures NormalSlot(sFixed) + TangentialSlot(sFixed) == 3
    ensures NormalSlot(sFixed) == 1 + sFixed
  {
  }
}
