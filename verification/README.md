# Biharmonic boundary conditions, biharmonic preconditioners and linear-elasticity dof bookkeeping

This project models three pieces of oomph-lib.

**Boundary conditions of the biharmonic problems** (`biharmonic_problem.cc`).
A 2D Hermite node carries four dof slots:

- slot 0 is u;
- slots 1 and 2 are the first derivatives in the two local coordinates;
- slot 3 is the mixed second derivative.

A face index of ±1 or ±2 decides which local coordinate is fixed on the edge. That coordinate selects the "normal" slot `1+s_fixed_index` and the "tangential" slot `2-s_fixed_index`. The operations are:

- `BiharmonicProblem` clamps an edge by pinning the value and derivative slots: the u pass, then the du/dn pass. The derivative values come from finite differences of the user's functions.
- `BiharmonicProblem` makes an edge free by appending flux elements to a face-element mesh.
- `BiharmonicFluidProblem` pins a solid wall or a prescribed flow.
- `BiharmonicFluidProblem` imposes a traction-free edge. Where dt/ds_n is 0 it pins a zero normal derivative. Elsewhere it hijacks the node's normal dof in the boundary elements on either side and appends a point element, `BiharmonicFluidBoundaryElement`. That element assembles the residual du/ds_n - c du/ds_t and its Jacobian.

Nodes are objects with `pinned`/`value` arrays that the operations change in place. A boundary is the sequence of its nodes. Each node's geometric factors and boundary coordinates are given as data.

**Ownership lifecycle of the biharmonic block preconditioners** (`biharmonic_preconditioner.h`).
The constructors null the owned pointers, choose the default strategy and register the block lookup [0,1,2]. Each `clean_up_memory` deletes the owned objects, and the model records a log of the deleted object identities. With that log the model can state the following:

- the inexact and exact sub-preconditioners null what they delete, so a repeated call deletes nothing;
- the master's `clean_up_memory` does not null its pointers, so a second call would delete the same objects again.

**Dof classification of linear-elasticity elements** (`linear_elasticity_elements.h`).
`get_dof_numbers_for_unknowns` pushes a (global equation, direction) pair onto the front of a list for every free displacement value. The model also covers the pure index accessors, `body_force`, `data_values_of_field` and `d2u_dt2`.

Modules:

- `Wrappers`: Option and Result.
- `BiharmonicFace`: face decoding and slots.
- `HermiteNodes`: the node class.
- `BiharmonicStencils`: finite-difference sample points and the slot values derived from them.
- `BiharmonicProblem`.
- `BiharmonicFluidProblem`.
- `BiharmonicPreconditioners`.
- `LinearElasticity`.

## Model

| member | source | states |
|---|---|---|
| BiharmonicFace.SFixedIndex | src/biharmonic/biharmonic_problem.cc:55-72 | Faces ±1 decode to the fixed index 0 and faces ±2 to 1. Any other face index is the "not a 2D QElement face" error. |
| BiharmonicFace.EdgeSign | src/biharmonic/biharmonic_problem.cc:78-90 | For a quad face the edge sign is ±1. It is -1 for faces -1 and 2 and +1 for faces 1 and -2. |
| BiharmonicFace.FluidFaceDecode | src/biharmonic/biharmonic_problem.cc:687-713 | The combined switch of the flow routine succeeds exactly on the faces ±1, ±2. |
| BiharmonicFace.FluidFaceDecodeAgrees | src/biharmonic/biharmonic_problem.cc:687-713 | The combined switch gives the same fixed index, the same edge sign and the same error as the two separate switches. |
| BiharmonicFace.NormalSlot | src/biharmonic/biharmonic_problem.cc:276 | The normal slot is 1 or 2. |
| BiharmonicFace.TangentialSlot | src/biharmonic/biharmonic_problem.cc:149 | The tangential slot is 1 or 2 and differs from the normal slot. |
| BiharmonicFace.SlotsPartition | src/biharmonic/biharmonic_problem.cc:405-408 | Slot 0, the normal slot, the tangential slot and slot 3 are exactly the four slots. The normal slot is 1+s_fixed_index. |
| HermiteNodes.PinAndSet | src/biharmonic/biharmonic_problem.cc:145-146 | pin(k) then set_value(k,v) leaves slot k pinned with value v and every other slot unchanged. |
| HermiteNodes.HermiteNode.Pin | src/biharmonic/biharmonic_problem.cc:145 | Only slot k's pinned flag changes, and it becomes true. |
| HermiteNodes.HermiteNode.SetValue | src/biharmonic/biharmonic_problem.cc:146 | Only slot k's value changes. |
| BiharmonicStencils.PositionOf | src/biharmonic/biharmonic_problem.cc:119-137 | Node 0 is the first node, node n_node-1 is the last, and every other node is interior. |
| BiharmonicStencils.FirstDiffPoints | src/biharmonic/biharmonic_problem.cc:119-137 | First node: (m, m+h). Last node: (m-h, m). Interior: centred half steps. The right sample minus the left is always h, the divisor. |
| BiharmonicStencils.FirstDifferenceExactForLinear | src/biharmonic/biharmonic_problem.cc:119-139 | At every node position the first difference of a linear u is its slope. |
| BiharmonicStencils.TangentialDerivative | src/biharmonic/biharmonic_problem.cc:139-142 | du/ds_t is m1 times the first difference of u. It has no contract of its own; TangentialDerivativeOfLinear states what it computes. |
| BiharmonicStencils.TangentialDerivativeOfLinear | src/biharmonic/biharmonic_problem.cc:139-142 | For a linear u, du/ds_t is exactly dm/ds_t times the slope. |
| BiharmonicStencils.SecondDiffPoints | src/biharmonic/biharmonic_problem.cc:215-238 | The corrected sample points are evenly spaced, with the node as an end sample or the middle sample. They differ from the source only at the first node. |
| BiharmonicStencils.SecondDifferenceExactForQuadratics | src/biharmonic/biharmonic_problem.cc:240 | An evenly spaced second difference of a quadratic a x² + b x + c is 2a. |
| BiharmonicStencils.SecondDiffPointsExact | src/biharmonic/biharmonic_problem.cc:215-240 | With the corrected samples, the second difference of a quadratic is exact at every node position. |
| BiharmonicStencils.SecondDiffPointsAsWritten | src/biharmonic/biharmonic_problem.cc:215-238 | The samples as written are evenly spaced exactly away from the first node. The node is the left sample at the first node, the right one at the last node and the middle one at an interior node. |
| BiharmonicStencils.SecondDiffPointsAsWrittenFirstNodeWrong | src/biharmonic/biharmonic_problem.cc:217-219 | At the first node the samples as written are not evenly spaced. For u(x)=x they give -4/h, where the corrected stencil gives 0. |
| BiharmonicStencils.DudnSlotsFrom | src/biharmonic/biharmonic_problem.cc:244-273 | The arithmetic of lines 244-273, with the value ds_tdt holds after line 258 as a parameter. It has no contract of its own; DudnSlotValues and DudnSlotValuesAsWritten state what it gives for each reading of ds_tdt. |
| BiharmonicStencils.DudnSlotValues | src/biharmonic/biharmonic_problem.cc:244-273 | The normal slot obeys the chain rule du/ds_n = dn/ds_n du/dn + dt/ds_n (ds_t/dt du/ds_t). |
| BiharmonicStencils.DudnSlotValuesAsWritten | src/biharmonic/biharmonic_problem.cc:244-273 | As written, d2u/dndt stands in the normal slot where the chain rule has ds_t/dt: du/ds_n = dn/ds_n du/dn + dt/ds_n (d2u/dndt) du/ds_t. |
| BiharmonicStencils.DudnSlotValuesAsWrittenBreaksChainRule | src/biharmonic/biharmonic_problem.cc:258-270 | Because ds_tdt is overwritten at line 258, there is a node and data for which the normal slot is 0 where the chain rule gives 1. |
| BiharmonicStencils.DudnSlotValuesOfConstants | src/biharmonic/biharmonic_problem.cc:244-273 | A constant u with a constant du/dn gets normal slot dn/ds_n·du/dn and mixed slot 0, for any geometry. |
| BiharmonicStencils.FlowSlotValues | src/biharmonic/biharmonic_problem.cc:759-798 | The normal, tangential and mixed values the flow routine pins, with the velocities scaled by the edge sign. It has no contract of its own; FlowSlotValuesOfConstantFlow and ZeroFlowIsSolidWall state what it gives. |
| BiharmonicStencils.FlowSlotValuesOfConstantFlow | src/biharmonic/biharmonic_problem.cc:759-798 | A constant flow gives the sign-scaled slot values. A zero flow gives zero in all three slots. |
| BiharmonicProblem.UPassNode | src/biharmonic/biharmonic_problem.cc:100-152 | The u pass pins slot 0 to u(m0) and the tangential slot to du/ds_t. It leaves the normal and mixed slots alone. |
| BiharmonicProblem.DudnPassNode | src/biharmonic/biharmonic_problem.cc:156-283 | The du/dn pass pins the normal and mixed slots. The normal value follows the chain rule with du/ds_t read back from the tangential slot. Slot 0 and the tangential slot are untouched. It uses the corrected stencil and the corrected ds_t/dt of the first two findings below; DudnPassNodeAsWritten is the pass as written. |
| BiharmonicProblem.DudnPassNodeAsWritten | src/biharmonic/biharmonic_problem.cc:156-283 | The du/dn pass as written: the same pins as DudnPassNode, but the normal value has d2u/dndt where the chain rule has ds_t/dt (line 258), and the first node samples u at m, m+h, m-2h (line 219). |
| BiharmonicProblem.DudnPassNodeAsWrittenSamePins | src/biharmonic/biharmonic_problem.cc:156-283 | The pass as written and the corrected pass pin the same slots and leave slot 0 and the tangential slot alike. |
| BiharmonicProblem.DudnPassNodeAsWrittenVsCorrected | src/biharmonic/biharmonic_problem.cc:258-270 | Their normal values differ by exactly dt/ds_n (d2u/dndt - ds_t/dt) du/ds_t. |
| BiharmonicProblem.DudnPassNodeAsWrittenAgrees | src/biharmonic/biharmonic_problem.cc:215-273 | Away from the first node, the two passes give the same node whenever d2u/dndt equals ds_t/dt. |
| BiharmonicProblem.DudnPassNodeAsWrittenDiffers | src/biharmonic/biharmonic_problem.cc:258-270 | On a concrete interior node the pass as written pins du/ds_n to 0, where the corrected pass pins 1. |
| BiharmonicProblem.DirichletNode | src/biharmonic/biharmonic_problem.cc:100-283 | A node after set_dirichlet_boundary_condition: the u pass if u_fn is set, then the corrected du/dn pass if dudn_fn is set. It has no contract of its own; DirichletPinPattern and DirichletOfConstants state what it gives. |
| BiharmonicProblem.DirichletPinPattern | src/biharmonic/biharmonic_problem.cc:100-283 | With u_fn, slot 0 (= u(m0)) and the tangential slot are pinned. With dudn_fn, the normal and mixed slots are pinned. A slot changes only if its pass runs. |
| BiharmonicProblem.DudnPassReadsUPass | src/biharmonic/biharmonic_problem.cc:232-252 | At an interior node, the u_N and du/ds_t the du/dn pass reads back are what the u pass wrote. With the corrected stencil, every second difference then samples u at three evenly spaced points. |
| BiharmonicProblem.DirichletSecondDifferenceExact | src/biharmonic/biharmonic_problem.cc:211-240 | After the u pass, the du/dn pass's second difference of a quadratic u, with the corrected stencil, is exactly u''. |
| BiharmonicProblem.DirichletOfConstants | src/biharmonic/biharmonic_problem.cc:100-283 | A constant u=c with du/dn=d gives slot 0 = c, tangential slot = 0, mixed slot = 0 and normal slot = dn/ds_n·d. |
| BiharmonicProblem.ImposeUAtNode | src/biharmonic/biharmonic_problem.cc:102-151 | One iteration of the u pass leaves the node in state UPassNode. |
| BiharmonicProblem.ImposeDudnAtNode | src/biharmonic/biharmonic_problem.cc:158-282 | One iteration of the du/dn pass leaves the node in state DudnPassNode. |
| BiharmonicProblem.ImposeUAtEdgeNode | src/biharmonic/biharmonic_problem.cc:102-151 | The u pass at node n of the boundary changes node n only. |
| BiharmonicProblem.ImposeDudnAtEdgeNode | src/biharmonic/biharmonic_problem.cc:158-282 | The du/dn pass at node n of the boundary changes node n only. |
| BiharmonicProblem.UPass | src/biharmonic/biharmonic_problem.cc:100-152 | After the loop, every node is its UPassNode image, using its own position on the edge. |
| BiharmonicProblem.DudnPass | src/biharmonic/biharmonic_problem.cc:156-283 | After the loop, every node is its DudnPassNode image. |
| BiharmonicProblem.BiharmonicProblem.constructor | src/biharmonic/biharmonic_problem.cc:303 | The face-element mesh starts null. |
| BiharmonicProblem.BiharmonicProblem.SetDirichletBoundaryCondition | src/biharmonic/biharmonic_problem.cc:43-285 | A bad face index throws and touches no node. Otherwise every node ends as DirichletNode: the u pass if u_fn is set, then the du/dn pass if dudn_fn is set, with the corrected du/dn values. |
| BiharmonicProblem.NeumannFluxElements | src/biharmonic/biharmonic_problem.cc:308-336 | One flux element per boundary element, in order, on that element's face. Each has flux0, and flux1 only when given. |
| BiharmonicProblem.FaceElementMesh.constructor | src/biharmonic/biharmonic_problem.cc:303-306 | A new face-element mesh is empty. |
| BiharmonicProblem.FaceElementMesh.AddElement | src/biharmonic/biharmonic_problem.cc:336 | add_element_pt appends exactly one element. |
| BiharmonicProblem.BiharmonicProblem.SetNeumannBoundaryCondition | src/biharmonic/biharmonic_problem.cc:294-338 | The mesh is created only if it is null, and an existing mesh is kept. The mesh's elements become the old ones followed by the flux elements of boundary b. |
| BiharmonicFluidProblem.SolidNode | src/biharmonic/biharmonic_problem.cc:480-491 | On a solid wall all four slots are pinned, slot 0 is psi and slots 1-3 are 0. |
| BiharmonicFluidProblem.ImposeSolidAtNode | src/biharmonic/biharmonic_problem.cc:482-490 | One node of the solid-wall loop ends as SolidNode(psi). |
| BiharmonicFluidProblem.BiharmonicFluidProblem.ImposeSolidBoundaryOnEdge | src/biharmonic/biharmonic_problem.cc:473-492 | Every node of the edge ends as SolidNode(psi). |
| BiharmonicFluidProblem.FlowNode | src/biharmonic/biharmonic_problem.cc:800-811 | A prescribed flow pins the normal, tangential and mixed slots to the flow values and leaves slot 0 alone. |
| BiharmonicFluidProblem.ZeroFlowIsSolidWall | src/biharmonic/biharmonic_problem.cc:759-811 | A zero flow pins the three derivative slots to 0, as a solid wall does, and leaves psi to the caller. |
| BiharmonicFluidProblem.ImposeFlowAtNode | src/biharmonic/biharmonic_problem.cc:723-811 | One node of the flow loop ends as FlowNode, with the finite-difference flow values. |
| BiharmonicFluidProblem.ImposeFlowAtEdgeNode | src/biharmonic/biharmonic_problem.cc:723-811 | The flow at node n of the edge changes node n only. |
| BiharmonicFluidProblem.BiharmonicFluidProblem.ImposeFluidFlowOnEdge | src/biharmonic/biharmonic_problem.cc:672-812 | A bad face index throws and touches no node. Otherwise every node ends as FlowNode for its position. |
| BiharmonicFluidProblem.HijackedLocalNodes | src/biharmonic/biharmonic_problem.cc:566-648 | The hijacked local nodes (left, right) are (1,0), (3,1), (3,2), (2,0) for boundaries 0-3, always two distinct corners. Other boundaries hijack nothing. |
| BiharmonicFluidProblem.TractionFreeNode | src/biharmonic/biharmonic_problem.cc:553-562 | A node with dt/ds_n = 0 has only its normal slot pinned, to 0. Any other node is unchanged. |
| BiharmonicFluidProblem.NodeHijacks | src/biharmonic/biharmonic_problem.cc:566-648 | The hijacks for node n: the normal slot of the left local node in element n-1 (if n > 0) and of the right local node in element n (if n is not last). It has no contract of its own; TractionHijacksShape and TractionHijacksDistinct state its properties. |
| BiharmonicFluidProblem.TractionHijacks | src/biharmonic/biharmonic_problem.cc:550-661 | The hijacks of the first n nodes, none for a node with dt/ds_n = 0. It has no contract of its own; TractionHijacksShape and TractionHijacksDistinct state its properties. |
| BiharmonicFluidProblem.TractionPoints | src/biharmonic/biharmonic_problem.cc:550-661 | The point elements of the first n nodes, none for a node with dt/ds_n = 0. It has no contract of its own; TractionPointsCoverNodes states its properties. |
| BiharmonicFluidProblem.TractionHijacksShape | src/biharmonic/biharmonic_problem.cc:566-648 | Every hijack is of the normal slot in an element of this boundary before the current one. The first node has no left hijack and the last has no right hijack. |
| BiharmonicFluidProblem.TractionHijacksDistinct | src/biharmonic/biharmonic_problem.cc:566-648 | No nodal value is hijacked twice along an edge. |
| BiharmonicFluidProblem.TractionPointsCoverNodes | src/biharmonic/biharmonic_problem.cc:558-661 | Each node gets a traction-free condition: a pinned zero normal derivative if degenerate, and otherwise a point element. The point elements are in strictly increasing node order, so no node gets two. |
| BiharmonicFluidProblem.PinNormalDerivative | src/biharmonic/biharmonic_problem.cc:558-563 | The normal slot is pinned to 0 and nothing else changes. |
| BiharmonicFluidProblem.BiharmonicFluidProblem.constructor | src/biharmonic/biharmonic_problem.cc:660 | No point elements, Npoint_element = 0, nothing hijacked. |
| BiharmonicFluidProblem.BiharmonicFluidProblem.AddBoundaryEquation | src/biharmonic/biharmonic_problem.cc:566-661 | Hijacks the node's left and right normal dofs. Appends one point element and increments Npoint_element. |
| BiharmonicFluidProblem.BiharmonicFluidProblem.TractionFreeStep | src/biharmonic/biharmonic_problem.cc:550-661 | One node: the point-element and hijack logs grow by that node's share, and the node ends as TractionFreeNode. |
| BiharmonicFluidProblem.BiharmonicFluidProblem.ImposeTractionFreeEdge | src/biharmonic/biharmonic_problem.cc:505-663 | A bad face index throws with no change. Otherwise the point elements and hijacks are the traction-free ones of all nodes, and every node ends as TractionFreeNode. Npoint_element always equals the number of point elements. |
| BiharmonicFluidProblem.BoundaryEquationMeansZeroNormalDerivative | src/biharmonic/biharmonic_problem.cc:431-437 | The boundary residual is 0 exactly when du/ds_n is what the chain rule gives for du/dn = 0. |
| BiharmonicFluidProblem.BoundaryEquationJacobianExact | src/biharmonic/biharmonic_problem.cc:443-458 | The Jacobian entries +1 and -c are the exact derivatives of the linear residual. |
| BiharmonicFluidProblem.JacobianContributionIsDerivative | src/biharmonic/biharmonic_problem.cc:443-458 | Summed over the free columns, the Jacobian contribution is the residual's change. |
| BiharmonicFluidProblem.BiharmonicFluidBoundaryElement.constructor | src/biharmonic/biharmonic_problem.cc:651-653 | The point element stores its node, its s_fixed_index and the node's local equations. |
| BiharmonicFluidProblem.BiharmonicFluidBoundaryElement.FillInGenericResidualContributionBiharmonicBoundary | src/biharmonic/biharmonic_problem.cc:397-459 | The residual changes only at the normal slot's equation, by du/ds_n - c du/ds_t, and not at all when that slot is pinned. The Jacobian changes only when JFLAG is 1: +1 in the free normal column and -c in the free tangential column. |
| BiharmonicPreconditioners.Ids | src/biharmonic/biharmonic_preconditioner.h:127-129 | The objects a run of deletes frees are exactly those the non-null pointers refer to. |
| BiharmonicPreconditioners.IdsAppend | src/biharmonic/biharmonic_preconditioner.h:313-333 | Deleting a concatenation deletes each part in turn. |
| BiharmonicPreconditioners.IdsSnoc | src/biharmonic/biharmonic_preconditioner.h:328-334 | One more entry deletes its object exactly when it is non-null. |
| BiharmonicPreconditioners.IdsOfThree | src/biharmonic/biharmonic_preconditioner.h:313-320 | Three successive deletes free the three objects in order. |
| BiharmonicPreconditioners.NullPointersOwnNothing | src/biharmonic/biharmonic_preconditioner.h:99-102 | All-null pointers own nothing, so a delete through them is harmless. |
| BiharmonicPreconditioners.ReleaseDeletesOnce | src/biharmonic/biharmonic_preconditioner.h:124-130 | Deleting what owning pointers refer to deletes no object twice. |
| BiharmonicPreconditioners.ReleasedPointersDangle | src/biharmonic/biharmonic_preconditioner.h:118-130 | After a delete without nulling, the pointers still own only if all were null. Deleting again would free some object twice. |
| BiharmonicPreconditioners.KindOf | src/biharmonic/biharmonic_preconditioner.h:150-154 | Exactly the types 0-3 have a documented meaning. |
| BiharmonicPreconditioners.DefaultPreconditionerType | src/biharmonic/biharmonic_preconditioner.h:106-110 | The default is inexact with AMG when HYPRE is available (2), and inexact with SuperLU otherwise (1). |
| BiharmonicPreconditioners.BiharmonicPreconditioner.constructor | src/biharmonic/biharmonic_preconditioner.h:97-115 | The three sub-preconditioners and the bulk mesh are null, the type is the default, there is one mesh and nothing is deleted. |
| BiharmonicPreconditioners.BiharmonicPreconditioner.CleanUpMemory | src/biharmonic/biharmonic_preconditioner.h:124-130 | Deletes the three sub-preconditioners once each without nulling them. The object stays valid only if all three were null. |
| BiharmonicPreconditioners.BiharmonicPreconditioner.PreconditionerType | src/biharmonic/biharmonic_preconditioner.h:155-158 | Reading the accessor returns the stored type. |
| BiharmonicPreconditioners.BiharmonicPreconditioner.SetPreconditionerType | src/biharmonic/biharmonic_preconditioner.h:155-158 | Writing through the accessor changes the type and nothing else. |
| BiharmonicPreconditioners.SubBlockLookupIsIdentity | src/biharmonic/biharmonic_preconditioner.h:212-215 | The registered block lookup is [0,1,2], the identity on the top-left 3x3 corner. |
| BiharmonicPreconditioners.ExactSubBiharmonicPreconditioner.constructor | src/biharmonic/biharmonic_preconditioner.h:207-223 | The lookup [0,1,2] is registered with the master, Retain_all_blocks is stored (false by default) and the sub-preconditioner is null. |
| BiharmonicPreconditioners.ExactSubBiharmonicPreconditioner.CleanUpMemory | src/biharmonic/biharmonic_preconditioner.h:232-235 | Deletes the sub-preconditioner (if any) and nulls it, so a repeated call deletes nothing. |
| BiharmonicPreconditioners.Flatten | src/biharmonic/biharmonic_preconditioner.h:323-336 | The row-major flattening holds exactly the entries of the matrix. |
| BiharmonicPreconditioners.NullGridOwnsNothing | src/biharmonic/biharmonic_preconditioner.h:328-335 | An all-null block matrix frees nothing when cleaned. |
| BiharmonicPreconditioners.InexactSubBiharmonicPreconditioner.constructor | src/biharmonic/biharmonic_preconditioner.h:281-301 | The lookup [0,1,2] is registered, use_amg is stored, and the three preconditioners are null. |
| BiharmonicPreconditioners.InexactSubBiharmonicPreconditioner.CleanUpMemory | src/biharmonic/biharmonic_preconditioner.h:310-337 | Deletes every owned object once and nulls the three preconditioners and every block entry. The object stays valid, so a repeated call deletes nothing. |
| BiharmonicPreconditioners.InexactSubBiharmonicPreconditioner.DeletePreconditioners | src/biharmonic/biharmonic_preconditioner.h:313-320 | Deletes S_00, J_11 and J_22 in that order and nulls them. |
| BiharmonicPreconditioners.InexactSubBiharmonicPreconditioner.DeleteBlocks | src/biharmonic/biharmonic_preconditioner.h:323-336 | The nested loop deletes the non-null blocks in row-major order and leaves every entry null. |
| BiharmonicPreconditioners.InexactSubBiharmonicPreconditioner.DeleteBlockRow | src/biharmonic/biharmonic_preconditioner.h:328-335 | The inner loop deletes and nulls the non-null entries of row i only. |
| LinearElasticity.UIndex | src/linear_elasticity/linear_elasticity_elements.h:63-64 | u_index_linear_elasticity(i) = i. It has no contract of its own; UIndexFitsStorage states its property. |
| LinearElasticity.RequiredNvalue | src/linear_elasticity/linear_elasticity_elements.h:362 | required_nvalue = DIM. It has no contract of its own; UIndexFitsStorage states its property. |
| LinearElasticity.UIndexFitsStorage | src/linear_elasticity/linear_elasticity_elements.h:63-64 | u_index(i) = i lies below required_nvalue = DIM, and different directions get different slots. |
| LinearElasticity.FreeInNode | src/linear_elasticity/linear_elasticity_elements.h:301-307 | Lists only free values of the node, below the current direction. |
| LinearElasticity.FreeUnknowns | src/linear_elasticity/linear_elasticity_elements.h:298-307 | Lists only free values of nodes already visited. |
| LinearElasticity.FreeUnknownsInLoopOrder | src/linear_elasticity/linear_elasticity_elements.h:298-301 | The free values are listed node by node and direction by direction, so none twice. |
| LinearElasticity.FreeUnknownsComplete | src/linear_elasticity/linear_elasticity_elements.h:298-309 | Every free value is listed. |
| LinearElasticity.PushAllAt | src/linear_elasticity/linear_elasticity_elements.h:316 | After the push_fronts, the k-th entry is the pair of the k-th last pushed value, followed by the old list unchanged. |
| LinearElasticity.PushAllAppend | src/linear_elasticity/linear_elasticity_elements.h:316 | Pushing ps and then qs is pushing ps + qs. |
| LinearElasticity.GetDofNumbersForUnknowns | src/linear_elasticity/linear_elasticity_elements.h:283-320 | The result is the new pairs in reverse loop order, followed by the old list unchanged. |
| LinearElasticity.PushFreeValuesOfNode | src/linear_elasticity/linear_elasticity_elements.h:301-318 | The inner loop pushes the free values of node n in direction order. |
| LinearElasticity.PushedNodesIsPushAll | src/linear_elasticity/linear_elasticity_elements.h:298-320 | The loops push exactly the free values, in loop order. |
| LinearElasticity.NewDofLookupsComplete | src/linear_elasticity/linear_elasticity_elements.h:298-320 | There is one new pair per free value, and each free value's (eqn_number, direction) pair is among them. |
| LinearElasticity.NewDofLookupsSound | src/linear_elasticity/linear_elasticity_elements.h:304-312 | Every new pair comes from a free value (pinned values get none), and its dof type is below DIM. |
| LinearElasticity.NewDofLookupsWithinNdofTypes | src/linear_elasticity/linear_elasticity_elements.h:271-312 | With ndof_types = DIM, every new pair has a valid dof type. |
| LinearElasticity.NdofTypesAsWritten | src/linear_elasticity/linear_elasticity_elements.h:269-273 | ndof_types() returns 2. It has no contract of its own; NdofTypesAsWrittenTooSmallIn3D states the finding about it. |
| LinearElasticity.NdofTypesAsWrittenTooSmallIn3D | src/linear_elasticity/linear_elasticity_elements.h:271-275 | In 3D, a pair of dof type 2 is produced while ndof_types() returns 2. |
| LinearElasticity.NvalueOfField | src/linear_elasticity/linear_elasticity_elements.h:715-718 | nvalue_of_field(fld) = nnode. It has no contract of its own; LocalEquationMatchesFreeUnknowns uses it as the bound on j. |
| LinearElasticity.LocalEquation | src/linear_elasticity/linear_elasticity_elements.h:722-743 | local_equation(fld, j) = nodal_local_eqn(j, fld). It has no contract of its own; LocalEquationMatchesFreeUnknowns states its property. |
| LinearElasticity.LocalEquationMatchesFreeUnknowns | src/linear_elasticity/linear_elasticity_elements.h:715-743 | local_equation(fld, j) is nodal_local_eqn(j, fld), with the arguments swapped. For j below nvalue_of_field, it is non-negative exactly when (j, fld) is a free value. |
| LinearElasticity.DataValuesOfField | src/linear_elasticity/linear_elasticity_elements.h:599-614 | nvalue_of_field (= nnode) pairs, the j-th being (node j, fld). |
| LinearElasticity.BodyForce | src/linear_elasticity/linear_elasticity_elements.h:239-262 | With no function, b[i] = 0 for i < dim() and the rest is untouched. With a function, b becomes what the function makes of (time of node 0, x, old b). |
| LinearElasticity.WeightedSumOfConstantHistory | src/linear_elasticity/linear_elasticity_elements.h:85-90 | A constant history c gives c times the sum of the weights. |
| LinearElasticity.History | src/linear_elasticity/linear_elasticity_elements.h:89 | The t-th history entry is nodal_value(t, n, k). |
| LinearElasticity.D2UDt2 | src/linear_elasticity/linear_elasticity_elements.h:67-94 | 0 when the time stepper is steady. Otherwise the weighted sum of component i's history values. |

## Left out

- The geometric factors (dn/ds_n, dt/ds_n, ds_t/dt, …) come from x_gen via sqrt and pow. They are given per node as `EdgeGeometry`, together with the boundary coordinates (m0, m1). All arithmetic is over exact reals, so no double rounding is modelled.
- The `dtds_n == 0.0` test is modelled as an exact comparison of the given real.
- The mesh framework is left out: `boundary_node_pt`, `get_coordinates_on_boundary`, element construction, `face_index_at_boundary` and `hijack_nodal_value`. A boundary is its sequence of nodes. Hijacks and point elements are logged as records on the problem. The deleted hijacked Data objects are not modelled.
- User function pointers (u_fn, dudn_fn, flux, flow, body force) are Dafny functions or opaque identities.
- Boundaries beyond 3 in `impose_traction_free_edge` add point elements without any hijack, as the source does.
- `FlowSlotValues` takes its finite differences of the unscaled flow samples while the imposed velocities are edge-sign scaled. This follows the source, which is not claimed to be wrong.
- `doc_solution` of both problem classes is left out; it is file and console output.
- Preconditioner `setup`, `preconditioner_solve`, the Schur complement, lumping and the HYPRE defaults are left out. Only their declarations exist.
- The objects the preconditioners own are opaque identities. `Matrix_of_block_pointers` is an n×n array, since only its row count is read.
- BiharmonicPreconditioners.BiharmonicPreconditioner.CleanUpMemory: modelled as the code does it, which deletes without nulling, rather than as a documented "clean up and null". Its contract therefore says that validity survives only if all three pointers were null.
- LinearElasticity.Lookup: total. For a pinned value the equation number is 0. This value is never used, because only free values are pushed.
- `nfields_for_projection`, `nhistory_values_for_projection`, the projection Jacobians, shape-function interpolation, stress/strain, output and error norms of the linear-elasticity element are left out; they are floating-point work in the element framework.
- The time-stepper weights and the time of node 0 are parameters.
- DudnPassNode: imposes the corrected values: the first node samples u at m, m+h, m+2h, and ds_t/dt is kept in the chain rule. The source as written uses m-2h (line 219) and d2u/dndt in place of ds_t/dt (line 258). That pass is DudnPassNodeAsWritten, and DudnPassNodeAsWrittenSamePins, DudnPassNodeAsWrittenVsCorrected, DudnPassNodeAsWrittenAgrees and DudnPassNodeAsWrittenDiffers relate the two.
- DirichletNode: uses DudnPassNode, so its du/dn values are the corrected ones and not those of DudnPassNodeAsWritten.
- SetDirichletBoundaryCondition: its nodes end as DirichletNode, so the normal and mixed values it imposes are the corrected ones, not the ones the source computes. The pin pattern, slot 0 and the tangential slot are those of the source; see DudnPassNodeAsWrittenSamePins.
- DudnPass: each node ends as DudnPassNode, with the corrected values; likewise ImposeDudnAtNode and ImposeDudnAtEdgeNode.
- ImposeDudnAtNode: as DudnPass.
- ImposeDudnAtEdgeNode: as DudnPass.
- DudnPassReadsUPass: states the even spacing for the corrected stencil; as written the first node's samples are not evenly spaced (SecondDiffPointsAsWrittenFirstNodeWrong).
- DirichletSecondDifferenceExact: exact for the corrected stencil only; as written the first node gives a wrong second difference (SecondDiffPointsAsWrittenFirstNodeWrong).

## Findings

| source | as written | input that shows it | evidently intended | confidence | as-written member | corrected member |
|---|---|---|---|---|---|---|
| src/biharmonic/biharmonic_problem.cc:219 | at the first node the third sample of the second difference is at m - 2h, so the samples m, m+h, m-2h are not evenly spaced | u(x) = x at m = 0: the stencil gives -4/h instead of 0 | the third sample at m + 2h (a forward second difference) | not executed | BiharmonicStencils.SecondDiffPointsAsWrittenFirstNodeWrong | BiharmonicStencils.SecondDiffPointsExact |
| src/biharmonic/biharmonic_problem.cc:258 | `d2udndt = ds_tdt = ...` overwrites ds_t/dt, which lines 263-270 then read as ds_t/dt | dn/ds_n = dt/ds_n = dt/ds_t = ds_t/dt = 1, du/ds_t = 1, du/dn = 0: du/ds_n is pinned to 0 where the chain rule gives 1 | `d2udndt = dtds_t*m_N[1]*ddm_tdudn`, leaving ds_tdt unchanged | not executed | BiharmonicStencils.DudnSlotValuesAsWrittenBreaksChainRule | BiharmonicStencils.DudnSlotValues |
| src/linear_elasticity/linear_elasticity_elements.h:271-275 | ndof_types() returns 2 while get_dof_numbers_for_unknowns classifies each free value by its direction 0..DIM-1 | a 3D element with one node whose three displacements are free gets a pair of dof type 2 | ndof_types() returns DIM, one dof type per direction as the classification uses. The other reading is the commented-out `return 1` with its "lump them all into one DOF type" comment, which would need every pair classified 0. The model proves the DIM reading. | not executed | LinearElasticity.NdofTypesAsWrittenTooSmallIn3D | LinearElasticity.NewDofLookupsWithinNdofTypes |
