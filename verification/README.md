# Distant-land quadtree and resolution dialog, modelled in Dafny

This project models two parts of a Morrowind graphics extender.

**The static-geometry quadtree** (`src/mge/QuadTree.h`) is a build-once, query-many index over distant-land
mesh batches. Each `QuadTreeNode` has:

- a square footprint (`box_size` is the half-extent, `box_center` the centre);
- four optional children;
- an enclosing sphere;
- the meshes attached directly at it.

The operations modelled are:

- `AddMesh`/`PushDown` drop a mesh into the quadrant whose footprint holds its bounding sphere. Children are
  created on demand. Descent stops after `QUADTREE_MAX_DEPTH` levels.
- `Optimize` folds light, childless children into their parent.
- `CalcVolume` gives every node a sphere enclosing its meshes and its children.
- The two `GetVisibleMeshes` queries cull by sphere against a view frustum. One of them also tests against a
  view sphere. Both append what they find to a `VisibleSet`.
- `VisibleSet` holds non-owning references and sorts them by render state or by texture.

**The resolution dialog** (`MGEgui/ResolutionForm.cs`) works as follows:

- It lists each resolution as `X x Y`, with ` *` appended when the aspect is not 4:3.
- Picking an entry splits it back into the width and height boxes.
- OK parses and validates both numbers, reports the first failure, or commits them.
- Cancel commits nothing.
- `ShowDialog` turns the outcome into its return value and out-parameter.

Everything is modelled with immutable datatypes and pure functions:

- Meshes are records whose `id` is their slot in the tree's mesh pool. This is the identity that the
  `QuadTreeMesh*` pointers of `QuadTree.h` carry.
- Direct3D resources are opaque identities.
- Geometry is exact `real` arithmetic on squared distances.
- The frustum is abstracted as a classification function `BoundingSphere -> Containment` (Outside, Inside or
  Intersect).

Modules, one per file:

- `Wrappers`: `Option`.
- `Geometry`: vectors, spheres, enclosure and overlap, the triangle inequality.
- `Sorting`: a stable insertion sort over a strict order.
- `Meshes`: the mesh record and both comparators.
- `VisibleSets`: the visible set.
- `QuadTreeNodes`: node structure, counting, the meshes of a subtree, height, placement, insertion.
- `NodeOptimize`, `NodeVolume`, `NodeQuery`: the three passes over a node.
- `QuadTrees`: the tree object and its invariant.
- `ResolutionDialog`: the dialog.

`QuadTree.h` declares the quadtree, but its implementation file is not part of this model. The behaviour is
therefore pinned to the header's fields, signatures and constants. Where the header is silent, the model makes
its own choices, each listed under "Left out":

- the comparators' keys;
- the `>=` tie-break that sends a centre lying on a dividing line to the upper quadrant;
- the fold threshold of `Optimize`;
- the centre and radius of the sphere `CalcVolume` builds;
- what `inside` skips in the view-sphere overload;
- `Clear` resetting the footprint.

The contracts state the behaviour of the model under these choices.

## Model

| member | source | states |
|---|---|---|
| QuadTreeNodes.GetChildCount | src/mge/QuadTree.h:97 | the count lies in 0..4, equals the number of occupied slots, and is 0 exactly when all four slots are empty |
| QuadTreeNodes.ClearChildren | src/mge/QuadTree.h:98 | afterwards the child count is 0; the node keeps its own meshes and footprint, and its subtree is just those meshes |
| QuadTreeNodes.ChildFor | src/mge/QuadTree.h:81-83 | the child insertion descends into is the occupant of the slot, or else a fresh node with half the size centred in that quadrant |
| QuadTreeNodes.AddMesh | src/mge/QuadTree.h:92 | the subtree gains exactly that mesh (multiset); footprint and sphere are untouched; the height stays within max(old height, depth); with no depth budget left the mesh is attached at the node |
| QuadTreeNodes.PushDown | src/mge/QuadTree.h:94 | a mesh whose sphere does not fit the chosen quadrant is attached at the node; one that fits leaves the node's own meshes and the three other slots unchanged; the subtree gains exactly that mesh and stays within the depth bound |
| QuadTreeNodes.AddMeshWhere | src/mge/QuadTree.h:92-94 | the mesh goes below the node exactly when depth remains and its sphere fits the chosen quadrant; otherwise it becomes the node's last mesh and the children are untouched |
| QuadTreeNodes.QuadrantChoice | src/mge/QuadTree.h:83 | choosing the quadrant by comparing the sphere's centre with the node's centre loses nothing: a sphere that fits any quadrant fits the chosen one |
| QuadTreeNodes.AddMeshPlaced | src/mge/QuadTree.h:81-85 | insertion keeps the placement invariant: every child sits at its quadrant's centre with half the parent's size, and every mesh below it lies inside its footprint |
| QuadTreeNodes.SlotOfWithSlot | src/mge/QuadTree.h:81 | replacing one child slot changes that slot and no other |
| NodeOptimize.Optimize | src/mge/QuadTree.h:95 | the multiset of meshes in the subtree is preserved; the result is true exactly when the node ends with no children and no meshes; no foldable child remains anywhere below; footprint and sphere are kept; each slot ends as that slot's child decides; the node's own meshes come first and are followed by exactly the meshes the folded children handed up |
| NodeOptimize.OptimizeSlot | src/mge/QuadTree.h:95 | per child: the meshes kept in the child plus those handed up equal the child's meshes; the child is dropped exactly when its optimized form is foldable, and otherwise the slot holds its optimized form, keeps its footprint and hands nothing up |
| NodeOptimize.OptimizeHeight | src/mge/QuadTree.h:95 | Optimize never makes the tree deeper, so the insertion depth bound survives it |
| NodeOptimize.OptimizePlaced | src/mge/QuadTree.h:95 | Optimize keeps every child in its quadrant and every mesh inside its child's footprint |
| NodeOptimize.CompactIsFixed | src/mge/QuadTree.h:95 | a tree with nothing left to fold is a fixed point of Optimize |
| NodeOptimize.OptimizeIdempotent | src/mge/QuadTree.h:95 | optimizing twice gives the same tree and the same answer as optimizing once |
| NodeVolume.CalcVolume | src/mge/QuadTree.h:96 | afterwards every node's sphere encloses each of its own meshes' spheres and each child's sphere, all the way down; only spheres change; the sphere is centred on the footprint with non-negative radius |
| NodeVolume.SoundEnclosesAll | src/mge/QuadTree.h:84 | after CalcVolume a node's sphere encloses every mesh anywhere below it, which is what makes culling a subtree by its sphere safe |
| NodeVolume.CalcVolumeKeepsTree | src/mge/QuadTree.h:96 | CalcVolume keeps the meshes (in order), the height and the placement of the tree |
| NodeQuery.FrustumFilter | src/mge/QuadTree.h:90 | a mesh is kept exactly when it was given and the frustum does not classify its sphere as Outside; nothing is invented |
| NodeQuery.ViewFilter | src/mge/QuadTree.h:91 | a mesh is kept exactly when it was given and its sphere meets the view sphere |
| NodeQuery.Visible | src/mge/QuadTree.h:90 | the frustum query collects a sub-multiset of the subtree's meshes; with `inside` set it collects every mesh of the subtree; a root classified Outside yields nothing |
| NodeQuery.AcceptAllSeesAll | src/mge/QuadTree.h:90 | with a frustum that rejects nothing, the query returns every mesh of the subtree in order |
| NodeQuery.QueryMatchesScan | src/mge/QuadTree.h:90 | on a tree whose spheres are sound and with a frustum whose verdicts pass to enclosed spheres, the hierarchical query returns exactly what a flat scan of the subtree accepts, in the same order |
| NodeQuery.VisibleIn | src/mge/QuadTree.h:91 | the view-sphere query collects a sub-multiset of the frustum-only query's result; a root whose sphere misses the view sphere yields nothing |
| NodeQuery.SphereQueryMatchesFilter | src/mge/QuadTree.h:91 | on a tree with sound spheres, the view-sphere query equals the frustum-only result with the meshes missing the view sphere removed, in order |
| QuadTrees.NewTree | src/mge/QuadTree.h:106 | a new tree has no meshes, an empty pool, and satisfies the tree invariant |
| QuadTrees.SetBoxSize | src/mge/QuadTree.h:122 | sets the root's half-extent; the root's centre, children, sphere and own meshes, the tree's meshes and the pool are unchanged |
| QuadTrees.SetBoxCenter | src/mge/QuadTree.h:123 | sets the root's centre; the root's half-extent, children, sphere and own meshes, the tree's meshes and the pool are unchanged |
| QuadTrees.SetFootprintValid | src/mge/QuadTree.h:122-123 | configuring the footprint before anything has been pushed down keeps the tree invariant |
| QuadTrees.AddMesh | src/mge/QuadTree.h:108-117 | the new record is appended to the pool with the next id, the tree gains exactly that record, and the invariant (ids, one-to-one pool/tree correspondence, depth at most 6, placement) is preserved |
| QuadTrees.ExactlyOnce | src/mge/QuadTree.h:108-117 | in a valid tree every inserted mesh occurs exactly once among all nodes' meshes: never dropped, never duplicated |
| QuadTrees.Optimize | src/mge/QuadTree.h:118 | the pool and the tree's multiset of meshes are kept, the invariant is preserved, no foldable node remains below the root, and the result is true exactly when the root has no children and no meshes |
| QuadTrees.Clear | src/mge/QuadTree.h:119 | afterwards the tree holds no meshes and no pool records, and satisfies the invariant |
| QuadTrees.CalcVolume | src/mge/QuadTree.h:124 | afterwards every node's sphere is sound; pool, meshes and invariant are kept |
| QuadTrees.GetVisibleMeshes | src/mge/QuadTree.h:120 | the caller's visible set keeps its contents as a prefix, and what is appended is a sub-multiset of the tree's meshes |
| QuadTrees.GetVisibleMeshesInSphere | src/mge/QuadTree.h:121 | the prefix is kept, and what is appended is a sub-multiset of what the frustum-only query appends |
| QuadTrees.QueryReportsOnce | src/mge/QuadTree.h:120 | a query reports only inserted meshes, each at most once |
| QuadTrees.QueryFindsAccepted | src/mge/QuadTree.h:120 | after CalcVolume the frustum query appends exactly the inserted meshes the frustum does not reject, counted with multiplicity |
| QuadTrees.QueryAfterClear | src/mge/QuadTree.h:119-121 | after Clear both queries leave the visible set unchanged |
| Meshes.CompareByStateIsKeyOrder | src/mge/QuadTree.h:43 | the render-state comparison is lexicographic order on (blended, texture, vertex buffer) |
| Meshes.CompareByStateIsStrictOrder | src/mge/QuadTree.h:43 | the render-state comparison is irreflexive and transitive, so it is a valid sort predicate |
| Meshes.CompareByTextureIsStrictOrder | src/mge/QuadTree.h:44 | the texture comparison is irreflexive and transitive |
| VisibleSets.AddMesh | src/mge/QuadTree.h:51 | size grows by one, the new reference is last, and the earlier references are unchanged |
| VisibleSets.AddAll | src/mge/QuadTree.h:51 | the references are appended in order after the unchanged earlier ones |
| VisibleSets.RemoveAll | src/mge/QuadTree.h:52 | size becomes 0 |
| VisibleSets.SortByState | src/mge/QuadTree.h:65 | the result is a permutation of the set ordered by the render-state comparison, of the same size; an already-ordered set is left unchanged |
| VisibleSets.SortByTexture | src/mge/QuadTree.h:66 | the result is a permutation of the set ordered by texture, of the same size; an already-ordered set is left unchanged |
| Sorting.SortSorted | src/mge/QuadTree.h:65-66 | sorting with a strict order yields an ordered sequence |
| Sorting.SortKeepsSorted | src/mge/QuadTree.h:65-66 | sorting an ordered sequence changes nothing |
| Sorting.InsertionSort | src/mge/QuadTree.h:65-66 | sorting keeps the length and the multiset of elements |
| ResolutionDialog.IntToDecimal | MGEgui/ResolutionForm.cs:165 | Int32's decimal text is a leading minus sign exactly for negative values, followed by one or more digits that denote the absolute value |
| ResolutionDialog.NatToDecimal | MGEgui/ResolutionForm.cs:165 | the digits denote the number and carry no leading zero |
| ResolutionDialog.FormatLabel | MGEgui/ResolutionForm.cs:165-166 | the label is decimal X, " x ", decimal Y, followed by " *" exactly when the resolution is not 4:3 |
| ResolutionDialog.Labels | MGEgui/ResolutionForm.cs:164-168 | the list has one entry per resolution, in order, each its label |
| ResolutionDialog.NewForm | MGEgui/ResolutionForm.cs:162-168 | the boxes show the stored width and height, the list shows every label, and the dialog is open with no result |
| ResolutionDialog.TrimExact | MGEgui/ResolutionForm.cs:241-243 | trimming removes exactly the droppable padding around a core whose ends are not droppable |
| ResolutionDialog.Split | MGEgui/ResolutionForm.cs:241 | splitting yields at least one piece, and no piece contains the separator |
| ResolutionDialog.JoinSplit | MGEgui/ResolutionForm.cs:241 | splitting loses nothing: gluing the pieces back with the separator gives the text |
| ResolutionDialog.SplitJoin | MGEgui/ResolutionForm.cs:241 | separator-free pieces are exactly what splitting their join yields |
| ResolutionDialog.ParseLabel | MGEgui/ResolutionForm.cs:241-243 | the label is trimmed of spaces and '*' and split on 'x'; the width text is the trimmed first piece; the height text is the trimmed second piece, which exists exactly when there was an 'x' |
| ResolutionDialog.ParseFormattedLabel | MGEgui/ResolutionForm.cs:164-168 | any formatted label, marked or not, parses back into the decimal texts of both coordinates |
| ResolutionDialog.ParseInt32 | MGEgui/ResolutionForm.cs:212-224 | a parse yields `v` exactly when the text is number white space, an optional `+` or `-`, one or more digits, then number white space, and the signed digits denote `v` within 32 bits; every other text fails, blank text included |
| ResolutionDialog.ParseDecimal | MGEgui/ResolutionForm.cs:212-224 | every 32-bit value survives a trip through its decimal text |
| ResolutionDialog.SelectLabel | MGEgui/ResolutionForm.cs:240-244 | the width box receives the parsed width text; the handler throws exactly when the label has no 'x', and otherwise the height box receives the parsed height text; nothing else changes |
| ResolutionDialog.ClickOk | MGEgui/ResolutionForm.cs:211-233 | the invalid-width error iff the width does not parse; the invalid-height error iff the width parses and the height does not; the dimension error iff both parse and one is not positive; any error leaves the dialog unchanged; otherwise the result is OK, the dialog closes, and the stored size becomes exactly the two parsed positive values |
| ResolutionDialog.ClickCancel | MGEgui/ResolutionForm.cs:235-238 | the result becomes Cancel and the dialog closes; nothing else changes |
| ResolutionDialog.ShowDialogOutcome | MGEgui/ResolutionForm.cs:191-208 | true with the stored size exactly after OK, otherwise false with the default point |
| ResolutionDialog.PickThenOk | MGEgui/ResolutionForm.cs:179-244 | picking any listed positive resolution and pressing OK does not throw, reports no error, and makes ShowDialog return true with exactly that resolution |
| ResolutionDialog.CancelReturnsNothing | MGEgui/ResolutionForm.cs:235-238 | after Cancel, ShowDialog returns false with the default point and the stored size is unchanged |
| ResolutionDialog.RejectedOkKeepsOpen | MGEgui/ResolutionForm.cs:213-228 | a rejected OK leaves the dialog open, and ShowDialog would not report success |

## Left out

- `VisibleSet::Render` and all Direct3D calls: GPU work, not logic. Textures, buffers and transforms are opaque
  identities.
- The `MemoryPool` node and mesh pools: allocation is modelled by building values. The mesh pool is a sequence
  whose positions are the mesh ids.
- Frustum plane maths: the frustum is a classification function. `NodeQuery.Monotone` states the one property
  the culling needs from it.
- `QUADTREE_MIN_DIST`: the header declares it, but its value and use are in the implementation file, which is
  not part of this model.
- QuadTree.cpp is not part of this model. Where the header fixes no behaviour, the model chooses:
  - `CompareByState` orders opaque before blended, then by texture, then by vertex buffer;
  - `CompareByTexture` orders by texture;
  - `Optimize` folds a childless child holding at most one mesh;
  - `CalcVolume` centres the sphere on the footprint with a taxicab-reach radius.
- NodeVolume.CalcVolume: states enclosure only, not that the sphere is minimal, because the exact
  construction in the implementation file (floating point, square roots) is not part of this model.
- NodeOptimize.Optimize: states that the meshes raised from folded children follow the node's own meshes, as a
  multiset. Their order among themselves is slot order in the model but is not stated.
- QuadTreeNodes.QuadrantOf: a sphere centre lying exactly on a dividing line counts as being on the upper
  side (`>=`). The header does not fix this tie-break.
- `QuadTreeMesh::operator==` (QuadTree.h line 41): its definition is in the implementation file, and none of
  the modelled operations uses it. Mesh records are compared by Dafny equality, whose `id` field makes two
  records of different pool slots unequal.
- VisibleSets.SortByState: states that the result is an ordered permutation, not that the sort is stable.
- VisibleSets.SortByTexture: as with SortByState, stability is not stated.
- Floating-point footprints: positions and sizes are exact reals. The footprint is compared with the sphere
  centre's x and y. `D3DXVECTOR2 box_center` names no axes; Morrowind's world is z-up, so the model
  compares x and y.
- The view-sphere overload's `inside` flag is modelled as skipping only the frustum test. The view sphere is
  still tested at every node and mesh.
- `QuadTree::Clear` is modelled as producing a fresh tree: an empty root with a zero footprint, and an empty
  pool. Whether QuadTree::Clear keeps the footprint is not fixed by the header. The pools' memory reuse is not
  modelled.
- `hasalpha` is a plain field of the mesh record. `QuadTreeMesh`'s constructor takes no `hasalpha` argument,
  and the code that sets it is in the implementation file, which is not part of this model.
- `QuadTree::AddMesh`: the mesh record is built from its arguments and identified by its pool slot. No copy
  constructor or assignment is modelled.
- ResolutionDialog.IsFourThree: the float test `(float)Y/(float)X != 0.75f` is modelled as the integer test
  `4*Y != 3*X` (with X = 0 never 4:3). Single-precision rounding is not modelled. It changes the outcome from X >= 2^23 on: for example
  (8388609, 6291457) rounds to exactly 0.75f, but the integer test marks it.
- ResolutionDialog.ParseInt32: models `Convert.ToInt32` as optional ASCII white space, an optional `+` or `-`,
  and decimal digits within 32 bits. The following are not modelled:
  - culture-specific signs;
  - the null argument.
- The registry read and write in `ShowDialog`, and the `MessageBox` for a failed write. The stored size is a
  field of the dialog state, loaded before it opens.
- `MessageBox` prompts in the OK handler: modelled as the returned `Message`. The text and its localization
  are out of scope.
- `InitializeComponent`, layout, localization, the context menu, `cmbRes_KeyPress` and the enabling or
  disabling of the text boxes in fullscreen mode: UI plumbing with no logic.
- `DirectX.DXMain.GetResolutions` and the adapter: they are the dialog's input, passed as a sequence of
  points.
- `src/mge/mged3d8device.cpp`: Direct3D call interception, not part of this model.
