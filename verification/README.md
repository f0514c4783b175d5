# Minie core, modelled in Dafny

This project models five parts of the Minie physics library and its DacWizard
tool, and proves properties of each model.

- **DacWizard subject model** (`wizard_paths.dfy`, `wizard_bones.dfy`,
  `wizard_model.dfy`). The file-system path is split into components.
  The asset root is guessed from the path. The asset root and asset path
  are derived from the components. Each bone has a *manager*: the nearest
  linked bone at or above it, or the torso. The wizard counts the bones a
  manager manages, lists the linked bones, names the parent link of a bone
  and describes its mesh influence. It can also set the linked bones, load
  a model and unload it.
- **PhysicsDumper** (`dumper_flags.dfy`, `cluster_listing.dfy`). This part
  covers the fourteen dump flags and their initial values, and the plural
  suffix of the summaries. It also covers the occurrence count of a value in
  an index buffer, and the compressed listing of the nodes in a soft-body
  cluster: "(all)", or ascending indices with runs of three or more written
  `first-last`.
- **BulletDebugAppState** (`debug_reconcile.dfy`, `debug_app_state.dfy`).
  Each update reconciles one table per kind of debug control against the
  physics space:
  - an object that is shown and already has a node keeps it;
  - an object that is shown without a node gets a new node that carries a
    control for it;
  - a node whose object is no longer shown is detached.

  Rigid bodies, ghosts and characters get axis arrows. Bounding boxes and
  swept spheres are drawn only when their filters are set. The part also
  covers the axis settings and the joint-end colours.
- **GhostControl** (`ghost_control.dfy`). This part covers enabling and
  disabling the ghost, and moving it between physics spaces. Every addition
  to or removal from a space is recorded in an event log. The invariant is
  that the ghost is in a space exactly when it is enabled and has a space.
  The part also covers binding to a spatial, and the per-frame update that
  copies the spatial's transform from the identity, local or world frame.
  Serialization covers four fields and their default values.
- **MultiBody** (`multi_body.dfy`):
  - the constructor's argument checks;
  - configuring links in index order;
  - `getLink`, `contains` and `listColliders`;
  - the single base collider;
  - the one-bit collision-group rule on Java's 32-bit `int`;
  - `compareTo` by native id.

`common.dfy` holds the `Option`/`Result` wrappers, `String.join` and decimal
printing.

A Java `assert` or thrown exception is modelled as an error value. An
operation that can throw after it has already changed state returns
`Outcome(state, thrown)`, the state as Java leaves it. Floats are `real`.
Object identities are integers. Native handles are integers chosen by the
caller.

## Model

| member | source | states |
|---|---|---|
| WizardPaths.SplitJoinRoundTrip | DacWizard/src/main/java/jme3utilities/minie/wizard/Model.java:584-592 | joining the components that `path.split("/")` yields gives back the path, for a path with a '/' that does not end in '/' |
| WizardPaths.JoinSplitRoundTrip | DacWizard/src/main/java/jme3utilities/minie/wizard/Model.java:338-342 | splitting the joined file path recovers every component list of two or more separator-free components whose last component is non-empty |
| WizardPaths.GuessRootComponents | DacWizard/src/main/java/jme3utilities/minie/wizard/Model.java:593-614 | the guessed root size is 1 when no component is a resource directory or "Models", otherwise the suggestion of the last such component; it is always at least 1 |
| WizardPaths.AssetRoot | DacWizard/src/main/java/jme3utilities/minie/wizard/Model.java:154-168 | fails with "path not set" exactly for no components, succeeds exactly when the root size is below the component count, and then ends in '/' |
| WizardPaths.AssetPath | DacWizard/src/main/java/jme3utilities/minie/wizard/Model.java:132-146 | fails with "path not set" exactly for no components, succeeds exactly when the root size is below the component count, and then starts with '/' |
| WizardPaths.RootPlusPath | DacWizard/src/main/java/jme3utilities/minie/wizard/Model.java:132-168 | for a root of at least one component, the asset root followed by the asset path (without its leading '/') is the file path |
| WizardBones.ManagerIsNearestLinked | DacWizard/src/main/java/jme3utilities/minie/wizard/Model.java:679-699 | a bone's manager is the torso exactly when no ancestor-or-self is linked; otherwise it is the nearest linked ancestor-or-self |
| WizardBones.LinkedBoneManagesItself | DacWizard/src/main/java/jme3utilities/minie/wizard/Model.java:685-690 | a linked bone is its own manager |
| WizardBones.CountManagedBones | DacWizard/src/main/java/jme3utilities/minie/wizard/Model.java:236-254 | the count is the size of the set of bones whose manager has the given name |
| WizardBones.ManagedCountsPartitionBones | DacWizard/src/main/java/jme3utilities/minie/wizard/Model.java:236-254 | over distinct names covering every manager, the managed counts add up to the bone count |
| WizardBones.ManagerCountsSumToBoneCount | DacWizard/src/main/java/jme3utilities/minie/wizard/Model.java:236-254 | with unique bone names, the torso's count plus the counts of the listed linked bones is the bone count |
| WizardBones.ListLinkedBones | DacWizard/src/main/java/jme3utilities/minie/wizard/Model.java:398-415 | the array is as long as the linked set; its leading entries are the linked bones below the bone count in increasing order, and the rest are 0; when every linked bone is in range it lists exactly the linked set |
| WizardBones.LinkedBoneParent | DacWizard/src/main/java/jme3utilities/minie/wizard/Model.java:371-390 | an unknown child name gives nothing; a root bone's parent link is the torso, any other bone's is the manager of its parent |
| WizardBones.ParentLinkIsNearestProperAncestor | DacWizard/src/main/java/jme3utilities/minie/wizard/Model.java:371-390 | the parent link of a non-root bone is the torso exactly when no proper ancestor is linked, otherwise the nearest linked proper ancestor |
| WizardBones.DescribeBoneInfluence | DacWizard/src/main/java/jme3utilities/minie/wizard/Model.java:320-331 | each of the three descriptions is chosen exactly under its condition, with direct influence taking precedence |
| WizardModel.Unload | DacWizard/src/main/java/jme3utilities/minie/wizard/Model.java:665-668 | the model and ragdoll are cleared and the path, root size, linked set and load exception are kept |
| WizardModel.SetFilePath | DacWizard/src/main/java/jme3utilities/minie/wizard/Model.java:584-615 | a path without '/' fails the assertion and changes nothing; otherwise the components are the Java split and the model is unloaded with the load exception cleared; the root size follows the heuristic; a path not ending in '/' is recovered by the file path; the assertion fails after the update exactly when the split is empty |
| WizardModel.MoreRootMorePathInverse | DacWizard/src/main/java/jme3utilities/minie/wizard/Model.java:476-488 | moving one component to the root and back (in either order) only unloads |
| WizardModel.MoreRootKeepsFilePath | DacWizard/src/main/java/jme3utilities/minie/wizard/Model.java:485-488 | moving a component into the root keeps the asset root plus asset path equal to the file path |
| WizardModel.SetLinkedBones | DacWizard/src/main/java/jme3utilities/minie/wizard/Model.java:622-649 | with no model, fails and changes nothing; the current set changes nothing; a new set is stored, and the manager map is the manager of every bone of the loaded skeleton (a missing skeleton throws after the set is stored); no other field changes |
| WizardModel.Load | DacWizard/src/main/java/jme3utilities/minie/wizard/Model.java:422-456 | with no path, fails and changes nothing; without an asset root it unloads and throws; otherwise the load exception is cleared on success and recorded on failure, and a failed load throws "no model loaded" with only the unload and the exception recorded; the ragdoll is always cleared and the path kept; a loaded model is always stored without throwing; without a skeleton nothing else changes; with one the influence sets are stored, no bones are linked, and the vertex assignment is rebuilt for the new model unless the previous linked set was already empty; nothing else changes |
| WizardModel.LoadRebuildingCoords | DacWizard/src/main/java/jme3utilities/minie/wizard/Model.java:422-456 | as `Load` (the load exception, the failed-load outcome, the cleared ragdoll, a loaded model stored without throwing, and nothing else changing); for a model with a skeleton the vertex assignment is always computed for the model just loaded, with every bone managed by the torso |
| WizardModel.ReloadKeepsStaleCoords | DacWizard/src/main/java/jme3utilities/minie/wizard/Model.java:622-629 | loading a second model with no bones linked keeps the vertex assignment of the first model |
| WizardModel.CountManagedBonesIn | DacWizard/src/main/java/jme3utilities/minie/wizard/Model.java:236-254 | succeeds exactly when there is a model with a skeleton and either a linked set or no bones; no model is an error and any other failure a null dereference; on success, the count of bones with the named manager |
| WizardModel.ListLinkedBonesIn | DacWizard/src/main/java/jme3utilities/minie/wizard/Model.java:398-415 | succeeds exactly when there is a model and a linked set; the listing has one entry per linked bone, starts with the linked bones below the bone count in increasing order and is padded with 0, and is the increasing list of them when all are in range |
| WizardModel.LinkedBoneParentName | DacWizard/src/main/java/jme3utilities/minie/wizard/Model.java:371-390 | an empty child name fails the assertion; no model is an error and no skeleton a null dereference; otherwise the name of the parent link |
| DumperFlags.SetEnabled | MinieLibrary/src/main/java/jme3utilities/minie/PhysicsDumper.java:656-719 | after setting a flag it reads back the new value and every other flag reads as before |
| DumperFlags.SetCurrentValue | MinieLibrary/src/main/java/jme3utilities/minie/PhysicsDumper.java:582-719 | setting a flag to its current value changes nothing |
| DumperFlags.SetSetSameFlag | MinieLibrary/src/main/java/jme3utilities/minie/PhysicsDumper.java:656-719 | a second setting of the same flag overrides the first |
| DumperFlags.SetDifferentFlagsCommute | MinieLibrary/src/main/java/jme3utilities/minie/PhysicsDumper.java:656-719 | settings of different flags commute |
| DumperFlags.InitialFlags | MinieLibrary/src/main/java/jme3utilities/minie/PhysicsDumper.java:88-112 | of the dumper's own seven flags only the one for collision objects starts enabled; the inherited flags keep their values |
| DumperFlags.PluralSuffix | MinieLibrary/src/main/java/jme3utilities/minie/PhysicsDumper.java:271-272 | the suffix is empty exactly for a count of one, and "s" otherwise |
| DumperFlags.Frequency | MinieLibrary/src/main/java/jme3utilities/minie/PhysicsDumper.java:992-1003 | the count is the multiplicity of the value among the first `len` entries; it is zero exactly when the value is absent |
| ClusterListing.NextClear | MinieLibrary/src/main/java/jme3utilities/minie/PhysicsDumper.java:970 | the result is the first unlisted index at or after the start |
| ClusterListing.ScanAscending | MinieLibrary/src/main/java/jme3utilities/minie/PhysicsDumper.java:962-978 | the entries are well formed and strictly ascending without overlap |
| ClusterListing.ScanSound | MinieLibrary/src/main/java/jme3utilities/minie/PhysicsDumper.java:962-978 | every node an entry mentions is in the cluster |
| ClusterListing.ScanComplete | MinieLibrary/src/main/java/jme3utilities/minie/PhysicsDumper.java:962-978 | every listed node below the node count is mentioned |
| ClusterListing.ScanCompressed | MinieLibrary/src/main/java/jme3utilities/minie/PhysicsDumper.java:962-978 | a single entry starts a run shorter than three; a range is a whole maximal run of three or more |
| ClusterListing.DumpNodesInCluster | MinieLibrary/src/main/java/jme3utilities/minie/PhysicsDumper.java:943-981 | "(all)" exactly when the cluster lists as many indices as the body has nodes |
| ClusterListing.ScanDependsOnSet | MinieLibrary/src/main/java/jme3utilities/minie/PhysicsDumper.java:955-978 | the scan depends only on which indices are listed, not on their order or repetitions |
| ClusterListing.DumpDependsOnSet | MinieLibrary/src/main/java/jme3utilities/minie/PhysicsDumper.java:943-981 | two clusters listing the same nodes, neither with as many indices as the body has nodes, print alike |
| ClusterListing.ListingCoversEachNodeOnce | MinieLibrary/src/main/java/jme3utilities/minie/PhysicsDumper.java:943-981 | every listed node inside the body is mentioned by exactly one entry |
| ClusterListing.LongRunIsOneRange | MinieLibrary/src/main/java/jme3utilities/minie/PhysicsDumper.java:970-976 | a maximal run of three or more listed nodes is printed as one range entry |
| DebugScene.ReconcileSpec | MinieLibrary/src/main/java/com/jme3/bullet/debug/BulletDebugAppState.java:710-736 | after one reconciliation the table's keys are the shown objects; shown objects that had a node keep it; new ones get a fresh attached node carrying their control; hidden ones' nodes are detached; other nodes are untouched |
| DebugScene.ReconcileInjective | MinieLibrary/src/main/java/com/jme3/bullet/debug/BulletDebugAppState.java:710-736 | distinct objects keep distinct nodes |
| DebugScene.ReconcileAxes | MinieLibrary/src/main/java/com/jme3/bullet/debug/BulletDebugAppState.java:470-484 | every node in the table shows axes exactly when the axis length is positive, with the current length and line width |
| DebugScene.ReconcileAxesFrame | MinieLibrary/src/main/java/com/jme3/bullet/debug/BulletDebugAppState.java:470-484 | the axes of nodes outside the table are untouched |
| DebugAppState.JointMaterial | MinieLibrary/src/main/java/com/jme3/bullet/debug/BulletDebugAppState.java:301-316 | end A is drawn green and end B red |
| DebugAppState.SetAxisLength | MinieLibrary/src/main/java/com/jme3/bullet/debug/BulletDebugAppState.java:333-336 | accepted exactly when non-negative, and then only the length changes |
| DebugAppState.SetAxisLineWidth | MinieLibrary/src/main/java/com/jme3/bullet/debug/BulletDebugAppState.java:343-346 | accepted exactly when between 0 and the largest float, and then only the width changes |
| DebugAppState.Initial | MinieLibrary/src/main/java/com/jme3/bullet/debug/BulletDebugAppState.java:129 | a new state has no nodes, empty tables, axis length 0 and line width 1 |
| DebugAppState.WfNodesDistinct | MinieLibrary/src/main/java/com/jme3/bullet/debug/BulletDebugAppState.java:550-569 | in a well-formed state, different table entries have different nodes |
| DebugAppState.PassPreservesWf | MinieLibrary/src/main/java/com/jme3/bullet/debug/BulletDebugAppState.java:577-801 | one update pass keeps the state well formed, makes its table's keys the shown objects, and keeps reused nodes |
| DebugAppState.PassKeepsOtherAxes | MinieLibrary/src/main/java/com/jme3/bullet/debug/BulletDebugAppState.java:577-801 | a pass over one table keeps the axes of every other table |
| DebugAppState.RunPassesTables | MinieLibrary/src/main/java/com/jme3/bullet/debug/BulletDebugAppState.java:550-569 | after a run of passes each table is as its last pass made it, and tables no pass names are unchanged |
| DebugAppState.Update | MinieLibrary/src/main/java/com/jme3/bullet/debug/BulletDebugAppState.java:550-569 | the corrected update (separate bounding-box and swept-sphere tables) keeps the state well formed and the axis settings unchanged |
| DebugAppState.ScheduleTablesDistinct | MinieLibrary/src/main/java/com/jme3/bullet/debug/BulletDebugAppState.java:550-569 | the update runs rigid bodies, ghosts, characters, joints and vehicles, then bounding boxes and swept spheres only when their filters are set, each table once |
| DebugAppState.UpdateShowsObjects | MinieLibrary/src/main/java/com/jme3/bullet/debug/BulletDebugAppState.java:609-801 | after an update each object table holds exactly the shown objects of its list |
| DebugAppState.UpdateShowsBoundingBoxes | MinieLibrary/src/main/java/com/jme3/bullet/debug/BulletDebugAppState.java:577-603 | with a filter, the bounding-box table holds exactly the collision objects it accepts; without one it is left as it was |
| DebugAppState.UpdateShowsSweptSpheres | MinieLibrary/src/main/java/com/jme3/bullet/debug/BulletDebugAppState.java:742-770 | with a filter, the swept-sphere table holds exactly the accepted collision objects with positive CCD threshold and radius; without one it is left as it was |
| DebugAppState.UpdateDrawsAxes | MinieLibrary/src/main/java/com/jme3/bullet/debug/BulletDebugAppState.java:470-484 | after an update the rigid-body, ghost and character nodes show axes with the current settings |
| DebugAppState.RunPassesAppend | MinieLibrary/src/main/java/com/jme3/bullet/debug/BulletDebugAppState.java:550-569 | running two schedules one after the other is running their concatenation |
| DebugAppState.SharedPassKeepsOtherAxes | MinieLibrary/src/main/java/com/jme3/bullet/debug/BulletDebugAppState.java:742-770 | the swept-sphere pass as written, run over the bounding-box table, keeps the axes of every other table |
| DebugAppState.SharedTableAgreesElsewhere | MinieLibrary/src/main/java/com/jme3/bullet/debug/BulletDebugAppState.java:550-569 | the update as written equals the corrected one when the swept-sphere filter is null; otherwise both leave the same rigid-body, ghost, character, joint and vehicle tables, the same axes on rigid bodies, ghosts and characters, and the same axis settings |
| DebugAppState.SharedTableHidesBoundingBox | MinieLibrary/src/main/java/com/jme3/bullet/debug/BulletDebugAppState.java:742-770 | with one collision object that has a bounding box and no CCD, the swept-sphere pass as written takes over the bounding-box table; the object's box node is detached, though the corrected update keeps it |
| GhostControlModel.CoordinateSource | MinieLibrary/src/main/java/com/jme3/bullet/control/GhostControl.java:195-218 | the identity frame exactly when the spatial ignores transforms; otherwise the local frame exactly when physics is applied locally, else the world frame |
| GhostControlModel.SpatialScale | MinieLibrary/src/main/java/com/jme3/bullet/control/GhostControl.java:445-459 | the scale is taken from the frame the coordinate source selects |
| GhostControlModel.NewGhost | MinieLibrary/src/main/java/com/jme3/bullet/control/GhostControl.java:99-107 | a new ghost is enabled, in no space, bound to no spatial, and satisfies the membership invariant |
| GhostControlModel.SetSpatial | MinieLibrary/src/main/java/com/jme3/bullet/control/GhostControl.java:271-283 | the same spatial (by identity) changes nothing; a different one becomes the spatial and the user object; a non-null one moves the ghost to its current transform and a null one leaves location and rotation alone; no other field changes |
| GhostControlModel.SetEnabled | MinieLibrary/src/main/java/com/jme3/bullet/control/GhostControl.java:295-310 | the flag is set, the spatial and space kept and the invariant kept; with a space, enabling adds the ghost to it (first moving it to the spatial's current transform) and disabling removes it, once each; only the flag, membership, event log, location and rotation can change |
| GhostControlModel.SetPhysicsSpace | MinieLibrary/src/main/java/com/jme3/bullet/control/GhostControl.java:373-390 | the same space changes nothing; otherwise the new space is recorded and the invariant kept; only the space, membership and event log change |
| GhostControlModel.SwitchRemovesBeforeAdding | MinieLibrary/src/main/java/com/jme3/bullet/control/GhostControl.java:373-390 | moving an added ghost to another space logs its removal from the old space and then its addition to the new one |
| GhostControlModel.DisabledRecordsSpaceOnly | MinieLibrary/src/main/java/com/jme3/bullet/control/GhostControl.java:373-390 | a disabled ghost only records the new space and joins no space |
| GhostControlModel.EnableJoinsRecordedSpace | MinieLibrary/src/main/java/com/jme3/bullet/control/GhostControl.java:295-310 | enabling a disabled ghost adds it to its recorded space |
| GhostControlModel.Update | MinieLibrary/src/main/java/com/jme3/bullet/control/GhostControl.java:330-351 | a disabled ghost is unchanged; an enabled one takes location and rotation from the selected frame of the spatial's current transform; without scale applied the shape scale is kept; with it, the shape takes the spatial's scale when it accepts that, else the uniform cube-root scale when it accepts that, else keeps its scale; no other field changes |
| GhostControlModel.WriteBool | MinieLibrary/src/main/java/com/jme3/bullet/control/GhostControl.java:411-419 | a value equal to its default is not stored; other keys are kept |
| GhostControlModel.WriteReadRoundTrip | MinieLibrary/src/main/java/com/jme3/bullet/control/GhostControl.java:411-434 | reading what was written recovers the enabled flag, both apply flags and the spatial |
| GhostControlModel.ReadDefaults | MinieLibrary/src/main/java/com/jme3/bullet/control/GhostControl.java:427-434 | reading an empty capsule gives enabled, no local physics, no scale and no spatial |
| GhostControlModel.ReadWithoutSpaceKeepsInv | MinieLibrary/src/main/java/com/jme3/bullet/control/GhostControl.java:427-434 | reading into a ghost outside any space keeps the membership invariant |
| MultiBodyModel.NewMultiBody | MinieLibrary/src/main/java/com/jme3/bullet/MultiBody.java:129-141 | succeeds exactly for a non-negative link count, positive mass and inertia and a non-zero native id; a bad argument is an illegal-argument error; a new body has no configured links |
| MultiBodyModel.ConfigureLink | MinieLibrary/src/main/java/com/jme3/bullet/MultiBody.java:400-562 | succeeds exactly for positive mass and inertia while a link is free; bad mass or inertia is an illegal argument and a full body an assertion failure; the new link has the next index, the joint type, the parent's index, the given mass and no collider, and nothing else changes |
| MultiBodyModel.GetLink | MinieLibrary/src/main/java/com/jme3/bullet/MultiBody.java:638-644 | an index outside the configured links is an illegal-argument error; otherwise the link with that index |
| MultiBodyModel.ConfigureThenGet | MinieLibrary/src/main/java/com/jme3/bullet/MultiBody.java:1076-1086 | after configuring a link, getting its index returns it and every earlier link is unchanged |
| MultiBodyModel.ListColliders | MinieLibrary/src/main/java/com/jme3/bullet/MultiBody.java:711-728 | the base collider comes first when present, followed by the colliders of the links in index order |
| MultiBodyModel.LinkCollidersAppend | MinieLibrary/src/main/java/com/jme3/bullet/MultiBody.java:711-728 | the link colliders of two runs of link slots are those of the first followed by those of the second |
| MultiBodyModel.ConfigureLinkKeepsColliders | MinieLibrary/src/main/java/com/jme3/bullet/MultiBody.java:400-562 | configuring a link adds no collider: the listing is unchanged |
| MultiBodyModel.Contains | MinieLibrary/src/main/java/com/jme3/bullet/MultiBody.java:570-585 | true exactly when the collider is the base collider or a link's collider, that is, when it is listed |
| MultiBodyModel.AddBaseCollider | MinieLibrary/src/main/java/com/jme3/bullet/MultiBody.java:151-163 | succeeds exactly when there is no base collider yet, and then the new collider heads the listing |
| MultiBodyModel.PopCountOneIffPowerOfTwo | MinieLibrary/src/main/java/com/jme3/bullet/MultiBody.java:838-841 | a natural number has exactly one set bit if and only if it is a power of two |
| MultiBodyModel.BitCountOneIffSingleBit | MinieLibrary/src/main/java/com/jme3/bullet/MultiBody.java:838-841 | `Integer.bitCount` of a 32-bit int is 1 exactly when its unsigned value is 2^k for some k below 32 |
| MultiBodyModel.SetCollisionGroup | MinieLibrary/src/main/java/com/jme3/bullet/MultiBody.java:838-841 | accepted exactly for a group with one bit set (the sign bit included), and then only the group changes |
| MultiBodyModel.CompareTo | MinieLibrary/src/main/java/com/jme3/bullet/MultiBody.java:881-886 | the sign of the result is the order of the native ids |
| MultiBodyModel.CompareToIsOrder | MinieLibrary/src/main/java/com/jme3/bullet/MultiBody.java:881-886 | the comparison is antisymmetric and transitive |

## Left out

- DacConfiguration is not part of this model. The torso name is the constant `WizardBones.TorsoName`, taken as the empty string. Bone names are assumed to differ from it wherever a lemma needs distinct names.
- Asset loading, the influence analysis (`RagUtils` mesh scans), vertex coordinates and the range-of-motion thread are parameters or left out. The wizard records which model its vertex assignment was computed from, not the coordinates.
- Rendering is left out: materials other than the joint-end colour, meshes, shapes and node geometry. A debug node is an identifier carrying one control and, optionally, axis settings. Joint nodes use one control kind for constraints and soft joints alike.
- The physics-space queries used by the debug update are given as lists and functions: the object lists, the CCD threshold and the swept-sphere radius. Floating point is `real`, with no NaN or infinities.
- All native calls (`finalizeMultiDof`, creating the native multibody, collision-group setters, the shape scale's cube root) are left out or given as parameters. For `canScale` and `uniform` in the ghost update, the caller supplies the shape's answers.
- GhostControl serialization covers the capsule keys, defaults and fields of this class only. The superclass's fields and the exporter's binary format are left out.
- PhysicsDumper's text output is modelled for the cluster node listing only. The stream and the other dumps are left out.
- Logging and concurrency are left out.
- ClusterListing: node indices are `nat`, so a negative index, which `BitSet.set` rejects with an exception, is not represented; native node indices are never negative.
- WizardBones.FindManager: the Java loop has no fuel. The model requires the skeleton to be a forest (every parent chain ends), which a jME skeleton guarantees.
- GhostControlModel.SetPhysicsSpace: requires that an added ghost has a space, as it always does in Java.
- DebugAppState.UpdateSharedTable: models the shared table as written. Its own contract states only that the scene stays well formed. `DebugAppState.SharedTableAgreesElsewhere` relates it to the corrected update outside the collision-object tables, and `DebugAppState.SharedTableHidesBoundingBox` exhibits the discrepancy inside them.
- MultiBodyModel.SetCollisionGroup: requires its argument to be a 32-bit value, because Java's `int` parameter guarantees it.

## Findings

| source | as written | input that shows it | evidently intended | confidence | as-written member | corrected member |
|---|---|---|---|---|---|---|
| MinieLibrary/src/main/java/com/jme3/bullet/debug/BulletDebugAppState.java:742-770 | `updateSweptSpheres` reconciles the same `pcos` map that `updateBoundingBoxes` filled, so with both filters set each box node is either detached or reused as the sphere node of its object, and that node still carries the box control | one collision object with a bounding box, CCD threshold 0, both filters accepting everything | bounding boxes and swept spheres are kept in separate tables | medium, not executed | DebugAppState.SharedTableHidesBoundingBox | DebugAppState.UpdateShowsBoundingBoxes |
| DacWizard/src/main/java/jme3utilities/minie/wizard/Model.java:622-629 | `load` links no bones through `setLinkedBones`, which returns early when the set equals the current one, so a second load with no bones linked keeps the vertex assignment of the previous model | load a model, then load another model while no bones are linked | every load recomputes the vertex assignment for the model just loaded | medium, not executed | WizardModel.ReloadKeepsStaleCoords | WizardModel.LoadRebuildingCoords |
