/** BulletDebugAppState: per-frame synchronization of the debug scene with
    the physics space (one reconciliation pass per kind of visualization, in
    a fixed order, the bounding-box and swept-sphere passes only when their
    filters are set), the axis-arrow settings, and the joint materials. */
module DebugAppState {
  import opened Common
  import opened DebugScene

  /** Which end of a joint is visualized. */
  datatype JointEnd = EndA | EndB

  /** The wireframe colours used for joint ends. */
  datatype JointColour = Green | Red

  /** `getJointMaterial`: end A is drawn green, end B red. */
  function JointMaterial(end: JointEnd): (colour: JointColour)
    ensures colour == Green <==> end == EndA
    ensures colour == Red <==> end == EndB
  {
    match end
    case EndA => Green
    case EndB => Red
  }

  /** `Float.MAX_VALUE`, the largest finite single-precision value. */
  const FloatMax: real := 340282346638528859811704183484516925440.0

  datatype DebugError = IllegalArgument

  /** The physics space as the app state sees it: its object lists and the
      continuous-collision parameters of each collision object. */
  datatype Space = Space(
    rigidBodies: seq<ObjectId>,
    ghosts: seq<ObjectId>,
    characters: seq<ObjectId>,
    joints: seq<ObjectId>,
    vehicles: seq<ObjectId>,
    pcos: seq<ObjectId>,
    ccdMotionThreshold: ObjectId -> real,
    ccdSweptSphereRadius: ObjectId -> real)

  /** Each list the space hands out names each object once. */
  predicate SpaceWf(space: Space)
  {
    && NoDuplicates(space.rigidBodies) && NoDuplicates(space.ghosts)
    && NoDuplicates(space.characters) && NoDuplicates(space.joints)
    && NoDuplicates(space.vehicles) && NoDuplicates(space.pcos)
  }

  /** The three filters; None is a null filter. */
  datatype Filters = Filters(
    filter: Option<ObjectId -> bool>,
    boundingBoxFilter: Option<ObjectId -> bool>,
    sweptSphereFilter: Option<ObjectId -> bool>)

  /** The object-shape filter: a null filter shows every object. */
  function ShapeShown(filter: Option<ObjectId -> bool>): ObjectId -> bool
  {
    if filter.None? then (o: ObjectId) => true else filter.value
  }

  /** A swept sphere is shown when the filter accepts the object and both its
      CCD motion threshold and swept-sphere radius are positive. */
  function SphereShown(filter: ObjectId -> bool, space: Space): ObjectId -> bool
  {
    (o: ObjectId) => filter(o) && space.ccdMotionThreshold(o) > 0.0
                     && space.ccdSweptSphereRadius(o) > 0.0
  }

  /** The map from objects to visualization nodes kept for each kind of
      visualization. */
  type Tables = map<ControlKind, map<ObjectId, NodeId>>

  datatype DebugState = DebugState(
    scene: Scene,
    tables: Tables,
    axisLength: real,
    axisLineWidth: real)

  const AllKinds: set<ControlKind> :=
    {RigidBodyControl, GhostControl, CharacterControl, JointControl, VehicleControl,
     BoundingBoxControl, SweptSphereControl}

  /** Node `n` is attached and carries the control of kind `k` for `o`. */
  predicate Carries(sc: Scene, n: NodeId, k: ControlKind, o: ObjectId)
  {
    n in sc.attached && n in sc.controls && sc.controls[n] == DebugControl(k, o)
  }

  /** The app state's invariant: every table exists, and every node a table
      records for an object is attached and carries that table's control for
      that object (so distinct entries, in one table or in two, never share
      a node). */
  predicate Wf(st: DebugState)
  {
    && SceneWf(st.scene)
    && (forall k :: k in st.tables)
    && (forall k, o :: k in st.tables && o in st.tables[k] ==>
          Carries(st.scene, st.tables[k][o], k, o))
  }

  /** A new app state: no nodes, empty tables, no axis arrows, line width 1. */
  function Initial(): (st: DebugState)
    ensures Wf(st)
    ensures st.scene.attached == {} && st.scene.next == 0
    ensures forall k :: k in st.tables && st.tables[k] == map[]
    ensures st.axisLength == 0.0 && st.axisLineWidth == 1.0
  {
    AllKindsListed();
    DebugState(Scene({}, map[], map[], 0), map k | k in AllKinds :: map[], 0.0, 1.0)
  }

  lemma AllKindsListed()
    ensures forall k :: k in AllKinds
  {
    forall k: ControlKind ensures k in AllKinds {
      match k
      case RigidBodyControl =>
      case GhostControl =>
      case CharacterControl =>
      case JointControl =>
      case VehicleControl =>
      case BoundingBoxControl =>
      case SweptSphereControl =>
    }
  }

  /** A table entry never shares its node with an entry of another object or
      of another table. */
  lemma WfNodesDistinct(st: DebugState, k: ControlKind, o: ObjectId, k': ControlKind, o': ObjectId)
    requires Wf(st)
    requires o in st.tables[k] && o' in st.tables[k'] && (k != k' || o != o')
    ensures st.tables[k][o] != st.tables[k'][o']
  {
    assert Carries(st.scene, st.tables[k][o], k, o);
    assert Carries(st.scene, st.tables[k'][o'], k', o');
  }

  // ---------------------------------------------------------------------
  // Settings

  /** `setAxisLength`: negative lengths are rejected. */
  function SetAxisLength(st: DebugState, length: real): (r: Result<DebugState, DebugError>)
    ensures r.Ok? <==> length >= 0.0
    ensures r.Ok? ==> r.value == st.(axisLength := length)
  {
    if length < 0.0 then Err(IllegalArgument) else Ok(st.(axisLength := length))
  }

  /** `setAxisLineWidth`: widths outside [0, Float.MAX_VALUE] are rejected. */
  function SetAxisLineWidth(st: DebugState, width: real): (r: Result<DebugState, DebugError>)
    ensures r.Ok? <==> 0.0 <= width <= FloatMax
    ensures r.Ok? ==> r.value == st.(axisLineWidth := width)
  {
    if width < 0.0 || width > FloatMax then Err(IllegalArgument)
    else Ok(st.(axisLineWidth := width))
  }

  // ---------------------------------------------------------------------
  // update()

  /** One update* method: reconcile table `table` with `list`, creating
      controls of kind `kind`. */
  function Pass(st: DebugState, table: ControlKind, list: seq<ObjectId>, show: ObjectId -> bool,
                kind: ControlKind, axes: Option<AxesSettings>): (r: DebugState)
    requires Wf(st)
    ensures SceneWf(r.scene) && r.scene.next >= st.scene.next
    ensures r.axisLength == st.axisLength && r.axisLineWidth == st.axisLineWidth
    ensures forall k :: k in r.tables
    ensures forall k :: k != table ==> r.tables[k] == st.tables[k]
  {
    assert forall o :: o in st.tables[table] ==> st.tables[table][o] < st.scene.next by {
      forall o | o in st.tables[table] ensures st.tables[table][o] < st.scene.next {
        assert Carries(st.scene, st.tables[table][o], table, o);
      }
    }
    var r := Reconcile(st.scene, st.tables[table], list, show, kind, axes);
    st.(scene := r.0, tables := st.tables[table := r.1])
  }

  /** A pass that creates controls of its own table's kind keeps the
      invariant; its table then covers exactly the shown objects, and no other
      table changes. */
  lemma PassPreservesWf(st: DebugState, k: ControlKind, list: seq<ObjectId>, show: ObjectId -> bool,
                        axes: Option<AxesSettings>)
    requires Wf(st) && NoDuplicates(list)
    ensures var r := Pass(st, k, list, show, k, axes);
      && Wf(r)
      && r.tables[k].Keys == Shown(list, show)
      && (forall o :: o in r.tables[k] && o in st.tables[k] ==> r.tables[k][o] == st.tables[k][o])
  {
    var prev := st.tables[k];
    forall o | o in prev ensures prev[o] < st.scene.next {
      assert Carries(st.scene, prev[o], k, o);
    }
    forall o, o' | o in prev && o' in prev && o != o' ensures prev[o] != prev[o'] {
      WfNodesDistinct(st, k, o, k, o');
    }
    ReconcileSpec(st.scene, prev, list, show, k, axes);
    var r := Pass(st, k, list, show, k, axes);
    var sc, m := r.scene, r.tables[k];
    forall k', o | k' in r.tables && o in r.tables[k']
      ensures Carries(sc, r.tables[k'][o], k', o)
    {
      if k' == k {
        if o in prev {
          assert Carries(st.scene, prev[o], k, o);
        }
      } else {
        var n := st.tables[k'][o];
        assert Carries(st.scene, n, k', o);
        forall o'' | o'' in prev ensures prev[o''] != n {
          WfNodesDistinct(st, k, o'', k', o);
        }
        assert n !in prev.Values;
      }
    }
  }

  /** A pass changes no other table's axis arrows. */
  lemma PassKeepsOtherAxes(st: DebugState, k: ControlKind, list: seq<ObjectId>, show: ObjectId -> bool,
                           axes: Option<AxesSettings>, k': ControlKind, s: AxesSettings)
    requires Wf(st) && NoDuplicates(list) && k' != k && AxesShown(st, k', s)
    ensures AxesShown(Pass(st, k, list, show, k, axes), k', s)
  {
    var prev := st.tables[k];
    forall o | o in prev ensures prev[o] < st.scene.next {
      assert Carries(st.scene, prev[o], k, o);
    }
    PassPreservesWf(st, k, list, show, axes);
    var r := Pass(st, k, list, show, k, axes);
    var rr := Reconcile(st.scene, prev, list, show, k, axes);
    ReconcileAxesFrame(st.scene, prev, list, show, k, axes);
    forall o | o in r.tables[k'] ensures AxesSame(st.scene, r.scene, r.tables[k'][o]) {
      forall o' | o' in rr.1 ensures rr.1[o'] != r.tables[k'][o] {
        WfNodesDistinct(r, k, o', k', o);
      }
    }
  }

  /** Every node of table `k` has axis arrows exactly when the length in `s`
      is positive, with the settings `s`. */
  ghost predicate AxesShown(st: DebugState, k: ControlKind, s: AxesSettings)
    requires k in st.tables
  {
    forall o :: o in st.tables[k] ==>
      && (st.tables[k][o] in st.scene.axes <==> s.length > 0.0)
      && (st.tables[k][o] in st.scene.axes ==> st.scene.axes[st.tables[k][o]] == s)
  }

  /** A pass that draws axes leaves its own table's nodes with the current
      axis arrows. */
  lemma PassShowsAxes(st: DebugState, k: ControlKind, list: seq<ObjectId>, show: ObjectId -> bool,
                      s: AxesSettings)
    requires Wf(st)
    ensures AxesShown(Pass(st, k, list, show, k, Some(s)), k, s)
  {
    var prev := st.tables[k];
    forall o | o in prev ensures prev[o] < st.scene.next {
      assert Carries(st.scene, prev[o], k, o);
    }
    ReconcileAxes(st.scene, prev, list, show, k, s);
  }

  /** One pass of `update`: the table it reconciles (and the kind of control
      it creates), the objects it walks, the filter, and the axis arrows it
      draws, if any. */
  datatype PassSpec = PassSpec(
    table: ControlKind, list: seq<ObjectId>, show: ObjectId -> bool, axes: Option<AxesSettings>)

  function Apply(st: DebugState, p: PassSpec): (r: DebugState)
    requires Wf(st)
  {
    Pass(st, p.table, p.list, p.show, p.table, p.axes)
  }

  predicate ListsWf(ps: seq<PassSpec>)
  {
    forall i :: 0 <= i < |ps| ==> NoDuplicates(ps[i].list)
  }

  /** Run passes in order. */
  function RunPasses(st: DebugState, ps: seq<PassSpec>): (r: DebugState)
    requires Wf(st) && ListsWf(ps)
    ensures Wf(r)
    decreases |ps|
  {
    if ps == [] then st
    else
      PassPreservesWf(st, ps[0].table, ps[0].list, ps[0].show, ps[0].axes);
      RunPasses(Apply(st, ps[0]), ps[1..])
  }

  /** No pass after pass `i` reconciles the same table. */
  predicate LastFor(ps: seq<PassSpec>, i: nat)
    requires i < |ps|
  {
    forall j :: i < j < |ps| ==> ps[j].table != ps[i].table
  }

  /** After a run, a table no pass touches is unchanged, and the table of a
      pass no later pass touches holds exactly the objects that pass
      shows. */
  lemma {:induction false} RunPassesTables(st: DebugState, ps: seq<PassSpec>)
    requires Wf(st) && ListsWf(ps)
    ensures var r := RunPasses(st, ps);
      && (forall k :: (forall i :: 0 <= i < |ps| ==> ps[i].table != k) ==> r.tables[k] == st.tables[k])
      && (forall i :: 0 <= i < |ps| && LastFor(ps, i) ==>
            r.tables[ps[i].table].Keys == Shown(ps[i].list, ps[i].show))
    decreases |ps|
  {
    if ps != [] {
      PassPreservesWf(st, ps[0].table, ps[0].list, ps[0].show, ps[0].axes);
      var st' := Apply(st, ps[0]);
      var tail := ps[1..];
      RunPassesTables(st', tail);
      var r := RunPasses(st', tail);
      assert r == RunPasses(st, ps);
      forall k | forall i :: 0 <= i < |ps| ==> ps[i].table != k
        ensures r.tables[k] == st.tables[k]
      {
        assert ps[0].table != k;
        assert forall i :: 0 <= i < |tail| ==> tail[i].table != k by {
          forall i | 0 <= i < |tail| ensures tail[i].table != k {
            assert tail[i] == ps[i + 1];
          }
        }
      }
      forall i | 0 <= i < |ps| && LastFor(ps, i)
        ensures r.tables[ps[i].table].Keys == Shown(ps[i].list, ps[i].show)
      {
        if i == 0 {
          forall j | 0 <= j < |tail| ensures tail[j].table != ps[0].table {
            assert tail[j] == ps[j + 1];
          }
        } else {
          assert tail[i - 1] == ps[i];
          assert LastFor(tail, i - 1) by {
            forall j | i - 1 < j < |tail| ensures tail[j].table != tail[i - 1].table {
              assert tail[j] == ps[j + 1];
            }
          }
        }
      }
    }
  }

  /** After a run, the table of a pass that draws axis arrows and that no
      later pass touches has the arrows that pass drew. */
  lemma {:induction false} RunPassesAxes(st: DebugState, ps: seq<PassSpec>, i: nat, s: AxesSettings)
    requires Wf(st) && ListsWf(ps)
    requires i < |ps| && LastFor(ps, i) && ps[i].axes == Some(s)
    ensures AxesShown(RunPasses(st, ps), ps[i].table, s)
    decreases |ps|
  {
    PassPreservesWf(st, ps[0].table, ps[0].list, ps[0].show, ps[0].axes);
    var st' := Apply(st, ps[0]);
    var tail := ps[1..];
    if i == 0 {
      PassShowsAxes(st, ps[0].table, ps[0].list, ps[0].show, s);
      forall j | 0 <= j < |tail| ensures tail[j].table != ps[0].table {
        assert tail[j] == ps[j + 1];
      }
      RunPassesKeepAxes(st', tail, ps[0].table, s);
    } else {
      assert tail[i - 1] == ps[i];
      assert LastFor(tail, i - 1) by {
        forall j | i - 1 < j < |tail| ensures tail[j].table != tail[i - 1].table {
          assert tail[j] == ps[j + 1];
        }
      }
      RunPassesAxes(st', tail, i - 1, s);
    }
  }

  /** Passes over other tables keep a table's axis arrows. */
  lemma {:induction false} RunPassesKeepAxes(st: DebugState, ps: seq<PassSpec>, k: ControlKind, s: AxesSettings)
    requires Wf(st) && ListsWf(ps) && AxesShown(st, k, s)
    requires forall i :: 0 <= i < |ps| ==> ps[i].table != k
    ensures AxesShown(RunPasses(st, ps), k, s)
    decreases |ps|
  {
    if ps != [] {
      PassKeepsOtherAxes(st, ps[0].table, ps[0].list, ps[0].show, ps[0].axes, k, s);
      PassPreservesWf(st, ps[0].table, ps[0].list, ps[0].show, ps[0].axes);
      var tail := ps[1..];
      forall j | 0 <= j < |tail| ensures tail[j].table != k {
        assert tail[j] == ps[j + 1];
      }
      RunPassesKeepAxes(Apply(st, ps[0]), tail, k, s);
    }
  }

  /** The axis-arrow settings passed to the passes that draw axes. */
  function AxesOf(st: DebugState): AxesSettings
  {
    AxesSettings(st.axisLength, st.axisLineWidth)
  }

  /** The passes of `update`, in order: rigid bodies, ghosts and characters
      (these three with axis arrows), joints, vehicles, then bounding boxes
      if that filter is set, then swept spheres if that filter is set. */
  function Schedule(st: DebugState, space: Space, fl: Filters): (ps: seq<PassSpec>)
    requires SpaceWf(space)
    ensures ListsWf(ps)
  {
    var show := ShapeShown(fl.filter);
    var ax := Some(AxesOf(st));
    var ps := [PassSpec(RigidBodyControl, space.rigidBodies, show, ax),
               PassSpec(GhostControl, space.ghosts, show, ax),
               PassSpec(CharacterControl, space.characters, show, ax),
               PassSpec(JointControl, space.joints, show, None),
               PassSpec(VehicleControl, space.vehicles, show, None)]
      + (if fl.boundingBoxFilter.Some? then
           [PassSpec(BoundingBoxControl, space.pcos, fl.boundingBoxFilter.value, None)] else [])
      + (if fl.sweptSphereFilter.Some? then
           [PassSpec(SweptSphereControl, space.pcos, SphereShown(fl.sweptSphereFilter.value, space),
                     None)] else []);
    assert forall i :: 0 <= i < |ps| ==>
      ps[i].list in [space.rigidBodies, space.ghosts, space.characters, space.joints, space.vehicles,
                     space.pcos];
    ps
  }

  /** `update`, with the bounding boxes and swept spheres kept in tables of
      their own. */
  function Update(st: DebugState, space: Space, fl: Filters): (r: DebugState)
    requires Wf(st) && SpaceWf(space)
    ensures Wf(r)
    ensures r.axisLength == st.axisLength && r.axisLineWidth == st.axisLineWidth
  {
    RunPassesSettings(st, Schedule(st, space, fl));
    RunPasses(st, Schedule(st, space, fl))
  }

  lemma {:induction false} RunPassesSettings(st: DebugState, ps: seq<PassSpec>)
    requires Wf(st) && ListsWf(ps)
    ensures RunPasses(st, ps).axisLength == st.axisLength
    ensures RunPasses(st, ps).axisLineWidth == st.axisLineWidth
    decreases |ps|
  {
    if ps != [] {
      PassPreservesWf(st, ps[0].table, ps[0].list, ps[0].show, ps[0].axes);
      RunPassesSettings(Apply(st, ps[0]), ps[1..]);
    }
  }

  /** The tables of the schedule's passes are pairwise distinct, so each
      pass is the last to touch its table. */
  lemma ScheduleTablesDistinct(st: DebugState, space: Space, fl: Filters)
    requires SpaceWf(space)
    ensures var ps := Schedule(st, space, fl);
      && 5 <= |ps|
      && ps[0].table == RigidBodyControl && ps[1].table == GhostControl
      && ps[2].table == CharacterControl && ps[3].table == JointControl
      && ps[4].table == VehicleControl
      && (forall i :: 0 <= i < |ps| ==> LastFor(ps, i))
      && (fl.boundingBoxFilter.None? ==> forall i :: 0 <= i < |ps| ==> ps[i].table != BoundingBoxControl)
      && (fl.sweptSphereFilter.None? ==> forall i :: 0 <= i < |ps| ==> ps[i].table != SweptSphereControl)
      && (fl.boundingBoxFilter.Some? ==>
            ps[5] == PassSpec(BoundingBoxControl, space.pcos, fl.boundingBoxFilter.value, None))
      && (fl.sweptSphereFilter.Some? ==>
            ps[|ps| - 1] == PassSpec(SweptSphereControl, space.pcos,
                                     SphereShown(fl.sweptSphereFilter.value, space), None))
  {
    var ps := Schedule(st, space, fl);
    var show := ShapeShown(fl.filter);
    var ax := Some(AxesOf(st));
    var objects := [PassSpec(RigidBodyControl, space.rigidBodies, show, ax),
                    PassSpec(GhostControl, space.ghosts, show, ax),
                    PassSpec(CharacterControl, space.characters, show, ax),
                    PassSpec(JointControl, space.joints, show, None),
                    PassSpec(VehicleControl, space.vehicles, show, None)];
    var boxes := if fl.boundingBoxFilter.Some? then
           [PassSpec(BoundingBoxControl, space.pcos, fl.boundingBoxFilter.value, None)] else [];
    var spheres := if fl.sweptSphereFilter.Some? then
           [PassSpec(SweptSphereControl, space.pcos, SphereShown(fl.sweptSphereFilter.value, space),
                     None)] else [];
    assert ps == objects + boxes + spheres;
    if fl.boundingBoxFilter.Some? && fl.sweptSphereFilter.Some? {
      assert |ps| == 7;
    } else if fl.boundingBoxFilter.Some? {
      assert |ps| == 6;
    } else if fl.sweptSphereFilter.Some? {
      assert |ps| == 6;
    } else {
      assert |ps| == 5;
    }
  }

  /** After an update, the table of each kind of physics object holds
      exactly the objects of that kind the filter shows. */
  lemma UpdateShowsObjects(st: DebugState, space: Space, fl: Filters)
    requires Wf(st) && SpaceWf(space)
    ensures var r := Update(st, space, fl);
      var show := ShapeShown(fl.filter);
      && r.tables[RigidBodyControl].Keys == Shown(space.rigidBodies, show)
      && r.tables[GhostControl].Keys == Shown(space.ghosts, show)
      && r.tables[CharacterControl].Keys == Shown(space.characters, show)
      && r.tables[JointControl].Keys == Shown(space.joints, show)
      && r.tables[VehicleControl].Keys == Shown(space.vehicles, show)
  {
    var ps := Schedule(st, space, fl);
    RunPassesTables(st, ps);
    ScheduleTablesDistinct(st, space, fl);
    assert LastFor(ps, 0) && LastFor(ps, 1) && LastFor(ps, 2) && LastFor(ps, 3) && LastFor(ps, 4);
  }

  /** After an update, the bounding-box table holds exactly the collision
      objects that filter shows, or is left as it was when the filter is
      null. */
  lemma UpdateShowsBoundingBoxes(st: DebugState, space: Space, fl: Filters)
    requires Wf(st) && SpaceWf(space)
    ensures var r := Update(st, space, fl);
      && (fl.boundingBoxFilter.Some? ==>
            r.tables[BoundingBoxControl].Keys == Shown(space.pcos, fl.boundingBoxFilter.value))
      && (fl.boundingBoxFilter.None? ==>
            r.tables[BoundingBoxControl] == st.tables[BoundingBoxControl])
  {
    var ps := Schedule(st, space, fl);
    RunPassesTables(st, ps);
    ScheduleTablesDistinct(st, space, fl);
    if fl.boundingBoxFilter.Some? {
      assert LastFor(ps, 5);
    }
  }

  /** After an update, the swept-sphere table holds exactly the collision
      objects that filter shows whose CCD motion threshold and swept-sphere
      radius are positive, or is left as it was when the filter is null. */
  lemma UpdateShowsSweptSpheres(st: DebugState, space: Space, fl: Filters)
    requires Wf(st) && SpaceWf(space)
    ensures var r := Update(st, space, fl);
      && (fl.sweptSphereFilter.Some? ==>
            r.tables[SweptSphereControl].Keys
              == Shown(space.pcos, SphereShown(fl.sweptSphereFilter.value, space)))
      && (fl.sweptSphereFilter.None? ==>
            r.tables[SweptSphereControl] == st.tables[SweptSphereControl])
  {
    var ps := Schedule(st, space, fl);
    RunPassesTables(st, ps);
    ScheduleTablesDistinct(st, space, fl);
    if fl.sweptSphereFilter.Some? {
      assert LastFor(ps, |ps| - 1);
    }
  }

  /** After an update, every rigid body, ghost and character shown has axis
      arrows exactly when the axis length is positive, drawn with the current
      length and line width. */
  lemma UpdateDrawsAxes(st: DebugState, space: Space, fl: Filters)
    requires Wf(st) && SpaceWf(space)
    ensures var r := Update(st, space, fl);
      && AxesShown(r, RigidBodyControl, AxesOf(st))
      && AxesShown(r, GhostControl, AxesOf(st))
      && AxesShown(r, CharacterControl, AxesOf(st))
  {
    var ps := Schedule(st, space, fl);
    ScheduleTablesDistinct(st, space, fl);
    RunPassesAxes(st, ps, 0, AxesOf(st));
    RunPassesAxes(st, ps, 1, AxesOf(st));
    RunPassesAxes(st, ps, 2, AxesOf(st));
  }

  // ---------------------------------------------------------------------
  // update() as written: one table for bounding boxes and swept spheres

  /** `update` as the source writes it: the bounding-box pass and the
      swept-sphere pass both read and replace the one collision-object table,
      so the swept-sphere pass starts from the bounding-box nodes (and may
      detach them or attach swept-sphere controls to them). */
  function UpdateSharedTable(st: DebugState, space: Space, fl: Filters): (r: DebugState)
    requires Wf(st) && SpaceWf(space)
    ensures SceneWf(r.scene)
  {
    var s6 := RunPasses(st, Schedule(st, space, fl.(sweptSphereFilter := None)));
    if fl.sweptSphereFilter.Some? then
      Pass(s6, BoundingBoxControl, space.pcos, SphereShown(fl.sweptSphereFilter.value, space),
           SweptSphereControl, None)
    else s6
  }

  /** The source's swept-sphere pass, run over the bounding-box table,
      keeps the axis arrows of every other table: the nodes it keeps are
      bounding-box nodes and the nodes it creates are new. */
  lemma SharedPassKeepsOtherAxes(st: DebugState, list: seq<ObjectId>, show: ObjectId -> bool,
                                 k': ControlKind, s: AxesSettings)
    requires Wf(st) && NoDuplicates(list) && k' != BoundingBoxControl && AxesShown(st, k', s)
    ensures AxesShown(Pass(st, BoundingBoxControl, list, show, SweptSphereControl, None), k', s)
  {
    var k := BoundingBoxControl;
    var prev := st.tables[k];
    forall o | o in prev ensures prev[o] < st.scene.next {
      assert Carries(st.scene, prev[o], k, o);
    }
    forall o, o' | o in prev && o' in prev && o != o' ensures prev[o] != prev[o'] {
      WfNodesDistinct(st, k, o, k, o');
    }
    var rr := Reconcile(st.scene, prev, list, show, SweptSphereControl, None);
    ReconcileSpec(st.scene, prev, list, show, SweptSphereControl, None);
    ReconcileAxesFrame(st.scene, prev, list, show, SweptSphereControl, None);
    var r := Pass(st, k, list, show, SweptSphereControl, None);
    assert r.scene == rr.0 && r.tables[k'] == st.tables[k'];
    forall o | o in st.tables[k'] ensures AxesSame(st.scene, r.scene, st.tables[k'][o]) {
      var n := st.tables[k'][o];
      assert Carries(st.scene, n, k', o);
      forall o' | o' in rr.1 ensures rr.1[o'] != n {
        if o' in prev {
          WfNodesDistinct(st, k, o', k', o);
        }
      }
    }
  }

  /** The source's update agrees with the corrected one everywhere but in
      the collision-object tables: with a null swept-sphere filter the two
      are the same update, and otherwise they leave the same five object
      tables, the same axis arrows on rigid bodies, ghosts and characters,
      and the same axis settings. */
  lemma SharedTableAgreesElsewhere(st: DebugState, space: Space, fl: Filters)
    requires Wf(st) && SpaceWf(space)
    ensures var u := UpdateSharedTable(st, space, fl);
      var c := Update(st, space, fl);
      && (fl.sweptSphereFilter.None? ==> u == c)
      && u.tables[RigidBodyControl] == c.tables[RigidBodyControl]
      && u.tables[GhostControl] == c.tables[GhostControl]
      && u.tables[CharacterControl] == c.tables[CharacterControl]
      && u.tables[JointControl] == c.tables[JointControl]
      && u.tables[VehicleControl] == c.tables[VehicleControl]
      && AxesShown(u, RigidBodyControl, AxesOf(st))
      && AxesShown(u, GhostControl, AxesOf(st))
      && AxesShown(u, CharacterControl, AxesOf(st))
      && u.axisLength == c.axisLength && u.axisLineWidth == c.axisLineWidth
  {
    var fl0 := fl.(sweptSphereFilter := None);
    var ps0 := Schedule(st, space, fl0);
    var s6 := RunPasses(st, ps0);
    ScheduleTablesDistinct(st, space, fl0);
    RunPassesAxes(st, ps0, 0, AxesOf(st));
    RunPassesAxes(st, ps0, 1, AxesOf(st));
    RunPassesAxes(st, ps0, 2, AxesOf(st));
    RunPassesSettings(st, ps0);
    if fl.sweptSphereFilter.Some? {
      var last := PassSpec(SweptSphereControl, space.pcos,
                           SphereShown(fl.sweptSphereFilter.value, space), None);
      assert Schedule(st, space, fl) == ps0 + [last];
      RunPassesAppend(st, ps0, [last]);
      assert Update(st, space, fl) == RunPasses(s6, [last]);
      SharedPassKeepsOtherAxes(s6, space.pcos, SphereShown(fl.sweptSphereFilter.value, space),
                               RigidBodyControl, AxesOf(st));
      SharedPassKeepsOtherAxes(s6, space.pcos, SphereShown(fl.sweptSphereFilter.value, space),
                               GhostControl, AxesOf(st));
      SharedPassKeepsOtherAxes(s6, space.pcos, SphereShown(fl.sweptSphereFilter.value, space),
                               CharacterControl, AxesOf(st));
    } else {
      assert fl0 == fl;
    }
  }

  /** A pass over an empty list and an empty table changes nothing. */
  lemma EmptyPass(st: DebugState, p: PassSpec)
    requires Wf(st) && p.list == [] && st.tables[p.table] == map[]
    ensures Apply(st, p) == st
  {
    var empty: map<ObjectId, NodeId> := map[];
    assert SyncList(Sync(st.scene, empty, empty), [], p.show, p.table, p.axes) == Sync(st.scene, empty, empty);
    assert empty.Values == {};
    assert Detach(st.scene, {}) == st.scene;
    assert st.tables[p.table := map[]] == st.tables;
  }

  lemma {:induction false} EmptyPasses(st: DebugState, ps: seq<PassSpec>)
    requires Wf(st) && ListsWf(ps)
    requires forall i :: 0 <= i < |ps| ==> ps[i].list == [] && st.tables[ps[i].table] == map[]
    ensures RunPasses(st, ps) == st
    decreases |ps|
  {
    if ps != [] {
      EmptyPass(st, ps[0]);
      assert forall i :: 0 <= i < |ps[1..]| ==> ps[1..][i] == ps[i + 1];
      EmptyPasses(st, ps[1..]);
    }
  }

  /** With one collision object, no other objects and a bounding-box filter
      that shows it, the passes before the swept spheres leave one attached
      node, carrying the object's bounding-box control. */
  lemma OneBoxPlaced(space: Space, fl: Filters)
    requires SpaceWf(space) && space.pcos == [7]
    requires space.rigidBodies == [] && space.ghosts == [] && space.characters == []
    requires space.joints == [] && space.vehicles == []
    requires fl.boundingBoxFilter.Some? && fl.boundingBoxFilter.value(7) && fl.sweptSphereFilter.None?
    ensures var s6 := RunPasses(Initial(), Schedule(Initial(), space, fl));
      && s6.scene.attached == {0}
      && s6.scene.controls == map[0 := DebugControl(BoundingBoxControl, 7)]
      && s6.tables[BoundingBoxControl] == map[7 := 0]
  {
    var ps := Schedule(Initial(), space, fl);
    assert |ps| == 6;
    EmptyPasses(Initial(), ps[..5]);
    RunPassesAppend(Initial(), ps[..5], ps[5..]);
    assert ps[..5] + ps[5..] == ps;
    var s6 := Apply(Initial(), ps[5]);
    assert RunPasses(Initial(), ps[5..]) == RunPasses(s6, []);
    var show := fl.boundingBoxFilter.value;
    var empty: map<ObjectId, NodeId> := map[];
    var sy := Sync(Initial().scene, empty, empty);
    PlaceSpec(sy, 7, BoundingBoxControl, None);
    var sy' := Place(sy, 7, BoundingBoxControl, None);
    assert SyncList(sy, [7], show, BoundingBoxControl, None) == sy' by {
      assert Step(sy, 7, show, BoundingBoxControl, None) == sy';
      assert [7][1..] == [];
    }
    assert sy'.remaining.Values == {};
    assert s6.scene == Detach(sy'.scene, {});
    assert s6.tables[BoundingBoxControl] == sy'.placed;
  }

  /** With both filters set and one collision object whose CCD motion
      threshold is zero, the source's update leaves that object's bounding box
      detached although the bounding-box filter shows it; with separate tables
      the bounding box stays. */
  lemma SharedTableHidesBoundingBox()
    ensures var space := Space([], [], [], [], [], [7], (o: ObjectId) => 0.0, (o: ObjectId) => 1.0);
      var all := (o: ObjectId) => true;
      var fl := Filters(None, Some(all), Some(all));
      var r := UpdateSharedTable(Initial(), space, fl);
      && 7 in Shown(space.pcos, all)
      && r.scene.controls == map[0 := DebugControl(BoundingBoxControl, 7)]
      && r.scene.attached == {}
      && 7 !in r.tables[BoundingBoxControl]
      && 7 in Update(Initial(), space, fl).tables[BoundingBoxControl]
  {
    var space := Space([], [], [], [], [], [7], (o: ObjectId) => 0.0, (o: ObjectId) => 1.0);
    var all := (o: ObjectId) => true;
    var fl := Filters(None, Some(all), Some(all));
    var fl0 := fl.(sweptSphereFilter := None);
    OneBoxPlaced(space, fl0);
    var s6 := RunPasses(Initial(), Schedule(Initial(), space, fl0));
    var show := SphereShown(all, space);
    assert !show(7);
    var prev: map<ObjectId, NodeId> := map[7 := 0];
    assert prev.Values == {0} by {
      assert prev[7] == 0;
    }
    var sy := Sync(s6.scene, prev, map[]);
    assert SyncList(sy, [7], show, SweptSphereControl, None) == sy by {
      assert Step(sy, 7, show, SweptSphereControl, None) == sy;
      assert [7][1..] == [];
    }
    assert Reconcile(s6.scene, prev, [7], show, SweptSphereControl, None)
        == (Detach(s6.scene, {0}), map[]);
    assert UpdateSharedTable(Initial(), space, fl)
        == Pass(s6, BoundingBoxControl, [7], show, SweptSphereControl, None);
    UpdateShowsBoundingBoxes(Initial(), space, fl);
  }

  lemma {:induction false} RunPassesAppend(st: DebugState, a: seq<PassSpec>, b: seq<PassSpec>)
    requires Wf(st) && ListsWf(a) && ListsWf(b)
    ensures ListsWf(a + b)
    ensures RunPasses(st, a + b) == RunPasses(RunPasses(st, a), b)
    decreases |a|
  {
    if a != [] {
      PassPreservesWf(st, a[0].table, a[0].list, a[0].show, a[0].axes);
      assert (a + b)[0] == a[0] && (a + b)[1..] == a[1..] + b;
      assert ListsWf(a[1..]);
      RunPassesAppend(Apply(st, a[0]), a[1..], b);
    } else {
      assert a + b == b;
    }
  }
}
