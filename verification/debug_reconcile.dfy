/** The debug scene of BulletDebugAppState and the reconciliation every
    update* method performs: each physics object the filter shows keeps the
    visualization node it had (or gets a new, attached node carrying a debug
    control for it), and the nodes of objects no longer shown are detached. */
module DebugScene {
  import opened Common

  /** Physics objects (collision objects and joints) are known by identity. */
  type ObjectId = nat
  /** Visualization nodes are known by identity; new ones are numbered in
      creation order. */
  type NodeId = nat

  /** The debug control a visualization node carries. */
  datatype ControlKind =
    | RigidBodyControl | GhostControl | CharacterControl | JointControl
    | VehicleControl | BoundingBoxControl | SweptSphereControl

  datatype DebugControl = DebugControl(kind: ControlKind, target: ObjectId)

  /** The settings of an axes visualizer: arrow length and line width. */
  datatype AxesSettings = AxesSettings(length: real, lineWidth: real)

  /** The part of the scene graph under the debug root node: which nodes
      are attached, the debug control and axes visualizer of each node, and
      the identity the next new node receives. */
  datatype Scene = Scene(
    attached: set<NodeId>,
    controls: map<NodeId, DebugControl>,
    axes: map<NodeId, AxesSettings>,
    next: NodeId)

  /** Every node the scene knows about has already been created. */
  predicate SceneWf(sc: Scene)
  {
    && (forall n :: n in sc.attached ==> n < sc.next)
    && (forall n :: n in sc.controls ==> n < sc.next)
    && (forall n :: n in sc.axes ==> n < sc.next)
  }

  /** A map from objects to nodes that gives distinct objects distinct
      nodes. */
  predicate Injective(m: map<ObjectId, NodeId>)
  {
    forall o, o' :: o in m && o' in m && o != o' ==> m[o] != m[o']
  }

  predicate NoDuplicates(list: seq<ObjectId>)
  {
    forall i, j :: 0 <= i < j < |list| ==> list[i] != list[j]
  }

  /** The objects of `list` the filter shows. */
  function Shown(list: seq<ObjectId>, show: ObjectId -> bool): (s: set<ObjectId>)
    ensures forall o :: o in s <==> o in list && show(o)
  {
    set o | o in list && show(o)
  }

  /** Create a node, attach it to the debug root, and add its control. */
  function NewNode(sc: Scene, c: DebugControl): (r: (Scene, NodeId))
    requires SceneWf(sc)
    ensures r.1 == sc.next && r.1 !in sc.attached && r.1 !in sc.controls && r.1 !in sc.axes
    ensures r.0 == sc.(attached := sc.attached + {r.1}, controls := sc.controls[r.1 := c],
                       next := sc.next + 1)
    ensures SceneWf(r.0)
  {
    var n := sc.next;
    (sc.(attached := sc.attached + {n}, controls := sc.controls[n := c], next := n + 1), n)
  }

  /** `updateAxes`: a node ends up with an axes visualizer exactly when the
      arrow length is positive, and then with the current settings. */
  function UpdateAxes(sc: Scene, n: NodeId, s: AxesSettings): (r: Scene)
    ensures n in r.axes <==> s.length > 0.0
    ensures n in r.axes ==> r.axes[n] == s
    ensures forall m :: m != n ==> (m in r.axes <==> m in sc.axes)
    ensures forall m :: m != n && m in sc.axes ==> r.axes[m] == sc.axes[m]
    ensures r.attached == sc.attached && r.controls == sc.controls && r.next == sc.next
  {
    if n in sc.axes then
      if s.length > 0.0 then sc.(axes := sc.axes[n := s])
      else sc.(axes := sc.axes - {n})
    else if s.length > 0.0 then sc.(axes := sc.axes[n := s])
    else sc
  }

  /** Detach every node of a set from the debug root. */
  function Detach(sc: Scene, nodes: set<NodeId>): (r: Scene)
    ensures forall n :: n in r.attached <==> n in sc.attached && n !in nodes
    ensures r.controls == sc.controls && r.axes == sc.axes && r.next == sc.next
  {
    sc.(attached := sc.attached - nodes)
  }

  // ---------------------------------------------------------------------
  // The loop over the space's object list

  /** The state of one update* loop: the scene, the old map's entries not yet
      claimed, and the new map built so far. */
  datatype Sync = Sync(scene: Scene, remaining: map<ObjectId, NodeId>, placed: map<ObjectId, NodeId>)

  /** The body of the loop for an object the filter shows: take its node
      out of the old map, or create one; record it in the new map; update
      its axes visualizer when the pass has one. */
  function Place(st: Sync, o: ObjectId, c: ControlKind, axes: Option<AxesSettings>): (r: Sync)
    requires SceneWf(st.scene)
    requires forall o' :: o' in st.remaining ==> st.remaining[o'] < st.scene.next
    ensures SceneWf(r.scene) && forall o' :: o' in r.remaining ==> r.remaining[o'] < r.scene.next
  {
    var (sc1, n) := if o in st.remaining then (st.scene, st.remaining[o])
                    else NewNode(st.scene, DebugControl(c, o));
    var sc2 := if axes.Some? then UpdateAxes(sc1, n, axes.value) else sc1;
    Sync(sc2, st.remaining - {o}, st.placed[o := n])
  }

  /** The effect of one loop body: the object's node is its old one or a
      new attached node with a control for it; the node's axes follow the
      settings; nothing else in the scene changes. */
  lemma PlaceSpec(st: Sync, o: ObjectId, c: ControlKind, axes: Option<AxesSettings>)
    requires SceneWf(st.scene)
    requires forall o' :: o' in st.remaining ==> st.remaining[o'] < st.scene.next
    ensures var r := Place(st, o, c, axes);
      var n := if o in st.remaining then st.remaining[o] else st.scene.next;
      && r.placed == st.placed[o := n]
      && r.remaining == st.remaining - {o}
      && (o in st.remaining ==>
            r.scene.attached == st.scene.attached && r.scene.controls == st.scene.controls
            && r.scene.next == st.scene.next)
      && (o !in st.remaining ==>
            && r.scene.attached == st.scene.attached + {n}
            && r.scene.controls == st.scene.controls[n := DebugControl(c, o)]
            && r.scene.next == n + 1)
      && (axes.None? ==> r.scene.axes == st.scene.axes)
      && (axes.Some? ==>
            && (n in r.scene.axes <==> axes.value.length > 0.0)
            && (n in r.scene.axes ==> r.scene.axes[n] == axes.value)
            && (forall m :: m != n ==> (m in r.scene.axes <==> m in st.scene.axes))
            && (forall m :: m != n && m in st.scene.axes ==> r.scene.axes[m] == st.scene.axes[m]))
  {
  }

  /** One step of the loop. */
  function Step(st: Sync, o: ObjectId, show: ObjectId -> bool, c: ControlKind,
                axes: Option<AxesSettings>): (r: Sync)
    requires SceneWf(st.scene)
    requires forall o' :: o' in st.remaining ==> st.remaining[o'] < st.scene.next
    ensures SceneWf(r.scene) && forall o' :: o' in r.remaining ==> r.remaining[o'] < r.scene.next
  {
    if show(o) then Place(st, o, c, axes) else st
  }

  /** The loop over the list, in list order. */
  function SyncList(st: Sync, list: seq<ObjectId>, show: ObjectId -> bool,
                    c: ControlKind, axes: Option<AxesSettings>): (r: Sync)
    requires SceneWf(st.scene)
    requires forall o :: o in st.remaining ==> st.remaining[o] < st.scene.next
    ensures SceneWf(r.scene) && r.scene.next >= st.scene.next
    ensures forall o :: o in r.remaining ==> r.remaining[o] < r.scene.next
    decreases |list|
  {
    if |list| == 0 then st
    else
      SyncList(Step(st, list[0], show, c, axes), list[1..], show, c, axes)
  }

  lemma StepKeys(st: Sync, o: ObjectId, show: ObjectId -> bool,
                  c: ControlKind, axes: Option<AxesSettings>)
    requires SceneWf(st.scene)
    requires forall o' :: o' in st.remaining ==> st.remaining[o'] < st.scene.next
    ensures Step(st, o, show, c, axes).placed.Keys == st.placed.Keys + Shown([o], show)
    ensures Step(st, o, show, c, axes).remaining == st.remaining - Shown([o], show)
  {
    if show(o) {
      PlaceSpec(st, o, c, axes);
      assert Shown([o], show) == {o};
    } else {
      assert Shown([o], show) == {};
    }
  }

  /** The objects of a non-empty list the filter shows: those of its head
      and those of its tail. */
  lemma ShownCons(list: seq<ObjectId>, show: ObjectId -> bool)
    requires |list| > 0
    ensures Shown(list, show) == Shown([list[0]], show) + Shown(list[1..], show)
  {
    assert forall o :: o in list <==> o == list[0] || o in list[1..];
  }

  lemma {:induction false} SyncListPlacedKeys(st: Sync, list: seq<ObjectId>, show: ObjectId -> bool,
                                              c: ControlKind, axes: Option<AxesSettings>)
    requires SceneWf(st.scene)
    requires forall o :: o in st.remaining ==> st.remaining[o] < st.scene.next
    ensures SyncList(st, list, show, c, axes).placed.Keys == st.placed.Keys + Shown(list, show)
    decreases |list|
  {
    if |list| > 0 {
      var st' := Step(st, list[0], show, c, axes);
      StepKeys(st, list[0], show, c, axes);
      SyncListPlacedKeys(st', list[1..], show, c, axes);
      ShownCons(list, show);
    }
  }

  lemma MapMinusTwice(m: map<ObjectId, NodeId>, a: set<ObjectId>, b: set<ObjectId>)
    ensures (m - a) - b == m - (a + b)
  {
  }

  lemma {:induction false} SyncListRemaining(st: Sync, list: seq<ObjectId>, show: ObjectId -> bool,
                                             c: ControlKind, axes: Option<AxesSettings>)
    requires SceneWf(st.scene)
    requires forall o :: o in st.remaining ==> st.remaining[o] < st.scene.next
    ensures SyncList(st, list, show, c, axes).remaining == st.remaining - Shown(list, show)
    decreases |list|
  {
    if |list| > 0 {
      var st' := Step(st, list[0], show, c, axes);
      StepKeys(st, list[0], show, c, axes);
      SyncListRemaining(st', list[1..], show, c, axes);
      ShownCons(list, show);
      MapMinusTwice(st.remaining, Shown([list[0]], show), Shown(list[1..], show));
    }
  }

  /** The loop claims exactly the shown objects: they join the new map and
      leave the old one, whose other entries are untouched. */
  lemma SyncListKeys(st: Sync, list: seq<ObjectId>, show: ObjectId -> bool,
                     c: ControlKind, axes: Option<AxesSettings>)
    requires SceneWf(st.scene)
    requires forall o :: o in st.remaining ==> st.remaining[o] < st.scene.next
    ensures SyncList(st, list, show, c, axes).placed.Keys == st.placed.Keys + Shown(list, show)
    ensures SyncList(st, list, show, c, axes).remaining == st.remaining - Shown(list, show)
  {
    SyncListPlacedKeys(st, list, show, c, axes);
    SyncListRemaining(st, list, show, c, axes);
  }

  /** Scene `b` extends scene `a`: no node is detached, nodes that existed
      in `a` keep their attachment and control, and new nodes are numbered
      from `a.next` on. */
  ghost predicate Grows(a: Scene, b: Scene)
  {
    && a.next <= b.next
    && a.attached <= b.attached
    && (forall n :: n < a.next ==> (n in b.attached <==> n in a.attached))
    && (forall n :: n < a.next ==> (n in b.controls <==> n in a.controls))
    && (forall n :: n in a.controls ==> n in b.controls && b.controls[n] == a.controls[n])
  }

  lemma StepGrows(st: Sync, o: ObjectId, show: ObjectId -> bool,
                  c: ControlKind, axes: Option<AxesSettings>)
    requires SceneWf(st.scene)
    requires forall o' :: o' in st.remaining ==> st.remaining[o'] < st.scene.next
    ensures Grows(st.scene, Step(st, o, show, c, axes).scene)
    ensures axes.None? ==> Step(st, o, show, c, axes).scene.axes == st.scene.axes
  {
    if show(o) {
      PlaceSpec(st, o, c, axes);
    }
  }

  /** Attachment only grows during the loop, and nodes that existed before
      it keep their attachment and their control. */
  lemma {:induction false} SyncListFrame(st: Sync, list: seq<ObjectId>, show: ObjectId -> bool,
                                         c: ControlKind, axes: Option<AxesSettings>)
    requires SceneWf(st.scene)
    requires forall o :: o in st.remaining ==> st.remaining[o] < st.scene.next
    ensures Grows(st.scene, SyncList(st, list, show, c, axes).scene)
    ensures axes.None? ==> SyncList(st, list, show, c, axes).scene.axes == st.scene.axes
    decreases |list|
  {
    if |list| > 0 {
      var st' := Step(st, list[0], show, c, axes);
      StepGrows(st, list[0], show, c, axes);
      SyncListFrame(st', list[1..], show, c, axes);
    }
  }

  /** Node of object `o` in `r`'s new map was created, after `st`, for `o`. */
  ghost predicate FreshFor(st: Sync, r: Sync, o: ObjectId, c: ControlKind)
  {
    && o in r.placed
    && st.scene.next <= r.placed[o] < r.scene.next
    && r.placed[o] in r.scene.attached
    && r.placed[o] in r.scene.controls
    && r.scene.controls[r.placed[o]] == DebugControl(c, o)
  }

  /** Objects already in the new map and absent from the list keep their
      node. */
  lemma {:induction false} SyncListKeepsPlaced(st: Sync, list: seq<ObjectId>, show: ObjectId -> bool,
                                               c: ControlKind, axes: Option<AxesSettings>, o: ObjectId)
    requires SceneWf(st.scene)
    requires forall o' :: o' in st.remaining ==> st.remaining[o'] < st.scene.next
    requires o in st.placed && o !in list
    ensures o in SyncList(st, list, show, c, axes).placed
    ensures SyncList(st, list, show, c, axes).placed[o] == st.placed[o]
    decreases |list|
  {
    if |list| > 0 {
      var st' := Step(st, list[0], show, c, axes);
      if show(list[0]) {
        PlaceSpec(st, list[0], c, axes);
      }
      assert o !in list[1..];
      SyncListKeepsPlaced(st', list[1..], show, c, axes, o);
    }
  }

  /** A shown object found in the old map keeps its old node (for a list
      without duplicates). */
  lemma {:induction false} SyncListReuses(st: Sync, list: seq<ObjectId>, show: ObjectId -> bool,
                                          c: ControlKind, axes: Option<AxesSettings>, o: ObjectId)
    requires SceneWf(st.scene)
    requires forall o' :: o' in st.remaining ==> st.remaining[o'] < st.scene.next
    requires NoDuplicates(list)
    requires o in list && show(o) && o in st.remaining
    ensures o in SyncList(st, list, show, c, axes).placed
    ensures SyncList(st, list, show, c, axes).placed[o] == st.remaining[o]
    decreases |list|
  {
    var st' := Step(st, list[0], show, c, axes);
    if show(list[0]) {
      PlaceSpec(st, list[0], c, axes);
    }
    assert NoDuplicates(list[1..]);
    if o == list[0] {
      assert o !in list[1..];
      SyncListKeepsPlaced(st', list[1..], show, c, axes, o);
    } else {
      assert o in list[1..];
      SyncListReuses(st', list[1..], show, c, axes, o);
    }
  }

  /** A shown object not in the old map gets a node created for it (for a
      list without duplicates). */
  lemma {:induction false} SyncListCreates(st: Sync, list: seq<ObjectId>, show: ObjectId -> bool,
                                           c: ControlKind, axes: Option<AxesSettings>, o: ObjectId)
    requires SceneWf(st.scene)
    requires forall o' :: o' in st.remaining ==> st.remaining[o'] < st.scene.next
    requires NoDuplicates(list)
    requires o in list && show(o) && o !in st.remaining
    ensures FreshFor(st, SyncList(st, list, show, c, axes), o, c)
    decreases |list|
  {
    var st' := Step(st, list[0], show, c, axes);
    var r := SyncList(st', list[1..], show, c, axes);
    StepGrows(st, list[0], show, c, axes);
    if show(list[0]) {
      PlaceSpec(st, list[0], c, axes);
    }
    assert NoDuplicates(list[1..]);
    if o == list[0] {
      assert FreshFor(st, st', o, c);
      assert o !in list[1..];
      SyncListKeepsPlaced(st', list[1..], show, c, axes, o);
      SyncListFrame(st', list[1..], show, c, axes);
    } else {
      assert o in list[1..];
      SyncListCreates(st', list[1..], show, c, axes, o);
    }
  }

  /** For a list without duplicates: a shown object found in the old map
      keeps its old node, and any other shown object gets a node created for
      it. */
  lemma SyncListNodes(st: Sync, list: seq<ObjectId>, show: ObjectId -> bool,
                      c: ControlKind, axes: Option<AxesSettings>)
    requires SceneWf(st.scene)
    requires forall o :: o in st.remaining ==> st.remaining[o] < st.scene.next
    requires NoDuplicates(list)
    ensures var r := SyncList(st, list, show, c, axes);
      && (forall o :: o in Shown(list, show) && o in st.remaining ==>
            o in r.placed && r.placed[o] == st.remaining[o])
      && (forall o :: o in Shown(list, show) && o !in st.remaining ==> FreshFor(st, r, o, c))
  {
    var r := SyncList(st, list, show, c, axes);
    forall o | o in Shown(list, show) && o in st.remaining
      ensures o in r.placed && r.placed[o] == st.remaining[o]
    {
      SyncListReuses(st, list, show, c, axes, o);
    }
    forall o | o in Shown(list, show) && o !in st.remaining
      ensures FreshFor(st, r, o, c)
    {
      SyncListCreates(st, list, show, c, axes, o);
    }
  }

  /** Every node of the new map has an axes visualizer exactly when the
      arrow length is positive, carrying the given settings. */
  ghost predicate AxesAgree(st: Sync, s: AxesSettings)
  {
    && (forall o :: o in st.placed ==> (st.placed[o] in st.scene.axes <==> s.length > 0.0))
    && (forall o :: o in st.placed && st.placed[o] in st.scene.axes ==> st.scene.axes[st.placed[o]] == s)
  }

  lemma PlaceAxes(st: Sync, o: ObjectId, c: ControlKind, s: AxesSettings)
    requires SceneWf(st.scene)
    requires forall o' :: o' in st.remaining ==> st.remaining[o'] < st.scene.next
    requires AxesAgree(st, s)
    ensures AxesAgree(Place(st, o, c, Some(s)), s)
  {
    PlaceSpec(st, o, c, Some(s));
    var r := Place(st, o, c, Some(s));
    var n := r.placed[o];
    forall o' | o' in r.placed
      ensures r.placed[o'] in r.scene.axes <==> s.length > 0.0
    {
      if o' != o && r.placed[o'] != n {
        assert r.placed[o'] == st.placed[o'];
      }
    }
  }

  /** When the pass updates axes, every shown object's node ends with an
      axes visualizer exactly when the arrow length is positive. */
  lemma {:induction false} SyncListAxes(st: Sync, list: seq<ObjectId>, show: ObjectId -> bool,
                                        c: ControlKind, s: AxesSettings)
    requires SceneWf(st.scene)
    requires forall o :: o in st.remaining ==> st.remaining[o] < st.scene.next
    requires AxesAgree(st, s)
    ensures AxesAgree(SyncList(st, list, show, c, Some(s)), s)
    decreases |list|
  {
    if |list| > 0 {
      var st' := Step(st, list[0], show, c, Some(s));
      if show(list[0]) {
        PlaceAxes(st, list[0], c, s);
      }
      SyncListAxes(st', list[1..], show, c, s);
    }
  }

  /** Scenes `a` and `b` agree on the axes visualizer of node `n`. */
  ghost predicate AxesSame(a: Scene, b: Scene, n: NodeId)
  {
    && (n in a.axes <==> n in b.axes)
    && (n in a.axes ==> b.axes[n] == a.axes[n])
  }

  /** The loop changes the axes visualizer only of nodes it places (for a
      list without duplicates whose objects are not yet placed). */
  lemma {:induction false} SyncListAxesFrame(st: Sync, list: seq<ObjectId>, show: ObjectId -> bool,
                                             c: ControlKind, axes: Option<AxesSettings>, n: NodeId)
    requires SceneWf(st.scene)
    requires forall o :: o in st.remaining ==> st.remaining[o] < st.scene.next
    requires NoDuplicates(list) && forall o :: o in list ==> o !in st.placed
    requires n !in SyncList(st, list, show, c, axes).placed.Values
    ensures AxesSame(st.scene, SyncList(st, list, show, c, axes).scene, n)
    decreases |list|
  {
    if |list| > 0 {
      var o := list[0];
      var st' := Step(st, o, show, c, axes);
      var r := SyncList(st', list[1..], show, c, axes);
      assert NoDuplicates(list[1..]);
      assert o !in list[1..];
      if show(o) {
        PlaceSpec(st, o, c, axes);
        SyncListKeepsPlaced(st', list[1..], show, c, axes, o);
        assert r.placed[o] != n;
        assert n != st'.placed[o];
      }
      assert AxesSame(st.scene, st'.scene, n);
      assert forall o' :: o' in list[1..] ==> o' in list && o' != o;
      SyncListAxesFrame(st', list[1..], show, c, axes, n);
    }
  }

  // ---------------------------------------------------------------------
  // One update* pass

  /** One update* method: run the loop with a fresh new map, then detach
      the nodes left in the old map. Returns the scene and the new map. */
  function Reconcile(sc: Scene, prev: map<ObjectId, NodeId>, list: seq<ObjectId>,
                     show: ObjectId -> bool, c: ControlKind,
                     axes: Option<AxesSettings>): (r: (Scene, map<ObjectId, NodeId>))
    requires SceneWf(sc)
    requires forall o :: o in prev ==> prev[o] < sc.next
    ensures SceneWf(r.0) && r.0.next >= sc.next
  {
    var st := SyncList(Sync(sc, prev, map[]), list, show, c, axes);
    (Detach(st.scene, st.remaining.Values), st.placed)
  }

  /** The new map of a pass covers exactly the shown objects, and the
      nodes left in the old map are exactly those of objects no longer
      shown. */
  lemma ReconcileKeys(sc: Scene, prev: map<ObjectId, NodeId>, list: seq<ObjectId>,
                      show: ObjectId -> bool, c: ControlKind, axes: Option<AxesSettings>)
    requires SceneWf(sc)
    requires forall o :: o in prev ==> prev[o] < sc.next
    ensures Reconcile(sc, prev, list, show, c, axes).1.Keys == Shown(list, show)
    ensures SyncList(Sync(sc, prev, map[]), list, show, c, axes).remaining == prev - Shown(list, show)
  {
    SyncListKeys(Sync(sc, prev, map[]), list, show, c, axes);
  }

  /** An object shown before and now keeps its node, whose attachment is
      unchanged (for an old map giving distinct objects distinct nodes). */
  lemma ReconcileReuses(sc: Scene, prev: map<ObjectId, NodeId>, list: seq<ObjectId>,
                        show: ObjectId -> bool, c: ControlKind, axes: Option<AxesSettings>,
                        o: ObjectId)
    requires SceneWf(sc)
    requires forall o' :: o' in prev ==> prev[o'] < sc.next
    requires NoDuplicates(list) && Injective(prev)
    requires o in Shown(list, show) && o in prev
    ensures var r := Reconcile(sc, prev, list, show, c, axes);
      && o in r.1 && r.1[o] == prev[o]
      && (prev[o] in r.0.attached <==> prev[o] in sc.attached)
  {
    var st0 := Sync(sc, prev, map[]);
    var st := SyncList(st0, list, show, c, axes);
    ReconcileKeys(sc, prev, list, show, c, axes);
    SyncListReuses(st0, list, show, c, axes, o);
    SyncListFrame(st0, list, show, c, axes);
    assert prev[o] !in st.remaining.Values;
  }

  /** An object shown now but not before gets a new, attached node carrying
      a control of the pass's kind for it. */
  lemma ReconcileCreates(sc: Scene, prev: map<ObjectId, NodeId>, list: seq<ObjectId>,
                         show: ObjectId -> bool, c: ControlKind, axes: Option<AxesSettings>,
                         o: ObjectId)
    requires SceneWf(sc)
    requires forall o' :: o' in prev ==> prev[o'] < sc.next
    requires NoDuplicates(list)
    requires o in Shown(list, show) && o !in prev
    ensures var r := Reconcile(sc, prev, list, show, c, axes);
      && o in r.1 && sc.next <= r.1[o] < r.0.next && r.1[o] in r.0.attached
      && r.1[o] in r.0.controls && r.0.controls[r.1[o]] == DebugControl(c, o)
  {
    var st0 := Sync(sc, prev, map[]);
    var st := SyncList(st0, list, show, c, axes);
    SyncListCreates(st0, list, show, c, axes, o);
    ReconcileKeys(sc, prev, list, show, c, axes);
    assert FreshFor(st0, st, o, c);
    assert st.placed[o] !in st.remaining.Values;
    assert Reconcile(sc, prev, list, show, c, axes) == (Detach(st.scene, st.remaining.Values), st.placed);
  }

  /** The node of an object no longer shown is detached. */
  lemma ReconcileDetaches(sc: Scene, prev: map<ObjectId, NodeId>, list: seq<ObjectId>,
                          show: ObjectId -> bool, c: ControlKind, axes: Option<AxesSettings>,
                          o: ObjectId)
    requires SceneWf(sc)
    requires forall o' :: o' in prev ==> prev[o'] < sc.next
    requires o in prev && o !in Shown(list, show)
    ensures prev[o] !in Reconcile(sc, prev, list, show, c, axes).0.attached
  {
    var st := SyncList(Sync(sc, prev, map[]), list, show, c, axes);
    ReconcileKeys(sc, prev, list, show, c, axes);
    assert o in st.remaining && st.remaining[o] == prev[o];
  }

  /** Nodes outside the old map keep their attachment, and existing
      controls are untouched. */
  lemma ReconcileFrame(sc: Scene, prev: map<ObjectId, NodeId>, list: seq<ObjectId>,
                       show: ObjectId -> bool, c: ControlKind, axes: Option<AxesSettings>)
    requires SceneWf(sc)
    requires forall o :: o in prev ==> prev[o] < sc.next
    ensures var r := Reconcile(sc, prev, list, show, c, axes);
      && (forall n :: n < sc.next && n !in prev.Values ==> (n in r.0.attached <==> n in sc.attached))
      && (forall n :: n in sc.controls ==> n in r.0.controls && r.0.controls[n] == sc.controls[n])
      && (axes.None? ==> r.0.axes == sc.axes)
  {
    var st0 := Sync(sc, prev, map[]);
    var st := SyncList(st0, list, show, c, axes);
    SyncListFrame(st0, list, show, c, axes);
    ReconcileKeys(sc, prev, list, show, c, axes);
    assert st.remaining.Values <= prev.Values;
  }

  /** A pass gives distinct shown objects distinct nodes. */
  lemma ReconcileInjective(sc: Scene, prev: map<ObjectId, NodeId>, list: seq<ObjectId>,
                           show: ObjectId -> bool, c: ControlKind, axes: Option<AxesSettings>)
    requires SceneWf(sc)
    requires forall o :: o in prev ==> prev[o] < sc.next
    requires NoDuplicates(list) && Injective(prev)
    ensures Injective(Reconcile(sc, prev, list, show, c, axes).1)
  {
    var r := Reconcile(sc, prev, list, show, c, axes);
    ReconcileKeys(sc, prev, list, show, c, axes);
    forall o, o' | o in r.1 && o' in r.1 && o != o'
      ensures r.1[o] != r.1[o']
    {
      if o in prev {
        ReconcileReuses(sc, prev, list, show, c, axes, o);
      } else {
        ReconcileCreates(sc, prev, list, show, c, axes, o);
      }
      if o' in prev {
        ReconcileReuses(sc, prev, list, show, c, axes, o');
      } else {
        ReconcileCreates(sc, prev, list, show, c, axes, o');
      }
    }
  }

  /** What one pass does, for an object list without duplicates and an old
      map that gives distinct objects distinct nodes:
      the new map covers exactly the shown objects; an object already shown
      keeps its node, whose attachment is unchanged; a newly shown object
      gets a new attached node carrying a control of the pass's kind for
      it; the node of an object no longer shown is detached; nodes outside
      the old map keep their attachment; existing controls are untouched. */
  lemma ReconcileSpec(sc: Scene, prev: map<ObjectId, NodeId>, list: seq<ObjectId>,
                      show: ObjectId -> bool, c: ControlKind, axes: Option<AxesSettings>)
    requires SceneWf(sc)
    requires forall o :: o in prev ==> prev[o] < sc.next
    requires NoDuplicates(list) && Injective(prev)
    ensures var r := Reconcile(sc, prev, list, show, c, axes);
      && r.1.Keys == Shown(list, show)
      && (forall o :: o in r.1 && o in prev ==>
            r.1[o] == prev[o] && (r.1[o] in r.0.attached <==> r.1[o] in sc.attached))
      && (forall o :: o in r.1 && o !in prev ==>
            && sc.next <= r.1[o] < r.0.next && r.1[o] in r.0.attached
            && r.1[o] in r.0.controls && r.0.controls[r.1[o]] == DebugControl(c, o))
      && (forall o :: o in prev && o !in r.1 ==> prev[o] !in r.0.attached)
      && (forall n :: n < sc.next && n !in prev.Values ==> (n in r.0.attached <==> n in sc.attached))
      && (forall n :: n in sc.controls ==> n in r.0.controls && r.0.controls[n] == sc.controls[n])
      && Injective(r.1)
  {
    var r := Reconcile(sc, prev, list, show, c, axes);
    var sc': Scene, m: map<ObjectId, NodeId> := r.0, r.1;
    ReconcileKeys(sc, prev, list, show, c, axes);
    ReconcileFrame(sc, prev, list, show, c, axes);
    ReconcileInjective(sc, prev, list, show, c, axes);
    forall o | o in m && o in prev
      ensures m[o] == prev[o] && (m[o] in sc'.attached <==> m[o] in sc.attached)
    {
      ReconcileReuses(sc, prev, list, show, c, axes, o);
    }
    forall o | o in m && o !in prev
      ensures && sc.next <= m[o] < sc'.next && m[o] in sc'.attached
              && m[o] in sc'.controls && sc'.controls[m[o]] == DebugControl(c, o)
    {
      ReconcileCreates(sc, prev, list, show, c, axes, o);
    }
    forall o | o in prev && o !in m
      ensures prev[o] !in sc'.attached
    {
      ReconcileDetaches(sc, prev, list, show, c, axes, o);
    }
  }

  /** When the pass updates axes, every node in the new map ends with an axes
      visualizer exactly when the arrow length is positive, carrying the
      current settings. */
  lemma ReconcileAxes(sc: Scene, prev: map<ObjectId, NodeId>, list: seq<ObjectId>,
                      show: ObjectId -> bool, c: ControlKind, s: AxesSettings)
    requires SceneWf(sc)
    requires forall o :: o in prev ==> prev[o] < sc.next
    ensures var (sc', m) := Reconcile(sc, prev, list, show, c, Some(s));
      && (forall o :: o in m ==> (m[o] in sc'.axes <==> s.length > 0.0))
      && (forall o :: o in m && s.length > 0.0 ==> sc'.axes[m[o]] == s)
  {
    SyncListAxes(Sync(sc, prev, map[]), list, show, c, s);
  }

  /** A pass changes the axes visualizer only of nodes in its new map. */
  lemma ReconcileAxesFrame(sc: Scene, prev: map<ObjectId, NodeId>, list: seq<ObjectId>,
                           show: ObjectId -> bool, c: ControlKind, axes: Option<AxesSettings>)
    requires SceneWf(sc)
    requires forall o :: o in prev ==> prev[o] < sc.next
    requires NoDuplicates(list)
    ensures var r := Reconcile(sc, prev, list, show, c, axes);
      forall n :: n !in r.1.Values ==> AxesSame(sc, r.0, n)
  {
    var st0 := Sync(sc, prev, map[]);
    var st := SyncList(st0, list, show, c, axes);
    var r := Reconcile(sc, prev, list, show, c, axes);
    assert r == (Detach(st.scene, st.remaining.Values), st.placed);
    forall n | n !in r.1.Values ensures AxesSame(sc, r.0, n) {
      SyncListAxesFrame(st0, list, show, c, axes, n);
    }
  }
}
