/** GhostControl: a ghost collision object driven by a scene-graph spatial.
    Its Java-side state is a small machine over `enabled`, `added` and the
    physics space; membership in physics spaces is derived from the add and
    remove calls the control makes. */
module GhostControlModel {
  import opened Common

  type SpaceId = nat

  datatype Vec3 = Vec3(x: real, y: real, z: real)
  datatype Quat = Quat(x: real, y: real, z: real, w: real)

  /** A spatial's translation, rotation and scale. */
  datatype Transform = Transform(translation: Vec3, rotation: Quat, scale: Vec3)

  const IdentityTransform: Transform :=
    Transform(Vec3(0.0, 0.0, 0.0), Quat(0.0, 0.0, 0.0, 1.0), Vec3(1.0, 1.0, 1.0))

  /** A spatial is known to the control by its identity: the control
      compares spatials as Java compares references, so a spatial that has
      moved is still the same spatial. */
  type SpatialId = nat

  /** What the control reads from its spatial at the moment of a call:
      whether it ignores transforms (a geometry so marked), and its current
      local and world transforms. Operations that read the spatial take its
      current pose as a parameter. */
  datatype Pose = Pose(ignoresTransforms: bool, local: Transform, world: Transform)

  // ---------------------------------------------------------------------
  // Coordinate source

  /** Which transform of the spatial the physics object follows. */
  datatype CoordSource = IdentitySource | LocalSource | WorldSource

  function CoordinateSource(s: Pose, applyLocal: bool): (src: CoordSource)
    ensures src == IdentitySource <==> s.ignoresTransforms
    ensures src == LocalSource <==> !s.ignoresTransforms && applyLocal
    ensures src == WorldSource <==> !s.ignoresTransforms && !applyLocal
  {
    if s.ignoresTransforms then IdentitySource
    else if applyLocal then LocalSource
    else WorldSource
  }

  /** The transform a coordinate source names. */
  function Frame(s: Pose, src: CoordSource): Transform
  {
    match src
    case IdentitySource => IdentityTransform
    case LocalSource => s.local
    case WorldSource => s.world
  }

  /** `getSpatialTranslation`. */
  function SpatialTranslation(s: Pose, applyLocal: bool): (v: Vec3)
    ensures v == Frame(s, CoordinateSource(s, applyLocal)).translation
  {
    if s.ignoresTransforms then Vec3(0.0, 0.0, 0.0)
    else if applyLocal then s.local.translation
    else s.world.translation
  }

  /** `getSpatialRotation`. */
  function SpatialRotation(s: Pose, applyLocal: bool): (q: Quat)
    ensures q == Frame(s, CoordinateSource(s, applyLocal)).rotation
  {
    if s.ignoresTransforms then Quat(0.0, 0.0, 0.0, 1.0)
    else if applyLocal then s.local.rotation
    else s.world.rotation
  }

  /** `copySpatialScale`. */
  function SpatialScale(s: Pose, applyLocal: bool): (v: Vec3)
    ensures v == Frame(s, CoordinateSource(s, applyLocal)).scale
  {
    if s.ignoresTransforms then Vec3(1.0, 1.0, 1.0)
    else if applyLocal then s.local.scale
    else s.world.scale
  }

  // ---------------------------------------------------------------------
  // State

  /** A call the control makes on a physics space. */
  datatype SpaceEvent = Added(space: SpaceId) | Removed(space: SpaceId)

  /** The spaces holding the object after one more call. */
  function After(m: set<SpaceId>, e: SpaceEvent): set<SpaceId>
  {
    if e.Added? then m + {e.space} else m - {e.space}
  }

  /** The spaces holding the object after the given calls, in order. */
  function Members(events: seq<SpaceEvent>): set<SpaceId>
    decreases |events|
  {
    if events == [] then {}
    else After(Members(events[..|events| - 1]), events[|events| - 1])
  }

  lemma MembersSnoc(events: seq<SpaceEvent>, e: SpaceEvent)
    ensures Members(events + [e]) == After(Members(events), e)
  {
    assert (events + [e])[..|events|] == events;
  }

  /** The control's state. `location`, `rotation` and `shapeScale` are the
      ghost object's physics location and rotation and its shape's scale;
      `events` records the calls the control has made on physics spaces. */
  datatype Ghost = Ghost(
    spatial: Option<SpatialId>,
    userObject: Option<SpatialId>,
    enabled: bool,
    added: bool,
    space: Option<SpaceId>,
    applyLocal: bool,
    applyScale: bool,
    location: Vec3,
    rotation: Quat,
    shapeScale: Vec3,
    events: seq<SpaceEvent>)

  /** The control's invariant: the object is added exactly when the control
      has a space and is enabled, and it is a member of exactly that space
      when added and of none otherwise. */
  predicate Inv(g: Ghost)
  {
    && (g.added <==> g.space.Some? && g.enabled)
    && Members(g.events) == (if g.added then {g.space.value} else {})
  }

  /** A new control: enabled, no spatial, no space, not added, following
      world coordinates without shape scaling. */
  function NewGhost(shapeScale: Vec3): (g: Ghost)
    ensures Inv(g)
    ensures g.enabled && !g.added && g.space.None? && g.spatial.None?
    ensures !g.applyLocal && !g.applyScale
  {
    Ghost(None, None, true, false, None, false, false,
          Vec3(0.0, 0.0, 0.0), Quat(0.0, 0.0, 0.0, 1.0), shapeScale, [])
  }

  /** Move the physics object to the spatial's current position. */
  function MoveToSpatial(g: Ghost, s: Pose): Ghost
  {
    g.(location := SpatialTranslation(s, g.applyLocal), rotation := SpatialRotation(s, g.applyLocal))
  }

  // ---------------------------------------------------------------------
  // Operations

  /** `setSpatial`: the same spatial (by identity, wherever it now is)
      changes nothing; otherwise the spatial and the user object both become
      the new spatial, and a non-null spatial's current position (`pose`) is
      copied to the physics object. */
  function SetSpatial(g: Ghost, s: Option<SpatialId>, pose: Pose): (r: Ghost)
    ensures g.spatial == s ==> r == g
    ensures g.spatial != s ==> r.spatial == s && r.userObject == s
    ensures g.spatial != s && s.Some? ==>
              r.location == Frame(pose, CoordinateSource(pose, g.applyLocal)).translation
              && r.rotation == Frame(pose, CoordinateSource(pose, g.applyLocal)).rotation
    ensures g.spatial != s && s.None? ==> r.location == g.location && r.rotation == g.rotation
    ensures r.enabled == g.enabled && r.added == g.added && r.space == g.space && r.events == g.events
    ensures r.(spatial := g.spatial, userObject := g.userObject, location := g.location,
               rotation := g.rotation) == g
  {
    if g.spatial == s then g
    else
      var g1 := g.(spatial := s, userObject := s);
      if s.Some? then MoveToSpatial(g1, pose) else g1
  }

  /** `setEnabled`: record the setting; with a space, enabling an object not
      yet added moves it to the spatial's current position `pose` (if there
      is a spatial) and adds it, and disabling an added object removes it. */
  function SetEnabled(g: Ghost, enabled: bool, pose: Pose): (r: Ghost)
    ensures r.enabled == enabled && r.space == g.space && r.spatial == g.spatial
    ensures Inv(g) ==> Inv(r)
    ensures g.space.None? ==> r == g.(enabled := enabled)
    ensures g.space.Some? && enabled && !g.added ==>
              r.added && r.events == g.events + [Added(g.space.value)]
    ensures g.space.Some? && !enabled && g.added ==>
              !r.added && r.events == g.events + [Removed(g.space.value)]
    ensures g.space.Some? && enabled == g.added ==> r == g.(enabled := enabled)
    ensures g.space.Some? && enabled && !g.added && g.spatial.Some? ==>
              r.location == Frame(pose, CoordinateSource(pose, g.applyLocal)).translation
              && r.rotation == Frame(pose, CoordinateSource(pose, g.applyLocal)).rotation
    ensures r.(enabled := g.enabled, added := g.added, events := g.events, location := g.location,
               rotation := g.rotation) == g
  {
    var g1 := g.(enabled := enabled);
    if g.space.None? then g1
    else if enabled && !g.added then
      var g2 := if g.spatial.Some? then MoveToSpatial(g1, pose) else g1;
      MembersSnoc(g.events, Added(g.space.value));
      g2.(events := g.events + [Added(g.space.value)], added := true)
    else if !enabled && g.added then
      MembersSnoc(g.events, Removed(g.space.value));
      g1.(events := g.events + [Removed(g.space.value)], added := false)
    else g1
  }

  /** `setPhysicsSpace`: the current space changes nothing; otherwise an
      added object is removed from its space first, then added to the new
      space when there is one and the control is enabled; the new space is
      recorded either way. (An added object always has a space; the source
      would fail on a null one.) */
  function SetPhysicsSpace(g: Ghost, newSpace: Option<SpaceId>): (r: Ghost)
    requires g.added ==> g.space.Some?
    ensures g.space == newSpace ==> r == g
    ensures g.space != newSpace ==> r.space == newSpace
    ensures Inv(g) ==> Inv(r)
    ensures r.enabled == g.enabled && r.spatial == g.spatial
    ensures r.(space := g.space, added := g.added, events := g.events) == g
  {
    if g.space == newSpace then g
    else
      var g1 := if g.added then
                  MembersSnoc(g.events, Removed(g.space.value));
                  g.(events := g.events + [Removed(g.space.value)], added := false)
                else g;
      var g2 := if newSpace.Some? && g.enabled then
                  MembersSnoc(g1.events, Added(newSpace.value));
                  g1.(events := g1.events + [Added(newSpace.value)], added := true)
                else g1;
      g2.(space := newSpace)
  }

  /** Switching an added object to another space removes it from the old
      space before adding it to the new one; afterwards it is a member of
      the new space alone. */
  lemma SwitchRemovesBeforeAdding(g: Ghost, newSpace: SpaceId)
    requires Inv(g) && g.added && g.space != Some(newSpace)
    ensures var r := SetPhysicsSpace(g, Some(newSpace));
      && r.events == g.events + [Removed(g.space.value), Added(newSpace)]
      && r.added
      && Members(r.events) == {newSpace}
  {
  }

  /** A disabled control records the new space without adding the object
      to it. */
  lemma DisabledRecordsSpaceOnly(g: Ghost, newSpace: SpaceId)
    requires Inv(g) && !g.enabled
    ensures var r := SetPhysicsSpace(g, Some(newSpace));
      && r.space == Some(newSpace) && !r.added && r.events == g.events
      && Members(r.events) == {}
  {
  }

  /** Re-enabling a disabled control with a space adds the object to that
      space. */
  lemma EnableJoinsRecordedSpace(g: Ghost, pose: Pose)
    requires Inv(g) && !g.enabled && g.space.Some?
    ensures var r := SetEnabled(g, true, pose);
      r.added && Members(r.events) == {g.space.value}
  {
  }

  /** `update`: a disabled control changes nothing. An enabled one copies
      the spatial's current position `pose` to the physics object and, with
      shape scaling, the spatial's scale to the shape: when the shape cannot
      take that scale the uniform scale `uniform` computes from it (a cube
      root of the components' product) is tried instead, and the shape is
      rescaled only to a different scale it can take. */
  function Update(g: Ghost, pose: Pose, canScale: Vec3 -> bool, uniform: Vec3 -> Vec3): (r: Ghost)
    requires g.enabled ==> g.spatial.Some?
    ensures !g.enabled ==> r == g
    ensures g.enabled ==>
              var src := Frame(pose, CoordinateSource(pose, g.applyLocal));
              r.location == src.translation && r.rotation == src.rotation
    ensures r.shapeScale != g.shapeScale ==> g.enabled && g.applyScale && canScale(r.shapeScale)
    ensures !(g.enabled && g.applyScale) ==> r.shapeScale == g.shapeScale
    ensures g.enabled && g.applyScale && canScale(SpatialScale(pose, g.applyLocal)) ==>
              r.shapeScale == SpatialScale(pose, g.applyLocal)
    ensures g.enabled && g.applyScale && !canScale(SpatialScale(pose, g.applyLocal)) ==>
              var cube := uniform(SpatialScale(pose, g.applyLocal));
              r.shapeScale == (if canScale(cube) then cube else g.shapeScale)
    ensures r.enabled == g.enabled && r.added == g.added && r.space == g.space && r.events == g.events
    ensures r.(location := g.location, rotation := g.rotation, shapeScale := g.shapeScale) == g
  {
    if !g.enabled then g
    else
      var g1 := MoveToSpatial(g, pose);
      if g.applyScale then
        var wanted := SpatialScale(pose, g.applyLocal);
        var newScale := if canScale(wanted) then wanted else uniform(wanted);
        if g.shapeScale != newScale && canScale(newScale) then g1.(shapeScale := newScale) else g1
      else g1
  }

  // ---------------------------------------------------------------------
  // Serialization

  /** A value saved in a capsule. */
  datatype Saved = SavedBool(b: bool) | SavedSpatial(s: SpatialId)

  /** A capsule: the values written under each key. A value equal to its
      default is not written. */
  type Capsule = map<string, Saved>

  /** Write a boolean under `key` unless it equals the default. */
  function WriteBool(c: Capsule, key: string, value: bool, default: bool): (r: Capsule)
    ensures key in r <==> key in c || value != default
    ensures forall k :: k != key && k in c ==> k in r && r[k] == c[k]
    ensures value != default ==> r[key] == SavedBool(value)
  {
    if value == default then c else c[key := SavedBool(value)]
  }

  /** Read a boolean under `key`, or the default when none is saved. */
  function ReadBool(c: Capsule, key: string, default: bool): bool
  {
    if key in c && c[key].SavedBool? then c[key].b else default
  }

  /** `write`: the control's own fields, each with its default. */
  function Write(g: Ghost): (c: Capsule)
  {
    var c1 := WriteBool(map[], "enabled", g.enabled, true);
    var c2 := WriteBool(c1, "applyLocalPhysics", g.applyLocal, false);
    var c3 := WriteBool(c2, "applyScale", g.applyScale, false);
    if g.spatial.Some? then c3["spatial" := SavedSpatial(g.spatial.value)] else c3
  }

  /** `read`: restore the control's own fields from a capsule, using the
      defaults for missing values. */
  function Read(g: Ghost, c: Capsule): (r: Ghost)
    ensures r.added == g.added && r.space == g.space && r.events == g.events
  {
    g.(enabled := ReadBool(c, "enabled", true),
       spatial := if "spatial" in c && c["spatial"].SavedSpatial? then Some(c["spatial"].s) else None,
       applyLocal := ReadBool(c, "applyLocalPhysics", false),
       applyScale := ReadBool(c, "applyScale", false))
  }

  /** Reading what was written restores `enabled`, the spatial, the
      coordinate choice and the scaling choice. */
  lemma WriteReadRoundTrip(g: Ghost, h: Ghost)
    ensures var r := Read(h, Write(g));
      && r.enabled == g.enabled && r.spatial == g.spatial
      && r.applyLocal == g.applyLocal && r.applyScale == g.applyScale
  {
  }

  /** An empty capsule reads as enabled, no spatial, world coordinates and no
      shape scaling. */
  lemma ReadDefaults(h: Ghost)
    ensures var r := Read(h, map[]);
      r.enabled && r.spatial.None? && !r.applyLocal && !r.applyScale
  {
  }

  /** A control without a space keeps its invariant through `read`. */
  lemma ReadWithoutSpaceKeepsInv(g: Ghost, c: Capsule)
    requires Inv(g) && g.space.None?
    ensures Inv(Read(g, c))
  {
  }
}
