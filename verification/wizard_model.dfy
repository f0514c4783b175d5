/** The DacWizard "subject model": the state the wizard keeps about the
    C-G model being configured (file-system path, loaded model, linked bones)
    and the operations on it. Asset loading and mesh analysis are not
    modelled; their results are parameters of `Load`. */
module WizardModel {
  import opened Common
  import opened WizardPaths
  import opened WizardBones

  /** A loaded C-G model: an identity and the skeleton that findSkeleton
      returns (None when the model has no skeleton, or several). */
  datatype LoadedModel = LoadedModel(id: nat, skeleton: Option<Skeleton>)

  /** The fields of the Java class that the modelled operations use. The
      linked-bone set is None until the first successful setLinkedBones (the
      Java field starts null). `managerMap` and `coordsFrom` record the input
      the vertex-coordinate map was last computed from. */
  datatype Wizard = Wizard(
    filePathComponents: seq<string>,
    numComponentsInRoot: int,
    rootSpatial: Option<LoadedModel>,
    hasRagdoll: bool,
    loadException: Option<string>,
    linkedBones: Option<set<nat>>,
    anyInfluenceBones: set<nat>,
    directInfluenceBones: set<nat>,
    managerMap: seq<string>,
    coordsFrom: Option<LoadedModel>)

  /** A state after a call that may have thrown part-way: the state as the
      call left it, and the exception if one was thrown. */
  datatype Outcome = Outcome(state: Wizard, thrown: Option<WizardError>)

  /** A freshly constructed model: no path, nothing loaded. */
  const Initial: Wizard :=
    Wizard([], 0, None, false, None, None, {}, {}, [], None)

  /** Skeletons of loaded models are forests. */
  predicate WellFormedModel(m: LoadedModel)
  {
    m.skeleton.Some? ==> IsForest(m.skeleton.value)
  }

  predicate Valid(w: Wizard)
  {
    w.rootSpatial.Some? ==> WellFormedModel(w.rootSpatial.value)
  }

  // ---------------------------------------------------------------------
  // Path operations

  /** `unload`: forget the loaded model and the ragdoll. */
  function Unload(w: Wizard): (w': Wizard)
    ensures w'.rootSpatial.None? && !w'.hasRagdoll
    ensures w'.filePathComponents == w.filePathComponents
    ensures w'.numComponentsInRoot == w.numComponentsInRoot
    ensures w'.linkedBones == w.linkedBones && w'.loadException == w.loadException
  {
    w.(rootSpatial := None, hasRagdoll := false)
  }

  /** `setFilePath`: the path must contain a separator (the Java assertion
      fails otherwise, before anything changes); split the path, guess the
      asset root, clear the load exception and unload. Fails with the Java
      assertion afterwards when the path splits into no components (a path
      made only of '/'). */
  method SetFilePath(w: Wizard, path: string) returns (r: Outcome)
    ensures Separator !in path ==> r == Outcome(w, Some(AssertionFailed))
    ensures r.thrown.Some? <==> Separator !in path || JavaSplit(path) == []
    ensures r.thrown.Some? ==> r.thrown.value == AssertionFailed
    ensures Separator in path ==>
              && r.state.filePathComponents == JavaSplit(path)
              && r.state.rootSpatial.None? && !r.state.hasRagdoll && r.state.loadException.None?
              && r.state.linkedBones == w.linkedBones
    ensures Separator in path ==>
              var cs := r.state.filePathComponents;
              && ((forall i :: 0 <= i < |cs| ==> !Marks(cs, i)) ==> r.state.numComponentsInRoot == 1)
              && (forall j :: 0 <= j < |cs| && Marks(cs, j) && (forall i :: j < i < |cs| ==> !Marks(cs, i))
                    ==> r.state.numComponentsInRoot == Suggestion(cs, j))
    ensures Separator in path && path[|path| - 1] != Separator ==>
              r.thrown.None? && FilePath(r.state.filePathComponents) == path
    ensures Separator in path && |r.state.filePathComponents| >= 2 ==>
              AssetRoot(r.state.filePathComponents, r.state.numComponentsInRoot).Ok? &&
              AssetPath(r.state.filePathComponents, r.state.numComponentsInRoot).Ok?
  {
    if Separator !in path {
      return Outcome(w, Some(AssertionFailed));
    }
    var cs := JavaSplit(path);
    var w1 := Unload(w.(filePathComponents := cs, numComponentsInRoot := 1, loadException := None));
    if path[|path| - 1] != Separator {
      SplitJoinRoundTrip(path);
    }
    if |cs| == 0 {
      return Outcome(w1, Some(AssertionFailed));
    }
    var k := GuessRootComponents(cs);
    return Outcome(w1.(numComponentsInRoot := k), None);
  }

  /** `moreRoot`: move one component from the asset path to the asset root. */
  function MoreRoot(w: Wizard): (w': Wizard)
    ensures w'.numComponentsInRoot == w.numComponentsInRoot + 1
    ensures w'.rootSpatial.None? && !w'.hasRagdoll
    ensures w'.filePathComponents == w.filePathComponents
  {
    Unload(w).(numComponentsInRoot := w.numComponentsInRoot + 1)
  }

  /** `morePath`: move one component from the asset root to the asset path. */
  function MorePath(w: Wizard): (w': Wizard)
    ensures w'.numComponentsInRoot == w.numComponentsInRoot - 1
    ensures w'.rootSpatial.None? && !w'.hasRagdoll
    ensures w'.filePathComponents == w.filePathComponents
  {
    Unload(w).(numComponentsInRoot := w.numComponentsInRoot - 1)
  }

  /** `moreRoot` and `morePath` undo each other, apart from the unload. */
  lemma MoreRootMorePathInverse(w: Wizard)
    ensures MorePath(MoreRoot(w)) == Unload(w)
    ensures MoreRoot(MorePath(w)) == Unload(w)
  {
  }

  /** Moving a component keeps the file path: the asset root and asset path
      still concatenate to it while the root has between 1 and n-1
      components. */
  lemma MoreRootKeepsFilePath(w: Wizard)
    requires 1 <= w.numComponentsInRoot && w.numComponentsInRoot + 1 < |w.filePathComponents|
    ensures var w' := MoreRoot(w);
      AssetRoot(w'.filePathComponents, w'.numComponentsInRoot).value
        + AssetPath(w'.filePathComponents, w'.numComponentsInRoot).value[1..]
      == FilePath(w.filePathComponents)
  {
    RootPlusPath(w.filePathComponents, w.numComponentsInRoot + 1);
  }

  // ---------------------------------------------------------------------
  // Linked bones

  /** The manager name of every bone, as setLinkedBones computes it. */
  function ManagerMap(sk: Skeleton, linked: set<nat>): (mm: seq<string>)
    requires IsForest(sk)
    ensures |mm| == |sk|
    ensures forall b :: 0 <= b < |sk| ==> mm[b] == FindManager(sk, linked, b)
  {
    seq(|sk|, b requires 0 <= b < |sk| => FindManager(sk, linked, b))
  }

  /** `setLinkedBones`: requires a loaded model; a set equal to the current
      one changes nothing; otherwise the set is stored and the manager map
      (the input of the vertex assignment) is recomputed for the model. */
  function SetLinkedBones(w: Wizard, linked: set<nat>): (r: Outcome)
    requires Valid(w)
    ensures w.rootSpatial.None? ==> r == Outcome(w, Some(NoModelLoaded))
    ensures w.rootSpatial.Some? && w.linkedBones == Some(linked) ==> r == Outcome(w, None)
    ensures w.rootSpatial.Some? && w.linkedBones != Some(linked) ==>
              && r.state.linkedBones == Some(linked)
              && (r.thrown.None? <==> w.rootSpatial.value.skeleton.Some?)
    ensures r.thrown.None? && w.linkedBones != Some(linked) ==>
              var sk := w.rootSpatial.value.skeleton.value;
              && r.state.coordsFrom == w.rootSpatial
              && |r.state.managerMap| == |sk|
              && forall b :: 0 <= b < |sk| ==> r.state.managerMap[b] == FindManager(sk, linked, b)
    ensures w.rootSpatial.Some? && w.linkedBones != Some(linked) ==>
              r.state == w.(linkedBones := Some(linked), managerMap := r.state.managerMap,
                            coordsFrom := r.state.coordsFrom)
    ensures w.rootSpatial.Some? && w.linkedBones != Some(linked) && w.rootSpatial.value.skeleton.None? ==>
              r.state == w.(linkedBones := Some(linked))
    ensures r.state.rootSpatial == w.rootSpatial && Valid(r.state)
  {
    if w.rootSpatial.None? then Outcome(w, Some(NoModelLoaded))
    else if w.linkedBones == Some(linked) then Outcome(w, None)
    else
      var w1 := w.(linkedBones := Some(linked));
      match w.rootSpatial.value.skeleton
      case None => Outcome(w1, Some(NullReference))
      case Some(sk) =>
        Outcome(w1.(managerMap := ManagerMap(sk, linked), coordsFrom := w.rootSpatial), None)
  }

  /** `load`, with the asset manager's answer and the influence analysis as
      parameters: unload, compute the asset root and path, record the model
      or the exception, then (for a model with a skeleton) store the
      influence sets and link no bones. As written, a reload whose previous
      linked set was already empty keeps the old vertex-assignment input. */
  function Load(w: Wizard, loaded: Option<LoadedModel>, failure: string,
                anyInfluence: set<nat>, directInfluence: set<nat>): (r: Outcome)
    requires Valid(w)
    requires loaded.Some? ==> WellFormedModel(loaded.value)
    ensures |w.filePathComponents| == 0 ==> r == Outcome(w, Some(PathNotSet))
    ensures r.thrown.None? ==> r.state.rootSpatial == loaded && loaded.Some?
    ensures loaded.None? && |w.filePathComponents| > 0 ==> r.thrown.Some?
    ensures |w.filePathComponents| > 0 && AssetRoot(w.filePathComponents, w.numComponentsInRoot).Ok? ==>
              r.state.loadException == (if loaded.Some? then None else Some(failure))
    ensures |w.filePathComponents| > 0 && AssetRoot(w.filePathComponents, w.numComponentsInRoot).Err? ==>
              r == Outcome(Unload(w), Some(AssetRoot(w.filePathComponents, w.numComponentsInRoot).error))
    ensures r.thrown.None? && loaded.value.skeleton.Some? ==>
              && r.state.linkedBones == Some({})
              && r.state.anyInfluenceBones == anyInfluence
              && r.state.directInfluenceBones == directInfluence
    ensures |w.filePathComponents| > 0 && AssetRoot(w.filePathComponents, w.numComponentsInRoot).Ok? && loaded.Some? ==>
              r.thrown.None? && r.state.rootSpatial == loaded
    ensures |w.filePathComponents| > 0 && AssetRoot(w.filePathComponents, w.numComponentsInRoot).Ok? && loaded.Some? && loaded.value.skeleton.None? ==>
              r == Outcome(Unload(w).(rootSpatial := loaded, loadException := None), None)
    ensures |w.filePathComponents| > 0 ==>
              && !r.state.hasRagdoll
              && r.state.filePathComponents == w.filePathComponents
              && r.state.numComponentsInRoot == w.numComponentsInRoot
    ensures |w.filePathComponents| > 0 && AssetRoot(w.filePathComponents, w.numComponentsInRoot).Ok? && loaded.None? ==>
              r == Outcome(Unload(w).(loadException := Some(failure)), Some(NoModelLoaded))
    ensures |w.filePathComponents| > 0 && AssetRoot(w.filePathComponents, w.numComponentsInRoot).Ok? && loaded.Some? && loaded.value.skeleton.Some? ==>
              r.state == Unload(w).(rootSpatial := loaded, loadException := None,
                                    anyInfluenceBones := anyInfluence,
                                    directInfluenceBones := directInfluence,
                                    linkedBones := Some({}), managerMap := r.state.managerMap,
                                    coordsFrom := r.state.coordsFrom)
    ensures |w.filePathComponents| > 0 && AssetRoot(w.filePathComponents, w.numComponentsInRoot).Ok? && loaded.Some? && loaded.value.skeleton.Some? ==>
              r.state.coordsFrom == (if w.linkedBones == Some({}) then w.coordsFrom else loaded)
    ensures Valid(r.state)
  {
    var cs, k := w.filePathComponents, w.numComponentsInRoot;
    if |cs| == 0 then Outcome(w, Some(PathNotSet))
    else
      var w1 := Unload(w);
      // assetPath() fails exactly when assetRoot() does, so only one test
      if AssetRoot(cs, k).Err? then Outcome(w1, Some(AssetRoot(cs, k).error))
      else
        var w2 := if loaded.Some? then w1.(rootSpatial := loaded, loadException := None)
                  else w1.(loadException := Some(failure));
        if w2.rootSpatial.None? then Outcome(w2, Some(NoModelLoaded))
        else if w2.rootSpatial.value.skeleton.None? then Outcome(w2, None)
        else
          SetLinkedBones(w2.(anyInfluenceBones := anyInfluence,
                             directInfluenceBones := directInfluence), {})
  }

  /** The same load, except that the linked set is forgotten before the
      empty set is stored, so the vertex-assignment input is always rebuilt
      for the model just loaded. */
  function LoadRebuildingCoords(w: Wizard, loaded: Option<LoadedModel>, failure: string,
                                anyInfluence: set<nat>, directInfluence: set<nat>): (r: Outcome)
    requires Valid(w)
    requires loaded.Some? ==> WellFormedModel(loaded.value)
    ensures |w.filePathComponents| == 0 ==> r == Outcome(w, Some(PathNotSet))
    ensures r.thrown.None? ==> r.state.rootSpatial == loaded && loaded.Some?
    ensures loaded.None? && |w.filePathComponents| > 0 ==> r.thrown.Some?
    ensures |w.filePathComponents| > 0 && AssetRoot(w.filePathComponents, w.numComponentsInRoot).Ok? ==>
              r.state.loadException == (if loaded.Some? then None else Some(failure))
    ensures |w.filePathComponents| > 0 && AssetRoot(w.filePathComponents, w.numComponentsInRoot).Err? ==>
              r == Outcome(Unload(w), Some(AssetRoot(w.filePathComponents, w.numComponentsInRoot).error))
    ensures r.thrown.None? && loaded.value.skeleton.Some? ==>
              var sk := loaded.value.skeleton.value;
              && r.state.linkedBones == Some({})
              && r.state.coordsFrom == loaded
              && |r.state.managerMap| == |sk|
              && forall b :: 0 <= b < |sk| ==> r.state.managerMap[b] == TorsoName
    ensures |w.filePathComponents| > 0 && AssetRoot(w.filePathComponents, w.numComponentsInRoot).Ok? && loaded.Some? ==>
              r.thrown.None? && r.state.rootSpatial == loaded
    ensures |w.filePathComponents| > 0 && AssetRoot(w.filePathComponents, w.numComponentsInRoot).Ok? && loaded.Some? && loaded.value.skeleton.None? ==>
              r == Outcome(Unload(w).(rootSpatial := loaded, loadException := None), None)
    ensures |w.filePathComponents| > 0 ==>
              && !r.state.hasRagdoll
              && r.state.filePathComponents == w.filePathComponents
              && r.state.numComponentsInRoot == w.numComponentsInRoot
    ensures |w.filePathComponents| > 0 && AssetRoot(w.filePathComponents, w.numComponentsInRoot).Ok? && loaded.None? ==>
              r == Outcome(Unload(w).(loadException := Some(failure)), Some(NoModelLoaded))
    ensures |w.filePathComponents| > 0 && AssetRoot(w.filePathComponents, w.numComponentsInRoot).Ok? && loaded.Some? && loaded.value.skeleton.Some? ==>
              r.state == Unload(w).(rootSpatial := loaded, loadException := None,
                                    anyInfluenceBones := anyInfluence,
                                    directInfluenceBones := directInfluence,
                                    linkedBones := Some({}), managerMap := r.state.managerMap,
                                    coordsFrom := r.state.coordsFrom)
    ensures Valid(r.state)
  {
    var cs, k := w.filePathComponents, w.numComponentsInRoot;
    if |cs| == 0 then Outcome(w, Some(PathNotSet))
    else
      var w1 := Unload(w);
      // assetPath() fails exactly when assetRoot() does, so only one test
      if AssetRoot(cs, k).Err? then Outcome(w1, Some(AssetRoot(cs, k).error))
      else
        var w2 := if loaded.Some? then w1.(rootSpatial := loaded, loadException := None)
                  else w1.(loadException := Some(failure));
        if w2.rootSpatial.None? then Outcome(w2, Some(NoModelLoaded))
        else if w2.rootSpatial.value.skeleton.None? then Outcome(w2, None)
        else
          var sk := w2.rootSpatial.value.skeleton.value;
          var r := SetLinkedBones(w2.(anyInfluenceBones := anyInfluence,
                                      directInfluenceBones := directInfluence,
                                      linkedBones := None), {});
          assert forall b :: 0 <= b < |sk| ==> FindManager(sk, {}, b) == TorsoName by {
            forall b | 0 <= b < |sk| ensures FindManager(sk, {}, b) == TorsoName {
              ManagerIsNearestLinked(sk, {}, b);
            }
          }
          r
  }

  /** Loading a second model while no bones are linked leaves the vertex
      assignment computed for the first model. */
  lemma ReloadKeepsStaleCoords()
    ensures var a := LoadedModel(1, Some([Bone("hips", -1)]));
      var b := LoadedModel(2, Some([Bone("root", -1), Bone("spine", 0)]));
      var w := Initial.(filePathComponents := ["home", "assets", "m.j3o"], numComponentsInRoot := 1);
      var first := Load(w, Some(a), "", {}, {});
      var second := Load(first.state, Some(b), "", {}, {});
      && first.thrown.None? && second.thrown.None?
      && second.state.rootSpatial == Some(b)
      && second.state.coordsFrom == Some(a)
      && |second.state.managerMap| != 2
  {
    var a := LoadedModel(1, Some([Bone("hips", -1)]));
    var b := LoadedModel(2, Some([Bone("root", -1), Bone("spine", 0)]));
    assert ReachesRoot(a.skeleton.value, 0, 1);
    assert ReachesRoot(b.skeleton.value, 1, 2);
  }

  /** `countManagedBones` on the wizard state: requires a loaded model with
      a skeleton; counts the bones whose manager has the given name. */
  method CountManagedBonesIn(w: Wizard, managerName: string) returns (r: Result<nat, WizardError>)
    requires Valid(w)
    ensures w.rootSpatial.None? ==> r == Err(NoModelLoaded)
    ensures w.rootSpatial.Some? && w.rootSpatial.value.skeleton.None? ==> r == Err(NullReference)
    ensures r.Ok? <==>
              && w.rootSpatial.Some? && w.rootSpatial.value.skeleton.Some?
              && (w.linkedBones.Some? || |w.rootSpatial.value.skeleton.value| == 0)
    ensures r.Err? && w.rootSpatial.Some? ==> r == Err(NullReference)
    ensures r.Ok? ==> var sk := w.rootSpatial.value.skeleton.value;
              && r.value <= |sk|
              && (w.linkedBones.Some? ==> r.value == |ManagedBy(sk, w.linkedBones.value, managerName)|)
              && (w.linkedBones.None? ==> |sk| == 0)
  {
    if w.rootSpatial.None? {
      return Err(NoModelLoaded);
    }
    match w.rootSpatial.value.skeleton {
      case None => return Err(NullReference);
      case Some(sk) =>
        if w.linkedBones.None? {
          if |sk| > 0 {
            return Err(NullReference);
          }
          return Ok(0);
        }
        var count := CountManagedBones(sk, w.linkedBones.value, managerName);
        return Ok(count);
    }
  }

  /** `countBones`: the number of bones of a model, 0 without a skeleton. */
  function BoneCount(m: LoadedModel): nat
  {
    match m.skeleton
    case None => 0
    case Some(sk) => |sk|
  }

  /** `listLinkedBones` on the wizard state: requires a loaded model and a
      linked set; with no skeleton the bone count is 0. */
  method ListLinkedBonesIn(w: Wizard) returns (r: Result<seq<nat>, WizardError>)
    ensures w.rootSpatial.None? ==> r == Err(NoModelLoaded)
    ensures w.rootSpatial.Some? && w.linkedBones.None? ==> r == Err(NullReference)
    ensures r.Ok? <==> w.rootSpatial.Some? && w.linkedBones.Some?
    ensures r.Ok? ==> |r.value| == |w.linkedBones.value|
    ensures r.Ok? ==>
              exists c :: 0 <= c <= |r.value| && Increasing(r.value[..c])
                && Elements(r.value[..c]) == LinkedBelow(w.linkedBones.value, BoneCount(w.rootSpatial.value))
                && forall i :: c <= i < |r.value| ==> r.value[i] == 0
    ensures r.Ok? && w.rootSpatial.value.skeleton.Some? &&
            (forall x :: x in w.linkedBones.value ==> x < |w.rootSpatial.value.skeleton.value|) ==>
              Increasing(r.value) && Elements(r.value) == w.linkedBones.value
  {
    if w.rootSpatial.None? {
      return Err(NoModelLoaded);
    }
    var numBones := BoneCount(w.rootSpatial.value);
    if w.linkedBones.None? {
      return Err(NullReference);
    }
    var list := ListLinkedBones(w.linkedBones.value, numBones);
    return Ok(list);
  }

  /** `linkedBoneParentName` on the wizard state: the child name must be
      non-empty and a model with a skeleton loaded; a root bone's parent link
      is the torso, any other bone's is the manager of its parent. */
  function LinkedBoneParentName(w: Wizard, childName: string): (r: Result<string, WizardError>)
    requires Valid(w)
    ensures childName == "" ==> r == Err(AssertionFailed)
    ensures childName != "" && w.rootSpatial.None? ==> r == Err(NoModelLoaded)
    ensures childName != "" && w.rootSpatial.Some? && w.rootSpatial.value.skeleton.None? ==>
              r == Err(NullReference)
    ensures childName != "" && w.rootSpatial.Some? && w.rootSpatial.value.skeleton.Some? ==>
              var sk := w.rootSpatial.value.skeleton.value;
              && (BoneNamed(sk, childName).None? ==> r == Err(NullReference))
              && (BoneNamed(sk, childName).Some? ==>
                    var c := BoneNamed(sk, childName).value;
                    && (sk[c].parent == -1 ==> r == Ok(TorsoName))
                    && (sk[c].parent != -1 && w.linkedBones.None? ==> r == Err(NullReference))
                    && (sk[c].parent != -1 && w.linkedBones.Some? ==>
                          r == Ok(FindManager(sk, w.linkedBones.value, sk[c].parent))))
  {
    if childName == "" then Err(AssertionFailed)
    else if w.rootSpatial.None? then Err(NoModelLoaded)
    else match w.rootSpatial.value.skeleton
      case None => Err(NullReference)
      case Some(sk) =>
        match BoneNamed(sk, childName)
        case None => Err(NullReference)
        case Some(c) =>
          if sk[c].parent == -1 then Ok(TorsoName)
          else if w.linkedBones.None? then Err(NullReference)
          else Ok(FindManager(sk, w.linkedBones.value, sk[c].parent))
  }
}
