/** The DacWizard model's bone logic over a skeleton. A skeleton is a forest
    given by parent indices; some of its bones are "linked" (they get their
    own physics link). Every bone is managed by its nearest linked
    ancestor-or-self, or by the torso when there is none. */
module WizardBones {
  import opened Common

  /** A bone: its name and the index of its parent, -1 for a root bone. */
  datatype Bone = Bone(name: string, parent: int)

  type Skeleton = seq<Bone>

  /** The bone/torso name of the torso link (DacConfiguration.torsoName). */
  const TorsoName: string := ""

  /** Which link manages a bone. */
  datatype Manager = Torso | LinkedBone(index: nat)

  predicate ParentsInRange(sk: Skeleton)
  {
    forall i :: 0 <= i < |sk| ==> -1 <= sk[i].parent < |sk|
  }

  /** Following parents from `b` reaches a root bone within `fuel` steps. */
  predicate ReachesRoot(sk: Skeleton, b: nat, fuel: nat)
    requires ParentsInRange(sk) && b < |sk|
    decreases fuel
  {
    sk[b].parent == -1 || (fuel > 0 && ReachesRoot(sk, sk[b].parent, fuel - 1))
  }

  /** A skeleton is a forest: every parent chain ends at a root, so no bone
      is its own ancestor. */
  predicate IsForest(sk: Skeleton)
  {
    ParentsInRange(sk) && forall b :: 0 <= b < |sk| ==> ReachesRoot(sk, b, |sk|)
  }

  /** The `k`-th ancestor of `b` (the bone itself for k = 0), or None once
      the chain has passed a root. */
  function Ancestor(sk: Skeleton, b: nat, k: nat): (r: Option<nat>)
    requires ParentsInRange(sk) && b < |sk|
    ensures r.Some? ==> r.value < |sk|
    decreases k
  {
    if k == 0 then Some(b)
    else if sk[b].parent == -1 then None
    else Ancestor(sk, sk[b].parent, k - 1)
  }

  /** The `k`-th ancestor of `b` exists and is linked. */
  predicate LinkedAt(sk: Skeleton, linked: set<nat>, b: nat, k: nat)
    requires ParentsInRange(sk) && b < |sk|
  {
    Ancestor(sk, b, k).Some? && Ancestor(sk, b, k).value in linked
  }

  /** The `k`-th ancestor of `b` is the nearest linked ancestor-or-self. */
  predicate NearestLinked(sk: Skeleton, linked: set<nat>, b: nat, k: nat)
    requires ParentsInRange(sk) && b < |sk|
  {
    LinkedAt(sk, linked, b, k) && forall j :: 0 <= j < k ==> !LinkedAt(sk, linked, b, j)
  }

  /** The walk of `findManager`: test the bone, else move to its parent, and
      stop at the torso when there is no parent. */
  function ManagerWalk(sk: Skeleton, linked: set<nat>, b: nat, fuel: nat): (m: Manager)
    requires ParentsInRange(sk) && b < |sk|
    requires ReachesRoot(sk, b, fuel)
    ensures m.LinkedBone? ==> m.index < |sk| && m.index in linked
    decreases fuel
  {
    if b in linked then LinkedBone(b)
    else if sk[b].parent == -1 then Torso
    else ManagerWalk(sk, linked, sk[b].parent, fuel - 1)
  }

  /** The manager of bone `b`. */
  function ManagerOf(sk: Skeleton, linked: set<nat>, b: nat): (m: Manager)
    requires IsForest(sk) && b < |sk|
    ensures m.LinkedBone? ==> m.index < |sk| && m.index in linked
  {
    ManagerWalk(sk, linked, b, |sk|)
  }

  /** The bone/torso name of a manager. */
  function ManagerName(sk: Skeleton, m: Manager): string
    requires m.LinkedBone? ==> m.index < |sk|
  {
    match m
    case Torso => TorsoName
    case LinkedBone(i) => sk[i].name
  }

  /** `findManager`: the name of the bone's manager. */
  function FindManager(sk: Skeleton, linked: set<nat>, b: nat): string
    requires IsForest(sk) && b < |sk|
  {
    ManagerName(sk, ManagerOf(sk, linked, b))
  }

  /** The walk finds the nearest linked ancestor-or-self, and the torso
      exactly when no ancestor-or-self is linked. */
  lemma {:induction false} ManagerWalkIsNearest(sk: Skeleton, linked: set<nat>, b: nat, fuel: nat)
    requires ParentsInRange(sk) && b < |sk|
    requires ReachesRoot(sk, b, fuel)
    ensures ManagerWalk(sk, linked, b, fuel).Torso? <==>
              forall k :: !LinkedAt(sk, linked, b, k)
    ensures forall k :: NearestLinked(sk, linked, b, k) ==>
              ManagerWalk(sk, linked, b, fuel) == LinkedBone(Ancestor(sk, b, k).value)
    ensures ManagerWalk(sk, linked, b, fuel).LinkedBone? ==>
              exists k :: NearestLinked(sk, linked, b, k) &&
                          Ancestor(sk, b, k) == Some(ManagerWalk(sk, linked, b, fuel).index)
    decreases fuel
  {
    var m := ManagerWalk(sk, linked, b, fuel);
    if b in linked {
      assert LinkedAt(sk, linked, b, 0);
      assert NearestLinked(sk, linked, b, 0);
      forall k: nat | NearestLinked(sk, linked, b, k)
        ensures m == LinkedBone(Ancestor(sk, b, k).value)
      {
      }
    } else if sk[b].parent == -1 {
      forall k: nat ensures !LinkedAt(sk, linked, b, k) {
        if k > 0 {
          assert Ancestor(sk, b, k).None?;
        }
      }
    } else {
      var p := sk[b].parent;
      ManagerWalkIsNearest(sk, linked, p, fuel - 1);
      assert !LinkedAt(sk, linked, b, 0);
      assert forall k: nat :: Ancestor(sk, b, k + 1) == Ancestor(sk, p, k);
      assert forall k: nat :: LinkedAt(sk, linked, b, k + 1) <==> LinkedAt(sk, linked, p, k);
      if m.Torso? {
        forall k: nat ensures !LinkedAt(sk, linked, b, k) {
          if k > 0 {
            assert !LinkedAt(sk, linked, p, k - 1);
          }
        }
      } else {
        var k': nat :| NearestLinked(sk, linked, p, k') && Ancestor(sk, p, k') == Some(m.index);
        assert LinkedAt(sk, linked, b, k' + 1);
        forall j: nat | 0 <= j < k' + 1 ensures !LinkedAt(sk, linked, b, j) {
          if j > 0 {
            assert !LinkedAt(sk, linked, p, j - 1);
          }
        }
        assert NearestLinked(sk, linked, b, k' + 1);
      }
      forall k: nat | NearestLinked(sk, linked, b, k)
        ensures m == LinkedBone(Ancestor(sk, b, k).value)
      {
        assert k > 0;
        forall j: nat | 0 <= j < k - 1 ensures !LinkedAt(sk, linked, p, j) {
          assert !LinkedAt(sk, linked, b, j + 1);
        }
        assert NearestLinked(sk, linked, p, k - 1);
      }
    }
  }

  /** `findManager` names the nearest linked ancestor-or-self of the bone, or
      the torso when no ancestor-or-self is linked. */
  lemma ManagerIsNearestLinked(sk: Skeleton, linked: set<nat>, b: nat)
    requires IsForest(sk) && b < |sk|
    ensures ManagerOf(sk, linked, b).Torso? <==> forall k :: !LinkedAt(sk, linked, b, k)
    ensures forall k :: NearestLinked(sk, linked, b, k) ==>
              ManagerOf(sk, linked, b) == LinkedBone(Ancestor(sk, b, k).value)
    ensures ManagerOf(sk, linked, b).LinkedBone? ==>
              exists k :: NearestLinked(sk, linked, b, k) &&
                          Ancestor(sk, b, k) == Some(ManagerOf(sk, linked, b).index)
  {
    ManagerWalkIsNearest(sk, linked, b, |sk|);
  }

  /** A linked bone manages itself. */
  lemma LinkedBoneManagesItself(sk: Skeleton, linked: set<nat>, b: nat)
    requires IsForest(sk) && b < |sk| && b in linked
    ensures ManagerOf(sk, linked, b) == LinkedBone(b)
  {
    ManagerIsNearestLinked(sk, linked, b);
    assert NearestLinked(sk, linked, b, 0);
  }

  // ---------------------------------------------------------------------
  // countManagedBones

  /** The bones whose manager has the given name. */
  function ManagedBy(sk: Skeleton, linked: set<nat>, managerName: string): set<nat>
    requires IsForest(sk)
  {
    set b: nat | b < |sk| && FindManager(sk, linked, b) == managerName
  }

  /** `countManagedBones`: how many bones the named manager manages. */
  method CountManagedBones(sk: Skeleton, linked: set<nat>, managerName: string) returns (count: nat)
    requires IsForest(sk)
    ensures count == |ManagedBy(sk, linked, managerName)|
    ensures count <= |sk|
  {
    count := 0;
    var i := 0;
    ghost var counted: set<nat> := {};
    while i < |sk|
      invariant 0 <= i <= |sk|
      invariant counted == set b: nat | b < i && FindManager(sk, linked, b) == managerName
      invariant count == |counted|
      invariant count <= i
    {
      if FindManager(sk, linked, i) == managerName {
        counted := counted + {i};
        count := count + 1;
      }
      i := i + 1;
    }
  }

  /** The indices below `n`. */
  function Indices(n: nat): (r: set<nat>)
    ensures forall b: int :: b in r <==> 0 <= b < n
    ensures |r| == n
  {
    if n == 0 then {}
    else
      var r := Indices(n - 1);
      assert n - 1 !in r;
      r + {n - 1}
  }

  /** The sum of the managed-bone counts of a list of names. */
  function SumManaged(sk: Skeleton, linked: set<nat>, names: seq<string>): nat
    requires IsForest(sk)
  {
    if |names| == 0 then 0
    else |ManagedBy(sk, linked, names[0])| + SumManaged(sk, linked, names[1..])
  }

  /** The bones managed by any of the names. */
  function ManagedByAny(sk: Skeleton, linked: set<nat>, names: seq<string>): set<nat>
    requires IsForest(sk)
  {
    set b: nat | b < |sk| && FindManager(sk, linked, b) in names
  }

  /** Over distinct names the counts add up to the number of bones managed by
      any of them. */
  lemma {:induction false} SumManagedIsUnion(sk: Skeleton, linked: set<nat>, names: seq<string>)
    requires IsForest(sk)
    requires forall i, j :: 0 <= i < j < |names| ==> names[i] != names[j]
    ensures SumManaged(sk, linked, names) == |ManagedByAny(sk, linked, names)|
  {
    if |names| > 0 {
      SumManagedIsUnion(sk, linked, names[1..]);
      var head := ManagedBy(sk, linked, names[0]);
      var tail := ManagedByAny(sk, linked, names[1..]);
      assert ManagedByAny(sk, linked, names) == head + tail by {
        forall b | b in ManagedByAny(sk, linked, names) ensures b in head + tail {
          var n := FindManager(sk, linked, b);
          if n != names[0] {
            var i :| 0 <= i < |names| && names[i] == n;
            assert names[1..][i - 1] == n;
          }
        }
      }
      assert head !! tail;
    }
  }

  /** Summed over a list of distinct names that covers every manager, the
      managed-bone counts add up to the number of bones. */
  lemma ManagedCountsPartitionBones(sk: Skeleton, linked: set<nat>, names: seq<string>)
    requires IsForest(sk)
    requires forall i, j :: 0 <= i < j < |names| ==> names[i] != names[j]
    requires forall b :: 0 <= b < |sk| ==> FindManager(sk, linked, b) in names
    ensures SumManaged(sk, linked, names) == |sk|
  {
    SumManagedIsUnion(sk, linked, names);
    assert ManagedByAny(sk, linked, names) == Indices(|sk|);
  }

  /** Bone names are unique and differ from the torso name. */
  predicate DistinctNames(sk: Skeleton)
  {
    && (forall i, j :: 0 <= i < j < |sk| ==> sk[i].name != sk[j].name)
    && (forall i :: 0 <= i < |sk| ==> sk[i].name != TorsoName)
  }

  /** The manager names of a list of linked bones, torso first. */
  function ManagerNames(sk: Skeleton, listed: seq<nat>): (names: seq<string>)
    requires forall i :: 0 <= i < |listed| ==> listed[i] < |sk|
    ensures |names| == |listed| + 1
  {
    [TorsoName] + seq(|listed|, i requires 0 <= i < |listed| => sk[listed[i]].name)
  }

  /** With unique bone names, the torso's count plus the count of every
      linked bone (as `listLinkedBones` lists them) is the number of bones. */
  lemma ManagerCountsSumToBoneCount(sk: Skeleton, linked: set<nat>, listed: seq<nat>)
    requires IsForest(sk) && DistinctNames(sk)
    requires forall x :: x in linked ==> x < |sk|
    requires Increasing(listed) && Elements(listed) == linked
    requires forall i :: 0 <= i < |listed| ==> listed[i] < |sk|
    ensures SumManaged(sk, linked, ManagerNames(sk, listed)) == |sk|
  {
    var names := ManagerNames(sk, listed);
    forall i, j | 0 <= i < j < |names| ensures names[i] != names[j] {
      if i > 0 {
        assert listed[i - 1] < listed[j - 1];
      }
    }
    forall b | 0 <= b < |sk| ensures FindManager(sk, linked, b) in names {
      var m := ManagerOf(sk, linked, b);
      if m.LinkedBone? {
        assert m.index in Elements(listed);
        var i :| 0 <= i < |listed| && listed[i] == m.index;
        assert names[i + 1] == sk[m.index].name;
      } else {
        assert names[0] == TorsoName;
      }
    }
    ManagedCountsPartitionBones(sk, linked, names);
  }

  // ---------------------------------------------------------------------
  // listLinkedBones

  /** `s` is strictly increasing. */
  predicate Increasing(s: seq<nat>)
  {
    forall i, j :: 0 <= i < j < |s| ==> s[i] < s[j]
  }

  /** The elements of a sequence. */
  function Elements(s: seq<nat>): set<nat>
  {
    set x | x in s
  }

  /** A strictly increasing sequence has as many elements as its set. */
  lemma {:induction false} IncreasingCardinality(s: seq<nat>)
    requires Increasing(s)
    ensures |Elements(s)| == |s|
  {
    if |s| > 0 {
      var init, last := s[..|s| - 1], s[|s| - 1];
      IncreasingCardinality(init);
      assert forall i :: 0 <= i < |init| ==> init[i] < last;
      assert last !in Elements(init);
      assert Elements(s) == Elements(init) + {last};
    } else {
      assert Elements(s) == {};
    }
  }

  /** The linked bones below `bound`. */
  function LinkedBelow(linked: set<nat>, bound: nat): set<nat>
  {
    set x | x in linked && x < bound
  }

  /** `listLinkedBones`: an array as long as the linked set whose leading
      entries are the linked bones below `numBones` in increasing order; any
      remaining entries stay 0. */
  method ListLinkedBones(linked: set<nat>, numBones: nat) returns (r: seq<nat>)
    ensures |r| == |linked|
    ensures exists c :: 0 <= c <= |r| && Increasing(r[..c])
              && Elements(r[..c]) == LinkedBelow(linked, numBones)
              && forall i :: c <= i < |r| ==> r[i] == 0
    ensures (forall x :: x in linked ==> x < numBones) ==>
              Increasing(r) && Elements(r) == linked
  {
    var acc: seq<nat> := [];
    var boneIndex := 0;
    while boneIndex < numBones
      invariant 0 <= boneIndex <= numBones
      invariant Increasing(acc)
      invariant forall i :: 0 <= i < |acc| ==> acc[i] < boneIndex
      invariant Elements(acc) == LinkedBelow(linked, boneIndex)
    {
      if boneIndex in linked {
        assert Elements(acc + [boneIndex]) == Elements(acc) + {boneIndex};
        acc := acc + [boneIndex];
        assert LinkedBelow(linked, boneIndex + 1) == LinkedBelow(linked, boneIndex) + {boneIndex};
      } else {
        assert LinkedBelow(linked, boneIndex + 1) == LinkedBelow(linked, boneIndex);
      }
      boneIndex := boneIndex + 1;
    }
    IncreasingCardinality(acc);
    SubsetCardinality(Elements(acc), linked);
    r := acc + seq(|linked| - |acc|, _ => 0);
    assert r[..|acc|] == acc;
    if forall x :: x in linked ==> x < numBones {
      assert Elements(acc) == linked;
      SubsetCardinality(linked, Elements(acc));
      assert r == acc;
    }
  }

  /** A subset is no larger than its superset. */
  lemma {:induction false} SubsetCardinality(a: set<nat>, b: set<nat>)
    requires a <= b
    ensures |a| <= |b|
    decreases |b|
  {
    if a != {} {
      var x :| x in a;
      SubsetCardinality(a - {x}, b - {x});
    }
  }

  // ---------------------------------------------------------------------
  // linkedBoneParentName

  /** `Skeleton.getBone(name)`: the first bone with that name, if any. */
  function BoneNamed(sk: Skeleton, name: string): (r: Option<nat>)
    ensures r.Some? ==> r.value < |sk| && sk[r.value].name == name
                        && forall i :: 0 <= i < r.value ==> sk[i].name != name
    ensures r.None? ==> forall i :: 0 <= i < |sk| ==> sk[i].name != name
    decreases |sk|
  {
    if |sk| == 0 then None
    else if sk[|sk| - 1].name == name && BoneNamed(sk[..|sk| - 1], name).None? then Some(|sk| - 1)
    else
      var r := BoneNamed(sk[..|sk| - 1], name);
      if r.Some? then r else None
  }

  /** `linkedBoneParentName`: the torso for a root bone, otherwise the manager
      of the bone's parent; None when no bone has the name (the source then
      dereferences null). */
  function LinkedBoneParent(sk: Skeleton, linked: set<nat>, childName: string): (r: Option<Manager>)
    requires IsForest(sk)
    ensures r.None? <==> forall i :: 0 <= i < |sk| ==> sk[i].name != childName
    ensures r.Some? ==>
              var c := BoneNamed(sk, childName).value;
              && (sk[c].parent == -1 ==> r.value == Torso)
              && (sk[c].parent != -1 ==> r.value == ManagerOf(sk, linked, sk[c].parent))
    ensures r.Some? && r.value.LinkedBone? ==> r.value.index < |sk|
  {
    match BoneNamed(sk, childName)
    case None => None
    case Some(c) =>
      if sk[c].parent == -1 then Some(Torso) else Some(ManagerOf(sk, linked, sk[c].parent))
  }

  /** The parent link of a linked bone that is not a root is the nearest
      linked proper ancestor of that bone, or the torso when there is none. */
  lemma ParentLinkIsNearestProperAncestor(sk: Skeleton, linked: set<nat>, c: nat)
    requires IsForest(sk) && c < |sk| && sk[c].parent != -1
    ensures var m := ManagerOf(sk, linked, sk[c].parent);
      && (m.Torso? <==> forall k: nat :: k > 0 ==> !LinkedAt(sk, linked, c, k))
      && (m.LinkedBone? ==> exists k: nat :: k > 0 && LinkedAt(sk, linked, c, k)
                              && Ancestor(sk, c, k) == Some(m.index)
                              && forall j: nat :: 0 < j < k ==> !LinkedAt(sk, linked, c, j))
  {
    var p: nat := sk[c].parent;
    ManagerIsNearestLinked(sk, linked, p);
    var m := ManagerOf(sk, linked, p);
    if m.Torso? {
      forall k: nat | k > 0 ensures !LinkedAt(sk, linked, c, k) {
        assert Ancestor(sk, c, k) == Ancestor(sk, p, k - 1);
        assert !LinkedAt(sk, linked, p, k - 1);
      }
    } else {
      var k: nat :| NearestLinked(sk, linked, p, k) && Ancestor(sk, p, k) == Some(m.index);
      assert Ancestor(sk, c, k + 1) == Ancestor(sk, p, k);
      assert LinkedAt(sk, linked, c, k + 1);
      forall j: nat | 0 < j < k + 1 ensures !LinkedAt(sk, linked, c, j) {
        assert Ancestor(sk, c, j) == Ancestor(sk, p, j - 1);
        assert !LinkedAt(sk, linked, p, j - 1);
      }
    }
  }

  // ---------------------------------------------------------------------
  // describeBoneInfluence

  /** `describeBoneInfluence`: direct influence takes precedence over
      indirect influence. */
  function DescribeBoneInfluence(direct: set<nat>, any: set<nat>, b: nat): (d: string)
    ensures d == "has direct mesh influence" <==> b in direct
    ensures d == "mesh influence (indirect only)" <==> b !in direct && b in any
    ensures d == "NO mesh influence" <==> b !in direct && b !in any
  {
    if b in direct then "has direct mesh influence"
    else if b in any then "mesh influence (indirect only)"
    else "NO mesh influence"
  }
}
