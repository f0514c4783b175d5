/** PhysicsDumper's configuration and small counting helpers: the fourteen
    dump flags (seven its own, seven inherited from the scene-graph dumper),
    the English plural suffix used in its summaries, and the occurrence count
    of a value in an integer buffer. */
module DumperFlags {

  /** The flags a PhysicsDumper understands. */
  datatype DumpFlag =
    | Buckets | ClustersInSofts | CullHints | JointsInBodies | JointsInSpaces
    | MatParams | Motors | NodesInClusters | NodesInSofts | Overrides
    | Pcos | ShadowModes | Transforms | UserData

  /** The seven flags PhysicsDumper keeps in its own fields; the others are
      held by its superclass. */
  predicate IsPhysicsFlag(f: DumpFlag)
  {
    f.ClustersInSofts? || f.JointsInBodies? || f.JointsInSpaces? || f.Motors?
    || f.NodesInClusters? || f.NodesInSofts? || f.Pcos?
  }

  /** The configuration: the set of enabled flags (each flag is one boolean
      field, here or in the superclass). */
  type Flags = set<DumpFlag>

  /** `isEnabled`: the value of one flag. */
  predicate IsEnabled(fs: Flags, f: DumpFlag)
  {
    f in fs
  }

  /** `setEnabled`: configure one flag, leaving every other flag alone. */
  function SetEnabled(fs: Flags, f: DumpFlag, v: bool): (r: Flags)
    ensures IsEnabled(r, f) == v
    ensures forall g :: g != f ==> IsEnabled(r, g) == IsEnabled(fs, g)
  {
    if v then fs + {f} else fs - {f}
  }

  /** Setting a flag to its current value changes nothing. */
  lemma SetCurrentValue(fs: Flags, f: DumpFlag)
    ensures SetEnabled(fs, f, IsEnabled(fs, f)) == fs
  {
  }

  /** A later setting of the same flag overrides an earlier one. */
  lemma SetSetSameFlag(fs: Flags, f: DumpFlag, v: bool, w: bool)
    ensures SetEnabled(SetEnabled(fs, f, v), f, w) == SetEnabled(fs, f, w)
  {
  }

  /** Settings of different flags commute. */
  lemma SetDifferentFlagsCommute(fs: Flags, f: DumpFlag, v: bool, g: DumpFlag, w: bool)
    requires f != g
    ensures SetEnabled(SetEnabled(fs, f, v), g, w) == SetEnabled(SetEnabled(fs, g, w), f, v)
  {
  }

  /** The flags of a new PhysicsDumper: its own flags start disabled except
      the one for collision objects in spaces; the inherited flags keep the
      values the superclass constructor gives them. */
  function InitialFlags(inherited: Flags): (r: Flags)
    ensures forall f :: IsPhysicsFlag(f) ==> (IsEnabled(r, f) <==> f.Pcos?)
    ensures forall f :: !IsPhysicsFlag(f) ==> IsEnabled(r, f) == IsEnabled(inherited, f)
  {
    (set f | f in inherited && !IsPhysicsFlag(f)) + {Pcos}
  }

  // ---------------------------------------------------------------------
  // Summary text helpers

  /** The suffix after a counted noun: none for exactly one, "s" otherwise
      (so zero and negative counts are plural). */
  function PluralSuffix(n: int): (s: string)
    ensures s == "" <==> n == 1
    ensures s != "" ==> s == "s"
  {
    if n == 1 then "" else "s"
  }

  /** `frequency`: how many of the first `len` buffer entries equal `v`. */
  method Frequency(buffer: seq<int>, len: nat, v: int) returns (count: nat)
    requires len <= |buffer|
    ensures count == multiset(buffer[..len])[v]
    ensures count <= len
    ensures count == 0 <==> v !in buffer[..len]
  {
    count := 0;
    var offset := 0;
    while offset < len
      invariant 0 <= offset <= len
      invariant count == multiset(buffer[..offset])[v]
      invariant count <= offset
    {
      assert buffer[..offset + 1] == buffer[..offset] + [buffer[offset]];
      if buffer[offset] == v {
        count := count + 1;
      }
      offset := offset + 1;
    }
    assert buffer[..offset] == buffer[..len];
  }
}
