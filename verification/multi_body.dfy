/** MultiBody: the Java-side bookkeeping of an articulated body — the array
    of links configured so far, the base collider, the one-bit collision
    group, and the ordering by native identifier. The native multibody itself
    is represented only by its identifier. */
module MultiBodyModel {
  import opened Common

  type ColliderId = nat

  datatype Vec3 = Vec3(x: real, y: real, z: real)

  /** The kind of joint connecting a link to its parent, one per
      configure*Link method. */
  datatype JointType = Fixed | Planar | Prismatic | Revolute | Spherical

  /** A configured link: its index in the body, its joint, the index of its
      parent (-1 for the base), its mass, and its collider if it has one. */
  datatype Link = Link(
    index: nat, jointType: JointType, parentIndex: int, mass: real,
    collider: Option<ColliderId>)

  datatype MultiBody = MultiBody(
    nativeId: int,
    links: seq<Option<Link>>,
    numConfigured: nat,
    baseCollider: Option<ColliderId>,
    collisionGroup: int)

  datatype MbError = IllegalArgument | AssertionFailed | IndexOutOfBounds

  /** The body's invariant: the first `numConfigured` slots hold the links
      configured so far, each at its own index, and the rest are empty. */
  predicate Valid(mb: MultiBody)
  {
    && mb.numConfigured <= |mb.links|
    && (forall i :: 0 <= i < mb.numConfigured ==> mb.links[i].Some? && mb.links[i].value.index == i)
    && (forall i :: mb.numConfigured <= i < |mb.links| ==> mb.links[i].None?)
  }

  predicate Positive(v: Vec3)
  {
    v.x > 0.0 && v.y > 0.0 && v.z > 0.0
  }

  /** The default collision group, COLLISION_GROUP_01. */
  const CollisionGroup01: int := 1

  /** The constructor: the link count must be non-negative and the base's
      mass and every component of its inertia positive; the new body has room
      for `numLinks` links, none configured, and no base collider.
      `nativeId` is the identifier the native library assigns (never zero). */
  function NewMultiBody(numLinks: int, baseMass: real, baseInertia: Vec3, nativeId: int)
    : (r: Result<MultiBody, MbError>)
    ensures r.Ok? <==> numLinks >= 0 && baseMass > 0.0 && Positive(baseInertia) && nativeId != 0
    ensures r.Err? && (numLinks < 0 || baseMass <= 0.0 || !Positive(baseInertia)) ==>
              r.error == IllegalArgument
    ensures r.Ok? ==>
              && Valid(r.value) && |r.value.links| == numLinks && r.value.numConfigured == 0
              && r.value.baseCollider.None? && r.value.nativeId == nativeId
  {
    if numLinks < 0 || baseMass <= 0.0 || !Positive(baseInertia) then Err(IllegalArgument)
    else if nativeId == 0 then Err(AssertionFailed)
    else Ok(MultiBody(nativeId, seq(numLinks, i => None), 0, None, CollisionGroup01))
  }

  /** The parent index passed to the native setup: -1 for the base, else
      the parent link's index. */
  function ParentIndex(parent: Option<Link>): (p: int)
    ensures p == -1 <==> parent.None?
    ensures parent.Some? ==> p == parent.value.index
  {
    if parent.None? then -1 else parent.value.index
  }

  /** `configureFixedLink` … `configureSphericalLink` followed by
      `configureLink`: the mass and inertia must be positive (otherwise an
      illegal argument) and a slot must be free (otherwise an assertion
      failure); the new link takes index `numConfigured`, which then grows by
      one. */
  function ConfigureLink(mb: MultiBody, jointType: JointType, mass: real, inertia: Vec3,
                         parent: Option<Link>): (r: Result<(MultiBody, Link), MbError>)
    ensures r.Ok? <==> mass > 0.0 && Positive(inertia) && mb.numConfigured < |mb.links|
    ensures r.Err? && (mass <= 0.0 || !Positive(inertia)) ==> r.error == IllegalArgument
    ensures r.Err? && mass > 0.0 && Positive(inertia) ==> r.error == AssertionFailed
    ensures r.Ok? ==>
              var (mb', link) := r.value;
              && link == Link(mb.numConfigured, jointType, ParentIndex(parent), mass, None)
              && mb'.numConfigured == mb.numConfigured + 1
              && |mb'.links| == |mb.links| && mb'.links[link.index] == Some(link)
              && (forall i :: 0 <= i < |mb.links| && i != link.index ==> mb'.links[i] == mb.links[i])
              && mb' == mb.(links := mb.links[link.index := Some(link)],
                            numConfigured := mb.numConfigured + 1)
              && (Valid(mb) ==> Valid(mb'))
  {
    if mass <= 0.0 || !Positive(inertia) then Err(IllegalArgument)
    else if mb.numConfigured >= |mb.links| then Err(AssertionFailed)
    else
      var link := Link(mb.numConfigured, jointType, ParentIndex(parent), mass, None);
      Ok((mb.(links := mb.links[mb.numConfigured := Some(link)],
              numConfigured := mb.numConfigured + 1), link))
  }

  /** `getLink`: the index must lie in [0, numConfigured); the link there
      exists in a valid body. */
  function GetLink(mb: MultiBody, linkIndex: int): (r: Result<Link, MbError>)
    ensures (linkIndex < 0 || linkIndex >= mb.numConfigured) ==> r == Err(IllegalArgument)
    ensures Valid(mb) && 0 <= linkIndex < mb.numConfigured ==>
              r.Ok? && r.value.index == linkIndex && mb.links[linkIndex] == Some(r.value)
  {
    if linkIndex < 0 || linkIndex >= mb.numConfigured then Err(IllegalArgument)
    else if linkIndex >= |mb.links| then Err(IndexOutOfBounds)
    else if mb.links[linkIndex].None? then Err(AssertionFailed)
    else Ok(mb.links[linkIndex].value)
  }

  /** Configuring links one after another numbers them 0, 1, 2, …: after a
      configuration, every earlier link can still be fetched unchanged and
      the new one is fetched at the old count. */
  lemma ConfigureThenGet(mb: MultiBody, jointType: JointType, mass: real, inertia: Vec3,
                         parent: Option<Link>, i: int)
    requires Valid(mb)
    requires ConfigureLink(mb, jointType, mass, inertia, parent).Ok?
    requires 0 <= i <= mb.numConfigured
    ensures var (mb', link) := ConfigureLink(mb, jointType, mass, inertia, parent).value;
      && GetLink(mb', i).Ok?
      && (i < mb.numConfigured ==> GetLink(mb', i) == GetLink(mb, i))
      && (i == mb.numConfigured ==> GetLink(mb', i) == Ok(link))
  {
  }

  // ---------------------------------------------------------------------
  // Colliders

  /** The collider of one link slot, as a list of zero or one entries. */
  function SlotColliders(slot: Option<Link>): (cs: seq<ColliderId>)
    ensures |cs| <= 1
  {
    if slot.Some? && slot.value.collider.Some? then [slot.value.collider.value] else []
  }

  /** The colliders of the non-empty slots that have one, in index order. */
  function LinkColliders(links: seq<Option<Link>>): (cs: seq<ColliderId>)
    ensures |cs| <= |links|
    ensures forall c :: c in cs <==>
              exists i :: 0 <= i < |links| && links[i].Some? && links[i].value.collider == Some(c)
  {
    if links == [] then []
    else
      var rest := LinkColliders(links[1..]);
      assert forall i :: 1 <= i < |links| ==> links[i] == links[1..][i - 1];
      SlotColliders(links[0]) + rest
  }

  /** Listing is order preserving: the colliders of consecutive runs of
      slots are listed one run after the other. */
  lemma {:induction false} LinkCollidersAppend(a: seq<Option<Link>>, b: seq<Option<Link>>)
    ensures LinkColliders(a + b) == LinkColliders(a) + LinkColliders(b)
  {
    if a == [] {
      assert a + b == b;
    } else {
      assert (a + b)[1..] == a[1..] + b;
      LinkCollidersAppend(a[1..], b);
    }
  }

  /** Slot by slot: the colliders of a run of slots are those of its first
      `i` slots followed by those of the rest. */
  lemma LinkCollidersSplit(links: seq<Option<Link>>, i: nat)
    requires i <= |links|
    ensures LinkColliders(links) == LinkColliders(links[..i]) + LinkColliders(links[i..])
  {
    assert links == links[..i] + links[i..];
    LinkCollidersAppend(links[..i], links[i..]);
  }

  /** `listColliders`: the base collider first, if there is one, then the
      colliders of the links in index order. */
  function ListColliders(mb: MultiBody): (cs: seq<ColliderId>)
    ensures mb.baseCollider.Some? ==> |cs| > 0 && cs[0] == mb.baseCollider.value
    ensures mb.baseCollider.Some? ==> cs[1..] == LinkColliders(mb.links)
    ensures mb.baseCollider.None? ==> cs == LinkColliders(mb.links)
    ensures |cs| <= |mb.links| + 1
  {
    (if mb.baseCollider.Some? then [mb.baseCollider.value] else []) + LinkColliders(mb.links)
  }

  /** Configuring a link leaves the collider listing as it was: the new
      link has no collider yet and fills an empty slot. */
  lemma ConfigureLinkKeepsColliders(mb: MultiBody, jointType: JointType, mass: real, inertia: Vec3,
                                    parent: Option<Link>)
    requires Valid(mb)
    requires ConfigureLink(mb, jointType, mass, inertia, parent).Ok?
    ensures ListColliders(ConfigureLink(mb, jointType, mass, inertia, parent).value.0) == ListColliders(mb)
  {
    var (mb', link) := ConfigureLink(mb, jointType, mass, inertia, parent).value;
    var n := mb.numConfigured;
    LinkCollidersSplit(mb.links, n);
    LinkCollidersSplit(mb.links[n..], 1);
    LinkCollidersSplit(mb'.links, n);
    LinkCollidersSplit(mb'.links[n..], 1);
    assert mb'.links[..n] == mb.links[..n];
    assert mb'.links[n..][1..] == mb.links[n..][1..];
    assert mb'.links[n..][..1] == [Some(link)];
    assert mb.links[n..][..1] == [None];
  }

  /** `contains`: scan the link slots for the collider, then compare with
      the base collider. The result says whether the collider is listed. */
  method Contains(mb: MultiBody, c: ColliderId) returns (found: bool)
    ensures found <==> c in ListColliders(mb)
    ensures found <==>
              || mb.baseCollider == Some(c)
              || exists i :: 0 <= i < |mb.links| && mb.links[i].Some? && mb.links[i].value.collider == Some(c)
  {
    found := false;
    var i := 0;
    while i < |mb.links|
      invariant 0 <= i <= |mb.links|
      invariant !found ==> forall j :: 0 <= j < i ==> !(mb.links[j].Some? && mb.links[j].value.collider == Some(c))
      invariant !found
    {
      if mb.links[i].Some? && mb.links[i].value.collider == Some(c) {
        found := true;
        break;
      }
      i := i + 1;
    }
    if !found && mb.baseCollider == Some(c) {
      found := true;
    }
  }

  /** `addBaseCollider`: only a body without a base collider may get one
      (an assertion failure otherwise); the new collider is listed first. */
  function AddBaseCollider(mb: MultiBody, collider: ColliderId): (r: Result<MultiBody, MbError>)
    ensures r.Ok? <==> mb.baseCollider.None?
    ensures r.Err? ==> r.error == AssertionFailed
    ensures r.Ok? ==> r.value == mb.(baseCollider := Some(collider))
    ensures r.Ok? ==> ListColliders(r.value) == [collider] + ListColliders(mb)
  {
    if mb.baseCollider.Some? then Err(AssertionFailed)
    else Ok(mb.(baseCollider := Some(collider)))
  }

  // ---------------------------------------------------------------------
  // Collision group

  const TwoTo32: nat := 0x1_0000_0000
  const TwoTo31: nat := 0x8000_0000

  /** A Java `int`. */
  predicate IsInt32(x: int)
  {
    -(TwoTo31 as int) <= x < TwoTo31 as int
  }

  /** The 32 bits of a Java `int`, read as an unsigned number. */
  function Unsigned32(x: int): (u: nat)
    requires IsInt32(x)
    ensures u < TwoTo32
    ensures u % TwoTo32 == x % TwoTo32
  {
    if x < 0 then x + TwoTo32 else x
  }

  /** The number of one bits of a natural number. */
  function PopCount(n: nat): nat
  {
    if n == 0 then 0 else n % 2 + PopCount(n / 2)
  }

  /** `Integer.bitCount`. */
  function BitCount(x: int): nat
    requires IsInt32(x)
  {
    PopCount(Unsigned32(x))
  }

  /** 2 to the power `k`. */
  function Pow2(k: nat): (p: nat)
    ensures p >= 1
  {
    if k == 0 then 1 else 2 * Pow2(k - 1)
  }

  /** A natural number has exactly one bit set exactly when it is a power
      of two. */
  lemma {:induction false} PopCountOneIffPowerOfTwo(n: nat)
    ensures PopCount(n) == 1 <==> exists k: nat :: n == Pow2(k)
    decreases n
  {
    if n == 0 {
      forall k: nat ensures n != Pow2(k) { }
    } else if n % 2 == 1 {
      if PopCount(n) == 1 {
        assert PopCount(n / 2) == 0;
        PopCountZero(n / 2);
        assert n == 1;
        var k0: nat := 0;
        assert n == Pow2(k0);
      } else {
        forall k: nat ensures n != Pow2(k) {
          if k > 0 {
            assert Pow2(k) == 2 * Pow2(k - 1);
          } else {
            assert PopCount(1) == 1;
          }
        }
      }
    } else {
      PopCountOneIffPowerOfTwo(n / 2);
      assert PopCount(n) == PopCount(n / 2);
      if exists k: nat :: n / 2 == Pow2(k) {
        var k: nat :| n / 2 == Pow2(k);
        assert n == Pow2(k + 1);
      }
      if exists k: nat :: n == Pow2(k) {
        var k: nat :| n == Pow2(k);
        assert k > 0 by {
          assert Pow2(0) == 1;
        }
        var k': nat := k - 1;
        assert n / 2 == Pow2(k');
        assert PopCount(n / 2) == 1;
      }
    }
  }

  lemma {:induction false} PopCountZero(n: nat)
    requires PopCount(n) == 0
    ensures n == 0
  {
    if n != 0 {
      PopCountZero(n / 2);
    }
  }

  /** `setCollisionGroup`: the group must have exactly one bit set, that is,
      be a power of two read as 32 unsigned bits (2^31 is the sign bit). */
  function SetCollisionGroup(mb: MultiBody, group: int): (r: Result<MultiBody, MbError>)
    requires IsInt32(group)
    ensures r.Ok? <==> exists k: nat :: k < 32 && Unsigned32(group) == Pow2(k)
    ensures r.Err? ==> r.error == IllegalArgument
    ensures r.Ok? ==> r.value == mb.(collisionGroup := group)
  {
    BitCountOneIffSingleBit(group);
    if BitCount(group) != 1 then Err(IllegalArgument)
    else Ok(mb.(collisionGroup := group))
  }

  /** A Java `int` has exactly one bit set exactly when its 32 bits read as
      one of the powers of two 2^0 … 2^31. */
  lemma BitCountOneIffSingleBit(group: int)
    requires IsInt32(group)
    ensures BitCount(group) == 1 <==> exists k: nat :: k < 32 && Unsigned32(group) == Pow2(k)
  {
    PopCountOneIffPowerOfTwo(Unsigned32(group));
    if exists k: nat :: Unsigned32(group) == Pow2(k) {
      var k: nat :| Unsigned32(group) == Pow2(k);
      Pow2Below32(k, Unsigned32(group));
    }
  }

  lemma {:induction false} Pow2Below32(k: nat, u: nat)
    requires u == Pow2(k) && u < TwoTo32
    ensures k < 32
  {
    if k >= 32 {
      Pow2Monotone(32, k);
      assert Pow2(32) == TwoTo32 by {
        Pow2Value32();
      }
    }
  }

  lemma {:induction false} Pow2Monotone(j: nat, k: nat)
    requires j <= k
    ensures Pow2(j) <= Pow2(k)
    decreases k - j
  {
    if j < k {
      Pow2Monotone(j, k - 1);
    }
  }

  lemma Pow2Value32()
    ensures Pow2(32) == TwoTo32
  {
    assert Pow2(8) == 256;
    assert Pow2(16) == 65536 by {
      Pow2Add(8, 8);
    }
    Pow2Add(16, 16);
  }

  lemma {:induction false} Pow2Add(j: nat, k: nat)
    ensures Pow2(j + k) == Pow2(j) * Pow2(k)
    decreases k
  {
    if k > 0 {
      Pow2Add(j, k - 1);
    }
  }

  // ---------------------------------------------------------------------
  // Ordering

  /** `compareTo`: `Long.compare` on the native identifiers. */
  function CompareTo(a: MultiBody, b: MultiBody): (r: int)
    ensures r == 0 <==> a.nativeId == b.nativeId
    ensures r < 0 <==> a.nativeId < b.nativeId
    ensures r > 0 <==> a.nativeId > b.nativeId
  {
    if a.nativeId < b.nativeId then -1 else if a.nativeId == b.nativeId then 0 else 1
  }

  /** The ordering is antisymmetric and transitive. */
  lemma CompareToIsOrder(a: MultiBody, b: MultiBody, c: MultiBody)
    ensures CompareTo(a, b) == -CompareTo(b, a)
    ensures CompareTo(a, b) <= 0 && CompareTo(b, c) <= 0 ==> CompareTo(a, c) <= 0
  {
  }
}
