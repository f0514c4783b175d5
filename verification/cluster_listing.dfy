/** PhysicsDumper's listing of the nodes in a soft-body cluster: "(all)" when
    the cluster lists as many indices as the body has nodes; otherwise the
    listed node indices in ascending order, with every run of three or more
    consecutive indices compressed to "first-last". */
module ClusterListing {
  import opened Common

  /** One entry of the listing. */
  datatype Item = Single(n: nat) | Range(lo: nat, hi: nat)

  function Lo(it: Item): nat
  {
    match it
    case Single(n) => n
    case Range(lo, _) => lo
  }

  function Hi(it: Item): nat
  {
    match it
    case Single(n) => n
    case Range(_, hi) => hi
  }

  /** A bound above every listed index. */
  function Above(indices: seq<nat>): (b: nat)
    ensures forall k :: 0 <= k < |indices| ==> indices[k] < b
  {
    if |indices| == 0 then 0
    else
      var rest := Above(indices[1..]);
      assert forall k :: 1 <= k < |indices| ==> indices[k] == indices[1..][k - 1];
      if indices[0] + 1 > rest then indices[0] + 1 else rest
  }

  /** `BitSet.nextClearBit`: the first index at or after `i` that is not
      listed. */
  function NextClear(indices: seq<nat>, i: nat): (j: nat)
    ensures j >= i && j !in indices
    ensures forall k :: i <= k < j ==> k in indices
    decreases Above(indices) - i
  {
    if i in indices then NextClear(indices, i + 1) else i
  }

  /** The length of the run of listed indices that starts at `i`. */
  function RunLength(indices: seq<nat>, i: nat): nat
  {
    NextClear(indices, i) - i
  }

  /** Whether the scan may start at `i` without splitting a long run: the
      index before it is unlisted, or starts a run shorter than three. */
  predicate ScanStart(indices: seq<nat>, i: nat)
  {
    i == 0 || i - 1 !in indices || RunLength(indices, i - 1) < 3
  }

  /** The scan over node indices `i` .. `numNodes - 1`: an unlisted index is
      skipped; a listed one starting a run shorter than three is printed
      alone; a longer run is printed as a range and skipped over (a run may
      end beyond the last node when an index is out of range). */
  function Scan(indices: seq<nat>, numNodes: nat, i: nat): (items: seq<Item>)
    ensures forall j :: 0 <= j < |items| ==> i <= Lo(items[j]) < numNodes
    decreases numNodes - i
  {
    if i >= numNodes then []
    else if i !in indices then Scan(indices, numNodes, i + 1)
    else
      var run := RunLength(indices, i);
      if run < 3 then [Single(i)] + Scan(indices, numNodes, i + 1)
      else [Range(i, i + run - 1)] + Scan(indices, numNodes, i + run)
  }

  /** Entries are well formed and strictly ascending, without overlap. */
  predicate Ascending(items: seq<Item>)
  {
    && (forall j :: 0 <= j < |items| ==> Lo(items[j]) <= Hi(items[j]))
    && (forall j, j' :: 0 <= j < j' < |items| ==> Hi(items[j]) < Lo(items[j']))
  }

  /** Entry `j` mentions node `k`. */
  predicate Mentions(items: seq<Item>, j: nat, k: nat)
    requires j < |items|
  {
    Lo(items[j]) <= k <= Hi(items[j])
  }

  /** Every node the entry mentions is listed. */
  ghost predicate ItemSound(it: Item, indices: seq<nat>)
  {
    forall k: nat :: Lo(it) <= k <= Hi(it) ==> k in indices
  }

  ghost predicate Sound(items: seq<Item>, indices: seq<nat>)
  {
    forall j :: 0 <= j < |items| ==> ItemSound(items[j], indices)
  }

  /** Every listed node from `i` up to the node count is mentioned. */
  ghost predicate Complete(items: seq<Item>, indices: seq<nat>, i: nat, numNodes: nat)
  {
    forall k: nat :: i <= k < numNodes && k in indices ==>
      exists j :: 0 <= j < |items| && Mentions(items, j, k)
  }

  /** A single entry starts a run shorter than three; a range entry is a
      whole maximal run of at least three. */
  predicate ItemCompressed(it: Item, indices: seq<nat>)
  {
    match it
    case Single(n) => RunLength(indices, n) < 3
    case Range(lo, hi) =>
      && hi - lo >= 2
      && hi + 1 == NextClear(indices, lo)
      && (lo == 0 || lo - 1 !in indices)
  }

  predicate Compressed(items: seq<Item>, indices: seq<nat>)
  {
    forall j :: 0 <= j < |items| ==> ItemCompressed(items[j], indices)
  }

  /** A listed index continues the run of the next one. */
  lemma NextClearStep(indices: seq<nat>, x: nat)
    ensures x in indices ==> NextClear(indices, x) == NextClear(indices, x + 1)
  {
  }

  /** Where the scan continues after index `i`. */
  function Next(indices: seq<nat>, i: nat): (next: nat)
    ensures next > i
  {
    if i in indices && RunLength(indices, i) >= 3 then NextClear(indices, i) else i + 1
  }

  /** One step of the scan: the entry at `i` (if any) followed by the rest. */
  lemma ScanStep(indices: seq<nat>, numNodes: nat, i: nat)
    requires i < numNodes
    ensures var items := Scan(indices, numNodes, i);
      var rest := Scan(indices, numNodes, Next(indices, i));
      && (i !in indices ==> items == rest)
      && (i in indices ==>
            && |items| == |rest| + 1 && items[1..] == rest
            && Lo(items[0]) == i && Hi(items[0]) == Next(indices, i) - 1)
      && (i in indices && RunLength(indices, i) < 3 ==> items[0] == Single(i))
      && (i in indices && RunLength(indices, i) >= 3 ==>
            items[0] == Range(i, NextClear(indices, i) - 1))
  {
  }

  lemma {:induction false} ScanAscending(indices: seq<nat>, numNodes: nat, i: nat)
    ensures Ascending(Scan(indices, numNodes, i))
    decreases numNodes - i
  {
    if i < numNodes {
      ScanStep(indices, numNodes, i);
      ScanAscending(indices, numNodes, Next(indices, i));
      var items := Scan(indices, numNodes, i);
      var rest := Scan(indices, numNodes, Next(indices, i));
      if i in indices {
        forall j, j' | 0 <= j < j' < |items| ensures Hi(items[j]) < Lo(items[j']) {
          assert items[j'] == rest[j' - 1];
          if j > 0 {
            assert items[j] == rest[j - 1];
          }
        }
      }
    }
  }

  lemma {:induction false} ScanSound(indices: seq<nat>, numNodes: nat, i: nat)
    ensures Sound(Scan(indices, numNodes, i), indices)
    decreases numNodes - i
  {
    if i < numNodes {
      ScanStep(indices, numNodes, i);
      ScanSound(indices, numNodes, Next(indices, i));
      var items := Scan(indices, numNodes, i);
      var rest := Scan(indices, numNodes, Next(indices, i));
      if i in indices {
        forall j | 0 <= j < |items| ensures ItemSound(items[j], indices) {
          if j > 0 {
            assert items[j] == rest[j - 1];
          }
        }
      }
    }
  }

  lemma {:induction false} ScanComplete(indices: seq<nat>, numNodes: nat, i: nat)
    ensures Complete(Scan(indices, numNodes, i), indices, i, numNodes)
    decreases numNodes - i
  {
    if i < numNodes {
      ScanStep(indices, numNodes, i);
      var next := Next(indices, i);
      ScanComplete(indices, numNodes, next);
      var items := Scan(indices, numNodes, i);
      var rest := Scan(indices, numNodes, next);
      forall k: nat | i <= k < numNodes && k in indices
        ensures exists j :: 0 <= j < |items| && Mentions(items, j, k)
      {
        if k < next {
          assert Mentions(items, 0, k);
        } else {
          var j :| 0 <= j < |rest| && Mentions(rest, j, k);
          if i in indices {
            assert items[j + 1] == rest[j];
            assert Mentions(items, j + 1, k);
          } else {
            assert Mentions(items, j, k);
          }
        }
      }
    }
  }

  lemma {:induction false} ScanCompressed(indices: seq<nat>, numNodes: nat, i: nat)
    requires ScanStart(indices, i)
    ensures Compressed(Scan(indices, numNodes, i), indices)
    decreases numNodes - i
  {
    if i < numNodes {
      ScanStep(indices, numNodes, i);
      var next := Next(indices, i);
      var items := Scan(indices, numNodes, i);
      var rest := Scan(indices, numNodes, next);
      if i !in indices {
        ScanCompressed(indices, numNodes, next);
      } else {
        var run := RunLength(indices, i);
        if run < 3 {
          assert ScanStart(indices, next);
        } else {
          assert next - 1 in indices;
          assert NextClear(indices, next - 1) == next;
          assert ScanStart(indices, next);
          if i > 0 {
            NextClearStep(indices, i - 1);
          }
          assert ItemCompressed(items[0], indices);
        }
        ScanCompressed(indices, numNodes, next);
        forall j | 0 <= j < |items| ensures ItemCompressed(items[j], indices) {
          if j > 0 {
            assert items[j] == rest[j - 1];
          }
        }
      }
    }
  }

  /** The run search sees only which indices are listed. */
  lemma {:induction false} NextClearDependsOnSet(a: seq<nat>, b: seq<nat>, i: nat)
    requires forall k :: k in a <==> k in b
    ensures NextClear(a, i) == NextClear(b, i)
    decreases Above(a) - i
  {
    if i in a {
      NextClearDependsOnSet(a, b, i + 1);
    }
  }

  /** The scan sees only which indices are listed: their order and any
      repetitions make no difference, as with the source's bit set. */
  lemma {:induction false} ScanDependsOnSet(a: seq<nat>, b: seq<nat>, numNodes: nat, i: nat)
    requires forall k :: k in a <==> k in b
    ensures Scan(a, numNodes, i) == Scan(b, numNodes, i)
    decreases numNodes - i
  {
    if i < numNodes {
      NextClearDependsOnSet(a, b, i);
      if i in a {
        ScanDependsOnSet(a, b, numNodes, i + 1);
        ScanDependsOnSet(a, b, numNodes, i + RunLength(a, i));
      } else {
        ScanDependsOnSet(a, b, numNodes, i + 1);
      }
    }
  }

  /** The text of one entry, as `%d` or `%d-%d` prints it. */
  function ItemText(it: Item): (t: string)
    ensures |t| > 0 && IsDigit(t[0])
  {
    match it
    case Single(n) => NatToString(n)
    case Range(lo, hi) => NatToString(lo) + "-" + NatToString(hi)
  }

  function ItemTexts(items: seq<Item>): (ts: seq<string>)
    ensures |ts| == |items|
    ensures forall j :: 0 <= j < |items| ==> ts[j] == ItemText(items[j])
  {
    seq(|items|, j requires 0 <= j < |items| => ItemText(items[j]))
  }

  /** `dumpNodesInCluster`: "(all)" exactly when the cluster lists as many
      indices as the body has nodes; otherwise the comma-separated entries of
      the scan in parentheses. */
  function DumpNodesInCluster(indices: seq<nat>, numNodes: nat): (text: string)
    ensures text == "(all)" <==> |indices| == numNodes
    ensures |indices| != numNodes ==>
              text == "(" + Join(ItemTexts(Scan(indices, numNodes, 0)), ',') + ")"
  {
    if |indices| == numNodes then "(all)"
    else
      var body := Join(ItemTexts(Scan(indices, numNodes, 0)), ',');
      JoinStartsWithFirst(ItemTexts(Scan(indices, numNodes, 0)));
      assert |body| > 0 ==> ("(" + body + ")")[1] == body[0];
      "(" + body + ")"
  }

  /** A join of non-empty texts that start with a digit starts with a digit
      (and is empty only when there are no texts). */
  lemma JoinStartsWithFirst(ts: seq<string>)
    requires forall j :: 0 <= j < |ts| ==> |ts[j]| > 0 && IsDigit(ts[j][0])
    ensures |ts| == 0 ==> Join(ts, ',') == ""
    ensures |ts| > 0 ==> |Join(ts, ',')| > 0 && IsDigit(Join(ts, ',')[0])
  {
  }

  /** Two clusters that list the same nodes, neither as many indices as the
      body has nodes, are printed alike. */
  lemma DumpDependsOnSet(a: seq<nat>, b: seq<nat>, numNodes: nat)
    requires forall k :: k in a <==> k in b
    requires |a| != numNodes && |b| != numNodes
    ensures DumpNodesInCluster(a, numNodes) == DumpNodesInCluster(b, numNodes)
  {
    ScanDependsOnSet(a, b, numNodes, 0);
  }

  /** Entry `j` is the one entry that mentions node `k`. */
  predicate OnlyMention(items: seq<Item>, j: int, k: nat)
  {
    && 0 <= j < |items| && Mentions(items, j, k)
    && forall j' :: 0 <= j' < |items| && j' != j ==> !Mentions(items, j', k)
  }

  /** Every listed node inside the body is mentioned by exactly one entry. */
  lemma ListingCoversEachNodeOnce(indices: seq<nat>, numNodes: nat, k: nat)
    requires k < numNodes && k in indices
    ensures exists j :: OnlyMention(Scan(indices, numNodes, 0), j, k)
  {
    var items := Scan(indices, numNodes, 0);
    ScanComplete(indices, numNodes, 0);
    ScanAscending(indices, numNodes, 0);
    assert 0 <= k < numNodes && k in indices;
    var j :| 0 <= j < |items| && Mentions(items, j, k);
    forall j' | 0 <= j' < |items| && j' != j
      ensures !Mentions(items, j', k)
    {
      if j' < j {
        assert Hi(items[j']) < Lo(items[j]);
      } else {
        assert Hi(items[j]) < Lo(items[j']);
      }
    }
    assert OnlyMention(items, j, k);
  }

  /** A maximal run of three or more listed nodes that starts inside the body
      is printed as one range entry. */
  lemma LongRunIsOneRange(indices: seq<nat>, numNodes: nat, a: nat)
    requires a < numNodes && a in indices && (a == 0 || a - 1 !in indices)
    requires RunLength(indices, a) >= 3
    ensures Range(a, NextClear(indices, a) - 1) in Scan(indices, numNodes, 0)
  {
    var items := Scan(indices, numNodes, 0);
    ScanComplete(indices, numNodes, 0);
    ScanSound(indices, numNodes, 0);
    ScanCompressed(indices, numNodes, 0);
    assert 0 <= a < numNodes && a in indices;
    var j :| 0 <= j < |items| && Mentions(items, j, a);
    assert ItemCompressed(items[j], indices) && ItemSound(items[j], indices);
    if items[j].Range? {
      assert Lo(items[j]) <= a - 1 ==> a - 1 in indices;
      assert items[j] == Range(a, NextClear(indices, a) - 1);
    }
  }
}
