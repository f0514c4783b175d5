/** The DacWizard model's file-system path handling: a path is split into
    components at '/', a heuristic guesses how many leading components form
    the asset root, and the asset root and asset path are rebuilt from the
    components. */
module WizardPaths {
  import opened Common

  /** The exceptions the wizard model can raise. */
  datatype WizardError =
    | PathNotSet          // "File-system path not set."
    | NoModelLoaded       // "No model loaded."
    | AssertionFailed     // a Java `assert` that does not hold
    | IllegalArgument     // Arrays.copyOfRange with from > to
    | IndexOutOfBounds    // Arrays.copyOfRange with from < 0
    | NullReference         // a null skeleton or an unknown bone name

  const Separator: char := '/'

  predicate NoSeparator(s: string) { Separator !in s }

  // ---------------------------------------------------------------------
  // String.split("/")

  /** Every piece between separators, including empty ones. */
  function SplitAll(p: string): (cs: seq<string>)
    ensures |cs| > 0
    ensures forall i :: 0 <= i < |cs| ==> NoSeparator(cs[i])
    decreases |p|
  {
    if Separator !in p then [p]
    else
      var i := FirstSeparator(p, 0);
      [p[..i]] + SplitAll(p[i + 1..])
  }

  /** The index of the first separator at or after `from`. */
  function FirstSeparator(p: string, from: nat): (i: nat)
    requires from <= |p|
    requires Separator in p[from..]
    ensures from <= i < |p| && p[i] == Separator
    ensures forall k :: from <= k < i ==> p[k] != Separator
    decreases |p| - from
  {
    if p[from] == Separator then from
    else
      assert p[from..] == [p[from]] + p[from + 1..];
      FirstSeparator(p, from + 1)
  }

  /** Drop trailing empty strings, as String.split with limit 0 does. */
  function StripTrailingEmpty(cs: seq<string>): (r: seq<string>)
    ensures |r| <= |cs| && r == cs[..|r|]
    ensures |r| == 0 || r[|r| - 1] != ""
    ensures forall k :: |r| <= k < |cs| ==> cs[k] == ""
  {
    if |cs| > 0 && cs[|cs| - 1] == "" then StripTrailingEmpty(cs[..|cs| - 1]) else cs
  }

  /** Java's `path.split("/")`: no separator yields the whole input; otherwise
      the pieces with trailing empty ones removed (a leading empty piece is
      kept). */
  function JavaSplit(p: string): (cs: seq<string>)
    ensures forall i :: 0 <= i < |cs| ==> NoSeparator(cs[i])
  {
    if Separator !in p then [p] else StripTrailingEmpty(SplitAll(p))
  }

  /** Rejoining every piece gives back the original text. */
  lemma {:induction false} JoinSplitAll(p: string)
    ensures Join(SplitAll(p), Separator) == p
    decreases |p|
  {
    if Separator in p {
      var i := FirstSeparator(p, 0);
      var rest := p[i + 1..];
      JoinSplitAll(rest);
      assert SplitAll(p) == [p[..i]] + SplitAll(rest);
      assert p == p[..i] + [Separator] + rest;
    }
  }

  /** The last piece is empty exactly when the text ends in a separator (or
      is empty). */
  lemma {:induction false} LastPieceEmpty(p: string)
    ensures var cs := SplitAll(p);
      cs[|cs| - 1] == "" <==> (|p| == 0 || p[|p| - 1] == Separator)
    decreases |p|
  {
    if Separator in p {
      var i := FirstSeparator(p, 0);
      var rest := p[i + 1..];
      LastPieceEmpty(rest);
      if |rest| > 0 {
        assert rest[|rest| - 1] == p[|p| - 1];
      }
    }
  }

  /** Splitting a path then joining its components is the identity, for a
      path that contains a separator and does not end with one. */
  lemma SplitJoinRoundTrip(p: string)
    requires Separator in p
    requires p[|p| - 1] != Separator
    ensures Join(JavaSplit(p), Separator) == p
  {
    LastPieceEmpty(p);
    JoinSplitAll(p);
  }

  /** Splitting a join of separator-free parts recovers the parts. */
  lemma {:induction false} SplitAllJoin(cs: seq<string>)
    requires |cs| > 0
    requires forall i :: 0 <= i < |cs| ==> NoSeparator(cs[i])
    ensures SplitAll(Join(cs, Separator)) == cs
  {
    if |cs| > 1 {
      var p := Join(cs, Separator);
      assert p == cs[0] + [Separator] + Join(cs[1..], Separator);
      assert p[|cs[0]|] == Separator;
      var i := FirstSeparator(p, 0);
      assert i == |cs[0]|;
      assert p[..i] == cs[0];
      assert p[i + 1..] == Join(cs[1..], Separator);
      SplitAllJoin(cs[1..]);
    }
  }

  /** Joining components then splitting is the identity, for at least two
      separator-free components whose last one is non-empty. */
  lemma JoinSplitRoundTrip(cs: seq<string>)
    requires |cs| >= 2
    requires forall i :: 0 <= i < |cs| ==> NoSeparator(cs[i])
    requires cs[|cs| - 1] != ""
    ensures JavaSplit(Join(cs, Separator)) == cs
  {
    var p := Join(cs, Separator);
    assert p == cs[0] + [Separator] + Join(cs[1..], Separator);
    assert p[|cs[0]|] == Separator;
    SplitAllJoin(cs);
  }

  // ---------------------------------------------------------------------
  // The asset-root heuristic of setFilePath

  /** Component names that end the asset root one component earlier. */
  predicate IsResourceDir(c: string)
  {
    c == "assets" || c == "resources" || c == "Written Assets"
  }

  /** Whether component `i` triggers the heuristic. */
  predicate Marks(cs: seq<string>, i: nat)
    requires i < |cs|
  {
    (IsResourceDir(cs[i]) && i > 1) || (cs[i] == "Models" && i > 0)
  }

  /** The root size that a triggering component `i` suggests. */
  function Suggestion(cs: seq<string>, i: nat): int
    requires i < |cs|
  {
    if cs[i] == "Models" then i else i - 1
  }

  /** The last triggering component below `bound`, if any. */
  function LastMark(cs: seq<string>, bound: nat): (r: Option<nat>)
    requires bound <= |cs|
    ensures r.Some? ==>
              && r.value < bound && Marks(cs, r.value)
              && forall k :: r.value < k < bound ==> !Marks(cs, k)
    ensures r.None? ==> forall k :: 0 <= k < bound ==> !Marks(cs, k)
  {
    if bound == 0 then None
    else if Marks(cs, bound - 1) then Some(bound - 1)
    else LastMark(cs, bound - 1)
  }

  /** The number of asset-root components guessed for `cs`: 1 by default,
      otherwise what the last triggering component suggests. */
  method GuessRootComponents(cs: seq<string>) returns (k: int)
    ensures (forall i :: 0 <= i < |cs| ==> !Marks(cs, i)) ==> k == 1
    ensures forall j :: 0 <= j < |cs| && Marks(cs, j)
                        && (forall i :: j < i < |cs| ==> !Marks(cs, i))
                   ==> k == Suggestion(cs, j)
    ensures 1 <= k && (k == 1 || k < |cs|)
  {
    k := 1;
    var i := 0;
    while i < |cs|
      invariant 0 <= i <= |cs|
      invariant LastMark(cs, i).None? ==> k == 1
      invariant LastMark(cs, i).Some? ==> k == Suggestion(cs, LastMark(cs, i).value)
    {
      var c := cs[i];
      if c == "assets" || c == "resources" || c == "Written Assets" {
        if i > 1 {
          k := i - 1;
        }
      } else if c == "Models" {
        if i > 0 && i < |cs| {
          k := i;
        }
      }
      i := i + 1;
    }
    if LastMark(cs, |cs|).Some? {
      var m := LastMark(cs, |cs|).value;
      forall j | 0 <= j < |cs| && Marks(cs, j) && (forall i :: j < i < |cs| ==> !Marks(cs, i))
        ensures j == m
      {
      }
    }
  }

  // ---------------------------------------------------------------------
  // assetRoot, assetPath, filePath

  /** `filePath()`: the components rejoined. */
  function FilePath(cs: seq<string>): string
  {
    Join(cs, Separator)
  }

  /** `assetRoot()`: the first `k` components joined, plus a trailing '/'. */
  function AssetRoot(cs: seq<string>, k: int): (r: Result<string, WizardError>)
    ensures |cs| == 0 <==> r == Err(PathNotSet)
    ensures r.Ok? <==> 0 <= k < |cs|
    ensures r.Ok? ==> |r.value| > 0 && r.value[|r.value| - 1] == Separator
    ensures r.Ok? && k == 0 ==> r.value == [Separator]
  {
    if |cs| == 0 then Err(PathNotSet)
    else if !(k < |cs|) then Err(AssertionFailed)
    else if k < 0 then Err(IllegalArgument)
    else Ok(Join(cs[..k], Separator) + [Separator])
  }

  /** `assetPath()`: a leading '/' followed by the components from `k` on. */
  function AssetPath(cs: seq<string>, k: int): (r: Result<string, WizardError>)
    ensures |cs| == 0 <==> r == Err(PathNotSet)
    ensures r.Ok? <==> 0 <= k < |cs|
    ensures r.Ok? ==> |r.value| > 0 && r.value[0] == Separator
  {
    if |cs| == 0 then Err(PathNotSet)
    else if !(k < |cs|) then Err(AssertionFailed)
    else if k < 0 then Err(IndexOutOfBounds)
    else Ok([Separator] + Join(cs[k..], Separator))
  }

  /** For a root of at least one component, the asset root followed by the
      asset path (without its leading '/') is the whole file path. */
  lemma RootPlusPath(cs: seq<string>, k: int)
    requires 1 <= k < |cs|
    ensures AssetRoot(cs, k).Ok? && AssetPath(cs, k).Ok?
    ensures AssetRoot(cs, k).value + AssetPath(cs, k).value[1..] == FilePath(cs)
  {
    assert cs == cs[..k] + cs[k..];
    JoinAppend(cs[..k], cs[k..], Separator);
    assert AssetPath(cs, k).value[1..] == Join(cs[k..], Separator);
  }
}
