/**
 * The fragment pool: one generation of claimable units, four per artifact
 * (one per quadrant), built from the catalogue, and the filters the server
 * runs over it.
 */
module Pool {
  import opened Optional
  import opened Catalog

  /** Number of fragments (quadrants) each artifact is cut into. */
  const QUADRANTS: nat := 4

  datatype Fragment = Fragment(
    id: nat,
    artifactKey: string,
    quadrant: nat,
    points: nat,
    foundBy: Option<string>)

  /**
   * Whether a fragment counts as claimed. The server tests the JavaScript
   * truthiness of `foundBy`, so both `null` and the empty string read as
   * unclaimed.
   */
  predicate IsFound(f: Fragment) {
    f.foundBy.Some? && f.foundBy.value != ""
  }

  /** The fragment at position `i` of a freshly built pool. */
  function Slot(catalog: seq<Artifact>, i: nat): Fragment
    requires i < QUADRANTS * |catalog|
  {
    Fragment(i + 1, catalog[i / QUADRANTS].key, i % QUADRANTS + 1, catalog[i / QUADRANTS].points, None)
  }

  /** A fresh generation: the reference definition `BuildFragments` is proved against. */
  function Generation(catalog: seq<Artifact>): (g: seq<Fragment>)
    ensures |g| == QUADRANTS * |catalog|
  {
    seq(QUADRANTS * |catalog|, i requires 0 <= i < QUADRANTS * |catalog| => Slot(catalog, i))
  }

  lemma QuarterOf(a: nat, r: nat)
    requires r < QUADRANTS
    ensures (QUADRANTS * a + r) / QUADRANTS == a && (QUADRANTS * a + r) % QUADRANTS == r
  {
  }

  /**
   * Builds the pool the way the server does: for each artifact in catalogue
   * order, for quadrants 1 to 4, push a fragment with the next id.
   */
  method BuildFragments(catalog: seq<Artifact>) returns (out: seq<Fragment>)
    ensures out == Generation(catalog)
  {
    out := [];
    var id := 1;
    for a := 0 to |catalog|
      invariant |out| == QUADRANTS * a && id == |out| + 1
      invariant forall i :: 0 <= i < |out| ==> out[i] == Slot(catalog, i)
    {
      for q := 1 to QUADRANTS + 1
        invariant |out| == QUADRANTS * a + q - 1 && id == |out| + 1
        invariant forall i :: 0 <= i < |out| ==> out[i] == Slot(catalog, i)
      {
        QuarterOf(a, q - 1);
        out := out + [Fragment(id, catalog[a].key, q, catalog[a].points, None)];
        id := id + 1;
      }
    }
  }

  /**
   * Layout of a fresh generation: ids run 1, 2, 3, ...; fragment `i` belongs
   * to artifact `i / 4` of the catalogue and covers quadrant `i % 4 + 1`,
   * with that artifact's points; nothing is claimed.
   */
  lemma GenerationLayout(catalog: seq<Artifact>, i: nat)
    requires i < |Generation(catalog)|
    ensures |Generation(catalog)| == QUADRANTS * |catalog|
    ensures var f := Generation(catalog)[i];
      && f.id == i + 1
      && f.artifactKey == catalog[i / QUADRANTS].key
      && f.points == catalog[i / QUADRANTS].points
      && 1 <= f.quadrant <= QUADRANTS
      && f.foundBy == None && !IsFound(f)
  {
  }

  /**
   * With distinct keys, artifact `a`'s quadrant `q` appears exactly once in a
   * fresh generation, at position `4 * a + q - 1`.
   */
  lemma QuadrantAppearsOnce(catalog: seq<Artifact>, a: nat, q: nat, i: nat)
    requires KeysDistinct(catalog)
    requires a < |catalog| && 1 <= q <= QUADRANTS
    requires i < |Generation(catalog)|
    ensures (Generation(catalog)[i].artifactKey == catalog[a].key && Generation(catalog)[i].quadrant == q)
            <==> i == QUADRANTS * a + q - 1
  {
    QuarterOf(a, q - 1);
  }

  /**
   * The filters the server applies to the pool, `Unclaimed` and `FoundOf`,
   * and `OfArtifact`, which the server never uses: it only serves the
   * counting lemmas.
   */
  datatype Selector =
    | Unclaimed                 // `f => !f.foundBy`
    | FoundOf(key: string)      // `f => f.artifactKey === key && f.foundBy`
    | OfArtifact(key: string)   // every fragment of one artifact

  predicate Selects(sel: Selector, f: Fragment) {
    match sel
    case Unclaimed => !IsFound(f)
    case FoundOf(key) => f.artifactKey == key && IsFound(f)
    case OfArtifact(key) => f.artifactKey == key
  }

  /** 1 if `sel` picks `f`, 0 otherwise. */
  function Indicator(sel: Selector, f: Fragment): nat {
    if Selects(sel, f) then 1 else 0
  }

  /** How many fragments of the pool `sel` picks. */
  function Count(frags: seq<Fragment>, sel: Selector): (c: nat)
    ensures c <= |frags|
  {
    if frags == [] then 0 else Count(frags[..|frags| - 1], sel) + Indicator(sel, frags[|frags| - 1])
  }

  /**
   * `Array.prototype.filter` over the pool. The source's filter returns the
   * fragment objects themselves; here they are named by their positions, so
   * the result lists, in increasing order, exactly the selected positions.
   */
  function Selected(frags: seq<Fragment>, sel: Selector): (r: seq<nat>)
    ensures forall j :: 0 <= j < |r| ==> r[j] < |frags| && Selects(sel, frags[r[j]])
    ensures forall j, j' :: 0 <= j < j' < |r| ==> r[j] < r[j']
    ensures forall i :: 0 <= i < |frags| && Selects(sel, frags[i]) ==> i in r
    ensures |r| == Count(frags, sel)
    decreases |frags|
  {
    if frags == [] then []
    else
      var n := |frags| - 1;
      var pre := frags[..n];
      assert forall i :: 0 <= i < n ==> pre[i] == frags[i];
      Selected(pre, sel) + (if Selects(sel, frags[n]) then [n] else [])
  }

  /** When `sel` picks exactly the positions `lo .. hi-1`, it picks `hi - lo` fragments. */
  lemma {:induction false} CountOfRange(frags: seq<Fragment>, sel: Selector, lo: nat, hi: nat)
    requires lo <= hi <= |frags|
    requires forall i :: 0 <= i < |frags| ==> (Selects(sel, frags[i]) <==> lo <= i < hi)
    ensures Count(frags, sel) == hi - lo
    decreases |frags|
  {
    if frags != [] {
      var n := |frags| - 1;
      var pre := frags[..n];
      var lo', hi' := if lo < n then lo else n, if hi < n then hi else n;
      assert forall i :: 0 <= i < |pre| ==> pre[i] == frags[i];
      CountOfRange(pre, sel, lo', hi');
    }
  }

  /** Two pools whose positions are picked alike by two filters give the same count. */
  lemma {:induction false} CountCongruent(a: seq<Fragment>, s: Selector, b: seq<Fragment>, t: Selector)
    requires |a| == |b|
    requires forall i :: 0 <= i < |a| ==> (Selects(s, a[i]) <==> Selects(t, b[i]))
    ensures Count(a, s) == Count(b, t)
    decreases |a|
  {
    if a != [] {
      var n := |a| - 1;
      assert forall i :: 0 <= i < n ==> a[..n][i] == a[i] && b[..n][i] == b[i];
      CountCongruent(a[..n], s, b[..n], t);
    }
  }

  /** A filter that picks a subset of what another picks picks no more fragments. */
  lemma {:induction false} CountOfSubset(frags: seq<Fragment>, s: Selector, t: Selector)
    requires forall i :: 0 <= i < |frags| && Selects(s, frags[i]) ==> Selects(t, frags[i])
    ensures Count(frags, s) <= Count(frags, t)
    decreases |frags|
  {
    if frags != [] {
      var n := |frags| - 1;
      assert forall i :: 0 <= i < n ==> frags[..n][i] == frags[i];
      CountOfSubset(frags[..n], s, t);
    }
  }

  /** Replacing one fragment changes a count by what the old and the new fragment contribute. */
  lemma {:induction false} CountAfterUpdate(frags: seq<Fragment>, k: nat, x: Fragment, sel: Selector)
    requires k < |frags|
    ensures Count(frags[k := x], sel) == Count(frags, sel) - Indicator(sel, frags[k]) + Indicator(sel, x)
    decreases |frags|
  {
    var n := |frags| - 1;
    var upd := frags[k := x];
    if k == n {
      assert upd[..n] == frags[..n];
    } else {
      assert upd[..n] == frags[..n][k := x];
      CountAfterUpdate(frags[..n], k, x, sel);
    }
  }

  /** Marks fragment `k` as found by `name` (`pick.foundBy = name`). */
  function Claim(frags: seq<Fragment>, k: nat, name: string): (r: seq<Fragment>)
    requires k < |frags|
    ensures |r| == |frags| && r[k].foundBy == Some(name) && Layout(r[k]) == Layout(frags[k])
    ensures forall i :: 0 <= i < |r| && i != k ==> r[i] == frags[i]
  {
    frags[k := frags[k].(foundBy := Some(name))]
  }

  /** A fragment with its claim erased: what a generation fixes for good. */
  function Layout(f: Fragment): Fragment {
    f.(foundBy := None)
  }

  /** Two pools that differ at most in who found what. */
  predicate SameLayout(a: seq<Fragment>, b: seq<Fragment>) {
    |a| == |b| && forall i :: 0 <= i < |a| ==> Layout(a[i]) == Layout(b[i])
  }

  /** A pool of the current generation of `catalog`: a fresh one with some claims made. */
  predicate InGeneration(frags: seq<Fragment>, catalog: seq<Artifact>) {
    SameLayout(frags, Generation(catalog))
  }

  /** A pool laid out like one of the current generation is itself of that generation. */
  lemma SameLayoutInGeneration(before: seq<Fragment>, after: seq<Fragment>, catalog: seq<Artifact>)
    requires InGeneration(before, catalog) && SameLayout(after, before)
    ensures InGeneration(after, catalog)
  {
    assert forall i :: 0 <= i < |after| ==> Layout(after[i]) == Layout(before[i]);
  }

  /**
   * Claiming an unclaimed fragment for a non-empty name claims exactly that
   * fragment: every other fragment is unchanged, the layout is kept, the
   * unclaimed list shrinks by exactly one, and the claimed count of the
   * fragment's artifact grows by exactly one while every other artifact's
   * stays put.
   */
  lemma ClaimEffect(frags: seq<Fragment>, k: nat, name: string, key: string)
    requires k < |frags| && !IsFound(frags[k]) && name != ""
    ensures var r := Claim(frags, k, name);
      && |r| == |frags|
      && r[k].foundBy == Some(name) && IsFound(r[k])
      && (forall i :: 0 <= i < |frags| && i != k ==> r[i] == frags[i])
      && SameLayout(r, frags)
      && |Selected(r, Unclaimed)| == |Selected(frags, Unclaimed)| - 1
      && |Selected(r, FoundOf(key))|
         == |Selected(frags, FoundOf(key))| + (if frags[k].artifactKey == key then 1 else 0)
  {
    var x := frags[k].(foundBy := Some(name));
    CountAfterUpdate(frags, k, x, Unclaimed);
    CountAfterUpdate(frags, k, x, FoundOf(key));
  }

  /** A fresh generation has every fragment unclaimed: `4 * |catalog|` of them. */
  lemma GenerationAllUnclaimed(catalog: seq<Artifact>)
    ensures |Selected(Generation(catalog), Unclaimed)| == QUADRANTS * |catalog|
  {
    var g := Generation(catalog);
    CountOfRange(g, Unclaimed, 0, |g|);
  }

  /**
   * Every pool of a generation holds exactly four fragments of each artifact
   * of a catalogue with distinct keys, and at most four of them are claimed.
   */
  lemma GenerationArtifactCount(frags: seq<Fragment>, catalog: seq<Artifact>, a: nat)
    requires KeysDistinct(catalog) && a < |catalog|
    requires InGeneration(frags, catalog)
    ensures |Selected(frags, OfArtifact(catalog[a].key))| == QUADRANTS
    ensures |Selected(frags, FoundOf(catalog[a].key))| <= QUADRANTS
  {
    var g := Generation(catalog);
    var key := catalog[a].key;
    forall i | 0 <= i < |g|
      ensures Selects(OfArtifact(key), g[i]) <==> QUADRANTS * a <= i < QUADRANTS * a + QUADRANTS
    {
      var b := i / QUADRANTS;
      QuarterOf(b, i % QUADRANTS);
      assert g[i].artifactKey == catalog[b].key;
    }
    CountOfRange(g, OfArtifact(key), QUADRANTS * a, QUADRANTS * a + QUADRANTS);
    assert forall i :: 0 <= i < |frags| ==> Layout(frags[i]) == Layout(g[i]);
    CountCongruent(frags, OfArtifact(key), g, OfArtifact(key));
    CountOfSubset(frags, FoundOf(key), OfArtifact(key));
  }

  /**
   * When a generation's pool has nothing left unclaimed, every artifact has
   * all four of its fragments claimed.
   */
  lemma ExhaustedGenerationComplete(frags: seq<Fragment>, catalog: seq<Artifact>, a: nat)
    requires KeysDistinct(catalog) && a < |catalog|
    requires InGeneration(frags, catalog)
    requires Selected(frags, Unclaimed) == []
    ensures |Selected(frags, FoundOf(catalog[a].key))| == QUADRANTS
  {
    var key := catalog[a].key;
    GenerationArtifactCount(frags, catalog, a);
    forall i | 0 <= i < |frags|
      ensures Selects(FoundOf(key), frags[i]) <==> Selects(OfArtifact(key), frags[i])
    {
    }
    CountCongruent(frags, FoundOf(key), frags, OfArtifact(key));
  }

  /**
   * The server's own pool: its ten artifacts give 40 fragments, all of them
   * unclaimed, four of each artifact.
   */
  lemma ServerGeneration()
    ensures |Generation(ARTIFACTS)| == 40
    ensures |Selected(Generation(ARTIFACTS), Unclaimed)| == 40
    ensures forall a :: 0 <= a < |ARTIFACTS| ==>
      |Selected(Generation(ARTIFACTS), OfArtifact(ARTIFACTS[a].key))| == QUADRANTS
  {
    var g := Generation(ARTIFACTS);
    ArtifactsWellFormed();
    GenerationAllUnclaimed(ARTIFACTS);
    forall a | 0 <= a < |ARTIFACTS|
      ensures |Selected(g, OfArtifact(ARTIFACTS[a].key))| == QUADRANTS
    {
      GenerationArtifactCount(g, ARTIFACTS, a);
    }
  }
}
