/**
 * Score accounting within one generation: from a fresh pool and an empty
 * registry, every player's score is the points of the fragments they claimed
 * plus 5 for each artifact that is complete and lists them among its finders.
 */
module Accounts {
  import opened Optional
  import opened Catalog
  import opened Pool
  import opened Players
  import opened Rules

  /** Whether the fragment is claimed, and by `name`. */
  predicate ClaimedBy(f: Fragment, name: string) {
    IsFound(f) && f.foundBy.value == name
  }

  /** What fragment `f` earns the player called `name`. */
  function ClaimedPoints(f: Fragment, name: string): nat {
    if ClaimedBy(f, name) then f.points else 0
  }

  /** The points of the fragments of the pool that `name` claimed. */
  function PointsOf(frags: seq<Fragment>, name: string): (p: nat)
    ensures (forall i :: 0 <= i < |frags| ==> !ClaimedBy(frags[i], name)) ==> p == 0
    decreases |frags|
  {
    if frags == [] then 0
    else
      var n := |frags| - 1;
      assert forall i :: 0 <= i < n ==> frags[..n][i] == frags[i];
      PointsOf(frags[..n], name) + ClaimedPoints(frags[n], name)
  }

  /** 1 if the artifact `key` is complete and `name` is among its finders, 0 otherwise. */
  function BonusFor(frags: seq<Fragment>, key: string, name: string): nat {
    if Completes(frags, key) && name in Contributors(frags, key) then 1 else 0
  }

  /** How many artifacts of the catalogue have paid `name` the completion bonus. */
  function BonusCount(frags: seq<Fragment>, catalog: seq<Artifact>, name: string): (c: nat)
    ensures c <= |catalog|
    decreases |catalog|
  {
    if catalog == [] then 0
    else BonusCount(frags, catalog[..|catalog| - 1], name) + BonusFor(frags, catalog[|catalog| - 1].key, name)
  }

  /** What the rules say `name` has earned so far in this generation. */
  function Earned(frags: seq<Fragment>, catalog: seq<Artifact>, name: string): int {
    PointsOf(frags, name) + COMPLETION_BONUS * BonusCount(frags, catalog, name)
  }

  /**
   * The accounting invariant of a generation: the pool is of the
   * generation, names are distinct, whoever claimed a fragment is
   * registered, and every score is exactly what its player has earned.
   */
  ghost predicate Accounted(d: Doc, catalog: seq<Artifact>) {
    && InGeneration(d.fragments, catalog)
    && NamesDistinct(d.players)
    && (forall i :: 0 <= i < |d.fragments| && IsFound(d.fragments[i]) ==>
          FindPlayer(d.players, d.fragments[i].foundBy.value).Some?)
    && (forall i :: 0 <= i < |d.players| ==>
          d.players[i].score == Earned(d.fragments, catalog, d.players[i].name))
  }

  /** Replacing one fragment changes a player's points by what the old and the new fragment earn them. */
  lemma {:induction false} PointsAfterUpdate(frags: seq<Fragment>, k: nat, x: Fragment, name: string)
    requires k < |frags|
    ensures PointsOf(frags[k := x], name) == PointsOf(frags, name) - ClaimedPoints(frags[k], name) + ClaimedPoints(x, name)
    decreases |frags|
  {
    var n := |frags| - 1;
    var upd := frags[k := x];
    if k == n {
      assert upd[..n] == frags[..n];
    } else {
      assert upd[..n] == frags[..n][k := x];
      PointsAfterUpdate(frags[..n], k, x, name);
    }
  }

  /** Nobody who claimed nothing is owed a bonus. */
  lemma {:induction false} BonusCountZero(frags: seq<Fragment>, catalog: seq<Artifact>, name: string)
    requires forall i :: 0 <= i < |frags| ==> !ClaimedBy(frags[i], name)
    ensures BonusCount(frags, catalog, name) == 0
    decreases |catalog|
  {
    if catalog != [] {
      BonusCountZero(frags, catalog[..|catalog| - 1], name);
    }
  }

  /** When no artifact of the catalogue has the key `key`, changes to that artifact's bonus do not count. */
  lemma {:induction false} BonusCountUnchanged(before: seq<Fragment>, after: seq<Fragment>, catalog: seq<Artifact>, key: string, name: string)
    requires forall j :: 0 <= j < |catalog| ==> catalog[j].key != key
    requires forall c :: c != key ==> BonusFor(after, c, name) == BonusFor(before, c, name)
    ensures BonusCount(after, catalog, name) == BonusCount(before, catalog, name)
    decreases |catalog|
  {
    if catalog != [] {
      var n := |catalog| - 1;
      assert catalog[n].key != key;
      BonusCountUnchanged(before, after, catalog[..n], key, name);
    }
  }

  /** When only the artifact `catalog[a]` changes its bonus, the count changes by that bonus alone. */
  lemma {:induction false} BonusCountOneKey(before: seq<Fragment>, after: seq<Fragment>, catalog: seq<Artifact>, a: nat, name: string)
    requires KeysDistinct(catalog) && a < |catalog|
    requires forall c :: c != catalog[a].key ==> BonusFor(after, c, name) == BonusFor(before, c, name)
    ensures BonusCount(after, catalog, name)
      == BonusCount(before, catalog, name) - BonusFor(before, catalog[a].key, name) + BonusFor(after, catalog[a].key, name)
    decreases |catalog|
  {
    var n := |catalog| - 1;
    var pre := catalog[..n];
    if a == n {
      assert forall j :: 0 <= j < |pre| ==> pre[j].key != catalog[a].key;
      BonusCountUnchanged(before, after, pre, catalog[a].key, name);
    } else {
      assert catalog[n].key != catalog[a].key;
      assert pre[a] == catalog[a];
      BonusCountOneKey(before, after, pre, a, name);
    }
  }

  /** The fragment at position `k` of a pool of the generation belongs to artifact `k / 4`. */
  lemma GenerationKey(frags: seq<Fragment>, catalog: seq<Artifact>, k: nat)
    requires InGeneration(frags, catalog) && k < |frags|
    ensures k / QUADRANTS < |catalog| && frags[k].artifactKey == catalog[k / QUADRANTS].key
  {
    GenerationLayout(catalog, k);
    assert Layout(frags[k]) == Layout(Generation(catalog)[k]);
  }

  /** A claim adds the fragment's points to the diver's and nobody else's. */
  lemma PointsAfterClaim(frags: seq<Fragment>, name: string, k: nat, x: string)
    requires k < |frags| && !IsFound(frags[k]) && name != ""
    ensures PointsOf(Claim(frags, k, name), x) == PointsOf(frags, x) + (if x == name then frags[k].points else 0)
  {
    PointsAfterUpdate(frags, k, frags[k].(foundBy := Some(name)), x);
  }

  /** An artifact with an unclaimed fragment left in a generation is not complete. */
  lemma NotYetComplete(frags: seq<Fragment>, catalog: seq<Artifact>, k: nat)
    requires KeysDistinct(catalog) && InGeneration(frags, catalog)
    requires k < |frags| && !IsFound(frags[k])
    ensures k / QUADRANTS < |catalog| && frags[k].artifactKey == catalog[k / QUADRANTS].key
    ensures !Completes(frags, frags[k].artifactKey)
  {
    var after := Claim(frags, k, "claimed");
    GenerationKey(frags, catalog, k);
    ClaimEffect(frags, k, "claimed", frags[k].artifactKey);
    SameLayoutInGeneration(frags, after, catalog);
    GenerationArtifactCount(after, catalog, k / QUADRANTS);
  }

  /** A claim changes no bonus of any other artifact. */
  lemma OtherBonusesKept(frags: seq<Fragment>, name: string, k: nat, x: string)
    requires k < |frags| && !IsFound(frags[k]) && name != ""
    ensures forall c :: c != frags[k].artifactKey ==> BonusFor(Claim(frags, k, name), c, x) == BonusFor(frags, c, x)
  {
    forall c | c != frags[k].artifactKey
      ensures BonusFor(Claim(frags, k, name), c, x) == BonusFor(frags, c, x)
    {
      ClaimEffect(frags, k, name, c);
      ContributorsOtherKey(frags, k, name, c);
    }
  }

  /**
   * A claim in a generation adds one bonus for the finders of its artifact
   * exactly when it completes that artifact, and none for any other.
   */
  lemma BonusAfterClaim(frags: seq<Fragment>, catalog: seq<Artifact>, name: string, k: nat, x: string)
    requires KeysDistinct(catalog) && InGeneration(frags, catalog)
    requires k < |frags| && !IsFound(frags[k]) && name != ""
    ensures var after := Claim(frags, k, name);
      var key := frags[k].artifactKey;
      var completes := |Selected(frags, FoundOf(key))| == QUADRANTS - 1;
      BonusCount(after, catalog, x) == BonusCount(frags, catalog, x)
        + (if completes && x in Contributors(after, key) then 1 else 0)
  {
    var key := frags[k].artifactKey;
    NotYetComplete(frags, catalog, k);
    ClaimEffect(frags, k, name, key);
    OtherBonusesKept(frags, name, k, x);
    BonusCountOneKey(frags, Claim(frags, k, name), catalog, k / QUADRANTS, x);
  }

  /**
   * What a claim earns each player: the diver gains the fragment's points,
   * and if the claim completes its artifact every finder of it gains 5.
   */
  lemma EarnedAfterClaim(frags: seq<Fragment>, catalog: seq<Artifact>, name: string, k: nat, x: string)
    requires KeysDistinct(catalog) && InGeneration(frags, catalog)
    requires k < |frags| && !IsFound(frags[k]) && name != ""
    ensures var after := Claim(frags, k, name);
      var key := frags[k].artifactKey;
      var completes := |Selected(frags, FoundOf(key))| == QUADRANTS - 1;
      Earned(after, catalog, x) == Earned(frags, catalog, x)
        + (if x == name then frags[k].points else 0)
        + (if completes && x in Contributors(after, key) then COMPLETION_BONUS else 0)
  {
    PointsAfterClaim(frags, name, k, x);
    BonusAfterClaim(frags, catalog, name, k, x);
  }

  /** A fresh generation with nobody registered is accounted for. */
  lemma AccountedStart(catalog: seq<Artifact>)
    ensures Accounted(Doc([], Generation(catalog)), catalog)
  {
    var g := Generation(catalog);
    forall i | 0 <= i < |g|
      ensures !IsFound(g[i])
    {
      GenerationLayout(catalog, i);
    }
  }

  /** Find-or-create keeps the accounts: a new player has claimed nothing and is owed nothing. */
  lemma EnrollAccounted(d: Doc, catalog: seq<Artifact>, name: string)
    requires Accounted(d, catalog) && name != ""
    ensures Accounted(Doc(Enrolled(d.players, name), d.fragments), catalog)
  {
    EnrolledEffect(d.players, name);
    EnrolledDistinct(d.players, name);
    EnrolledKeepsNames(d.players, name);
    if FindPlayer(d.players, name).None? {
      forall i | 0 <= i < |d.fragments|
        ensures !ClaimedBy(d.fragments[i], name)
      {
      }
      BonusCountZero(d.fragments, catalog, name);
    }
  }

  /** In the claim branch every registered player's new score is what they have now earned. */
  lemma ClaimScoresAccounted(d: Doc, catalog: seq<Artifact>, name: string, k: nat)
    requires KeysDistinct(catalog) && Accounted(d, catalog)
    requires k < |d.fragments| && !IsFound(d.fragments[k]) && name != ""
    requires FindPlayer(d.players, name).Some?
    ensures var r := ClaimStep(d.players, d.fragments, name, k);
      && |r.players| == |d.players|
      && (forall i :: 0 <= i < |d.players| ==> r.players[i].name == d.players[i].name)
      && (forall i :: 0 <= i < |d.players| ==> r.players[i].score == Earned(r.fragments, catalog, r.players[i].name))
  {
    var players, frags := d.players, d.fragments;
    var r := ClaimStep(players, frags, name, k);
    var p := FindPlayer(players, name).value;
    ClaimStepScores(players, frags, name, k, p);
    forall i | 0 <= i < |players|
      ensures r.players[i].name == players[i].name
      ensures r.players[i].score == Earned(r.fragments, catalog, r.players[i].name)
    {
      ClaimStepScores(players, frags, name, k, i);
      EarnedAfterClaim(frags, catalog, name, k, players[i].name);
      if players[i].name == name {
        assert i == p;
      }
    }
  }

  /** After a claim by a registered diver, whoever claimed a fragment is still registered. */
  lemma ClaimersRegistered(frags: seq<Fragment>, players: seq<Player>, after: seq<Player>, name: string, k: nat)
    requires k < |frags| && FindPlayer(players, name).Some?
    requires forall i :: 0 <= i < |frags| && IsFound(frags[i]) ==> FindPlayer(players, frags[i].foundBy.value).Some?
    requires forall other :: FindPlayer(players, other).Some? ==> FindPlayer(after, other).Some?
    ensures var claimed := Claim(frags, k, name);
      forall i :: 0 <= i < |claimed| && IsFound(claimed[i]) ==> FindPlayer(after, claimed[i].foundBy.value).Some?
  {
    var claimed := Claim(frags, k, name);
    forall i | 0 <= i < |claimed| && IsFound(claimed[i])
      ensures FindPlayer(after, claimed[i].foundBy.value).Some?
    {
      if i != k {
        assert claimed[i] == frags[i];
      }
    }
  }

  /** The claim branch keeps the accounts of a registered diver. */
  lemma ClaimAccounted(d: Doc, catalog: seq<Artifact>, name: string, k: nat)
    requires KeysDistinct(catalog) && Accounted(d, catalog)
    requires k < |d.fragments| && !IsFound(d.fragments[k]) && name != ""
    requires FindPlayer(d.players, name).Some?
    ensures Accounted(ClaimStep(d.players, d.fragments, name, k), catalog)
  {
    var r := ClaimStep(d.players, d.fragments, name, k);
    ClaimScoresAccounted(d, catalog, name, k);
    SameNames(d.players, r.players);
    assert r.fragments == Claim(d.fragments, k, name);
    ClaimersRegistered(d.fragments, d.players, r.players, name, k);
    ClaimEffect(d.fragments, k, name, d.fragments[k].artifactKey);
    SameLayoutInGeneration(d.fragments, r.fragments, catalog);
  }

  /** A whole claiming dive keeps the accounts. */
  lemma DiveAccounted(d: Doc, catalog: seq<Artifact>, name: string, k: nat)
    requires KeysDistinct(catalog) && Accounted(d, catalog)
    requires k < |d.fragments| && !IsFound(d.fragments[k]) && name != ""
    ensures Accounted(DiveClaim(d, name, k), catalog)
  {
    var e := Doc(Enrolled(d.players, name), d.fragments);
    EnrollAccounted(d, catalog, name);
    ClaimAccounted(e, catalog, name, k);
  }

  /**
   * Score accounting along a generation: after any run of dives that starts
   * from a fresh pool and an empty registry, every player's score is the
   * points of the fragments they claimed plus 5 per completed artifact they
   * found a fragment of, and whoever claimed a fragment is registered.
   */
  lemma {:induction false} ScoreAccounting(docs: seq<Doc>, divers: seq<string>, slots: seq<nat>, catalog: seq<Artifact>, n: nat)
    requires IsHistory(docs, divers, slots) && KeysDistinct(catalog)
    requires docs[0] == Doc([], Generation(catalog))
    requires n < |docs|
    ensures Accounted(docs[n], catalog)
    ensures forall i :: 0 <= i < |docs[n].players| ==>
      docs[n].players[i].score
        == PointsOf(docs[n].fragments, docs[n].players[i].name)
           + COMPLETION_BONUS * BonusCount(docs[n].fragments, catalog, docs[n].players[i].name)
  {
    if n == 0 {
      AccountedStart(catalog);
    } else {
      ScoreAccounting(docs, divers, slots, catalog, n - 1);
      HistoryStep(docs, divers, slots, n - 1);
      DiveAccounted(docs[n - 1], catalog, divers[n - 1], slots[n - 1]);
    }
  }

  /** The same for the server's own ten artifacts. */
  lemma ServerScoreAccounting(docs: seq<Doc>, divers: seq<string>, slots: seq<nat>, n: nat)
    requires IsHistory(docs, divers, slots)
    requires docs[0] == Doc([], Generation(ARTIFACTS))
    requires n < |docs|
    ensures Accounted(docs[n], ARTIFACTS)
    ensures forall i :: 0 <= i < |docs[n].players| ==>
      docs[n].players[i].score
        == PointsOf(docs[n].fragments, docs[n].players[i].name)
           + COMPLETION_BONUS * BonusCount(docs[n].fragments, ARTIFACTS, docs[n].players[i].name)
  {
    ArtifactsWellFormed();
    ScoreAccounting(docs, divers, slots, ARTIFACTS, n);
  }
}
