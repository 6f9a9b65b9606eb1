/**
 * Whole rounds on a one-artifact catalogue: four dives from a fresh pool and
 * an empty registry, whatever the order of the divers and whichever
 * fragment each one draws.
 */
module Scenarios {
  import opened Optional
  import opened Catalog
  import opened Pool
  import opened Players
  import opened Rules

  /** The names that dived in the first `n` dives. */
  ghost function DiversSoFar(divers: seq<string>, n: nat): set<string>
    requires n <= |divers|
  {
    set j | 0 <= j < n :: divers[j]
  }

  /** What the pool looks like after `n` dives of a one-artifact round. */
  ghost predicate PoolAfter(frags: seq<Fragment>, key: string, v: nat, divers: seq<string>, n: nat)
    requires n <= |divers|
  {
    && InGeneration(frags, [Artifact(key, v)])
    && |Selected(frags, FoundOf(key))| == n
    && |Selected(frags, Unclaimed)| == QUADRANTS - n
    && Contributors(frags, key) == DiversSoFar(divers, n)
  }

  /**
   * What the registry looks like after `n` dives of a one-artifact round:
   * exactly the divers so far, once each, each with v points per dive, plus
   * the bonus once the fourth fragment is claimed.
   */
  ghost predicate PlayersAfter(players: seq<Player>, v: nat, divers: seq<string>, n: nat)
    requires n <= |divers|
  {
    && NamesDistinct(players)
    && (forall j :: 0 <= j < n ==> FindPlayer(players, divers[j]).Some?)
    && (forall i :: 0 <= i < |players| ==> players[i].name in DiversSoFar(divers, n))
    && (forall i :: 0 <= i < |players| ==>
          players[i].score == v * multiset(divers[..n])[players[i].name]
                              + (if n == QUADRANTS then COMPLETION_BONUS else 0))
  }

  /** In a one-artifact generation every fragment is of that artifact and worth its points. */
  lemma OneArtifactFragment(frags: seq<Fragment>, key: string, v: nat, k: nat)
    requires InGeneration(frags, [Artifact(key, v)]) && k < |frags|
    ensures frags[k].artifactKey == key && frags[k].points == v
  {
    assert Layout(frags[k]) == Layout(Generation([Artifact(key, v)])[k]);
  }

  /** The divers of the first n + 1 dives are those of the first n and the next one. */
  lemma DiversSoFarStep(divers: seq<string>, n: nat)
    requires n < |divers|
    ensures DiversSoFar(divers, n + 1) == DiversSoFar(divers, n) + {divers[n]}
  {
  }

  /** A dive keeps the pool in the generation and adds one claimed fragment of the artifact. */
  lemma PoolCountsStep(frags: seq<Fragment>, key: string, v: nat, name: string, k: nat)
    requires InGeneration(frags, [Artifact(key, v)]) && name != ""
    requires k < |frags| && !IsFound(frags[k])
    ensures InGeneration(Claim(frags, k, name), [Artifact(key, v)])
    ensures |Selected(Claim(frags, k, name), FoundOf(key))| == |Selected(frags, FoundOf(key))| + 1
    ensures |Selected(Claim(frags, k, name), Unclaimed)| == |Selected(frags, Unclaimed)| - 1
  {
    OneArtifactFragment(frags, key, v, k);
    ClaimEffect(frags, k, name, key);
    SameLayoutInGeneration(frags, Claim(frags, k, name), [Artifact(key, v)]);
  }

  /** A dive adds the diver to the finders of the one artifact. */
  lemma PoolFindersStep(frags: seq<Fragment>, key: string, v: nat, divers: seq<string>, n: nat, k: nat)
    requires n < |divers| && divers[n] != ""
    requires InGeneration(frags, [Artifact(key, v)]) && Contributors(frags, key) == DiversSoFar(divers, n)
    requires k < |frags| && !IsFound(frags[k])
    ensures Contributors(Claim(frags, k, divers[n]), key) == DiversSoFar(divers, n + 1)
  {
    OneArtifactFragment(frags, key, v, k);
    ContributorsAfterClaim(frags, k, divers[n]);
    DiversSoFarStep(divers, n);
  }

  /** The pool part of one dive of the round. */
  lemma PoolStep(frags: seq<Fragment>, key: string, v: nat, divers: seq<string>, n: nat, k: nat)
    requires n < |divers| && divers[n] != ""
    requires PoolAfter(frags, key, v, divers, n)
    requires k < |frags| && !IsFound(frags[k])
    ensures PoolAfter(Claim(frags, k, divers[n]), key, v, divers, n + 1)
  {
    PoolCountsStep(frags, key, v, divers[n], k);
    PoolFindersStep(frags, key, v, divers, n, k);
  }

  /** Find-or-create keeps the registry of the round well formed, with the diver's count unchanged so far. */
  lemma EnrollStep(players: seq<Player>, v: nat, divers: seq<string>, n: nat)
    requires n < |divers| && n < QUADRANTS
    requires PlayersAfter(players, v, divers, n)
    ensures var e := Enrolled(players, divers[n]);
      && NamesDistinct(e)
      && (forall j :: 0 <= j < n ==> FindPlayer(e, divers[j]).Some?)
      && (forall i :: 0 <= i < |e| ==> e[i].name in DiversSoFar(divers, n + 1))
      && (forall i :: 0 <= i < |e| ==> e[i].score == v * multiset(divers[..n])[e[i].name])
  {
    var name := divers[n];
    DiversSoFarStep(divers, n);
    EnrolledEffect(players, name);
    if FindPlayer(players, name).None? {
      assert name !in DiversSoFar(divers, n);
      assert multiset(divers[..n])[name] == 0;
    }
    EnrolledDistinct(players, name);
    EnrolledKeepsNames(players, name);
  }

  /** Counting one more dive: the diver's count goes up by one, everyone else's stays. */
  lemma MultisetStep(divers: seq<string>, n: nat, x: string)
    requires n < |divers|
    ensures multiset(divers[..n + 1])[x] == multiset(divers[..n])[x] + (if x == divers[n] then 1 else 0)
  {
    assert divers[..n + 1] == divers[..n] + [divers[n]];
  }

  /** v points for each of m + 1 dives are v points for m dives and v more. */
  lemma PointsStep(v: nat, m: nat)
    ensures v * (m + 1) == v * m + v
  {
  }

  /**
   * One player's score across a dive of the round: the diver (and only
   * the diver, names being distinct) gains v, and everybody gains the bonus
   * on the fourth dive, since everybody registered is a finder by then.
   */
  lemma ScoreStep(e: seq<Player>, frags: seq<Fragment>, key: string, v: nat, name: string, n: nat, k: nat, i: nat)
    requires k < |frags| && !IsFound(frags[k]) && name != ""
    requires frags[k].artifactKey == key && frags[k].points == v
    requires |Selected(frags, FoundOf(key))| == n
    requires NamesDistinct(e) && FindPlayer(e, name).Some? && i < |e|
    requires n + 1 == QUADRANTS ==> e[i].name in Contributors(Claim(frags, k, name), key)
    ensures var d := ClaimStep(e, frags, name, k);
      && |d.players| == |e| && d.players[i].name == e[i].name
      && d.players[i].score == e[i].score + (if e[i].name == name then v else 0)
                               + (if n + 1 == QUADRANTS then COMPLETION_BONUS else 0)
  {
    ClaimStepScores(e, frags, name, k, i);
    if e[i].name == name {
      assert i == FindPlayer(e, name).value;
    }
  }

  /** Every player's score across a claim of the round. */
  lemma ClaimScores(e: seq<Player>, frags: seq<Fragment>, key: string, v: nat, divers: seq<string>, n: nat, k: nat)
    requires n < |divers| && n < QUADRANTS && divers[n] != ""
    requires k < |frags| && !IsFound(frags[k])
    requires frags[k].artifactKey == key && frags[k].points == v
    requires |Selected(frags, FoundOf(key))| == n
    requires NamesDistinct(e) && FindPlayer(e, divers[n]).Some?
    requires forall i :: 0 <= i < |e| ==> e[i].name in DiversSoFar(divers, n + 1)
    requires Contributors(Claim(frags, k, divers[n]), key) == DiversSoFar(divers, n + 1)
    requires forall i :: 0 <= i < |e| ==> e[i].score == v * multiset(divers[..n])[e[i].name]
    ensures var after := ClaimStep(e, frags, divers[n], k).players;
      && |after| == |e|
      && (forall i :: 0 <= i < |e| ==> after[i].name == e[i].name)
      && (forall i :: 0 <= i < |e| ==>
            after[i].score == v * multiset(divers[..n + 1])[e[i].name]
                              + (if n + 1 == QUADRANTS then COMPLETION_BONUS else 0))
  {
    var name := divers[n];
    var after := ClaimStep(e, frags, name, k).players;
    forall i | 0 <= i < |e|
      ensures after[i].name == e[i].name
      ensures after[i].score == v * multiset(divers[..n + 1])[e[i].name]
                                + (if n + 1 == QUADRANTS then COMPLETION_BONUS else 0)
    {
      ScoreStep(e, frags, key, v, name, n, k, i);
      MultisetStep(divers, n, e[i].name);
      PointsStep(v, multiset(divers[..n])[e[i].name]);
    }
    ClaimStepScores(e, frags, name, k, 0);
  }

  /** The registry after the claim, from the registry after find-or-create. */
  lemma RegistryStep(e: seq<Player>, frags: seq<Fragment>, key: string, v: nat, divers: seq<string>, n: nat, k: nat)
    requires n < |divers| && n < QUADRANTS && divers[n] != ""
    requires k < |frags| && !IsFound(frags[k])
    requires frags[k].artifactKey == key && frags[k].points == v
    requires |Selected(frags, FoundOf(key))| == n
    requires NamesDistinct(e) && FindPlayer(e, divers[n]).Some?
    requires forall j :: 0 <= j < n + 1 ==> FindPlayer(e, divers[j]).Some?
    requires forall i :: 0 <= i < |e| ==> e[i].name in DiversSoFar(divers, n + 1)
    requires Contributors(Claim(frags, k, divers[n]), key) == DiversSoFar(divers, n + 1)
    requires forall i :: 0 <= i < |e| ==> e[i].score == v * multiset(divers[..n])[e[i].name]
    ensures PlayersAfter(ClaimStep(e, frags, divers[n], k).players, v, divers, n + 1)
  {
    ClaimScores(e, frags, key, v, divers, n, k);
    SameNames(e, ClaimStep(e, frags, divers[n], k).players);
  }

  /** The registry part of one dive of the round. */
  lemma PlayersStep(players: seq<Player>, frags: seq<Fragment>, key: string, v: nat, divers: seq<string>, n: nat, k: nat)
    requires n < |divers| && n < QUADRANTS && divers[n] != ""
    requires PoolAfter(frags, key, v, divers, n) && PlayersAfter(players, v, divers, n)
    requires k < |frags| && !IsFound(frags[k])
    ensures PlayersAfter(DiveClaim(Doc(players, frags), divers[n], k).players, v, divers, n + 1)
  {
    EnrollStep(players, v, divers, n);
    PoolFindersStep(frags, key, v, divers, n, k);
    OneArtifactFragment(frags, key, v, k);
    RegistryStep(Enrolled(players, divers[n]), frags, key, v, divers, n, k);
  }

  /** The state of a one-artifact round after `n` dives. */
  ghost predicate RoundAfter(d: Doc, key: string, v: nat, divers: seq<string>, n: nat)
    requires n <= |divers|
  {
    PoolAfter(d.fragments, key, v, divers, n) && PlayersAfter(d.players, v, divers, n)
  }

  /** A round starts from a fresh pool with nothing claimed and nobody registered. */
  lemma RoundStart(key: string, v: nat, divers: seq<string>)
    ensures RoundAfter(Doc([], Generation([Artifact(key, v)])), key, v, divers, 0)
  {
    var g := Generation([Artifact(key, v)]);
    GenerationAllUnclaimed([Artifact(key, v)]);
    CountOfRange(g, FoundOf(key), 0, 0);
    assert Contributors(g, key) == {};
  }

  /** One dive of a round, from the state after `n` dives to the state after `n + 1`. */
  lemma RoundStep(d: Doc, key: string, v: nat, divers: seq<string>, n: nat, k: nat)
    requires n < |divers| && n < QUADRANTS && divers[n] != ""
    requires RoundAfter(d, key, v, divers, n)
    requires k < |d.fragments| && !IsFound(d.fragments[k])
    ensures RoundAfter(DiveClaim(d, divers[n], k), key, v, divers, n + 1)
  {
    PoolStep(d.fragments, key, v, divers, n, k);
    PlayersStep(d.players, d.fragments, key, v, divers, n, k);
    assert d == Doc(d.players, d.fragments);
  }

  /** Four dives on a one-artifact catalogue, from a fresh pool and an empty registry. */
  lemma {:induction false} RoundInvariant(key: string, v: nat, docs: seq<Doc>, divers: seq<string>, slots: seq<nat>, n: nat)
    requires IsHistory(docs, divers, slots) && |divers| == QUADRANTS
    requires docs[0] == Doc([], Generation([Artifact(key, v)]))
    requires n <= QUADRANTS
    ensures RoundAfter(docs[n], key, v, divers, n)
  {
    if n == 0 {
      RoundStart(key, v, divers);
    } else {
      RoundInvariant(key, v, docs, divers, slots, n - 1);
      HistoryStep(docs, divers, slots, n - 1);
      RoundStep(docs[n - 1], key, v, divers, n - 1, slots[n - 1]);
    }
  }

  /**
   * A one-artifact round: after four dives from a fresh pool and an empty
   * registry, nothing is left unclaimed (so the next dive resets), every
   * diver is registered exactly once, and each ends with v points per dive
   * plus the 5-point bonus, whoever claimed the last fragment.
   */
  lemma SingleArtifactRound(key: string, v: nat, docs: seq<Doc>, divers: seq<string>, slots: seq<nat>)
    requires IsHistory(docs, divers, slots) && |divers| == QUADRANTS
    requires docs[0] == Doc([], Generation([Artifact(key, v)]))
    ensures Selected(docs[QUADRANTS].fragments, Unclaimed) == []
    ensures NamesDistinct(docs[QUADRANTS].players)
    ensures forall j :: 0 <= j < |divers| ==> FindPlayer(docs[QUADRANTS].players, divers[j]).Some?
    ensures forall i :: 0 <= i < |docs[QUADRANTS].players| ==>
      var player := docs[QUADRANTS].players[i];
      player.name in divers && player.score == v * multiset(divers)[player.name] + COMPLETION_BONUS
  {
    RoundInvariant(key, v, docs, divers, slots, QUADRANTS);
    assert divers[..QUADRANTS] == divers;
  }

  /** Two players of a registry with distinct names have different names. */
  lemma DistinctPair(players: seq<Player>, i: nat, j: nat)
    requires NamesDistinct(players) && i < j < |players|
    ensures players[i].name != players[j].name
  {
  }

  /** A registry with distinct names, all of them `name`, has one player at most. */
  lemma OneName(players: seq<Player>, name: string)
    requires NamesDistinct(players)
    requires forall i :: 0 <= i < |players| ==> players[i].name == name
    ensures |players| <= 1
  {
    if |players| >= 2 {
      DistinctPair(players, 0, 1);
      assert false;
    }
  }

  /** A registry with distinct names, each of them `x` or `y`, has two players at most. */
  lemma TwoNames(players: seq<Player>, x: string, y: string)
    requires NamesDistinct(players)
    requires forall i :: 0 <= i < |players| ==> players[i].name == x || players[i].name == y
    ensures |players| <= 2
  {
    if |players| >= 3 {
      DistinctPair(players, 0, 1);
      DistinctPair(players, 0, 2);
      DistinctPair(players, 1, 2);
      assert false;
    }
  }

  /** One player, one artifact worth 2, four dives: 2 × 4 + 5 = 13, and the pool is exhausted. */
  lemma SoloDiver(docs: seq<Doc>, slots: seq<nat>)
    requires IsHistory(docs, ["A", "A", "A", "A"], slots)
    requires docs[0] == Doc([], Generation([Artifact("coins", 2)]))
    ensures docs[4].players == [Player("A", 13)]
    ensures Selected(docs[4].fragments, Unclaimed) == []
  {
    var divers := ["A", "A", "A", "A"];
    SingleArtifactRound("coins", 2, docs, divers, slots);
    var ps := docs[4].players;
    assert multiset(divers)["A"] == 4;
    assert FindPlayer(ps, "A").Some?;
    forall i | 0 <= i < |ps|
      ensures ps[i].name == "A"
    {
      assert ps[i].name in divers;
    }
    OneName(ps, "A");
  }

  /**
   * Two players who each dive twice on one artifact worth 1 both end with
   * 1 × 2 + 5 = 7, in whatever order they dived.
   */
  lemma TwoDivers(docs: seq<Doc>, divers: seq<string>, slots: seq<nat>)
    requires IsHistory(docs, divers, slots)
    requires multiset(divers) == multiset{"A", "A", "B", "B"}
    requires docs[0] == Doc([], Generation([Artifact("coins", 1)]))
    ensures |docs[4].players| == 2
    ensures forall i :: 0 <= i < 2 ==> docs[4].players[i].score == 7
    ensures FindPlayer(docs[4].players, "A").Some? && FindPlayer(docs[4].players, "B").Some?
  {
    assert |divers| == |multiset(divers)| == 4;
    SingleArtifactRound("coins", 1, docs, divers, slots);
    var ps := docs[4].players;
    assert "A" in multiset(divers) && "B" in multiset(divers);
    assert "A" in divers && "B" in divers;
    var a := FindPlayer(ps, "A").value;
    var b := FindPlayer(ps, "B").value;
    assert a != b;
    forall i | 0 <= i < |ps|
      ensures ps[i].name == "A" || ps[i].name == "B"
    {
      assert ps[i].name in multiset(divers);
    }
    TwoNames(ps, "A", "B");
    forall i | 0 <= i < 2
      ensures ps[i].score == 7
    {
      assert ps[i].name in multiset(divers);
      assert multiset(divers)[ps[i].name] == 2;
    }
  }
}
