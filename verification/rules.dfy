/**
 * The game rules as pure state transitions over the game document: what a
 * dive that finds something unclaimed does to the players and the pool, and
 * what holds over a run of such dives within one generation.
 */
module Rules {
  import opened Optional
  import opened Catalog
  import opened Pool
  import opened Players

  /** Points every contributor earns when an artifact's fourth fragment is claimed. */
  const COMPLETION_BONUS: nat := 5

  /** The game document: the registry and the current pool. */
  datatype Doc = Doc(players: seq<Player>, fragments: seq<Fragment>)

  /** The names that found a fragment of the artifact `key`: `new Set(related.map(f => f.foundBy))`. */
  function Contributors(frags: seq<Fragment>, key: string): (who: set<string>)
    ensures forall x :: x in who ==> x != ""
  {
    set i | 0 <= i < |frags| && Selects(FoundOf(key), frags[i]) :: frags[i].foundBy.value
  }

  /** The server's bonus test: four fragments of the artifact `key` are claimed. */
  predicate Completes(frags: seq<Fragment>, key: string) {
    |Selected(frags, FoundOf(key))| == QUADRANTS
  }

  /** `player.score += points` on the player at position `p`. */
  function Credit(players: seq<Player>, p: nat, points: nat): (r: seq<Player>)
    requires p < |players|
    ensures |r| == |players|
    ensures forall i :: 0 <= i < |r| ==>
      r[i].name == players[i].name && r[i].score == players[i].score + (if i == p then points else 0)
  {
    players[p := players[p].(score := players[p].score + points)]
  }

  /** The completion bonus: every registered player whose name is in `who` gains 5. */
  function WithBonus(players: seq<Player>, who: set<string>): (r: seq<Player>)
    ensures |r| == |players|
    ensures forall i :: 0 <= i < |r| ==>
      r[i].name == players[i].name
      && r[i].score == players[i].score + (if players[i].name in who then COMPLETION_BONUS else 0)
  {
    seq(|players|, i requires 0 <= i < |players| =>
      if players[i].name in who then players[i].(score := players[i].score + COMPLETION_BONUS) else players[i])
  }

  /**
   * The claim branch of a dive, once the diver `name` is registered: fragment
   * `k` is claimed for them, they are credited its points, and if the claim
   * completes its artifact every contributor gets the bonus.
   */
  function ClaimStep(players: seq<Player>, frags: seq<Fragment>, name: string, k: nat): Doc
    requires k < |frags| && FindPlayer(players, name).Some?
  {
    var claimed := Claim(frags, k, name);
    var credited := Credit(players, FindPlayer(players, name).value, frags[k].points);
    var key := frags[k].artifactKey;
    Doc(if Completes(claimed, key) then WithBonus(credited, Contributors(claimed, key)) else credited, claimed)
  }

  /** A whole dive that finds fragment `k` unclaimed: find-or-create the diver, then claim. */
  function DiveClaim(d: Doc, name: string, k: nat): Doc
    requires k < |d.fragments|
  {
    ClaimStep(Enrolled(d.players, name), d.fragments, name, k)
  }

  /** Each claim adds the diver to the finders of the artifact. */
  lemma ContributorsAfterClaim(frags: seq<Fragment>, k: nat, name: string)
    requires k < |frags| && !IsFound(frags[k]) && name != ""
    ensures var key := frags[k].artifactKey;
      Contributors(Claim(frags, k, name), key) == Contributors(frags, key) + {name}
  {
    var key := frags[k].artifactKey;
    var after := Claim(frags, k, name);
    assert Selects(FoundOf(key), after[k]);
    forall x | x in Contributors(after, key)
      ensures x in Contributors(frags, key) + {name}
    {
      var i :| 0 <= i < |after| && Selects(FoundOf(key), after[i]) && after[i].foundBy.value == x;
      if i != k {
        assert Selects(FoundOf(key), frags[i]);
      }
    }
    forall x | x in Contributors(frags, key)
      ensures x in Contributors(after, key)
    {
      var i :| 0 <= i < |frags| && Selects(FoundOf(key), frags[i]) && frags[i].foundBy.value == x;
      assert i != k && after[i] == frags[i];
    }
  }

  /** A claim leaves the finders of every other artifact as they were. */
  lemma ContributorsOtherKey(frags: seq<Fragment>, k: nat, name: string, key: string)
    requires k < |frags| && !IsFound(frags[k]) && key != frags[k].artifactKey
    ensures Contributors(Claim(frags, k, name), key) == Contributors(frags, key)
  {
    var after := Claim(frags, k, name);
    forall x | x in Contributors(after, key)
      ensures x in Contributors(frags, key)
    {
      var i :| 0 <= i < |after| && Selects(FoundOf(key), after[i]) && after[i].foundBy.value == x;
      assert i != k && after[i] == frags[i];
    }
    forall x | x in Contributors(frags, key)
      ensures x in Contributors(after, key)
    {
      var i :| 0 <= i < |frags| && Selects(FoundOf(key), frags[i]) && frags[i].foundBy.value == x;
      assert i != k && after[i] == frags[i];
    }
  }

  /**
   * The bonus fires exactly on the claim that moves the artifact's claimed
   * count from 3 to 4, and the diver is then among its contributors.
   */
  lemma CompletionAtFourth(frags: seq<Fragment>, k: nat, name: string)
    requires k < |frags| && !IsFound(frags[k]) && name != ""
    ensures var key := frags[k].artifactKey;
      && (Completes(Claim(frags, k, name), key) <==> |Selected(frags, FoundOf(key))| == QUADRANTS - 1)
      && name in Contributors(Claim(frags, k, name), key)
  {
    ClaimEffect(frags, k, name, frags[k].artifactKey);
    assert Selects(FoundOf(frags[k].artifactKey), Claim(frags, k, name)[k]);
  }

  /**
   * Scores in the claim branch: each registered player keeps their place and
   * name; the diver (the first player with that name) gains the fragment's
   * points; if and only if the claim lifts the artifact's claimed count from
   * 3 to 4, every player whose name is among its contributors gains exactly
   * 5; nobody else's score moves and no score goes down.
   */
  lemma ClaimStepScores(players: seq<Player>, frags: seq<Fragment>, name: string, k: nat, i: nat)
    requires k < |frags| && !IsFound(frags[k]) && name != ""
    requires FindPlayer(players, name).Some? && i < |players|
    ensures var d := ClaimStep(players, frags, name, k);
      var key := frags[k].artifactKey;
      var completes := |Selected(frags, FoundOf(key))| == QUADRANTS - 1;
      var bonus := completes && players[i].name in Contributors(d.fragments, key);
      && |d.players| == |players|
      && d.players[i].name == players[i].name
      && d.players[i].score == players[i].score
           + (if i == FindPlayer(players, name).value then frags[k].points else 0)
           + (if bonus then COMPLETION_BONUS else 0)
      && d.players[i].score >= players[i].score
  {
    CompletionAtFourth(frags, k, name);
  }

  /** The claim branch claims exactly fragment `k` and leaves the rest of the pool as it was. */
  lemma ClaimStepFragments(players: seq<Player>, frags: seq<Fragment>, name: string, k: nat)
    requires k < |frags| && !IsFound(frags[k]) && name != ""
    requires FindPlayer(players, name).Some?
    ensures var r := ClaimStep(players, frags, name, k).fragments;
      && |r| == |frags|
      && r[k].foundBy == Some(name)
      && (forall i :: 0 <= i < |frags| && i != k ==> r[i] == frags[i])
      && SameLayout(r, frags)
      && |Selected(r, Unclaimed)| == |Selected(frags, Unclaimed)| - 1
  {
    ClaimEffect(frags, k, name, frags[k].artifactKey);
  }

  /**
   * `after` is `before` with exactly fragment `k`, which was unclaimed,
   * now found by `name`: every other fragment and the layout are as they
   * were, and one fewer fragment is left unclaimed.
   */
  ghost predicate OnlyClaimed(before: seq<Fragment>, after: seq<Fragment>, k: nat, name: string) {
    && k < |before| == |after|
    && !IsFound(before[k])
    && after[k].foundBy == Some(name)
    && (forall i :: 0 <= i < |before| && i != k ==> after[i] == before[i])
    && SameLayout(after, before)
    && |Selected(after, Unclaimed)| == |Selected(before, Unclaimed)| - 1
  }

  /** Every player of `before` keeps their place and name in `after`, with a score that has not gone down. */
  ghost predicate ScoresKept(before: seq<Player>, after: seq<Player>) {
    && |before| <= |after|
    && forall i :: 0 <= i < |before| ==>
         after[i].name == before[i].name && after[i].score >= before[i].score
  }

  /**
   * What a dive that finds fragment `k` unclaimed does, in full: exactly that
   * fragment becomes the diver's, and every player registered before the
   * dive keeps their place and name with a score that has not gone down.
   */
  lemma DiveClaimEffect(d: Doc, name: string, k: nat)
    requires k < |d.fragments| && !IsFound(d.fragments[k]) && name != ""
    ensures OnlyClaimed(d.fragments, DiveClaim(d, name, k).fragments, k, name)
    ensures ScoresKept(d.players, DiveClaim(d, name, k).players)
  {
    var enrolled := Enrolled(d.players, name);
    ClaimStepFragments(enrolled, d.fragments, name, k);
    forall i | 0 <= i < |d.players|
      ensures DiveClaim(d, name, k).players[i].name == d.players[i].name
      ensures DiveClaim(d, name, k).players[i].score >= d.players[i].score
    {
      assert enrolled[i] == d.players[i];
      ClaimStepScores(enrolled, d.fragments, name, k, i);
    }
  }

  /**
   * A run of dives within one generation: `docs[n + 1]` is the document
   * after diver `divers[n]` claimed the unclaimed fragment at `slots[n]` of
   * `docs[n]`.
   */
  ghost predicate IsHistory(docs: seq<Doc>, divers: seq<string>, slots: seq<nat>) {
    && |docs| == |divers| + 1
    && |slots| == |divers|
    && forall n :: 0 <= n < |divers| ==>
         && divers[n] != ""
         && slots[n] < |docs[n].fragments|
         && !IsFound(docs[n].fragments[slots[n]])
         && docs[n + 1] == DiveClaim(docs[n], divers[n], slots[n])
  }

  /** One step of a history, spelled out. */
  lemma HistoryStep(docs: seq<Doc>, divers: seq<string>, slots: seq<nat>, n: nat)
    requires IsHistory(docs, divers, slots) && n < |divers|
    ensures divers[n] != "" && slots[n] < |docs[n].fragments| && !IsFound(docs[n].fragments[slots[n]])
    ensures docs[n + 1] == DiveClaim(docs[n], divers[n], slots[n])
    ensures docs[n + 1].fragments == Claim(docs[n].fragments, slots[n], divers[n])
  {
  }

  /**
   * Claims never revert within a generation: once a fragment is claimed, it
   * keeps its claimer in every later document, so `foundBy` changes at most
   * once per fragment.
   */
  lemma {:induction false} ClaimsAreFinal(docs: seq<Doc>, divers: seq<string>, slots: seq<nat>, m: nat, n: nat, s: nat)
    requires IsHistory(docs, divers, slots) && m <= n < |docs|
    requires s < |docs[m].fragments| && IsFound(docs[m].fragments[s])
    ensures s < |docs[n].fragments| && docs[n].fragments[s] == docs[m].fragments[s]
    decreases n - m
  {
    if m < n {
      HistoryStep(docs, divers, slots, m);
      ClaimsAreFinal(docs, divers, slots, m + 1, n, s);
    }
  }

  /** No fragment is claimed twice within a generation. */
  lemma SlotsDistinct(docs: seq<Doc>, divers: seq<string>, slots: seq<nat>, m: nat, n: nat)
    requires IsHistory(docs, divers, slots) && m < n < |slots|
    ensures slots[m] != slots[n]
  {
    HistoryStep(docs, divers, slots, m);
    HistoryStep(docs, divers, slots, n);
    ClaimEffect(docs[m].fragments, slots[m], divers[m], "");
    ClaimsAreFinal(docs, divers, slots, m + 1, n, slots[m]);
  }

  /** An artifact's claimed count never falls within a generation. */
  lemma {:induction false} FoundCountGrows(docs: seq<Doc>, divers: seq<string>, slots: seq<nat>, key: string, m: nat, n: nat)
    requires IsHistory(docs, divers, slots) && m <= n < |docs|
    ensures |Selected(docs[m].fragments, FoundOf(key))| <= |Selected(docs[n].fragments, FoundOf(key))|
    decreases n - m
  {
    if m < n {
      HistoryStep(docs, divers, slots, m);
      ClaimEffect(docs[m].fragments, slots[m], divers[m], key);
      FoundCountGrows(docs, divers, slots, key, m + 1, n);
    }
  }

  /**
   * The completion bonus for an artifact fires on at most one dive of a
   * generation: two different dives that pick fragments of the same
   * artifact cannot both bring its claimed count to 4.
   */
  lemma BonusAtMostOnce(docs: seq<Doc>, divers: seq<string>, slots: seq<nat>, m: nat, n: nat)
    requires IsHistory(docs, divers, slots) && m < n < |slots|
    requires docs[m].fragments[slots[m]].artifactKey == docs[n].fragments[slots[n]].artifactKey
    ensures var key := docs[m].fragments[slots[m]].artifactKey;
      !(Completes(docs[m + 1].fragments, key) && Completes(docs[n + 1].fragments, key))
  {
    HistoryStep(docs, divers, slots, m);
    HistoryStep(docs, divers, slots, n);
    var key := docs[m].fragments[slots[m]].artifactKey;
    CompletionAtFourth(docs[n].fragments, slots[n], divers[n]);
    FoundCountGrows(docs, divers, slots, key, m + 1, n);
  }

  /**
   * Between resets, scores only grow: a player registered at some point of
   * a generation keeps their position and name, and their score never falls.
   */
  lemma {:induction false} ScoresGrow(docs: seq<Doc>, divers: seq<string>, slots: seq<nat>, m: nat, n: nat, i: nat)
    requires IsHistory(docs, divers, slots) && m <= n < |docs|
    requires i < |docs[m].players|
    ensures i < |docs[n].players|
    ensures docs[n].players[i].name == docs[m].players[i].name
    ensures docs[n].players[i].score >= docs[m].players[i].score
    decreases n - m
  {
    if m < n {
      HistoryStep(docs, divers, slots, m);
      DiveClaimEffect(docs[m], divers[m], slots[m]);
      ScoresGrow(docs, divers, slots, m + 1, n, i);
    }
  }

  /** Every document of a history that starts in a generation stays in that generation. */
  lemma {:induction false} HistoryStaysInGeneration(docs: seq<Doc>, divers: seq<string>, slots: seq<nat>, catalog: seq<Artifact>, n: nat)
    requires IsHistory(docs, divers, slots) && n < |docs|
    requires InGeneration(docs[0].fragments, catalog)
    ensures InGeneration(docs[n].fragments, catalog)
  {
    if n > 0 {
      HistoryStaysInGeneration(docs, divers, slots, catalog, n - 1);
      HistoryStep(docs, divers, slots, n - 1);
      ClaimEffect(docs[n - 1].fragments, slots[n - 1], divers[n - 1], "");
    }
  }
}
