/**
 * The game server's state and its two mutating handlers, `/new-player` and
 * `/dive`, each taken as one atomic step on the in-memory game document.
 */
module Server {
  import opened Optional
  import opened Catalog
  import opened Pool
  import opened Players
  import opened Rules
  import opened Accounts

  const REGISTER_NAME_MISSING := "Please enter a name."
  const DIVE_NAME_MISSING := "Please enter your name."
  const RESET_NOTICE := "All fragments recovered. The sea resets for a new dive."

  /** Reply of `/new-player`: `{ok: false, message}` or `{ok: true}`. */
  datatype RegisterReply = RegisterRefused(message: string) | Registered

  /**
   * Reply of `/dive`: `{ok: false, message}`, `{ok: true, reset: true,
   * message}`, or `{ok: true, fragment, leaderboard, message}`.
   */
  datatype DiveReply =
    | DiveRefused(message: string)
    | PoolReset(message: string)
    | Found(fragment: Fragment, leaderboard: seq<Player>)

  /** The document as the store hands it over at startup; either list may be absent. */
  datatype Stored = Stored(players: Option<seq<Player>>, fragments: Option<seq<Fragment>>)

  class Game {
    const catalog: seq<Artifact>
    var players: seq<Player>
    var fragments: seq<Fragment>

    function Document(): Doc
      reads this
    {
      Doc(players, fragments)
    }

    /**
     * Startup: an absent document becomes an empty one, a missing player
     * list becomes empty, and a missing or empty pool is built afresh;
     * whatever was stored otherwise is kept as it is.
     */
    constructor Startup(catalog: seq<Artifact>, stored: Option<Stored>)
      ensures this.catalog == catalog
      ensures var data := if stored.Some? then stored.value else Stored(None, None);
        && players == (if data.players.Some? then data.players.value else [])
        && fragments == (if data.fragments.Some? && data.fragments.value != [] then data.fragments.value
                         else Generation(catalog))
      ensures (stored.None? || stored.value.fragments.None? || stored.value.fragments.value == []) ==>
        InGeneration(fragments, catalog) && |Selected(fragments, Unclaimed)| == QUADRANTS * |catalog|
    ensures stored.None? ==> Accounted(Document(), catalog)
    {
      var data := if stored.Some? then stored.value else Stored(None, None);
      var pool;
      if data.fragments.None? || |data.fragments.value| == 0 {
        pool := BuildFragments(catalog);
        GenerationAllUnclaimed(catalog);
        AccountedStart(catalog);
      } else {
        pool := data.fragments.value;
      }
      this.catalog := catalog;
      players := if data.players.None? then [] else data.players.value;
      fragments := pool;
    }

    /**
     * `/new-player`: a name that is empty once trimmed is refused and nothing
     * changes; otherwise the trimmed name is registered with score 0 unless a
     * player already has exactly that name. The pool is never touched.
     */
    method Register(rawName: string) returns (reply: RegisterReply)
      modifies this`players
      ensures Trim(rawName) == "" ==> reply == RegisterRefused(REGISTER_NAME_MISSING) && players == old(players)
      ensures Trim(rawName) != "" ==> reply == Registered && players == Enrolled(old(players), Trim(rawName))
      ensures old(Accounted(Document(), catalog)) ==> Accounted(Document(), catalog)
    {
      var name := Trim(rawName);
      if name == "" {
        reply := RegisterRefused(REGISTER_NAME_MISSING);
        return;
      }
      ghost var before := Document();
      var _ := Enroll(name);
      reply := Registered;
      if Accounted(before, catalog) {
        EnrollAccounted(before, catalog, name);
      }
    }

    /**
     * `/dive`. `pick` stands for the random draw: the position, in the list
     * of unclaimed fragments, of the one the diver finds.
     *  - A name that is empty once trimmed is refused and nothing changes.
     *  - Otherwise the diver is registered if new. If nothing is left
     *    unclaimed, the player list is emptied (the diver just added
     *    included), the pool is rebuilt and a reset is reported.
     *  - Otherwise the picked fragment is claimed for the diver, who gains its
     *    points; if that makes four claimed fragments of its artifact, every
     *    player named among their finders gains 5.
     */
    method Dive(rawName: string, pick: nat) returns (reply: DiveReply)
      requires Selected(fragments, Unclaimed) != [] ==> pick < |Selected(fragments, Unclaimed)|
      modifies this
      ensures Trim(rawName) == "" ==>
        reply == DiveRefused(DIVE_NAME_MISSING) && players == old(players) && fragments == old(fragments)
      ensures Trim(rawName) != "" && old(Selected(fragments, Unclaimed)) == [] ==>
        reply == PoolReset(RESET_NOTICE) && players == [] && fragments == Generation(catalog)
      ensures Trim(rawName) != "" && old(Selected(fragments, Unclaimed)) != [] ==>
        var k := old(Selected(fragments, Unclaimed))[pick];
        && Document() == DiveClaim(old(Document()), Trim(rawName), k)
        && reply == Found(fragments[k], players)
        && OnlyClaimed(old(fragments), fragments, k, Trim(rawName))
        && ScoresKept(old(players), players)
      ensures old(InGeneration(fragments, catalog)) ==> InGeneration(fragments, catalog)
      ensures KeysDistinct(catalog) && old(Accounted(Document(), catalog)) ==> Accounted(Document(), catalog)
    {
      var name := Trim(rawName);
      if name == "" {
        reply := DiveRefused(DIVE_NAME_MISSING);
      } else {
        reply := DiveAs(name, pick);
      }
    }

    /** `/dive` for a diver whose trimmed name is `name`, not empty. */
    method DiveAs(name: string, pick: nat) returns (reply: DiveReply)
      requires name != ""
      requires Selected(fragments, Unclaimed) != [] ==> pick < |Selected(fragments, Unclaimed)|
      modifies this
      ensures old(Selected(fragments, Unclaimed)) == [] ==>
        reply == PoolReset(RESET_NOTICE) && players == [] && fragments == Generation(catalog)
      ensures old(Selected(fragments, Unclaimed)) != [] ==>
        var k := old(Selected(fragments, Unclaimed))[pick];
        && Document() == DiveClaim(old(Document()), name, k)
        && reply == Found(fragments[k], players)
        && OnlyClaimed(old(fragments), fragments, k, name)
        && ScoresKept(old(players), players)
      ensures old(InGeneration(fragments, catalog)) ==> InGeneration(fragments, catalog)
      ensures KeysDistinct(catalog) && old(Accounted(Document(), catalog)) ==> Accounted(Document(), catalog)
    {
      ghost var before := Document();
      var p := Enroll(name);
      var available := Selected(fragments, Unclaimed);
      if |available| == 0 {
        players := [];
        fragments := BuildFragments(catalog);
        reply := PoolReset(RESET_NOTICE);
        AccountedStart(catalog);
        return;
      }
      var k := available[pick];
      ClaimFor(name, p, k);
      reply := Found(fragments[k], players);
      DiveClaimEffect(before, name, k);
      if InGeneration(before.fragments, catalog) {
        SameLayoutInGeneration(before.fragments, fragments, catalog);
      }
      if KeysDistinct(catalog) && Accounted(before, catalog) {
        DiveAccounted(before, catalog, name, k);
      }
    }

    /** `players.find(...)`, pushing `{name, score: 0}` when it finds nobody; returns the player's position. */
    method Enroll(name: string) returns (p: nat)
      modifies this`players
      ensures players == Enrolled(old(players), name)
      ensures FindPlayer(players, name) == Some(p)
    {
      EnrolledEffect(players, name);
      var found := FindPlayer(players, name);
      if found.None? {
        players := players + [Player(name, 0)];
        p := |players| - 1;
      } else {
        p := found.value;
      }
    }

    /**
     * The claim branch of `/dive` for the registered player at `p`: marks
     * fragment `k` found by `name`, credits its points, and runs the
     * completion check.
     */
    method ClaimFor(name: string, p: nat, k: nat)
      requires k < |fragments| && FindPlayer(players, name) == Some(p)
      modifies this
      ensures Document() == ClaimStep(old(players), old(fragments), name, k)
    {
      ghost var credited := Credit(players, p, fragments[k].points);
      fragments := fragments[k := fragments[k].(foundBy := Some(name))];
      players := players[p := players[p].(score := players[p].score + fragments[k].points)];
      assert players == credited;
      var key := fragments[k].artifactKey;
      var related := Selected(fragments, FoundOf(key));
      if |related| == QUADRANTS {
        AwardBonus(Contributors(fragments, key));
      }
    }

    /** The completion bonus, added player by player: everyone named in `who` gains 5. */
    method AwardBonus(who: set<string>)
      modifies this`players
      ensures players == WithBonus(old(players), who)
    {
      var j := 0;
      while j < |players|
        invariant 0 <= j <= |players| == |old(players)|
        invariant forall i :: 0 <= i < j ==> players[i] == WithBonus(old(players), who)[i]
        invariant forall i :: j <= i < |players| ==> players[i] == old(players)[i]
      {
        if players[j].name in who {
          players := players[j := players[j].(score := players[j].score + COMPLETION_BONUS)];
        }
        j := j + 1;
      }
    }
  }
}
