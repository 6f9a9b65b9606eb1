/**
 * The player registry: names as typed by players (trimmed as the server
 * trims them), lookup by exact name, and find-or-create.
 */
module Players {
  import opened Optional

  datatype Player = Player(name: string, score: int)

  /**
   * The characters JavaScript's `String.prototype.trim` strips: the
   * ECMAScript WhiteSpace and LineTerminator code points.
   */
  predicate IsJsSpace(c: char) {
    var n := c as int;
    || n == 0x09 || n == 0x0A || n == 0x0B || n == 0x0C || n == 0x0D
    || n == 0x20 || n == 0xA0 || n == 0x1680
    || (0x2000 <= n <= 0x200A)
    || n == 0x2028 || n == 0x2029 || n == 0x202F || n == 0x205F
    || n == 0x3000 || n == 0xFEFF
  }

  /** The end of the run of white space that starts at position `i` of `s`. */
  function SpaceRunEnd(s: string, i: nat): (n: nat)
    requires i <= |s|
    ensures i <= n <= |s|
    ensures forall j :: i <= j < n ==> IsJsSpace(s[j])
    ensures n < |s| ==> !IsJsSpace(s[n])
    decreases |s| - i
  {
    if i < |s| && IsJsSpace(s[i]) then SpaceRunEnd(s, i + 1) else i
  }

  /** The start of the run of white space that ends at position `hi` of `s`, going no lower than `lo`. */
  function SpaceRunStart(s: string, lo: nat, hi: nat): (m: nat)
    requires lo <= hi <= |s|
    ensures lo <= m <= hi
    ensures forall j :: m <= j < hi ==> IsJsSpace(s[j])
    ensures lo < m ==> !IsJsSpace(s[m - 1])
    decreases hi - lo
  {
    if lo < hi && IsJsSpace(s[hi - 1]) then SpaceRunStart(s, lo, hi - 1) else hi
  }

  /**
   * `s.trim()`: the slice of `s` left once white space is cut from both
   * ends. It is empty exactly when `s` is all white space, and otherwise
   * starts and ends with a character that is not white space.
   */
  function Trim(s: string): (t: string)
    ensures var lead := SpaceRunEnd(s, 0);
      && lead + |t| <= |s|
      && t == s[lead..lead + |t|]
      && (forall j :: 0 <= j < lead ==> IsJsSpace(s[j]))
      && (forall j :: lead + |t| <= j < |s| ==> IsJsSpace(s[j]))
    ensures t == [] <==> forall j :: 0 <= j < |s| ==> IsJsSpace(s[j])
    ensures t != [] ==> !IsJsSpace(t[0]) && !IsJsSpace(t[|t| - 1])
  {
    var lo := SpaceRunEnd(s, 0);
    var hi := SpaceRunStart(s, lo, |s|);
    s[lo..hi]
  }

  /**
   * `players.find(p => p.name === name)`: the position of the first player
   * with exactly that name, or `None` when there is none.
   */
  function FindPlayer(players: seq<Player>, name: string): (r: Option<nat>)
    ensures r.Some? ==> r.value < |players| && players[r.value].name == name
    ensures r.Some? ==> forall j :: 0 <= j < r.value ==> players[j].name != name
    ensures r.None? <==> forall j :: 0 <= j < |players| ==> players[j].name != name
  {
    if players == [] then None
    else if players[0].name == name then Some(0)
    else
      match FindPlayer(players[1..], name)
      case None => None
      case Some(i) => Some(i + 1)
  }

  /** No two players share a name. */
  ghost predicate NamesDistinct(players: seq<Player>) {
    forall i, j :: 0 <= i < j < |players| ==> players[i].name != players[j].name
  }

  /**
   * Find-or-create: the registry after making sure a player called `name`
   * exists, by appending `{name, score: 0}` when nobody has that name.
   */
  function Enrolled(players: seq<Player>, name: string): (r: seq<Player>)
    ensures FindPlayer(r, name).Some?
    ensures players <= r && |r| <= |players| + 1
  {
    if FindPlayer(players, name).None? then
      var r := players + [Player(name, 0)];
      assert r[|players|].name == name;
      r
    else
      players
  }

  /**
   * Enrolling a name already present changes nothing, not even a score;
   * enrolling a new one appends exactly one player, with score 0, who is
   * then the one the lookup finds.
   */
  lemma EnrolledEffect(players: seq<Player>, name: string)
    ensures (exists j :: 0 <= j < |players| && players[j].name == name) ==> Enrolled(players, name) == players
    ensures (forall j :: 0 <= j < |players| ==> players[j].name != name) ==>
      && Enrolled(players, name) == players + [Player(name, 0)]
      && FindPlayer(Enrolled(players, name), name) == Some(|players|)
  {
  }

  /** Find-or-create never gives two players the same name. */
  lemma EnrolledDistinct(players: seq<Player>, name: string)
    requires NamesDistinct(players)
    ensures NamesDistinct(Enrolled(players, name))
  {
    EnrolledEffect(players, name);
  }

  /** Renaming nobody keeps names distinct and everybody registered. */
  lemma SameNames(a: seq<Player>, b: seq<Player>)
    requires |a| == |b| && forall i :: 0 <= i < |a| ==> a[i].name == b[i].name
    requires NamesDistinct(a)
    ensures NamesDistinct(b)
    ensures forall name :: FindPlayer(a, name).Some? ==> FindPlayer(b, name).Some?
  {
    forall name | FindPlayer(a, name).Some?
      ensures FindPlayer(b, name).Some?
    {
      var q := FindPlayer(a, name).value;
      assert b[q].name == name;
    }
  }

  /** Find-or-create keeps everybody who was registered registered. */
  lemma EnrolledKeepsNames(players: seq<Player>, name: string)
    ensures forall other :: FindPlayer(players, other).Some? ==> FindPlayer(Enrolled(players, name), other).Some?
  {
    var r := Enrolled(players, name);
    forall other | FindPlayer(players, other).Some?
      ensures FindPlayer(r, other).Some?
    {
      var q := FindPlayer(players, other).value;
      assert r[q] == players[q];
    }
  }
}
