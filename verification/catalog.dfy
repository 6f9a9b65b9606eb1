/**
 * The static artifact catalogue of the game server. Only what the game
 * logic reads is kept: the unique key and the point value of each artifact
 * (display names, blurbs and images are payload the rules never inspect).
 */
module Catalog {

  datatype Artifact = Artifact(key: string, points: nat)

  /** The catalogue, in the order the server lists it. */
  const ARTIFACTS: seq<Artifact> := [
    Artifact("empty_box", 0),
    Artifact("coins", 1),
    Artifact("silver_ingot", 2),
    Artifact("longquan", 3),
    Artifact("white_ewer", 4),
    Artifact("jade_arhat", 5),
    Artifact("gold_ring", 6),
    Artifact("gold_necklace", 7),
    Artifact("gilded_bracelet", 8),
    Artifact("gilded_belt", 10)
  ]

  /** No two artifacts of a catalogue share a key. */
  predicate KeysDistinct(catalog: seq<Artifact>) {
    forall i, j :: 0 <= i < j < |catalog| ==> catalog[i].key != catalog[j].key
  }

  /** The server's catalogue has ten artifacts with pairwise distinct keys. */
  lemma ArtifactsWellFormed()
    ensures |ARTIFACTS| == 10
    ensures KeysDistinct(ARTIFACTS)
  {
    forall i, j | 0 <= i < j < |ARTIFACTS|
      ensures ARTIFACTS[i].key != ARTIFACTS[j].key
    {
      var a, b := ARTIFACTS[i].key, ARTIFACTS[j].key;
      assert |a| != |b| || a[0] != b[0];
    }
  }
}
