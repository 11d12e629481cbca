/**
  The high-score resource of the game, reduced to the one operation the
  level timer uses: `update_high_score_if_greater`. Scores are `u64` in the
  game; no arithmetic is done on them, so they are unbounded naturals here.
 */
module HighScores {

  /** A high-score table: the best score recorded for each key. */
  type Table = map<string, nat>

  /**
    Record `score` under `key` unless a score at least as large is already
    stored there. The stored value for `key` becomes the larger of the old one
    and `score`; no other key is touched.
   */
  function UpdateIfGreater(scores: Table, key: string, score: nat): (r: Table)
    ensures r.Keys == scores.Keys + {key}
    ensures r[key] >= score
    ensures key in scores ==> r[key] >= scores[key]
    ensures r[key] == score || (key in scores && r[key] == scores[key])
    ensures forall k :: k in scores && k != key ==> r[k] == scores[k]
  {
    if key in scores && scores[key] >= score then scores else scores[key := score]
  }

  /** Committing the same score twice has the effect of committing it once. */
  lemma UpdateIfGreaterIdempotent(scores: Table, key: string, score: nat)
    ensures UpdateIfGreater(UpdateIfGreater(scores, key, score), key, score)
         == UpdateIfGreater(scores, key, score)
  {
  }

  /** Whatever is committed, no stored score goes down. */
  lemma UpdateIfGreaterNeverDecreases(scores: Table, key: string, score: nat)
    ensures forall k :: k in scores ==>
      k in UpdateIfGreater(scores, key, score) && UpdateIfGreater(scores, key, score)[k] >= scores[k]
  {
  }
}
