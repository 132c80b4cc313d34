/**
 * The three record types of the application and the level-carry rule that
 * keeps the score's points below one level's worth.
 */
module Records {
  import opened Wrappers

  /** The `status` column of a text: the application writes only "New" and "Finished". */
  datatype Status = New | Finished

  /** A `TextObject` row: one submitted text and its translation progress. */
  datatype TextObject = TextObject(
    id: int,
    title: string,
    text: string,
    countSentences: int,
    countTranslatedSentences: int,
    status: Status)

  /**
   * A `TextForTranslate` row: one tokenized sentence of a text, its machine
   * translation and the user's translation (a nullable column, None until set).
   */
  datatype TextForTranslate = TextForTranslate(
    id: int,
    idOfText: int,
    sentenceForTranslate: string,
    sentenceTranslated: string,
    sentenceTranslatedByUser: Option<string>)

  /** The single `Results` row: the global score. */
  datatype Results = Results(texts: int, textsFinished: int, points: int, level: int)

  const PointsPerLevel: int := 500
  const NewTextReward: int := 25
  const SentenceReward: int := 1
  const FinishedTextReward: int := 50

  /**
   * Python truthiness of `sentence_translated_by_user`: both None and the
   * empty string count as "no translation".
   */
  predicate HasUserTranslation(s: TextForTranslate)
  {
    s.sentenceTranslatedByUser.Some? && s.sentenceTranslatedByUser.value != ""
  }

  /**
   * The level carry as the handlers write it: a single `if`, not a loop. It
   * moves 500 points into one level when the points have reached 500, keeps
   * the total worth `level * 500 + points`, and brings any points in
   * [0, 1000) back into [0, 500).
   */
  function Carry(r: Results): (c: Results)
    ensures c.texts == r.texts && c.textsFinished == r.textsFinished
    ensures c.level * PointsPerLevel + c.points == r.level * PointsPerLevel + r.points
    ensures c.level == if r.points >= PointsPerLevel then r.level + 1 else r.level
    ensures 0 <= r.points < 2 * PointsPerLevel ==> 0 <= c.points < PointsPerLevel
  {
    if r.points >= PointsPerLevel then
      r.(points := r.points - PointsPerLevel, level := r.level + 1)
    else
      r
  }

  /**
   * The carry run to a fixed point: as many levels as whole multiples of 500
   * the points hold. This is the intended levelling rule.
   */
  function CarryAll(r: Results): (c: Results)
    decreases if r.points < 0 then 0 else r.points
    ensures c.texts == r.texts && c.textsFinished == r.textsFinished
    ensures c.level * PointsPerLevel + c.points == r.level * PointsPerLevel + r.points
    ensures r.points >= 0 ==> 0 <= c.points < PointsPerLevel && c.level == r.level + r.points / PointsPerLevel
  {
    if r.points >= PointsPerLevel then
      CarryAll(r.(points := r.points - PointsPerLevel, level := r.level + 1))
    else
      r
  }

  /**
   * One carry step reaches the fixed point whenever the points before it are
   * below 1000, which every reward of the application (at most 25 or 51 on
   * top of fewer than 500 points) guarantees.
   */
  lemma {:induction false} SingleCarrySuffices(r: Results)
    requires 0 <= r.points < 2 * PointsPerLevel
    ensures Carry(r) == CarryAll(r)
  {
    if r.points >= PointsPerLevel {
      var s := r.(points := r.points - PointsPerLevel, level := r.level + 1);
      assert CarryAll(s) == s;
    }
  }
}
