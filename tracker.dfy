/**
 * The progress tracker: the three tables as one object whose methods are the
 * handlers that change them (create a text, submit a user translation,
 * remove a text).
 */
module Tracker {
  import opened Wrappers
  import opened PyStrings
  import opened Records
  import opened Tables
  import opened Queries

  /**
   * The id SQLite gives a new text: the largest id in the table plus one, or
   * 1 in an empty table. In a table kept in ascending id order the largest id
   * is the last one, and the new id is above every id in the table.
   */
  function NextTextId(rows: seq<TextObject>): (id: int)
    ensures StrictlyIncreasing(rows, TextKey) ==> forall i :: 0 <= i < |rows| ==> rows[i].id < id
  {
    if rows == [] then 1 else rows[|rows| - 1].id + 1
  }

  /** The id SQLite gives a new sentence row, as for NextTextId. */
  function NextSentenceId(rows: seq<TextForTranslate>): (id: int)
    ensures StrictlyIncreasing(rows, SentenceKey) ==> forall i :: 0 <= i < |rows| ==> rows[i].id < id
  {
    if rows == [] then 1 else rows[|rows| - 1].id + 1
  }

  /**
   * The sentence rows the create handler inserts for a text: one per
   * (sentence, machine translation) pair, in order, with consecutive ids from
   * `firstId`, linked to the text and without a user translation.
   */
  function NewRows(textId: int, pairs: seq<(string, string)>, firstId: int): (r: seq<TextForTranslate>)
    ensures |r| == |pairs|
    ensures forall k :: 0 <= k < |r| ==>
              r[k] == TextForTranslate(firstId + k, textId, pairs[k].0, pairs[k].1, None)
  {
    if pairs == [] then []
    else [TextForTranslate(firstId, textId, pairs[0].0, pairs[0].1, None)] + NewRows(textId, pairs[1..], firstId + 1)
  }

  /** Rows that agree with NewRows position by position are NewRows. */
  lemma RowsAreNewRows(rows: seq<TextForTranslate>, textId: int, pairs: seq<(string, string)>, firstId: int)
    requires |rows| == |pairs|
    requires forall m :: 0 <= m < |rows| ==>
               rows[m] == TextForTranslate(firstId + m, textId, pairs[m].0, pairs[m].1, None)
    ensures rows == NewRows(textId, pairs, firstId)
  {
  }

  /** A submission for a sentence of `t` makes the counts meet. */
  predicate Finishes(t: TextObject)
  {
    t.countSentences == t.countTranslatedSentences + 1
  }

  /**
   * The text after one accepted submission for one of its sentences: one
   * more translated sentence, and status Finished when the counts now meet.
   */
  function AfterTranslation(t: TextObject): (r: TextObject)
    ensures r.id == t.id && r.countSentences == t.countSentences
    ensures r.countTranslatedSentences == t.countTranslatedSentences + 1
    ensures r.status == if Finishes(t) then Finished else t.status
  {
    var t1 := t.(countTranslatedSentences := t.countTranslatedSentences + 1);
    if t1.countSentences == t1.countTranslatedSentences then t1.(status := Finished) else t1
  }

  /**
   * The score after creating a text: one text more and 25 points, then one
   * carry. Points stay in [0, 500), the total worth grows by exactly 25, and
   * the level rises by one exactly when the points reached 500.
   */
  function ScoreAfterCreate(r: Results): (c: Results)
    ensures c.texts == r.texts + 1 && c.textsFinished == r.textsFinished
    ensures c.level * PointsPerLevel + c.points == r.level * PointsPerLevel + r.points + NewTextReward
    ensures 0 <= r.points < PointsPerLevel ==> 0 <= c.points < PointsPerLevel
    ensures c.level == if r.points + NewTextReward >= PointsPerLevel then r.level + 1 else r.level
  {
    Carry(r.(texts := r.texts + 1, points := r.points + NewTextReward))
  }

  /**
   * The score after one accepted submission for a sentence of `t`: one point,
   * and when the text finishes one finished text more and 50 points, then one
   * carry. Points stay in [0, 500), the worth grows by exactly the reward, and
   * the level rises by one exactly when the points reached 500.
   */
  function ScoreAfterTranslation(r: Results, t: TextObject): (c: Results)
    ensures c.texts == r.texts
    ensures c.textsFinished == r.textsFinished + (if Finishes(t) then 1 else 0)
    ensures c.level * PointsPerLevel + c.points ==
            r.level * PointsPerLevel + r.points + SentenceReward + (if Finishes(t) then FinishedTextReward else 0)
    ensures 0 <= r.points < PointsPerLevel ==> 0 <= c.points < PointsPerLevel
    ensures c.level == if r.points + SentenceReward + (if Finishes(t) then FinishedTextReward else 0) >= PointsPerLevel
                       then r.level + 1 else r.level
  {
    var r1 := r.(points := r.points + SentenceReward);
    var r2 := if Finishes(t) then
                r1.(textsFinished := r1.textsFinished + 1, points := r1.points + FinishedTextReward)
              else r1;
    Carry(r2)
  }

  /**
   * What one text says about its sentences: its sentence count is the number
   * of its rows, and it is Finished exactly when it has sentences and at
   * least that many submissions were counted.
   */
  ghost predicate TextConsistent(t: TextObject, rows: seq<TextForTranslate>)
  {
    t.countSentences == |SentencesOf(rows, t.id)| &&
    t.countTranslatedSentences >= 0 &&
    (t.status == Finished <==> t.countSentences > 0 && t.countTranslatedSentences >= t.countSentences)
  }

  /** Some text has this id. */
  ghost predicate HasText(texts: seq<TextObject>, id: int)
  {
    exists m :: 0 <= m < |texts| && texts[m].id == id
  }

  /** Ids ascend in both tables, every sentence belongs to a text, every text is consistent. */
  ghost predicate TablesConsistent(texts: seq<TextObject>, rows: seq<TextForTranslate>)
  {
    StrictlyIncreasing(texts, TextKey) &&
    StrictlyIncreasing(rows, SentenceKey) &&
    (forall i :: 0 <= i < |rows| ==> HasText(texts, rows[i].idOfText)) &&
    (forall m :: 0 <= m < |texts| ==> TextConsistent(texts[m], rows))
  }

  /**
   * The score counts the texts and the finished texts, keeps points in
   * [0, 500), and `level * 500 + points` is every point ever awarded.
   */
  ghost predicate ScoreConsistent(texts: seq<TextObject>, results: Results, earned: int)
  {
    results.texts == |texts| &&
    results.textsFinished == |Filter(texts, WithStatus(Finished))| &&
    0 <= results.points < PointsPerLevel && 0 <= results.level &&
    results.level * PointsPerLevel + results.points == earned
  }

  /** Both invariants of the database. */
  ghost predicate Consistent(texts: seq<TextObject>, rows: seq<TextForTranslate>, results: Results, earned: int)
  {
    TablesConsistent(texts, rows) && ScoreConsistent(texts, results, earned)
  }

  /** The number of sentences of a text that carry a non-empty user translation. */
  function TranslatedCount(rows: seq<TextForTranslate>, textId: int): nat
  {
    |Filter(rows, DoneOf(textId))|
  }

  /**
   * Every text's translated count is the number of its sentences that carry a
   * non-empty user translation. The handlers as written do not keep this.
   */
  ghost predicate CountsExact(texts: seq<TextObject>, rows: seq<TextForTranslate>)
  {
    forall m :: 0 <= m < |texts| ==> texts[m].countTranslatedSentences == TranslatedCount(rows, texts[m].id)
  }

  /** A sentence's parent text is found by id. */
  lemma ParentFound(texts: seq<TextObject>, rows: seq<TextForTranslate>, j: nat)
    requires TablesConsistent(texts, rows) && j < |rows|
    ensures FindFirst(texts, WithTextId(rows[j].idOfText)).Some?
  {
    assert HasText(texts, rows[j].idOfText);
    var m :| 0 <= m < |texts| && texts[m].id == rows[j].idOfText;
    assert WithTextId(rows[j].idOfText)(texts[m]);
  }

  lemma AppendTextKeepsIncreasing(texts: seq<TextObject>, t: TextObject)
    requires StrictlyIncreasing(texts, TextKey) && t.id == NextTextId(texts)
    ensures StrictlyIncreasing(texts + [t], TextKey)
  {
  }

  lemma AppendRowsKeepsIncreasing(rows: seq<TextForTranslate>, id: int, pairs: seq<(string, string)>)
    requires StrictlyIncreasing(rows, SentenceKey)
    ensures StrictlyIncreasing(rows + NewRows(id, pairs, NextSentenceId(rows)), SentenceKey)
  {
    var added := NewRows(id, pairs, NextSentenceId(rows));
    var rows' := rows + added;
    forall i, j | 0 <= i < j < |rows'| ensures rows'[i].id < rows'[j].id {
      if j >= |rows| {
        assert rows'[j] == added[j - |rows|];
      }
    }
  }

  /** No sentence row refers to an id above every text id. */
  lemma RowsAvoidFreshTextId(texts: seq<TextObject>, rows: seq<TextForTranslate>)
    requires TablesConsistent(texts, rows)
    ensures forall i :: 0 <= i < |rows| ==> rows[i].idOfText != NextTextId(texts)
  {
    forall i | 0 <= i < |rows| ensures rows[i].idOfText != NextTextId(texts) {
      var m :| 0 <= m < |texts| && texts[m].id == rows[i].idOfText;
    }
  }

  lemma CreateKeepsLinks(texts: seq<TextObject>, rows: seq<TextForTranslate>, t: TextObject, added: seq<TextForTranslate>)
    requires forall i :: 0 <= i < |rows| ==> HasText(texts, rows[i].idOfText)
    requires forall i :: 0 <= i < |added| ==> added[i].idOfText == t.id
    ensures forall i :: 0 <= i < |rows + added| ==> HasText(texts + [t], (rows + added)[i].idOfText)
  {
    forall i | 0 <= i < |rows + added| ensures HasText(texts + [t], (rows + added)[i].idOfText) {
      if i < |rows| {
        var m :| 0 <= m < |texts| && texts[m].id == rows[i].idOfText;
        assert (texts + [t])[m] == texts[m];
      } else {
        assert (rows + added)[i] == added[i - |rows|];
        assert (texts + [t])[|texts|] == t;
      }
    }
  }

  lemma CreateKeepsTexts(texts: seq<TextObject>, rows: seq<TextForTranslate>, t: TextObject, added: seq<TextForTranslate>)
    requires forall m :: 0 <= m < |texts| ==> TextConsistent(texts[m], rows) && texts[m].id != t.id
    requires forall i :: 0 <= i < |rows| ==> rows[i].idOfText != t.id
    requires forall i :: 0 <= i < |added| ==> added[i].idOfText == t.id && !HasUserTranslation(added[i])
    requires t.countSentences == |added| && t.countTranslatedSentences == 0 && t.status == New
    ensures forall m :: 0 <= m < |texts + [t]| ==> TextConsistent((texts + [t])[m], rows + added)
    ensures forall m :: 0 <= m < |texts + [t]| ==>
              TranslatedCount(rows + added, (texts + [t])[m].id) == TranslatedCount(rows, (texts + [t])[m].id)
    ensures TranslatedCount(rows, t.id) == 0
  {
    FilterNone(rows, DoneOf(t.id));
    forall m | 0 <= m < |texts + [t]|
      ensures TextConsistent((texts + [t])[m], rows + added)
      ensures TranslatedCount(rows + added, (texts + [t])[m].id) == TranslatedCount(rows, (texts + [t])[m].id)
    {
      var u := (texts + [t])[m];
      FilterAppend(rows, added, OfText(u.id));
      FilterAppend(rows, added, DoneOf(u.id));
      FilterNone(added, DoneOf(u.id));
      if m < |texts| {
        assert u == texts[m];
        FilterNone(added, OfText(u.id));
      } else {
        FilterNone(rows, OfText(t.id));
        FilterAll(added, OfText(t.id));
      }
    }
  }

  lemma CreateKeepsConsistency(texts: seq<TextObject>, rows: seq<TextForTranslate>,
                               texts': seq<TextObject>, rows': seq<TextForTranslate>,
                               title: string, body: string, pairs: seq<(string, string)>)
    requires TablesConsistent(texts, rows)
    requires texts' == texts + [TextObject(NextTextId(texts), title, body, |pairs|, 0, New)]
    requires rows' == rows + NewRows(NextTextId(texts), pairs, NextSentenceId(rows))
    ensures TablesConsistent(texts', rows')
  {
    var id := NextTextId(texts);
    var t := TextObject(id, title, body, |pairs|, 0, New);
    var added := NewRows(id, pairs, NextSentenceId(rows));
    AppendTextKeepsIncreasing(texts, t);
    AppendRowsKeepsIncreasing(rows, id, pairs);
    RowsAvoidFreshTextId(texts, rows);
    CreateKeepsLinks(texts, rows, t, added);
    CreateKeepsTexts(texts, rows, t, added);
  }

  /** Creating a text keeps both invariants, and exact counts stay exact. */
  lemma CreateKeepsInvariants(texts: seq<TextObject>, rows: seq<TextForTranslate>, results: Results, earned: int,
                              title: string, body: string, pairs: seq<(string, string)>)
    requires Consistent(texts, rows, results, earned)
    ensures var texts' := texts + [TextObject(NextTextId(texts), title, body, |pairs|, 0, New)];
            var rows' := rows + NewRows(NextTextId(texts), pairs, NextSentenceId(rows));
            Consistent(texts', rows', ScoreAfterCreate(results), earned + NewTextReward) &&
            (CountsExact(texts, rows) ==> CountsExact(texts', rows'))
  {
    var t := TextObject(NextTextId(texts), title, body, |pairs|, 0, New);
    var added := NewRows(NextTextId(texts), pairs, NextSentenceId(rows));
    CreateKeepsConsistency(texts, rows, texts + [t], rows + added, title, body, pairs);
    FilterAppend(texts, [t], WithStatus(Finished));
    if CountsExact(texts, rows) {
      CreateKeepsExact(texts, rows, title, body, pairs);
    }
  }

  lemma CreateKeepsExact(texts: seq<TextObject>, rows: seq<TextForTranslate>,
                         title: string, body: string, pairs: seq<(string, string)>)
    requires TablesConsistent(texts, rows) && CountsExact(texts, rows)
    ensures CountsExact(texts + [TextObject(NextTextId(texts), title, body, |pairs|, 0, New)],
                        rows + NewRows(NextTextId(texts), pairs, NextSentenceId(rows)))
  {
    var t := TextObject(NextTextId(texts), title, body, |pairs|, 0, New);
    var added := NewRows(NextTextId(texts), pairs, NextSentenceId(rows));
    RowsAvoidFreshTextId(texts, rows);
    CreateKeepsTexts(texts, rows, t, added);
    forall m | 0 <= m < |texts + [t]|
      ensures (texts + [t])[m].countTranslatedSentences == TranslatedCount(rows + added, (texts + [t])[m].id)
    {
      if m < |texts| {
        assert (texts + [t])[m] == texts[m];
      }
    }
  }

  lemma SubmitKeepsConsistency(texts: seq<TextObject>, rows: seq<TextForTranslate>,
                               j: nat, user: string, k: nat)
    requires TablesConsistent(texts, rows)
    requires j < |rows| && k < |texts| && texts[k].id == rows[j].idOfText
    ensures TablesConsistent(texts[k := AfterTranslation(texts[k])],
                             rows[j := rows[j].(sentenceTranslatedByUser := Some(user))])
    ensures Finishes(texts[k]) ==> texts[k].status == New
    ensures |Filter(texts[k := AfterTranslation(texts[k])], WithStatus(Finished))| ==
            |Filter(texts, WithStatus(Finished))| + (if Finishes(texts[k]) then 1 else 0)
  {
    var s' := rows[j].(sentenceTranslatedByUser := Some(user));
    var rows' := rows[j := s'];
    var t := texts[k];
    var t' := AfterTranslation(t);
    var texts' := texts[k := t'];
    assert StrictlyIncreasing(rows', SentenceKey);
    assert StrictlyIncreasing(texts', TextKey);
    FilterMembers(rows, OfText(t.id));
    assert rows[j] in SentencesOf(rows, t.id);
    forall i | 0 <= i < |rows'| ensures HasText(texts', rows'[i].idOfText) {
      var m :| 0 <= m < |texts| && texts[m].id == rows[i].idOfText;
      assert texts'[m].id == texts[m].id;
    }
    forall m | 0 <= m < |texts'| ensures TextConsistent(texts'[m], rows') {
      FilterUpdate(rows, j, s', OfText(texts[m].id));
      assert TextConsistent(texts[m], rows);
    }
    FilterUpdate(texts, k, t', WithStatus(Finished));
  }

  lemma SubmitKeepsScore(texts: seq<TextObject>, results: Results, earned: int, k: nat, texts': seq<TextObject>)
    requires ScoreConsistent(texts, results, earned) && k < |texts| && |texts'| == |texts|
    requires |Filter(texts', WithStatus(Finished))| ==
             |Filter(texts, WithStatus(Finished))| + (if Finishes(texts[k]) then 1 else 0)
    ensures ScoreConsistent(texts', ScoreAfterTranslation(results, texts[k]),
                            earned + SentenceReward + (if Finishes(texts[k]) then FinishedTextReward else 0))
  {
  }

  /** A submission as written keeps both invariants. */
  lemma SubmitKeepsInvariants(texts: seq<TextObject>, rows: seq<TextForTranslate>, results: Results, earned: int,
                              j: nat, user: string, k: nat)
    requires Consistent(texts, rows, results, earned)
    requires j < |rows| && k < |texts| && texts[k].id == rows[j].idOfText
    ensures Finishes(texts[k]) ==> texts[k].status == New
    ensures Consistent(texts[k := AfterTranslation(texts[k])],
                       rows[j := rows[j].(sentenceTranslatedByUser := Some(user))],
                       ScoreAfterTranslation(results, texts[k]),
                       earned + SentenceReward + (if Finishes(texts[k]) then FinishedTextReward else 0))
  {
    SubmitKeepsConsistency(texts, rows, j, user, k);
    SubmitKeepsScore(texts, results, earned, k, texts[k := AfterTranslation(texts[k])]);
  }

  lemma SubmitCheckedKeepsExact(texts: seq<TextObject>, rows: seq<TextForTranslate>,
                                j: nat, user: string, k: nat)
    requires TablesConsistent(texts, rows) && CountsExact(texts, rows)
    requires j < |rows| && k < |texts| && texts[k].id == rows[j].idOfText
    requires user != "" && !HasUserTranslation(rows[j])
    ensures CountsExact(texts[k := AfterTranslation(texts[k])],
                        rows[j := rows[j].(sentenceTranslatedByUser := Some(user))])
  {
    var s' := rows[j].(sentenceTranslatedByUser := Some(user));
    var rows' := rows[j := s'];
    var texts' := texts[k := AfterTranslation(texts[k])];
    forall m | 0 <= m < |texts'|
      ensures texts'[m].countTranslatedSentences == TranslatedCount(rows', texts'[m].id)
    {
      FilterUpdate(rows, j, s', DoneOf(texts[m].id));
      if m != k {
        assert texts[m].id != texts[k].id by {
          assert StrictlyIncreasing(texts, TextKey);
          if m < k { assert TextKey(texts[m]) < TextKey(texts[k]); }
          else { assert TextKey(texts[k]) < TextKey(texts[m]); }
        }
      }
    }
  }

  /** In a table in id order, only the row at `i` has its id. */
  lemma OthersKeepTheirRows(texts: seq<TextObject>, i: nat)
    requires StrictlyIncreasing(texts, TextKey) && i < |texts|
    ensures Filter(texts[..i], WithoutTextId(texts[i].id)) == texts[..i]
    ensures Filter(texts[i + 1..], WithoutTextId(texts[i].id)) == texts[i + 1..]
  {
    var pre, post := texts[..i], texts[i + 1..];
    assert forall m :: 0 <= m < |pre| ==> pre[m] == texts[m];
    FilterAll(pre, WithoutTextId(texts[i].id));
    assert forall m :: 0 <= m < |post| ==> post[m] == texts[i + 1 + m];
    FilterAll(post, WithoutTextId(texts[i].id));
  }

  /** Dropping the row at `i` drops it from the Finished count when it was Finished. */
  lemma DropFinishedCount(texts: seq<TextObject>, i: nat)
    requires i < |texts|
    ensures |Filter(texts[..i] + texts[i + 1..], WithStatus(Finished))| ==
            |Filter(texts, WithStatus(Finished))| - (if texts[i].status == Finished then 1 else 0)
  {
    FilterAround(texts, i, WithStatus(Finished));
    FilterAppend(texts[..i], texts[i + 1..], WithStatus(Finished));
  }

  /** Removing the text at position `i` leaves the rows before and after it. */
  lemma RemoveTextRow(texts: seq<TextObject>, i: nat)
    requires StrictlyIncreasing(texts, TextKey) && i < |texts|
    ensures Filter(texts, WithoutTextId(texts[i].id)) == texts[..i] + texts[i + 1..]
  {
    var without := WithoutTextId(texts[i].id);
    FilterAround(texts, i, without);
    assert !without(texts[i]);
    OthersKeepTheirRows(texts, i);
    calc {
      Filter(texts, without);
      Filter(texts[..i], without) + [] + Filter(texts[i + 1..], without);
      texts[..i] + texts[i + 1..];
    }
  }

  lemma RemoveKeepsLinks(texts: seq<TextObject>, rows: seq<TextForTranslate>, i: nat)
    requires i < |texts|
    requires forall l :: 0 <= l < |rows| ==> HasText(texts, rows[l].idOfText)
    ensures var rows' := Filter(rows, NotOfText(texts[i].id));
            forall l :: 0 <= l < |rows'| ==> HasText(texts[..i] + texts[i + 1..], rows'[l].idOfText)
  {
    var id := texts[i].id;
    var texts' := texts[..i] + texts[i + 1..];
    var rows' := Filter(rows, NotOfText(id));
    FilterMembers(rows, NotOfText(id));
    forall l | 0 <= l < |rows'| ensures HasText(texts', rows'[l].idOfText) {
      assert rows'[l] in rows';
      var l' :| 0 <= l' < |rows| && rows[l'] == rows'[l];
      assert HasText(texts, rows[l'].idOfText);
      var m :| 0 <= m < |texts| && texts[m].id == rows[l'].idOfText;
      assert m != i;
      assert texts'[if m < i then m else m - 1] == texts[m];
    }
  }

  lemma RemoveKeepsTexts(texts: seq<TextObject>, rows: seq<TextForTranslate>, i: nat)
    requires StrictlyIncreasing(texts, TextKey) && i < |texts|
    requires forall m :: 0 <= m < |texts| ==> TextConsistent(texts[m], rows)
    ensures var texts' := texts[..i] + texts[i + 1..];
            var rows' := Filter(rows, NotOfText(texts[i].id));
            forall m :: 0 <= m < |texts'| ==>
              TextConsistent(texts'[m], rows') &&
              TranslatedCount(rows', texts'[m].id) == TranslatedCount(rows, texts'[m].id)
  {
    var id := texts[i].id;
    var texts' := texts[..i] + texts[i + 1..];
    var rows' := Filter(rows, NotOfText(id));
    forall m | 0 <= m < |texts'|
      ensures TextConsistent(texts'[m], rows')
      ensures TranslatedCount(rows', texts'[m].id) == TranslatedCount(rows, texts'[m].id)
    {
      var m' := if m < i then m else m + 1;
      assert texts'[m] == texts[m'];
      assert TextKey(texts[m']) != TextKey(texts[i]);
      FilterFilter(rows, NotOfText(id), OfText(texts[m'].id));
      FilterFilter(rows, NotOfText(id), DoneOf(texts[m'].id));
    }
  }

  lemma RemoveKeepsExact(texts: seq<TextObject>, rows: seq<TextForTranslate>, i: nat, rows': seq<TextForTranslate>)
    requires CountsExact(texts, rows) && i < |texts|
    requires var texts' := texts[..i] + texts[i + 1..];
             forall m :: 0 <= m < |texts'| ==> TranslatedCount(rows', texts'[m].id) == TranslatedCount(rows, texts'[m].id)
    ensures CountsExact(texts[..i] + texts[i + 1..], rows')
  {
    var texts' := texts[..i] + texts[i + 1..];
    forall m | 0 <= m < |texts'|
      ensures texts'[m].countTranslatedSentences == TranslatedCount(rows', texts'[m].id)
    {
      assert texts'[m] == texts[if m < i then m else m + 1];
    }
  }

  lemma RemoveKeepsScore(texts: seq<TextObject>, results: Results, earned: int, i: nat)
    requires ScoreConsistent(texts, results, earned) && i < |texts|
    ensures ScoreConsistent(texts[..i] + texts[i + 1..],
                            results.(texts := results.texts - 1,
                                     textsFinished := results.textsFinished -
                                       (if texts[i].status == Finished then 1 else 0)),
                            earned)
  {
    DropFinishedCount(texts, i);
  }

  /** Removing a text keeps both invariants, and exact counts stay exact. */
  lemma RemoveKeepsInvariants(texts: seq<TextObject>, rows: seq<TextForTranslate>, results: Results, earned: int,
                              i: nat)
    requires Consistent(texts, rows, results, earned) && i < |texts|
    ensures var texts' := texts[..i] + texts[i + 1..];
            var rows' := Filter(rows, NotOfText(texts[i].id));
            Consistent(texts', rows',
                       results.(texts := results.texts - 1,
                                textsFinished := results.textsFinished -
                                  (if texts[i].status == Finished then 1 else 0)),
                       earned) &&
            (CountsExact(texts, rows) ==> CountsExact(texts', rows'))
  {
    RemoveKeepsConsistency(texts, rows, i, texts[..i] + texts[i + 1..], Filter(rows, NotOfText(texts[i].id)));
    RemoveKeepsScore(texts, results, earned, i);
  }

  lemma RemoveKeepsConsistency(texts: seq<TextObject>, rows: seq<TextForTranslate>, i: nat,
                               texts': seq<TextObject>, rows': seq<TextForTranslate>)
    requires TablesConsistent(texts, rows) && i < |texts|
    requires texts' == texts[..i] + texts[i + 1..]
    requires rows' == Filter(rows, NotOfText(texts[i].id))
    ensures TablesConsistent(texts', rows')
    ensures CountsExact(texts, rows) ==> CountsExact(texts', rows')
  {
    assert StrictlyIncreasing(texts', TextKey) by {
      assert forall m :: 0 <= m < |texts'| ==> texts'[m] == texts[if m < i then m else m + 1];
    }
    FilterKeepsIncreasing(rows, NotOfText(texts[i].id), SentenceKey);
    RemoveKeepsLinks(texts, rows, i);
    RemoveKeepsTexts(texts, rows, i);
    if CountsExact(texts, rows) {
      RemoveKeepsExact(texts, rows, i, rows');
    }
  }

  /**
   * The status keeps the intended rule -- Finished exactly when the text
   * has sentences and none is left to translate -- whenever the translated
   * counts are exact.
   */
  lemma FinishedIffAllTranslated(texts: seq<TextObject>, rows: seq<TextForTranslate>, m: nat)
    requires TablesConsistent(texts, rows) && CountsExact(texts, rows) && m < |texts|
    ensures texts[m].status == Finished <==>
              SentencesOf(rows, texts[m].id) != [] && NextUntranslated(rows, texts[m].id).None?
  {
    var id := texts[m].id;
    assert TextConsistent(texts[m], rows);
    ReadAndPendingPartition(rows, id);
    NothingPendingIffAllRead(rows, id);
  }

  /**
   * Right after a text is created, its translate page shows its first
   * sentence (or nothing for a text without sentences) and its read page is
   * empty.
   */
  lemma {:induction false} CreatedTextQueries(texts: seq<TextObject>, rows: seq<TextForTranslate>,
                                              pairs: seq<(string, string)>)
    requires TablesConsistent(texts, rows)
    ensures var id := NextTextId(texts);
            var added := NewRows(id, pairs, NextSentenceId(rows));
            SentencesOf(rows + added, id) == added &&
            NextUntranslated(rows + added, id) == (if pairs == [] then None else Some(added[0])) &&
            ReadTranslated(rows + added, id) == []
  {
    var id := NextTextId(texts);
    var added := NewRows(id, pairs, NextSentenceId(rows));
    RowsAvoidFreshTextId(texts, rows);
    FilterAppend(rows, added, OfText(id));
    FilterNone(rows, OfText(id));
    FilterAll(added, OfText(id));
    FilterAppend(rows, added, PendingOf(id));
    FilterNone(rows, PendingOf(id));
    FilterAll(added, PendingOf(id));
    FilterAppend(rows, added, DoneOf(id));
    FilterNone(rows, DoneOf(id));
    FilterNone(added, DoneOf(id));
  }

  /** Creating a text leaves the sentences of every earlier text as they were. */
  lemma CreateKeepsEarlierSentences(texts: seq<TextObject>, rows: seq<TextForTranslate>,
                                    pairs: seq<(string, string)>)
    requires TablesConsistent(texts, rows)
    ensures var added := NewRows(NextTextId(texts), pairs, NextSentenceId(rows));
            forall m :: 0 <= m < |texts| ==> SentencesOf(rows + added, texts[m].id) == SentencesOf(rows, texts[m].id)
  {
    var added := NewRows(NextTextId(texts), pairs, NextSentenceId(rows));
    forall m | 0 <= m < |texts|
      ensures SentencesOf(rows + added, texts[m].id) == SentencesOf(rows, texts[m].id)
    {
      FilterAppend(rows, added, OfText(texts[m].id));
      FilterNone(added, OfText(texts[m].id));
    }
  }

  /** The three tables of the application's database. */
  class Database {
    var textObjects: seq<TextObject>
    var sentences: seq<TextForTranslate>
    var results: Results
    /** Every point ever awarded, before any carry. */
    ghost var earned: int

    ghost predicate Valid()
      reads this
    {
      Consistent(textObjects, sentences, results, earned)
    }

    /** Whether every text's translated count matches its translated sentences. */
    ghost predicate Exact()
      reads this
    {
      CountsExact(textObjects, sentences)
    }

    /** Empty tables and the score row with every field zero. */
    constructor ()
      ensures Valid() && Exact()
      ensures textObjects == [] && sentences == [] && results == Results(0, 0, 0, 0) && earned == 0
    {
      textObjects := [];
      sentences := [];
      results := Results(0, 0, 0, 0);
      earned := 0;
    }

    /**
     * The POST branch of `new`: insert the text, then one sentence row per
     * (sentence, machine translation) pair, then reward the new text.
     */
    method CreateText(title: string, body: string, pairs: seq<(string, string)>) returns (textId: int)
      requires Valid()
      modifies this
      ensures Valid()
      ensures old(Exact()) ==> Exact()
      ensures textId == NextTextId(old(textObjects))
      ensures textObjects == old(textObjects) + [TextObject(textId, title, body, |pairs|, 0, New)]
      ensures sentences == old(sentences) + NewRows(textId, pairs, NextSentenceId(old(sentences)))
      ensures results == ScoreAfterCreate(old(results))
      ensures earned == old(earned) + NewTextReward
    {
      textId := NextTextId(textObjects);
      CreateKeepsInvariants(textObjects, sentences, results, earned, title, body, pairs);
      AddText(textId, title, body, pairs);
    }

    /**
     * The updates of the create handler, in its order: the text row, the
     * sentence rows, one more text and 25 points, then one carry.
     */
    method AddText(textId: int, title: string, body: string, pairs: seq<(string, string)>)
      modifies this
      ensures textObjects == old(textObjects) + [TextObject(textId, title, body, |pairs|, 0, New)]
      ensures sentences == old(sentences) + NewRows(textId, pairs, NextSentenceId(old(sentences)))
      ensures results == ScoreAfterCreate(old(results))
      ensures earned == old(earned) + NewTextReward
    {
      textObjects := textObjects + [TextObject(textId, title, body, |pairs|, 0, New)];
      InsertSentences(textId, pairs);
      results := results.(texts := results.texts + 1);
      results := results.(points := results.points + NewTextReward);
      results := Carry(results);
      earned := earned + NewTextReward;
    }

    /**
     * The loop of the create handler: one sentence row per pair, each with
     * the next id, in the order of the pairs.
     */
    method InsertSentences(textId: int, pairs: seq<(string, string)>)
      modifies this
      ensures sentences == old(sentences) + NewRows(textId, pairs, NextSentenceId(old(sentences)))
      ensures textObjects == old(textObjects) && results == old(results) && earned == old(earned)
    {
      ghost var firstId := NextSentenceId(sentences);
      ghost var added: seq<TextForTranslate> := [];
      var i := 0;
      while i < |pairs|
        invariant 0 <= i <= |pairs|
        invariant sentences == old(sentences) + added
        invariant |added| == i
        invariant forall m :: 0 <= m < i ==>
                    added[m] == TextForTranslate(firstId + m, textId, pairs[m].0, pairs[m].1, None)
        invariant NextSentenceId(sentences) == firstId + i
        invariant textObjects == old(textObjects) && results == old(results) && earned == old(earned)
      {
        var (source, translated) := pairs[i];
        var row := TextForTranslate(NextSentenceId(sentences), textId, source, translated, None);
        sentences := sentences + [row];
        added := added + [row];
        i := i + 1;
      }
      RowsAreNewRows(added, textId, pairs, firstId);
    }

    /**
     * The POST branch of `translate`, as written: an empty string changes
     * nothing; any other string (even all whitespace) is stored stripped,
     * earns a point and counts towards the parent text, which finishes (and
     * earns 50 more) when the counts meet; then one carry.
     */
    method SubmitTranslation(sentenceId: int, translation: string)
      requires Valid()
      requires translation != "" ==> SentenceById(sentences, sentenceId).Some?
      modifies this
      ensures Valid()
      ensures translation == "" ==> unchanged(this)
      ensures translation != "" ==>
                var j := FindFirst(old(sentences), WithSentenceId(sentenceId)).value;
                var s := old(sentences)[j];
                var k := FindFirst(old(textObjects), WithTextId(s.idOfText)).value;
                var t := old(textObjects)[k];
                sentences == old(sentences)[j := s.(sentenceTranslatedByUser := Some(Strip(translation)))] &&
                textObjects == old(textObjects)[k := AfterTranslation(t)] &&
                (Finishes(t) ==> t.status == New) &&
                results == ScoreAfterTranslation(old(results), t) &&
                earned == old(earned) + SentenceReward + (if Finishes(t) then FinishedTextReward else 0)
    {
      if translation != "" {
        var j := FindFirst(sentences, WithSentenceId(sentenceId)).value;
        ParentFound(textObjects, sentences, j);
        var k := FindFirst(textObjects, WithTextId(sentences[j].idOfText)).value;
        SubmitKeepsInvariants(textObjects, sentences, results, earned, j, Strip(translation), k);
        RecordTranslation(j, k, Strip(translation));
      }
    }

    /**
     * The updates of a non-empty submission, in the handler's order: store
     * the answer, one point, one more translated sentence, and when the
     * counts meet the status, the finished count and 50 points; then one
     * carry.
     */
    method RecordTranslation(j: nat, k: nat, user: string)
      requires j < |sentences| && k < |textObjects|
      modifies this
      ensures sentences == old(sentences)[j := old(sentences)[j].(sentenceTranslatedByUser := Some(user))]
      ensures textObjects == old(textObjects)[k := AfterTranslation(old(textObjects)[k])]
      ensures results == ScoreAfterTranslation(old(results), old(textObjects)[k])
      ensures earned == old(earned) + SentenceReward +
                        (if Finishes(old(textObjects)[k]) then FinishedTextReward else 0)
    {
      sentences := sentences[j := sentences[j].(sentenceTranslatedByUser := Some(user))];
      results := results.(points := results.points + SentenceReward);
      var t := textObjects[k].(countTranslatedSentences := textObjects[k].countTranslatedSentences + 1);
      if t.countSentences == t.countTranslatedSentences {
        t := t.(status := Finished);
        results := results.(textsFinished := results.textsFinished + 1,
                            points := results.points + FinishedTextReward);
      }
      textObjects := textObjects[k := t];
      results := Carry(results);
      earned := earned + SentenceReward + (if Finishes(old(textObjects)[k]) then FinishedTextReward else 0);
    }

    /**
     * The submit handler with the checks it evidently intends: the emptiness
     * test is made on the stripped string, and a sentence that already
     * carries a translation is left alone. Every other submission goes
     * through SubmitTranslation unchanged. This keeps the translated counts
     * exact, so that FinishedIffAllTranslated holds.
     */
    method SubmitTranslationChecked(sentenceId: int, translation: string)
      requires Valid() && Exact()
      requires Strip(translation) != "" ==> SentenceById(sentences, sentenceId).Some?
      modifies this
      ensures Valid() && Exact()
      ensures Strip(translation) == "" ==> unchanged(this)
      ensures Strip(translation) != "" ==>
                var j := FindFirst(old(sentences), WithSentenceId(sentenceId)).value;
                var s := old(sentences)[j];
                var k := FindFirst(old(textObjects), WithTextId(s.idOfText)).value;
                var t := old(textObjects)[k];
                if HasUserTranslation(s) then
                  unchanged(this)
                else
                  sentences == old(sentences)[j := s.(sentenceTranslatedByUser := Some(Strip(translation)))] &&
                  textObjects == old(textObjects)[k := AfterTranslation(t)] &&
                  results == ScoreAfterTranslation(old(results), t) &&
                  earned == old(earned) + SentenceReward + (if Finishes(t) then FinishedTextReward else 0)
    {
      if Strip(translation) != "" {
        var j := FindFirst(sentences, WithSentenceId(sentenceId)).value;
        if !HasUserTranslation(sentences[j]) {
          ParentFound(textObjects, sentences, j);
          ghost var k := FindFirst(textObjects, WithTextId(sentences[j].idOfText)).value;
          SubmitCheckedKeepsExact(textObjects, sentences, j, Strip(translation), k);
          SubmitTranslation(sentenceId, translation);
        }
      }
    }

    /**
     * `remove`: one text fewer, one finished text fewer when it was Finished,
     * and the text and all its sentences deleted; points and level stay.
     */
    method RemoveText(textId: int)
      requires Valid()
      requires TextById(textObjects, textId).Some?
      modifies this
      ensures Valid()
      ensures old(Exact()) ==> Exact()
      ensures textObjects == Filter(old(textObjects), WithoutTextId(textId))
      ensures sentences == Filter(old(sentences), NotOfText(textId))
      ensures results.texts == old(results).texts - 1
      ensures results.textsFinished == old(results).textsFinished -
                (if TextById(old(textObjects), textId).value.status == Finished then 1 else 0)
      ensures results.points == old(results).points && results.level == old(results).level
      ensures earned == old(earned)
    {
      ghost var i := FindFirst(textObjects, WithTextId(textId)).value;
      var text := TextById(textObjects, textId).value;
      assert text == textObjects[i];
      RemoveTextRow(textObjects, i);
      RemoveKeepsInvariants(textObjects, sentences, results, earned, i);
      DeleteText(textId, text.status == Finished);
    }

    /**
     * The updates of the remove handler, in its order: one text fewer, one
     * finished text fewer when it was Finished, then the text row and its
     * sentence rows deleted.
     */
    method DeleteText(textId: int, finished: bool)
      modifies this
      ensures results == old(results).(texts := old(results).texts - 1,
                                       textsFinished := old(results).textsFinished - (if finished then 1 else 0))
      ensures textObjects == Filter(old(textObjects), WithoutTextId(textId))
      ensures sentences == Filter(old(sentences), NotOfText(textId))
      ensures earned == old(earned)
    {
      results := results.(texts := results.texts - 1);
      if finished {
        results := results.(textsFinished := results.textsFinished - 1);
      }
      textObjects := Filter(textObjects, WithoutTextId(textId));
      sentences := Filter(sentences, NotOfText(textId));
    }
  }
}
