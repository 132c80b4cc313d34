/**
 * Two concrete runs of the application, each on a fresh database, that show
 * the submit handler as written letting a text become Finished while its
 * translate page still has a sentence to show; and the same runs through the
 * checked handler, where the text stays New.
 */
module Findings {
  import opened Wrappers
  import opened PyStrings
  import opened Records
  import opened Tables
  import opened Queries
  import opened Tracker

  /** The one-pair body used by the blank-submission runs. */
  const OnePair: seq<(string, string)> := [("Hello.", "Hola.")]

  /** The two-pair body used by the resubmission runs. */
  const TwoPairs: seq<(string, string)> := [("Hello.", "Hola."), ("Bye.", "Adios.")]

  lemma BlankStripsToEmpty()
    ensures Strip(" ") == ""
  {
    assert AllSpace(" ") by { assert IsSpace(' '); }
  }

  lemma WordStripsToNonEmpty()
    ensures Strip("Hi") != ""
  {
    assert !IsSpace("Hi"[0]);
  }

  lemma SentenceAtHead(rows: seq<TextForTranslate>, id: int)
    requires rows != [] && rows[0].id == id
    ensures FindFirst(rows, WithSentenceId(id)) == Some(0)
  {
  }

  lemma TextAtHead(texts: seq<TextObject>, id: int)
    requires texts != [] && texts[0].id == id
    ensures FindFirst(texts, WithTextId(id)) == Some(0)
  {
  }

  lemma SecondPending(rows: seq<TextForTranslate>)
    requires |rows| == 2 && rows[0].idOfText == 1 && HasUserTranslation(rows[0])
    requires rows[1].idOfText == 1 && !HasUserTranslation(rows[1])
    ensures NextUntranslated(rows, 1) == Some(rows[1])
  {
    assert rows[1..] == [rows[1]];
  }

  /** A new database with one text of `pairs`, whose id is 1. */
  method Setup(pairs: seq<(string, string)>) returns (db: Database, textId: int)
    ensures fresh(db) && db.Valid() && db.Exact()
    ensures textId == 1
    ensures db.textObjects == [TextObject(1, "t", "b", |pairs|, 0, New)]
    ensures db.sentences == NewRows(1, pairs, 1)
  {
    db := new Database();
    textId := db.CreateText("t", "b", pairs);
    assert db.sentences == [] + NewRows(1, pairs, 1);
  }

  /** The two sentence rows of a text made from TwoPairs. */
  method SetupTwo() returns (db: Database)
    ensures fresh(db) && db.Valid() && db.Exact()
    ensures db.textObjects == [TextObject(1, "t", "b", 2, 0, New)]
    ensures db.sentences == [TextForTranslate(1, 1, "Hello.", "Hola.", None),
                             TextForTranslate(2, 1, "Bye.", "Adios.", None)]
  {
    var textId;
    db, textId := Setup(TwoPairs);
  }

  /**
   * A one-sentence text; the user submits a blank answer. As written the
   * blank passes the emptiness test before it is stripped, so the stored
   * translation is empty, the text is Finished and the translate page still
   * offers the same sentence.
   */
  method BlankSubmissionFinishesEarly() returns (status: Status, pending: Option<TextForTranslate>)
    ensures status == Finished
    ensures pending.Some? && pending.value.id == 1 && !HasUserTranslation(pending.value)
  {
    var db, textId := Setup(OnePair);
    BlankStripsToEmpty();
    db.SubmitTranslation(1, " ");
    assert db.sentences[0].sentenceTranslatedByUser == Some("");
    status := db.textObjects[0].status;
    pending := NextUntranslated(db.sentences, textId);
    assert pending.value == db.sentences[0];
  }

  /** The same run through the checked handler: nothing is recorded. */
  method BlankSubmissionIgnored() returns (status: Status, pending: Option<TextForTranslate>)
    ensures status == New
    ensures pending.Some? && pending.value.id == 1
  {
    var db, textId := Setup(OnePair);
    BlankStripsToEmpty();
    db.SubmitTranslationChecked(1, " ");
    status := db.textObjects[0].status;
    pending := NextUntranslated(db.sentences, textId);
    assert pending.value == db.sentences[0];
  }

  /**
   * A two-sentence text; the user submits the first sentence twice (a
   * resubmitted form). As written each submission counts, so the text is
   * Finished after two submissions while its second sentence was never
   * translated.
   */
  method ResubmissionFinishesEarly() returns (status: Status, pending: Option<TextForTranslate>)
    ensures status == Finished
    ensures pending.Some? && pending.value.id == 2 && !HasUserTranslation(pending.value)
  {
    var db := SetupTwo();
    AnswerFirstSentence(db, None, 0);
    AnswerFirstSentence(db, Some(Strip("Hi")), 1);
    WordStripsToNonEmpty();
    SecondPending(db.sentences);
    status := db.textObjects[0].status;
    pending := NextUntranslated(db.sentences, 1);
  }

  /**
   * "Hi" for sentence 1 of the two-sentence text through the handler as
   * written, whether or not sentence 1 already has an answer: the answer is
   * stored and the translated count rises from `done`.
   */
  method AnswerFirstSentence(db: Database, first: Option<string>, done: int)
    requires db.Valid() && 0 <= done <= 1
    requires db.textObjects == [TextObject(1, "t", "b", 2, done, New)]
    requires db.sentences == [TextForTranslate(1, 1, "Hello.", "Hola.", first),
                              TextForTranslate(2, 1, "Bye.", "Adios.", None)]
    modifies db
    ensures db.Valid()
    ensures db.textObjects == [TextObject(1, "t", "b", 2, done + 1, if done == 1 then Finished else New)]
    ensures db.sentences == [TextForTranslate(1, 1, "Hello.", "Hola.", Some(Strip("Hi"))),
                             TextForTranslate(2, 1, "Bye.", "Adios.", None)]
  {
    WordStripsToNonEmpty();
    SentenceAtHead(db.sentences, 1);
    TextAtHead(db.textObjects, 1);
    db.SubmitTranslation(1, "Hi");
  }

  /**
   * The same run through the checked handler: the second submission is
   * ignored, the text stays New and the second sentence is still shown.
   */
  method ResubmissionIgnored() returns (status: Status, pending: Option<TextForTranslate>)
    ensures status == New
    ensures pending.Some? && pending.value.id == 2
  {
    var db := SetupTwo();
    WordStripsToNonEmpty();
    SentenceAtHead(db.sentences, 1);
    TextAtHead(db.textObjects, 1);
    db.SubmitTranslationChecked(1, "Hi");
    assert db.textObjects == [TextObject(1, "t", "b", 2, 1, New)];
    SentenceAtHead(db.sentences, 1);
    assert HasUserTranslation(db.sentences[0]);
    db.SubmitTranslationChecked(1, "Hi");
    assert HasUserTranslation(db.sentences[0]) && !HasUserTranslation(db.sentences[1]);
    SecondPending(db.sentences);
    status := db.textObjects[0].status;
    pending := NextUntranslated(db.sentences, 1);
  }
}
