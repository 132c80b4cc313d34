/**
 * The read-only handlers: the two lists of the start page, the text view,
 * the next sentence to translate and the list of translated sentences.
 */
module Queries {
  import opened Wrappers
  import opened Records
  import opened Tables

  function TextKey(t: TextObject): int { t.id }
  function SentenceKey(s: TextForTranslate): int { s.id }

  function WithStatus(status: Status): TextObject -> bool
  {
    (t: TextObject) => t.status == status
  }

  function WithTextId(id: int): TextObject -> bool
  {
    (t: TextObject) => t.id == id
  }

  function WithoutTextId(id: int): TextObject -> bool
  {
    (t: TextObject) => t.id != id
  }

  function WithSentenceId(id: int): TextForTranslate -> bool
  {
    (s: TextForTranslate) => s.id == id
  }

  /** `filter_by(id_of_text=textId)` on the sentence table. */
  function OfText(textId: int): TextForTranslate -> bool
  {
    (s: TextForTranslate) => s.idOfText == textId
  }

  /** `id_of_text` differs: the sentences that survive removing the text. */
  function NotOfText(textId: int): TextForTranslate -> bool
  {
    (s: TextForTranslate) => s.idOfText != textId
  }

  /** A sentence of the text that the user has not (truthily) translated. */
  function PendingOf(textId: int): TextForTranslate -> bool
  {
    (s: TextForTranslate) => s.idOfText == textId && !HasUserTranslation(s)
  }

  /** A sentence of the text that carries a non-empty user translation. */
  function DoneOf(textId: int): TextForTranslate -> bool
  {
    (s: TextForTranslate) => s.idOfText == textId && HasUserTranslation(s)
  }

  /** All sentences of one text, in table order. */
  function SentencesOf(rows: seq<TextForTranslate>, textId: int): seq<TextForTranslate>
  {
    Filter(rows, OfText(textId))
  }

  /**
   * One list of the start page: the texts with the given status, newest
   * (largest id) first. Over a table in ascending id order the result is in
   * strictly descending id order and holds exactly the texts with that status.
   */
  function MainListing(rows: seq<TextObject>, status: Status): (r: seq<TextObject>)
    ensures forall t :: t in r <==> t in rows && t.status == status
    ensures StrictlyIncreasing(rows, TextKey) ==>
              forall i, j :: 0 <= i < j < |r| ==> r[i].id > r[j].id
  {
    var f := Filter(rows, WithStatus(status));
    FilterMembers(rows, WithStatus(status));
    FilterKeepsIncreasing(rows, WithStatus(status), TextKey);
    Reverse(f)
  }

  /** `TextObject.query.filter_by(id=id).first()`: the text with that id, or None. */
  function TextById(rows: seq<TextObject>, id: int): (r: Option<TextObject>)
    ensures r.Some? ==> r.value in rows && r.value.id == id
    ensures r.None? <==> forall i :: 0 <= i < |rows| ==> rows[i].id != id
  {
    match FindFirst(rows, WithTextId(id))
    case None => None
    case Some(i) => Some(rows[i])
  }

  /** `TextForTranslate.query.filter_by(id=id).first()`: the sentence with that id, or None. */
  function SentenceById(rows: seq<TextForTranslate>, id: int): (r: Option<TextForTranslate>)
    ensures r.Some? ==> r.value in rows && r.value.id == id
    ensures r.None? <==> forall i :: 0 <= i < |rows| ==> rows[i].id != id
  {
    match FindFirst(rows, WithSentenceId(id))
    case None => None
    case Some(i) => Some(rows[i])
  }

  /**
   * The sentence the translate page shows next: the first sentence of the
   * text, in table order, whose user translation is None or empty; None when
   * there is no such sentence (the `IndexError` the handler catches).
   */
  function NextUntranslated(rows: seq<TextForTranslate>, textId: int): (r: Option<TextForTranslate>)
    ensures r.None? <==>
              forall i :: 0 <= i < |rows| && rows[i].idOfText == textId ==> HasUserTranslation(rows[i])
    ensures r.Some? ==>
              exists i :: 0 <= i < |rows| && rows[i] == r.value &&
                rows[i].idOfText == textId && !HasUserTranslation(rows[i]) &&
                forall k :: 0 <= k < i && rows[k].idOfText == textId ==> HasUserTranslation(rows[k])
  {
    var pending := Filter(rows, PendingOf(textId));
    FilterHeadIsFindFirst(rows, PendingOf(textId));
    if pending == [] then None else Some(pending[0])
  }

  /**
   * The read page: exactly the sentences of the text that carry a non-empty
   * user translation, in table order.
   */
  function ReadTranslated(rows: seq<TextForTranslate>, textId: int): (r: seq<TextForTranslate>)
    ensures forall s :: s in r <==> s in rows && s.idOfText == textId && HasUserTranslation(s)
    ensures StrictlyIncreasing(rows, SentenceKey) ==> StrictlyIncreasing(r, SentenceKey)
  {
    FilterMembers(rows, DoneOf(textId));
    FilterKeepsIncreasing(rows, DoneOf(textId), SentenceKey);
    Filter(rows, DoneOf(textId))
  }

  /**
   * Every sentence of a text is either on the read page or still pending for
   * the translate page, never both.
   */
  lemma {:induction false} ReadAndPendingPartition(rows: seq<TextForTranslate>, textId: int)
    ensures |ReadTranslated(rows, textId)| + |Filter(rows, PendingOf(textId))| ==
            |SentencesOf(rows, textId)|
  {
    if rows != [] {
      ReadAndPendingPartition(rows[1..], textId);
    }
  }

  /**
   * The translate page has nothing left to show exactly when the read page
   * lists every sentence of the text.
   */
  lemma NothingPendingIffAllRead(rows: seq<TextForTranslate>, textId: int)
    ensures NextUntranslated(rows, textId).None? <==>
            |ReadTranslated(rows, textId)| == |SentencesOf(rows, textId)|
  {
    ReadAndPendingPartition(rows, textId);
  }
}
