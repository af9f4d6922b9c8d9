/** The testimonial list: the cap of `limitTestimonials` and the review-form
    submit handler (scripts.js, lines 167-170 and 208-249). */
module Testimonials {
  import Text

  /** One testimonial card. `rating` is the text the card carries in its
      `data-rating` attribute. */
  datatype Card = Card(name: string, rating: string, comment: string)

  /** The default cap of `limitTestimonials`. */
  const MAX_TESTIMONIALS: nat := 6

  /** The list `limitTestimonials(max)` leaves behind: the first `max` cards in
      their original order, or the whole list when it is no longer than `max`. */
  function Limited(cards: seq<Card>, max: nat): (r: seq<Card>)
    ensures |r| == if |cards| <= max then |cards| else max
    ensures r == cards[..|r|]
  {
    if |cards| <= max then cards else cards[..max]
  }

  /** `if (!name || !comment) return;` on the trimmed fields, negated: the
      submission goes ahead only when both are non-empty after trimming. */
  predicate Acceptable(nameField: string, commentField: string)
    ensures Acceptable(nameField, commentField) <==>
      (exists k :: 0 <= k < |nameField| && !Text.IsJsWhitespace(nameField[k])) &&
      (exists k :: 0 <= k < |commentField| && !Text.IsJsWhitespace(commentField[k]))
  {
    Text.TrimEmptyIff(nameField);
    Text.TrimEmptyIff(commentField);
    Text.Trim(nameField) != "" && Text.Trim(commentField) != ""
  }

  /** The list after one submission of the review form. */
  function Submitted(cards: seq<Card>, nameField: string, rating: string, commentField: string): (r: seq<Card>)
    ensures !Acceptable(nameField, commentField) ==> r == cards
    ensures Acceptable(nameField, commentField) ==>
      && |r| == (if |cards| + 1 <= MAX_TESTIMONIALS then |cards| + 1 else MAX_TESTIMONIALS)
      && r[0] == Card(Text.Trim(nameField), rating, Text.Trim(commentField))
      && r[1..] == cards[..|r| - 1]
  {
    if !Acceptable(nameField, commentField) then cards
    else
      var card := Card(Text.Trim(nameField), rating, Text.Trim(commentField));
      LimitedAfterPrepend(card, cards);
      Limited([card] + cards, MAX_TESTIMONIALS)
  }

  /** Capping a list with one card put in front keeps that card first and
      the old cards after it, in order. */
  lemma {:induction false} LimitedAfterPrepend(card: Card, cards: seq<Card>)
    ensures var r := Limited([card] + cards, MAX_TESTIMONIALS);
      && |r| == (if |cards| + 1 <= MAX_TESTIMONIALS then |cards| + 1 else MAX_TESTIMONIALS)
      && r[0] == card && r[1..] == cards[..|r| - 1]
  {
    var added := [card] + cards;
    var r := Limited(added, MAX_TESTIMONIALS);
    assert r[1..] == added[1..|r|] && added[1..] == cards;
  }

  /** A submission is rejected exactly when the name or the comment is
      whitespace only (or empty). */
  lemma RejectedIffBlank(nameField: string, commentField: string)
    ensures !Acceptable(nameField, commentField) <==>
      (forall k :: 0 <= k < |nameField| ==> Text.IsJsWhitespace(nameField[k])) ||
      (forall k :: 0 <= k < |commentField| ==> Text.IsJsWhitespace(commentField[k]))
  {
    Text.TrimEmptyIff(nameField);
    Text.TrimEmptyIff(commentField);
  }

  /** A valid submission to a full list keeps it at the cap: the new card comes
      first and the previously last card is gone. */
  lemma SubmitAtCapacity(cards: seq<Card>, nameField: string, rating: string, commentField: string)
    requires |cards| == MAX_TESTIMONIALS
    requires Acceptable(nameField, commentField)
    ensures var r := Submitted(cards, nameField, rating, commentField);
      |r| == MAX_TESTIMONIALS && r[0] == Card(Text.Trim(nameField), rating, Text.Trim(commentField)) &&
      r[1..] == cards[..MAX_TESTIMONIALS - 1]
  {
  }

  /** Submissions never take a list that respects the cap beyond it. */
  lemma SubmitKeepsCap(cards: seq<Card>, nameField: string, rating: string, commentField: string)
    requires |cards| <= MAX_TESTIMONIALS
    ensures |Submitted(cards, nameField, rating, commentField)| <= MAX_TESTIMONIALS
  {
  }

  /** The testimonial grid, whose children are the cards in display order. */
  class Grid {
    var cards: seq<Card>

    constructor (cards: seq<Card>)
      ensures this.cards == cards
    {
      this.cards := cards;
    }

    /** `limitTestimonials(max)`: removes the last child while there are more
        than `max`. */
    method LimitTestimonials(max: nat)
      modifies this
      ensures cards == Limited(old(cards), max)
    {
      while |cards| > max
        invariant |cards| <= |old(cards)| && cards == old(cards)[..|cards|]
        invariant |cards| >= (if |old(cards)| <= max then |old(cards)| else max)
        decreases |cards|
      {
        cards := cards[..|cards| - 1];
      }
    }

    /** The review-form submit handler: trim the fields, give up when either is
        empty, otherwise put the new card first and cap the list. */
    method Submit(nameField: string, rating: string, commentField: string) returns (accepted: bool)
      modifies this
      ensures accepted == Acceptable(nameField, commentField)
      ensures cards == Submitted(old(cards), nameField, rating, commentField)
    {
      var name := Text.Trim(nameField);
      var comment := Text.Trim(commentField);
      if name == "" || comment == "" {
        return false;
      }
      cards := [Card(name, rating, comment)] + cards;
      LimitTestimonials(MAX_TESTIMONIALS);
      accepted := true;
    }
  }
}
