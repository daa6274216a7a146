/**
 * `nj/card.py`, `card_by_id`: the card of a board picked by the last three
 * characters of its identifier, as the command line names cards.
 */
module CardLookup {
  import opened Wrappers
  import opened Trello
  import opened Filtering

  /** `id[-3:]`: the last three characters, or the whole identifier when it is shorter. */
  function IdSuffix(id: string): (r: string)
    ensures |r| == if |id| < 3 then |id| else 3
    ensures r == id[|id| - |r|..]
  {
    if |id| < 3 then id else id[|id| - 3..]
  }

  predicate MatchesAt(postfix: string, cards: seq<Card>, i: int)
    requires 0 <= i < |cards|
  {
    IdSuffix(cards[i].id) == postfix
  }

  /** The comprehension's condition: `_.id[-3:] == card_id_postfix`. */
  function HasPostfix(postfix: string): Card -> bool {
    (c: Card) => IdSuffix(c.id) == postfix
  }

  /** `card_by_id`: the only card with the postfix; `None` when there is none or more than one. */
  function CardById(postfix: string, cards: seq<Card>): (r: Option<Card>)
    ensures r.Some? ==> r.value in cards && IdSuffix(r.value.id) == postfix
  {
    var found := Filter(HasPostfix(postfix), cards);
    if |found| == 0 then None
    else if |found| > 1 then None
    else Some(found[0])
  }

  /** Card `i` is the one card of the board whose identifier ends with the postfix. */
  predicate OnlyMatch(postfix: string, cards: seq<Card>, i: int) {
    && 0 <= i < |cards| && MatchesAt(postfix, cards, i)
    && forall j :: 0 <= j < |cards| && MatchesAt(postfix, cards, j) ==> j == i
  }

  /** When exactly one card matches, `card_by_id` returns it. */
  lemma OnlyMatchFound(postfix: string, cards: seq<Card>, i: int)
    requires OnlyMatch(postfix, cards, i)
    ensures CardById(postfix, cards) == Some(cards[i])
  {
    forall j | 0 <= j < |cards| && HasPostfix(postfix)(cards[j]) ensures j == i {
      assert MatchesAt(postfix, cards, j);
    }
    FilterSingle(HasPostfix(postfix), cards, i);
  }

  /** A card `card_by_id` returns is the only card that matches. */
  lemma FoundIsOnlyMatch(postfix: string, cards: seq<Card>) returns (i: int)
    requires CardById(postfix, cards).Some?
    ensures OnlyMatch(postfix, cards, i) && CardById(postfix, cards) == Some(cards[i])
  {
    i := SingleFilter(HasPostfix(postfix), cards);
    forall j | 0 <= j < |cards| && MatchesAt(postfix, cards, j) ensures j == i {
      assert HasPostfix(postfix)(cards[j]);
    }
  }

  /**
   * A card is returned exactly when one card matches, and it is that card; no
   * match and several matches both give `None`.
   */
  lemma CardByIdSpec(postfix: string, cards: seq<Card>)
    ensures CardById(postfix, cards).Some? <==> exists i :: OnlyMatch(postfix, cards, i)
    ensures forall i :: OnlyMatch(postfix, cards, i) ==> CardById(postfix, cards) == Some(cards[i])
    ensures CardById(postfix, cards).Some? ==>
      CardById(postfix, cards).value in cards && IdSuffix(CardById(postfix, cards).value.id) == postfix
  {
    forall i | OnlyMatch(postfix, cards, i) ensures CardById(postfix, cards) == Some(cards[i]) {
      OnlyMatchFound(postfix, cards, i);
    }
    if CardById(postfix, cards).Some? {
      var i := FoundIsOnlyMatch(postfix, cards);
    }
  }

  /** No card with the postfix: `None`. */
  lemma NoMatchIsNone(postfix: string, cards: seq<Card>)
    requires forall i :: 0 <= i < |cards| ==> !MatchesAt(postfix, cards, i)
    ensures CardById(postfix, cards) == None
  {
    CardByIdSpec(postfix, cards);
  }

  /** Two cards with the postfix: `None`. */
  lemma AmbiguousIsNone(postfix: string, cards: seq<Card>, i: nat, j: nat)
    requires i < |cards| && j < |cards| && i != j
    requires MatchesAt(postfix, cards, i) && MatchesAt(postfix, cards, j)
    ensures CardById(postfix, cards) == None
  {
    CardByIdSpec(postfix, cards);
  }
}
