/**
 * The Go Fish rules engine: players, their hands and book piles, the card
 * transfers between them, the derived views of a player, and one pass of
 * the game loop that decides whose turn comes next.
 */
module GoFish {
  import opened Wrappers
  import opened PyStr
  import opened Cards

  /** Cards in a full deck; the game ends when all of them sit in books. */
  const DeckSize := 52
  /** Number of distinct face values, so the number of books in a game. */
  const BookCount := 13

  /** `handsize(nplayers)`: 7 cards for two or three players, 5 for four to six. */
  function HandSize(nplayers: int): (r: Result<nat>)
    ensures r.Ok? <==> 2 <= nplayers <= 6
    ensures r.Ok? ==> r.value == (if nplayers <= 3 then 7 else 5)
  {
    if nplayers <= 3 && nplayers >= 2 then Ok(7)
    else if nplayers <= 6 && nplayers >= 2 then Ok(5)
    else Err("Number of players must be between 2 and 6.")
  }

  /** Dealing every player a starting hand always leaves cards to draw. */
  lemma DealLeavesDrawPile(nplayers: int)
    requires HandSize(nplayers).Ok?
    ensures nplayers * HandSize(nplayers).value < DeckSize
  {
  }

  /** `repr_value(value)`: the display name of a face value. */
  function ReprValue(value: int): (r: Result<string>)
    ensures r.Ok? <==> 2 <= value <= 14
    ensures 2 <= value <= 10 ==> r == Ok(NatToString(value))
    ensures value == 11 ==> r == Ok("Jack")
    ensures value == 12 ==> r == Ok("Queen")
    ensures value == 13 ==> r == Ok("King")
    ensures value == 14 ==> r == Ok("Ace")
  {
    if value == 11 then Ok("Jack")
    else if value == 12 then Ok("Queen")
    else if value == 13 then Ok("King")
    else if value == 14 then Ok("Ace")
    else if value >= 2 && value <= 10 then Ok(NatToString(value))
    else Err("Expected a value between 2 and 14.")
  }

  /** The request menu never shows two values under the same name. */
  lemma ReprValueInjective(a: Rank, b: Rank)
    ensures ReprValue(a) == ReprValue(b) <==> a == b
  {
    NatToStringInjective(a, b);
    assert NatToString(10) == NatToString(1) + [Digit(0)];
  }

  /** The name a player gets: the given one, or "Player <order+1>" when blank. */
  function PlayerName(name: string, order: nat): (r: string)
    ensures name != "" ==> r == name
    ensures name == "" ==> |r| > 7 && r[..7] == "Player " && r[7..] == NatToString(order + 1)
  {
    if name == "" then "Player " + NatToString(order + 1) else name
  }

  /** Unnamed players in different seats get different default names. */
  lemma DefaultNamesDistinct(a: nat, b: nat)
    ensures PlayerName("", a) == PlayerName("", b) <==> a == b
  {
    NatToStringInjective(a + 1, b + 1);
  }

  /**
   * `Player.books`: the value label of the first card of every run of four in
   * the played pile (`played[::4]`).
   */
  function Books(played: seq<Card>): (r: seq<string>)
    ensures |r| == (|played| + 3) / 4
    decreases |played|
  {
    if played == [] then []
    else
      var rest := if |played| >= 4 then played[4..] else [];
      [NatToString(played[0].value) + "s"] + Books(rest)
  }

  /** Book `k` is labelled by the value of the card that opens it, at position `4 * k` of the pile. */
  lemma {:induction false} BookLabels(played: seq<Card>, k: nat)
    requires k < |Books(played)|
    ensures 4 * k < |played| && Books(played)[k] == NatToString(played[4 * k].value) + "s"
    decreases |played|
  {
    if k > 0 {
      BookLabels(played[4..], k - 1);
      assert played[4..][4 * (k - 1)] == played[4 * k];
    }
  }

  /** `Player.score`: the number of books, that is the played pile's size divided by four, rounded up. */
  function Score(played: seq<Card>): (r: nat)
    ensures r == (|played| + 3) / 4
    ensures |played| % 4 == 0 ==> r == |played| / 4
  {
    |Books(played)|
  }

  /** Laying down a book of four on a pile of whole books adds exactly that book's label. */
  lemma {:induction false} BooksAddBook(played: seq<Card>, book: seq<Card>)
    requires |played| % 4 == 0 && |book| == 4
    ensures Books(played + book) == Books(played) + [NatToString(book[0].value) + "s"]
  {
    if played == [] {
      assert played + book == book;
      assert book[4..] == [];
    } else {
      assert (played + book)[4..] == played[4..] + book;
      BooksAddBook(played[4..], book);
    }
  }

  /** The hand from value `lo` upward, grouped by value: the loop of `ordered_hand`. */
  function OrderedFrom(hand: seq<Card>, lo: int): (r: seq<Card>)
    requires 2 <= lo <= 15
    decreases 15 - lo
    ensures forall k :: 0 <= k < |r| ==> lo <= r[k].value
    ensures forall a, b :: 0 <= a < b < |r| ==> r[a].value <= r[b].value
  {
    if lo == 15 then []
    else
      SelectValues(hand, lo, true);
      Select(hand, lo, true) + OrderedFrom(hand, lo + 1)
  }

  /** `Player.ordered_hand`: the hand sorted by value, cards of equal value in hand order. */
  function OrderedHand(hand: seq<Card>): (r: seq<Card>)
    ensures forall a, b :: 0 <= a < b < |r| ==> r[a].value <= r[b].value
  {
    OrderedFrom(hand, 2)
  }

  /** `OrderedFrom(hand, lo)` holds each card of value at least `lo` as often as the hand does. */
  lemma {:induction false} OrderedFromCount(hand: seq<Card>, lo: int, c: Card)
    requires 2 <= lo <= 15
    decreases 15 - lo
    ensures multiset(OrderedFrom(hand, lo))[c] == if c.value >= lo then multiset(hand)[c] else 0
  {
    if lo < 15 {
      OrderedFromCount(hand, lo + 1, c);
      SelectCount(hand, lo, true, c);
    }
  }

  /** The ordered hand is a permutation of the hand. */
  lemma OrderedHandPermutes(hand: seq<Card>)
    ensures multiset(OrderedHand(hand)) == multiset(hand)
  {
    forall c ensures multiset(OrderedHand(hand))[c] == multiset(hand)[c] {
      OrderedFromCount(hand, 2, c);
    }
  }

  /**
   * The value `check_for_books` lays down, scanning the hand from position
   * `i`: that of the first card whose value the hand holds exactly four times.
   */
  function BookValueFrom(hand: seq<Card>, i: nat): (r: Option<Rank>)
    decreases |hand| - i
  {
    if i >= |hand| then None
    else if |Select(hand, hand[i].value, true)| == 4 then Some(hand[i].value)
    else BookValueFrom(hand, i + 1)
  }

  /** The value found holds four cards of the hand at or after `i`; none is found only when no such value exists. */
  lemma {:induction false} BookValueFromSpec(hand: seq<Card>, i: nat)
    decreases |hand| - i
    ensures BookValueFrom(hand, i).Some? ==> |Select(hand, BookValueFrom(hand, i).value, true)| == 4
    ensures BookValueFrom(hand, i).Some? ==> exists k :: i <= k < |hand| && hand[k].value == BookValueFrom(hand, i).value
    ensures BookValueFrom(hand, i).None? <==> forall k :: i <= k < |hand| ==> |Select(hand, hand[k].value, true)| != 4
  {
    if i < |hand| && |Select(hand, hand[i].value, true)| != 4 {
      BookValueFromSpec(hand, i + 1);
    }
  }

  /** The value of the book `check_for_books` lays down, if any. */
  function BookValue(hand: seq<Card>): Option<Rank>
  {
    BookValueFrom(hand, 0)
  }

  /**
   * The book found from position `j` on is that of the first card, by hand
   * position, whose value the hand holds four times.
   */
  lemma {:induction false} BookIsFirst(hand: seq<Card>, j: nat) returns (i: nat)
    requires BookValueFrom(hand, j).Some?
    decreases |hand| - j
    ensures j <= i < |hand| && hand[i].value == BookValueFrom(hand, j).value
    ensures |Select(hand, hand[i].value, true)| == 4
    ensures forall k :: j <= k < i ==> |Select(hand, hand[k].value, true)| != 4
  {
    if |Select(hand, hand[j].value, true)| == 4 {
      i := j;
    } else {
      i := BookIsFirst(hand, j + 1);
    }
  }

  /** A book is found exactly when some value occurs exactly four times in the hand. */
  lemma BookValueExists(hand: seq<Card>)
    ensures BookValue(hand).Some? <==> exists v :: |Select(hand, v, true)| == 4
  {
    BookValueFromSpec(hand, 0);
    if v :| |Select(hand, v, true)| == 4 {
      SelectNonEmpty(hand, v);
      var k :| 0 <= k < |hand| && hand[k].value == v;
      assert |Select(hand, hand[k].value, true)| == 4;
    }
  }

  /** `scores.index(max(scores))`: the first player holding the highest score. */
  function Winner(scores: seq<nat>): (w: nat)
    requires |scores| > 0
    ensures w < |scores|
    ensures forall k :: 0 <= k < |scores| ==> scores[k] <= scores[w]
    ensures forall k :: 0 <= k < w ==> scores[k] < scores[w]
  {
    if |scores| == 1 then 0
    else
      var w := Winner(scores[..|scores| - 1]);
      if scores[|scores| - 1] > scores[w] then |scores| - 1 else w
  }

  /** Moving the cards of one value from one hand to another loses and invents no card. */
  lemma RequestConserves(mine: seq<Card>, theirs: seq<Card>, v: int)
    ensures multiset(mine + Select(theirs, v, true)) + multiset(Select(theirs, v, false))
            == multiset(mine) + multiset(theirs)
  {
    SelectPartition(theirs, v);
  }

  /** The draw pile (`cards.deck`); cards are drawn from its front. */
  class Deck {
    var cards: seq<Card>

    constructor (cards: seq<Card>)
      ensures this.cards == cards
    {
      this.cards := cards;
    }
  }

  class Player {
    /** Zero-based seat in the turn order; fixed at creation. */
    const order: nat
    var name: string
    var hand: seq<Card>
    /** The played pile: the cards of this player's books, four by four. */
    var played: seq<Card>

    /** `Player(deck, order, name, handsize)`: deals `handsize` cards from the front of `deck`. */
    constructor (deck: Deck, order: nat, name: string := "", handsize: nat := 5)
      requires handsize <= |deck.cards|
      modifies deck
      ensures this.order == order && this.name == PlayerName(name, order)
      ensures hand == old(deck.cards[..handsize]) && played == []
      ensures deck.cards == old(deck.cards[handsize..])
    {
      this.order := order;
      this.name := PlayerName(name, order);
      hand := deck.cards[..handsize];
      played := [];
      deck.cards := deck.cards[handsize..];
    }

    /** `hand.single_draw(deck)`: the deck's front card goes to the end of the hand. */
    method SingleDraw(deck: Deck)
      requires deck.cards != []
      modifies this`hand, deck`cards
      ensures hand == old(hand) + [old(deck.cards[0])] && deck.cards == old(deck.cards[1..])
    {
      hand := hand + [deck.cards[0]];
      deck.cards := deck.cards[1..];
    }

    /** `hand.single_discard(played, i)`: the card at `i` moves to the end of the played pile. */
    method SingleDiscard(i: nat)
      requires i < |hand|
      modifies this`hand, this`played
      ensures played == old(played) + [old(hand[i])] && hand == RemoveAt(old(hand), i)
    {
      played := played + [hand[i]];
      hand := RemoveAt(hand, i);
    }

    /**
     * The opening of a turn: a player out of cards draws one, if the pile
     * has any. Reports whether the player can go on to ask.
     */
    method Replenish(deck: Deck) returns (canPlay: bool)
      modifies this`hand, deck`cards
      ensures canPlay <==> old(hand) != [] || old(deck.cards) != []
      ensures old(hand) == [] && canPlay ==> hand == [old(deck.cards[0])] && deck.cards == old(deck.cards[1..])
      ensures old(hand) != [] || !canPlay ==> hand == old(hand) && deck.cards == old(deck.cards)
      ensures multiset(hand) + multiset(deck.cards) == old(multiset(hand) + multiset(deck.cards))
    {
      canPlay := true;
      if |hand| == 0 {
        if |deck.cards| > 0 {
          assert deck.cards == [deck.cards[0]] + deck.cards[1..];
          SingleDraw(deck);
        } else {
          canPlay := false;
        }
      }
    }

    /**
     * "Go fish" after a refused request: with cards in the pile the player
     * draws one and keeps the turn only if it has the value asked for; with
     * the pile empty the turn passes on.
     */
    method FishFromPile(deck: Deck, fishval: int) returns (fished: Option<Card>, passOn: bool)
      modifies this`hand, deck`cards
      ensures old(deck.cards) == [] ==> fished == None && hand == old(hand) && deck.cards == old(deck.cards)
      ensures multiset(hand) + multiset(deck.cards) == old(multiset(hand) + multiset(deck.cards))
      ensures old(deck.cards) != [] ==>
        && fished == Some(old(deck.cards[0]))
        && hand == old(hand) + [old(deck.cards[0])]
        && deck.cards == old(deck.cards[1..])
      ensures passOn <==> fished.None? || fished.value.value != fishval
    {
      fished := None;
      passOn := false;
      if |deck.cards| > 0 {
        assert deck.cards == [deck.cards[0]] + deck.cards[1..];
        SingleDraw(deck);
        var cardDrawn := hand[|hand| - 1];
        fished := Some(cardDrawn);
        if cardDrawn.value != fishval {
          passOn := true;
        }
      } else {
        passOn := true;
      }
    }

    /**
     * `give_card(other, index)`: appends the card at `index` to `other`'s
     * hand, then deletes position `index` from this hand. Given to itself, the
     * card moves to the end of the hand.
     */
    method GiveCard(other: Player, index: nat)
      requires index < |hand|
      modifies this`hand, other`hand
      ensures other != this ==> other.hand == old(other.hand) + [old(hand[index])]
      ensures other != this ==> hand == RemoveAt(old(hand), index)
      ensures other == this ==> hand == RemoveAt(old(hand), index) + [old(hand[index])]
      ensures |hand| + |other.hand| == old(|hand| + |other.hand|)
    {
      var card := hand[index];
      other.hand := other.hand + [card];
      if other == this {
        assert hand[..index] + hand[index + 1..] == RemoveAt(old(hand), index) + [card];
      }
      hand := hand[..index] + hand[index + 1..];
    }

    /**
     * `request_card(other, value)`: every card of `value` leaves `other`'s
     * hand, in the order it held them, for the end of this hand. Reports
     * whether any card came over.
     */
    method RequestCard(other: Player, value: int) returns (ok: bool)
      requires other != this
      modifies this`hand, other`hand
      ensures ok == (Select(old(other.hand), value, true) != [])
      ensures hand == old(hand) + Select(old(other.hand), value, true)
      ensures other.hand == Select(old(other.hand), value, false)
      ensures forall k :: 0 <= k < |other.hand| ==> other.hand[k].value != value
      ensures multiset(hand) + multiset(other.hand) == old(multiset(hand) + multiset(other.hand))
    {
      ghost var rest := other.hand;
      ghost var kept: seq<Card> := [];
      var matching: seq<Card> := [];
      var i := 0;
      while i < |other.hand|
        invariant i == |kept| && other.hand == kept + rest
        invariant hand == old(hand) + matching
        invariant Select(old(other.hand), value, false) == kept + Select(rest, value, false)
        invariant Select(old(other.hand), value, true) == matching + Select(rest, value, true)
        decreases |rest|
      {
        var card := other.hand[i];
        RequestStep(old(other.hand), kept, matching, rest, value);
        if card.value == value {
          RemoveAfterPrefix(kept, rest);
          Assoc(old(hand), matching, [card]);
          matching := matching + [card];
          other.GiveCard(this, i);
        } else {
          Assoc(kept, [card], rest[1..]);
          assert rest == [card] + rest[1..];
          kept := kept + [card];
          i := i + 1;
        }
        rest := rest[1..];
      }
      AppendEmpty(kept);
      AppendEmpty(matching);
      RequestConserves(old(hand), old(other.hand), value);
      SelectValues(old(other.hand), value, false);
      ok := |matching| > 0;
    }

    /**
     * `check_for_books()`: lays down the first book in the hand, if any. The
     * cards of that value move to the end of the played pile in hand order;
     * at most one book is laid down per call.
     */
    method CheckForBooks() returns (hasBook: bool)
      modifies this`hand, this`played
      ensures hasBook == BookValue(old(hand)).Some?
      ensures !hasBook ==> hand == old(hand) && played == old(played)
      ensures hasBook ==> hand == Select(old(hand), BookValue(old(hand)).value, false)
      ensures hasBook ==> played == old(played) + Select(old(hand), BookValue(old(hand)).value, true)
      ensures hasBook ==> |played| == old(|played|) + 4 && |hand| == old(|hand|) - 4
      ensures multiset(hand) + multiset(played) == old(multiset(hand) + multiset(played))
    {
      hasBook := false;
      var i := 0;
      while i < |hand|
        invariant i <= |hand|
        invariant hand == old(hand) && played == old(played)
        invariant BookValueFrom(hand, i) == BookValue(hand)
      {
        var sameValue := Select(hand, hand[i].value, true);
        if |sameValue| == 4 {
          hasBook := true;
          SelectPartition(hand, hand[i].value);
          SelectSizes(hand, hand[i].value);
          LayDown(hand[i].value);
          return;
        }
        i := i + 1;
      }
    }

    /** The discard loop of `check_for_books`: each card of `v`, located by `index`, goes to the played pile. */
    method LayDown(v: int)
      modifies this`hand, this`played
      ensures hand == Select(old(hand), v, false)
      ensures played == old(played) + Select(old(hand), v, true)
    {
      var sameValue := Select(hand, v, true);
      var k := 0;
      while k < |sameValue|
        invariant k <= |sameValue|
        invariant Select(hand, v, false) == Select(old(hand), v, false)
        invariant Select(hand, v, true) == sameValue[k..]
        invariant played == old(played) + sameValue[..k]
      {
        ghost var before := hand;
        FirstSelectedIn(hand, v);
        var index := IndexOf(hand, sameValue[k]);
        RemoveFirstOfValue(before, v, index);
        SingleDiscard(index);
        assert sameValue[k..][1..] == sameValue[k + 1..];
        assert Select(hand, v, true) == sameValue[k + 1..];
        assert sameValue[..k + 1] == sameValue[..k] + [sameValue[k]];
        k := k + 1;
      }
      SelectNoneOfValue(hand, v);
    }
  }

  /** What one pass of the game loop did for the player whose turn it was. */
  datatype Pass =
    /** The hand and the draw pile were both empty: the loop `continue`s. */
    | OutOfCards
    /**
     * The player asked for a value; `fished` is the card drawn after a
     * refused request, `None` when the request succeeded or the pile was empty.
     */
    | Asked(requestOk: bool, fished: Option<Card>)

  /** Whether a pass hands the turn on, as the game loop of `main` decides it. */
  function TurnAfterAsWritten(turn: nat, pass: Pass, fishval: int): (r: nat)
    ensures r == turn || r == turn + 1
    ensures r == turn + 1 <==> pass.Asked? && !pass.requestOk && (pass.fished.None? || pass.fished.value.value != fishval)
  {
    match pass
    case OutOfCards => turn
    case Asked(ok, fished) =>
      if ok then turn
      else if fished.Some? && fished.value.value == fishval then turn
      else turn + 1
  }

  /** The same rule with an empty-handed player facing an empty pile skipped, as its message announces. */
  function TurnAfter(turn: nat, pass: Pass, fishval: int): (r: nat)
    ensures r == turn || r == turn + 1
    ensures r == turn + 1 <==> pass.OutOfCards? || TurnAfterAsWritten(turn, pass, fishval) == turn + 1
  {
    if pass.OutOfCards? then turn + 1 else TurnAfterAsWritten(turn, pass, fishval)
  }

  /** The turn counter after `k` passes in a row by players with nothing to play. */
  function AfterSkips(turn: nat, k: nat, corrected: bool): nat
  {
    if k == 0 then turn
    else
      var t := AfterSkips(turn, k - 1, corrected);
      if corrected then TurnAfter(t, OutOfCards, 0) else TurnAfterAsWritten(t, OutOfCards, 0)
  }

  /** As written, an empty-handed player facing an empty pile keeps the turn forever. */
  lemma {:induction false} AsWrittenStalls(turn: nat, k: nat)
    ensures AfterSkips(turn, k, false) == turn
  {
    if k > 0 {
      AsWrittenStalls(turn, k - 1);
    }
  }

  /** With the skip counted, each such pass hands the turn on by one seat. */
  lemma {:induction false} CorrectedSkipsAdvance(turn: nat, k: nat)
    ensures AfterSkips(turn, k, true) == turn + k
  {
    if k > 0 {
      CorrectedSkipsAdvance(turn, k - 1);
    }
  }

  /** `sum([p.score for p in players])`: the books laid down so far. */
  function TotalScore(ps: seq<Player>): (r: nat)
    reads set p | p in ps
    ensures forall k :: 0 <= k < |ps| ==> Score(ps[k].played) <= r
    ensures r == 0 <==> forall k :: 0 <= k < |ps| ==> Score(ps[k].played) == 0
  {
    if ps == [] then 0
    else
      var r := TotalScore(ps[..|ps| - 1]) + Score(ps[|ps| - 1].played);
      assert forall k :: 0 <= k < |ps| - 1 ==> ps[..|ps| - 1][k] == ps[k];
      r
  }

  /*
   * One pass of the game loop, stage by stage, as functions of the hands and
   * the pile before it.
   */

  /** The hand and the pile once the pass has opened: an empty hand draws the pile's front card. */
  function Opening(hand: seq<Card>, pile: seq<Card>): (seq<Card>, seq<Card>)
  {
    if hand == [] && pile != [] then ([pile[0]], pile[1..]) else (hand, pile)
  }

  /** The card fished after the request: none when the request succeeded or the pile is empty. */
  function FishedCard(requestOk: bool, pile: seq<Card>): Option<Card>
  {
    if requestOk || pile == [] then None else Some(pile[0])
  }

  /** The hand with the fished card, if any, at its end. */
  function WithFished(hand: seq<Card>, fished: Option<Card>): seq<Card>
  {
    match fished
    case Some(c) => hand + [c]
    case None => hand
  }

  /** The pile once the fished card, if any, has left its front. */
  function AfterFishing(pile: seq<Card>, fished: Option<Card>): seq<Card>
  {
    if fished.Some? && pile != [] then pile[1..] else pile
  }

  /** The hand after `check_for_books`: without the cards of its first book, if it has one. */
  function AfterBook(hand: seq<Card>): seq<Card>
  {
    match BookValue(hand)
    case Some(v) => Select(hand, v, false)
    case None => hand
  }

  /** The cards `check_for_books` lays down: those of the first book, or none. */
  function BookLaid(hand: seq<Card>): seq<Card>
  {
    match BookValue(hand)
    case Some(v) => Select(hand, v, true)
    case None => []
  }

  /** The book check lays down four cards or none, and keeps every card either in the hand or in the book. */
  lemma BookCheckConserves(hand: seq<Card>)
    ensures |BookLaid(hand)| == 0 || |BookLaid(hand)| == 4
    ensures multiset(AfterBook(hand)) + multiset(BookLaid(hand)) == multiset(hand)
  {
    BookValueFromSpec(hand, 0);
    if BookValue(hand).Some? {
      SelectPartition(hand, BookValue(hand).value);
    }
  }

  /** Every card held by the two players of a pass, in hand or in books, and the draw pile. */
  ghost function Pool(p: Player, q: Player, deck: Deck): multiset<Card>
    reads p, q, deck
  {
    multiset(p.hand) + multiset(p.played) + multiset(q.hand) + multiset(q.played) + multiset(deck.cards)
  }

  /**
   * The three moves of an ask keep the pool: the request moves cards between
   * the two hands, fishing between the hand and the pile, and the book check
   * between the hand and the played pile.
   */
  lemma AskKeepsPool(hand: multiset<Card>, played: multiset<Card>, theirs: multiset<Card>, pile: multiset<Card>,
                     theirPlayed: multiset<Card>,
                     requested: multiset<Card>, theirsLeft: multiset<Card>,
                     fishedHand: multiset<Card>, pileLeft: multiset<Card>,
                     finalHand: multiset<Card>, finalPlayed: multiset<Card>)
    requires requested + theirsLeft == hand + theirs
    requires fishedHand + pileLeft == requested + pile
    requires finalHand + finalPlayed == fishedHand + played
    ensures finalHand + finalPlayed + theirsLeft + theirPlayed + pileLeft
            == hand + played + theirs + theirPlayed + pile
  {
    forall x
      ensures (finalHand + finalPlayed + theirsLeft + theirPlayed + pileLeft)[x]
              == (hand + played + theirs + theirPlayed + pile)[x]
    {
      assert (requested + theirsLeft)[x] == (hand + theirs)[x];
      assert (fishedHand + pileLeft)[x] == (requested + pile)[x];
      assert (finalHand + finalPlayed)[x] == (fishedHand + played)[x];
    }
  }

  /** The opening draw moves a card from the pile to the hand and so keeps the pool. */
  lemma OpeningKeepsPool(hand: multiset<Card>, pile: multiset<Card>, drawnHand: multiset<Card>, pileLeft: multiset<Card>,
                         played: multiset<Card>, theirs: multiset<Card>, theirPlayed: multiset<Card>)
    requires drawnHand + pileLeft == hand + pile
    ensures drawnHand + played + theirs + theirPlayed + pileLeft == hand + played + theirs + theirPlayed + pile
  {
    forall x
      ensures (drawnHand + played + theirs + theirPlayed + pileLeft)[x] == (hand + played + theirs + theirPlayed + pile)[x]
    {
      assert (drawnHand + pileLeft)[x] == (hand + pile)[x];
    }
  }

  /** The state of `main`'s game loop: the players in seat order, the draw pile and the turn counter. */
  class Game {
    const players: seq<Player>
    const drawpile: Deck
    /** Counts passes of the turn; the player to act sits at `turn % |players|`. */
    var turn: nat

    /** Two to six distinct players, each sitting at the seat its `order` names. */
    ghost predicate Valid()
      reads this
    {
      && 2 <= |players| <= 6
      && (forall i, j :: 0 <= i < j < |players| ==> players[i] != players[j])
      && (forall i :: 0 <= i < |players| ==> players[i].order == i)
    }

    constructor (players: seq<Player>, drawpile: Deck)
      requires 2 <= |players| <= 6
      requires forall i, j :: 0 <= i < j < |players| ==> players[i] != players[j]
      requires forall i :: 0 <= i < |players| ==> players[i].order == i
      ensures Valid() && this.players == players && this.drawpile == drawpile && turn == 0
    {
      this.players := players;
      this.drawpile := drawpile;
      turn := 0;
    }

    /** The player at seat `i`. */
    function Seat(i: nat): Player
      requires i < |players|
    {
      players[i]
    }

    /** The loop of `main` runs while fewer than thirteen books have been laid down. */
    predicate Running()
      reads this, players
      ensures Running() ==> forall k :: 0 <= k < |players| ==> Score(players[k].played) < BookCount
    {
      TotalScore(players) < BookCount
    }

    /**
     * One pass of the game loop for the player at seat `turn % |players|`,
     * who fishes for `fishval` from the player at seat `opp`: an empty hand
     * first draws a card or, with the pile empty too, ends the pass as it is;
     * otherwise the player asks.
     */
    method Step(fishval: int, opp: nat) returns (pass: Pass)
      requires Valid() && Running()
      requires opp < |players| && opp != turn % |players|
      modifies this`turn, drawpile`cards, Seat(turn % |players|)`hand, Seat(turn % |players|)`played, Seat(opp)`hand
      ensures Valid()
      ensures turn == TurnAfterAsWritten(old(turn), pass, fishval)
      ensures pass.OutOfCards? <==> old(players[turn % |players|].hand) == [] && old(drawpile.cards) == []
      ensures pass.OutOfCards? ==> unchanged(players[old(turn) % |players|], players[opp], drawpile)
      ensures pass.Asked? ==>
        var start := Opening(old(players[turn % |players|].hand), old(drawpile.cards));
        var gained := Select(old(players[opp].hand), fishval, true);
        var full := WithFished(start.0 + gained, pass.fished);
        && pass.requestOk == (gained != [])
        && pass.fished == FishedCard(pass.requestOk, start.1)
        && players[opp].hand == Select(old(players[opp].hand), fishval, false)
        && drawpile.cards == AfterFishing(start.1, pass.fished)
        && players[old(turn) % |players|].hand == AfterBook(full)
        && players[old(turn) % |players|].played == old(players[turn % |players|].played) + BookLaid(full)
      ensures Pool(players[old(turn) % |players|], players[opp], drawpile)
              == old(Pool(players[turn % |players|], players[opp], drawpile))
    {
      var p := players[turn % |players|];
      var other := players[opp];
      ghost var h0, d0 := multiset(p.hand), multiset(drawpile.cards);
      var canPlay := p.Replenish(drawpile);
      if !canPlay {
        return OutOfCards;
      }
      OpeningKeepsPool(h0, d0, multiset(p.hand), multiset(drawpile.cards), multiset(p.played), multiset(other.hand), multiset(other.played));
      var ok, fished := Ask(p, other, fishval);
      pass := Asked(ok, fished);
    }

    /**
     * Asking: `p` requests `fishval` from `other`; after a refusal `p` fishes
     * from the pile; the turn passes on or not; then `p` checks for a book.
     */
    method Ask(p: Player, other: Player, fishval: int) returns (ok: bool, fished: Option<Card>)
      requires p != other
      modifies this`turn, drawpile`cards, p`hand, p`played, other`hand
      ensures turn == TurnAfterAsWritten(old(turn), Asked(ok, fished), fishval)
      ensures ok == (Select(old(other.hand), fishval, true) != [])
      ensures other.hand == Select(old(other.hand), fishval, false)
      ensures fished == FishedCard(ok, old(drawpile.cards))
      ensures drawpile.cards == AfterFishing(old(drawpile.cards), fished)
      ensures p.hand == AfterBook(WithFished(old(p.hand) + Select(old(other.hand), fishval, true), fished))
      ensures p.played == old(p.played) + BookLaid(WithFished(old(p.hand) + Select(old(other.hand), fishval, true), fished))
      ensures Pool(p, other, drawpile) == old(Pool(p, other, drawpile))
    {
      ghost var h0, q0, o0, d0 := multiset(p.hand), multiset(p.played), multiset(other.hand), multiset(drawpile.cards);
      ok := p.RequestCard(other, fishval);
      ghost var h1, o1 := multiset(p.hand), multiset(other.hand);
      fished := None;
      if !ok {
        var passOn;
        fished, passOn := p.FishFromPile(drawpile, fishval);
        if passOn {
          turn := turn + 1;
        }
      }
      ghost var full := p.hand;
      ghost var h2, d2 := multiset(p.hand), multiset(drawpile.cards);
      var _ := p.CheckForBooks();
      AskKeepsPool(h0, q0, o0, d0, multiset(other.played), h1, o1, h2, d2, multiset(p.hand), multiset(p.played));
    }

    /**
     * As written, a player with no cards facing an empty pile gets the same
     * pass again and again: each one leaves the turn and every card where
     * they were.
     */
    method Stall(fishval: int, opp: nat) returns (first: Pass, second: Pass)
      requires Valid() && Running()
      requires opp < |players| && opp != turn % |players|
      requires players[turn % |players|].hand == [] && drawpile.cards == []
      modifies this`turn, drawpile`cards, Seat(turn % |players|)`hand, Seat(turn % |players|)`played, Seat(opp)`hand
      ensures first == OutOfCards && second == OutOfCards
      ensures turn == old(turn)
      ensures unchanged(players[turn % |players|], players[opp], drawpile)
    {
      first := Step(fishval, opp);
      second := Step(fishval, opp);
    }

    /** The pass with the skip its message announces: an empty hand facing an empty pile hands the turn on. */
    method StepCorrected(fishval: int, opp: nat) returns (pass: Pass)
      requires Valid() && Running()
      requires opp < |players| && opp != turn % |players|
      modifies this`turn, drawpile`cards, Seat(turn % |players|)`hand, Seat(turn % |players|)`played, Seat(opp)`hand
      ensures turn == TurnAfter(old(turn), pass, fishval)
      ensures pass.OutOfCards? <==> old(players[turn % |players|].hand) == [] && old(drawpile.cards) == []
      ensures pass.OutOfCards? ==> unchanged(players[old(turn) % |players|], players[opp], drawpile)
    {
      pass := Step(fishval, opp);
      if pass.OutOfCards? {
        turn := turn + 1;
      }
    }
  }
}
