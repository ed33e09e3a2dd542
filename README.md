# Go Fish and the Morse Code challenge, in Dafny

This project models two small Python programs from a programming bootcamp
repository and proves properties of the models.

**Go Fish** (`cards/go_fish.py`). The model covers:
- the `Player` class: its hand and played pile, the default name, and the card
  moves `give_card`, `request_card` and `check_for_books`;
- the derived views `books`, `score` and `ordered_hand`;
- the helpers `handsize` and `repr_value`;
- one pass of the game loop in `main`, which decides whether the turn passes on.

Players, the draw pile and the game are classes whose fields the methods update
in place. Cards are values: a suit and a face value from 2 to 14.

**Morse Code challenge** (`morse/morse.py`). The model covers:
- reading the key file into a dict;
- `encode` and `decode`;
- cutting the message into `GROUPSIZE` segments of balanced lengths;
- the loop that reshuffles until the segment order is not the original one;
- the script's own check that decoding the segment files gives the message back.

The Python builtins these rely on are modelled in their own modules:
- `PyStr`: `str.split`, `str.join` and `str(n)`;
- `PyDict`: an insertion-ordered `dict`, held as a list of pairs, with lookup,
  assignment and the inverted dict `{v: k for k, v in d.items()}`.

Modules: `Wrappers` (Option, Result), `PyStr`, `PyDict`, `Cards`, `GoFish`, `Morse`.

## Model

| member | source | states |
|---|---|---|
| Cards.SelectValues | cards/go_fish.py:145 | every card the value filter keeps has the value asked for, and every card its complement keeps has another value |
| Cards.SelectCount | cards/go_fish.py:145 | each card occurs in the filter as often as in the pile when its value qualifies, and not at all otherwise |
| Cards.SelectPartition | cards/go_fish.py:145 | the cards of one value and the cards of the other values together are the pile, as a multiset |
| Cards.SelectSizes | cards/go_fish.py:145 | the two filters together are as long as the pile |
| Cards.SelectNonEmpty | cards/go_fish.py:145 | the filter for `v` is non-empty exactly when some card of the pile has value `v` |
| Cards.SelectNoneOfValue | cards/go_fish.py:145 | a pile with no card of `v` is kept whole by the complement filter |
| Cards.IndexOf | cards/go_fish.py:150 | `list.index`: the first position that holds the card |
| Cards.RemoveAt | cards/go_fish.py:167 | `del`: one card fewer |
| Cards.FirstOfValue | cards/go_fish.py:149-150 | the first card of value `v` sits at the first position holding that value |
| Cards.RemoveFirstOfValue | cards/go_fish.py:149-150 | deleting that card removes the head of the `v` filter and leaves the other values alone |
| Cards.RequestStep | cards/go_fish.py:191-196 | one iteration of the `request_card` loop keeps the relation between the processed cards, the unprocessed cards and the two filters |
| GoFish.HandSize | cards/go_fish.py:269-288 | succeeds exactly for 2 to 6 players; 7 cards for 2 or 3 players, 5 for 4 to 6; an error otherwise |
| GoFish.DealLeavesDrawPile | cards/go_fish.py:14-20 | dealing every player a starting hand leaves cards in the 52-card deck |
| GoFish.ReprValue | cards/go_fish.py:291-317 | succeeds exactly for 2 to 14; digits for 2 to 10, then Jack, Queen, King, Ace; an error otherwise |
| GoFish.ReprValueInjective | cards/go_fish.py:305-317 | two face values get the same label only when they are equal |
| GoFish.PlayerName | cards/go_fish.py:131-135 | a given name is kept; a blank one becomes "Player " followed by the seat number plus one |
| GoFish.DefaultNamesDistinct | cards/go_fish.py:133-134 | unnamed players in different seats get different names |
| GoFish.Books | cards/go_fish.py:224-235 | one label per started group of four in the played pile |
| GoFish.BookLabels | cards/go_fish.py:233-234 | label `k` is the value of the card at position `4k`, followed by "s" |
| GoFish.Score | cards/go_fish.py:237-243 | the score is the played pile's size divided by four, rounded up, and exactly that quotient when the pile holds whole books |
| GoFish.BooksAddBook | cards/go_fish.py:230-235 | laying a book on a pile of whole books appends exactly that book's label |
| GoFish.OrderedFrom | cards/go_fish.py:219-222 | the loop from value `lo` yields only values of at least `lo`, in non-decreasing order |
| GoFish.OrderedHand | cards/go_fish.py:214-222 | the ordered hand is sorted by value |
| GoFish.OrderedFromCount | cards/go_fish.py:219-222 | the loop from `lo` holds every card of value at least `lo` exactly as often as the hand |
| GoFish.OrderedHandPermutes | cards/go_fish.py:214-222 | the ordered hand is a permutation of the hand |
| GoFish.BookValueFromSpec | cards/go_fish.py:144-147 | the scan from position `i` finds a value held exactly four times by a card at or after `i`, and finds none only when no such card exists |
| GoFish.BookIsFirst | cards/go_fish.py:144-151 | the value found is that of the first card, by hand position, whose value the hand holds four times |
| GoFish.BookValueExists | cards/go_fish.py:144-147 | a book is found exactly when some value occurs exactly four times in the hand |
| GoFish.Winner | cards/go_fish.py:100-104 | the first index holding the highest score |
| GoFish.RequestConserves | cards/go_fish.py:187-196 | moving one value's cards from a hand to another loses and invents no card |
| GoFish.Player.constructor | cards/go_fish.py:131-137 | the default name rule; the first `handsize` cards of the deck become the hand; the played pile starts empty |
| GoFish.Player.SingleDraw | cards/go_fish.py:76-77 | the deck's front card moves to the end of the hand |
| GoFish.Player.SingleDiscard | cards/go_fish.py:150 | the card at `i` leaves the hand for the end of the played pile |
| GoFish.Player.Replenish | cards/go_fish.py:38-45 | an empty hand draws one card if the pile has any; the player can go on exactly when the hand or the pile was non-empty; no card is lost |
| GoFish.Player.FishFromPile | cards/go_fish.py:75-91 | after a refusal the front card of a non-empty pile is drawn; the turn passes on exactly when the pile was empty or the card's value differs from the one asked for |
| GoFish.Player.GiveCard | cards/go_fish.py:154-169 | the card at `index` goes to the end of the other hand and leaves this one; the two hands hold as many cards as before |
| GoFish.Player.RequestCard | cards/go_fish.py:171-202 | true exactly when the opponent held the value; this hand gains those cards in the opponent's order; the opponent keeps the others in order and none of the value; no card is lost |
| GoFish.Player.CheckForBooks | cards/go_fish.py:139-152 | true exactly when some value occurs four times; then the four cards of the first such value go, in hand order, to the end of the played pile, the hand shrinks by 4 and the pile grows by 4; otherwise nothing changes |
| GoFish.Player.LayDown | cards/go_fish.py:149-150 | the discard loop leaves exactly the other values in the hand and appends the cards of the value to the played pile in hand order |
| GoFish.TurnAfterAsWritten | cards/go_fish.py:67-96 | the turn advances by one exactly when the request failed and the pile was empty or the drawn card differs from the value asked for; otherwise it stays |
| GoFish.TurnAfter | cards/go_fish.py:38-45 | the corrected rule: as above, and a player with no cards facing an empty pile also passes the turn on |
| GoFish.AsWrittenStalls | cards/go_fish.py:43-45 | as written, any number of passes by an empty-handed player facing an empty pile leaves the turn where it was |
| GoFish.CorrectedSkipsAdvance | cards/go_fish.py:43-45 | with the corrected rule, `k` such passes advance the turn by `k` |
| GoFish.Game.constructor | cards/go_fish.py:30 | the game starts at turn 0 with the players in seat order |
| GoFish.TotalScore | cards/go_fish.py:31 | the sum of the players' scores: no player's score exceeds it, and it is 0 exactly when every score is 0 |
| GoFish.Game.Running | cards/go_fish.py:31 | the loop guard: fewer than 13 books in all, so every player holds fewer than 13 |
| GoFish.BookCheckConserves | cards/go_fish.py:139-152 | the book check lays down four cards or none, and every card stays either in the hand or in the book |
| GoFish.OpeningKeepsPool | cards/go_fish.py:38-42 | the opening draw keeps the cards of the two players and the pile |
| GoFish.AskKeepsPool | cards/go_fish.py:67-98 | request, fishing and book check together keep the cards of the two players and the pile |
| GoFish.Game.Step | cards/go_fish.py:30-98 | one pass of the loop: the turn changes as `TurnAfterAsWritten` says; the pass ends at once exactly when hand and pile are empty, and then nothing changes; otherwise an empty hand first draws the front card, the request succeeds exactly when the opponent held the value, the opponent keeps exactly the other values, the fished card is the front of the pile after a refusal and none otherwise, the player's hand and played pile are the gained and fished cards with the first book laid down, and no card is lost |
| GoFish.Game.Ask | cards/go_fish.py:67-98 | request, fish if refused, advance the turn or not, then check for a book: the opponent keeps exactly the other values; the fished card and the remaining pile; the player's hand is its old cards, the gained cards and the fished card, less the first book, which goes to the played pile; no card is lost |
| GoFish.Game.Stall | cards/go_fish.py:38-45 | as written, two passes by a player with no cards facing an empty pile both end at once and leave the turn, both players and the pile as they were |
| GoFish.Game.StepCorrected | cards/go_fish.py:38-45 | the corrected pass: the turn changes as `TurnAfter` says, so a player with no cards facing an empty pile hands the turn on and changes nothing else |
| PyStr.Split | morse/morse.py:69 | `str.split` yields at least one part and no part holds the separator |
| PyStr.SplitCount | morse/morse.py:69 | a line splits into one part more than it has tabs |
| PyStr.SplitJoin | morse/morse.py:101 | splitting codes joined by spaces gives the codes back when none holds a space |
| PyStr.JoinSplit | morse/morse.py:93 | joining the parts of a split with another character replaces each separator by it |
| PyStr.Replace | morse/morse.py:93 | the result keeps the length and replaces exactly the chosen character |
| PyStr.ConcatChars | morse/morse.py:131 | joining one-character strings spells out those characters |
| PyStr.NatToString | cards/go_fish.py:234 | `str(n)`: a string of decimal digits that spells `n`, with no leading zero unless `n` is 0, one character exactly below 10 |
| PyStr.NatToStringInjective | cards/go_fish.py:234 | different numbers print differently |
| PyDict.Get | morse/morse.py:97 | a lookup fails exactly when the key is absent, and otherwise returns the value paired with it |
| PyDict.PutGet | morse/morse.py:70 | after `d[k] = v`, `d[k]` is `v` and every other key looks up as before |
| PyDict.PutKeys | morse/morse.py:70 | assignment keeps the key order; a new key goes last |
| PyDict.PutKeysUnique | morse/morse.py:70 | assignment never repeats a key |
| PyDict.LastKeyWith | morse/morse.py:121 | the key of the last pair holding a value, and none exactly when no pair holds it |
| PyDict.InvertKeysUnique | morse/morse.py:121 | the inverted dict has no repeated key |
| PyDict.InvertGet | morse/morse.py:121 | the inverted dict maps a value to the last key holding it |
| PyDict.InvertInverse | morse/morse.py:121 | with unique keys and values, the inverted dict maps `v` to `k` exactly when the dict maps `k` to `v` |
| Morse.ParseLine | morse/morse.py:69-70 | a line is accepted exactly when it holds one tab |
| Morse.ParseLineRoundTrip | morse/morse.py:68-70 | a line `k\tv\n` reads back as the pair `(k, v)` |
| Morse.LoadOk | morse/morse.py:66-70 | the file loads exactly when every line holds one tab |
| Morse.LoadKeysUnique | morse/morse.py:66-70 | the loaded dict repeats no key |
| Morse.LoadGet | morse/morse.py:68-70 | a key repeated in the file keeps the value of its last line |
| Morse.KeyOf | morse/morse.py:51-73 | the import succeeds exactly when every line holds one tab; the key repeats no entry and maps the space to "/" |
| Morse.KeyOfGet | morse/morse.py:66-73 | the space looks up as "/"; every other key has the value of its last line |
| Morse.ImportKey | morse/morse.py:51-73 | the loop fills the dict line by line, stops at a malformed line, and gives the same dict as `KeyOf` |
| Morse.UpperIdempotent | morse/morse.py:97 | upper-casing twice is upper-casing once, and a lower-case letter upper-cases as its capital does |
| Morse.CleanReplaces | morse/morse.py:93 | cleaning turns each newline into a space and keeps every other character |
| Morse.Codes | morse/morse.py:94-100 | no more codes than characters |
| Morse.CodesTranslated | morse/morse.py:94-100 | the codes are, one for one, the key's entries for the translatable characters upper-cased |
| Morse.Encode | morse/morse.py:76-101 | the loop yields the codes of the translatable characters of the cleaned message, joined by single spaces |
| Morse.NewlineEncodesAsSpace | morse/morse.py:93 | a newline encodes exactly as a space would |
| Morse.NewlineIsWordSeparator | morse/morse.py:72-97 | with an imported key, a lone newline encodes as "/" |
| Morse.CodesIgnoreCase | morse/morse.py:97 | characters that upper-case alike get the same codes |
| Morse.EncodingIgnoresCase | morse/morse.py:93-101 | messages that upper-case alike encode alike |
| Morse.LookupsAt | morse/morse.py:125-130 | one entry per token: its key in the inverted dict, or "#" |
| Morse.Decode | morse/morse.py:104-131 | the loop yields the inverted key's entry for each space-separated token, "#" for an unknown one, all joined |
| Morse.RoundTrip | morse/morse.py:76-131 | with distinct codes holding no space, decoding an encoding gives the message with newlines as spaces, upper-cased, untranslatable characters dropped, when something in it was translatable |
| Morse.NoCodeIsEmpty | morse/morse.py:123-130 | with no empty code, the empty input is one token that looks up as "#" |
| Morse.DecodingEmpty | morse/morse.py:123-131 | with no empty code, the empty input decodes to "#" |
| Morse.UntranslatableDecodesToHash | morse/morse.py:93-131 | a message with nothing translatable encodes to "" and decodes to "#" |
| Morse.Lengths | morse/morse.py:18-21 | one length per segment |
| Morse.SegmentLengths | morse/morse.py:18-21 | the quotient for every segment, one more for each of the first `n % GROUPSIZE` |
| Morse.LengthsSum | morse/morse.py:18-21 | the lengths add up to the message length |
| Morse.LengthsBalanced | morse/morse.py:18-21 | two lengths differ by at most one, and an earlier one is never shorter |
| Morse.SumPrefix | morse/morse.py:23 | the running totals never decrease and never pass the total |
| Morse.Slices | morse/morse.py:22-25 | one slice per length |
| Morse.Segments | morse/morse.py:22-25 | `GROUPSIZE` segments |
| Morse.SegmentLength | morse/morse.py:22-25 | each segment has the length chosen for it |
| Morse.SliceAt | morse/morse.py:23 | slice `i` runs from the `i`-th running total to the next |
| Morse.SlicesPrefix | morse/morse.py:22-25 | the first `k` slices joined are the message up to the `k`-th running total |
| Morse.SegmentsJoin | morse/morse.py:22-25 | the segments joined in order give the message back |
| Morse.Range | morse/morse.py:27 | `list(range(n))` is a permutation and the identity |
| Morse.Shuffle | morse/morse.py:29 | a shuffle of a permutation is a permutation |
| Morse.OrderAfter | morse/morse.py:28-31 | the order after any number of shuffles is a permutation |
| Morse.ChooseOrder | morse/morse.py:27-31 | the order is a permutation; it is accepted exactly when it is not the identity, and then it is the order after the first shuffle that left the identity; if no shuffle did, every order seen was the identity |
| Morse.WriteSegments | morse/morse.py:34-39 | file `order[i] + 1` holds the encoding of segment `i` |
| Morse.ReadBack | morse/morse.py:41-47 | piece `k` is the decoding of file `order[k] + 1` |
| Morse.SelfTest | morse/morse.py:33-48 | the check prints the segments, each encoded and decoded, joined in the original order whatever the permutation |
| Morse.SelfTestPrintsMessage | morse/morse.py:33-48 | with distinct codes holding no space and something translatable in each segment, the check prints the message with newlines as spaces, upper-cased, untranslatable characters dropped |

## Left out

- Terminal I/O is not modelled: `print`, `input`, `time.sleep`, and all of `cards/utils.py` (`clear_terminal`, `int_input`, `mc_input`). The player's choices become parameters: `fishval` and the opponent's seat in `GoFish.Game.Step`.
- The value menu is not modelled. `main` offers only values present in the hand; `Step` accepts any value.
- Randomness is not modelled. `random.shuffle` is replaced by given permutations, and `Morse.ChooseOrder` bounds the `while True` loop by their number: `accepted == false` means the loop has not stopped yet.
- Files are not modelled. The key file is its list of lines. The segment files are a map from file number to contents.
- The `cards` module is not part of this model. Its deck construction and shuffling are left out. A draw takes the front card and appends it to the hand; a discard moves a card to the end of the played pile.
- The `isinstance` checks that raise `TypeError` are not modelled: Dafny's types rule those inputs out.
- Upper-casing covers ASCII only, not Python's full Unicode `str.upper`.
- `int(len(message) / GROUPSIZE)` is modelled as integer division. The two agree for every non-negative length below 2^53.
- GoFish.Player.GiveCard: takes only indices `0 <= index < |hand|`, not Python's negative indices. The game never passes a negative index.
- GoFish.Player.RequestCard: requires `other != this`. Asked of itself, the Python loop never ends once a card matches. `main` only asks opponents.
- GoFish.Game.Step: models one pass of the loop, under the loop's guard (fewer than 13 books). Whether the whole game terminates is not modelled.
- `print_status`, the opponents summary and the final score printout are left out. `GoFish.Winner` states the winner's index.

## Findings

When a player with no cards faces an empty pile, the program prints "Skipping your turn." (`cards/go_fish.py:44`), but the code does not advance the turn. `GoFish.Game.Step` follows the code as written. `GoFish.Game.StepCorrected` and `GoFish.TurnAfter` give the corrected rule.

| source | as written | input that shows it | evidently intended | confidence | as-written member | corrected member |
|---|---|---|---|---|---|---|
| cards/go_fish.py:43-45 | when the current player has no cards and the pile is empty, the loop `continue`s without `turn += 1`, so the same player is visited again with nothing changed, forever | 3 players, 11 books down, the pile empty, turn on P; P holds no cards, Q holds 7♣ 7♦ 7♥ 9♠, R holds 7♠ 9♦ 9♥ 9♣ | pass the turn to the next player, as the message "Skipping your turn." announces | not executed | GoFish.Game.Stall | GoFish.Game.StepCorrected |
