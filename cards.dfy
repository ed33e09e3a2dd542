/**
 * Cards and the value-based views of a pile of cards that the Go Fish rules
 * use: the cards of one face value, the cards of every other value, and the
 * position of a card in a pile (Python's `list.index`).
 */
module Cards {

  datatype Suit = Clubs | Diamonds | Hearts | Spades

  /** Face values 2..10, then 11 = Jack, 12 = Queen, 13 = King, 14 = Ace. */
  type Rank = v: int | 2 <= v <= 14 witness 2

  datatype Card = Card(suit: Suit, value: Rank)

  /**
   * The cards of `s` whose value is `v` (when `same`) or is not `v` (when
   * `!same`), in the order they appear in `s`: the comprehension
   * `[c for c in s if c.value == v]` and its complement.
   */
  function Select(s: seq<Card>, v: int, same: bool): (r: seq<Card>)
    ensures |r| <= |s|
  {
    if s == [] then []
    else (if (s[0].value == v) == same then [s[0]] else []) + Select(s[1..], v, same)
  }

  /** Every selected card has the value `v` (when `same`) or another value (when `!same`). */
  lemma {:induction false} SelectValues(s: seq<Card>, v: int, same: bool)
    ensures forall k :: 0 <= k < |Select(s, v, same)| ==> (Select(s, v, same)[k].value == v) == same
  {
    if s != [] {
      SelectValues(s[1..], v, same);
    }
  }

  /** `a + (b + c) == (a + b) + c`, stated once so that callers need no extensionality. */
  lemma Assoc(a: seq<Card>, b: seq<Card>, c: seq<Card>)
    ensures a + (b + c) == (a + b) + c
  {
  }

  /** Appending nothing leaves a pile as it is. */
  lemma AppendEmpty(a: seq<Card>)
    ensures a + [] == a
  {
  }

  /** Selecting from a pile led by a qualifying card starts with that card, and skips one that does not qualify. */
  lemma SelectCons(s: seq<Card>, v: int, same: bool)
    requires s != []
    ensures (s[0].value == v) == same ==> Select(s, v, same) == [s[0]] + Select(s[1..], v, same)
    ensures (s[0].value == v) != same ==> Select(s, v, same) == Select(s[1..], v, same)
  {
  }

  /** The selection of a concatenation is the concatenation of the selections. */
  lemma {:induction false} SelectAppend(a: seq<Card>, b: seq<Card>, v: int, same: bool)
    ensures Select(a + b, v, same) == Select(a, v, same) + Select(b, v, same)
  {
    if a == [] {
      assert a + b == b;
    } else {
      assert (a + b)[0] == a[0];
      assert (a + b)[1..] == a[1..] + b;
      SelectAppend(a[1..], b, v, same);
      Assoc(if (a[0].value == v) == same then [a[0]] else [], Select(a[1..], v, same), Select(b, v, same));
    }
  }

  /** The number of times each card occurs in the selection. */
  lemma {:induction false} SelectCount(s: seq<Card>, v: int, same: bool, c: Card)
    ensures multiset(Select(s, v, same))[c] == if (c.value == v) == same then multiset(s)[c] else 0
  {
    if s != [] {
      SelectCount(s[1..], v, same, c);
      assert s == [s[0]] + s[1..];
    }
  }

  /** Splitting a pile by value loses and invents no card. */
  lemma SelectPartition(s: seq<Card>, v: int)
    ensures multiset(Select(s, v, true)) + multiset(Select(s, v, false)) == multiset(s)
  {
    forall c ensures (multiset(Select(s, v, true)) + multiset(Select(s, v, false)))[c] == multiset(s)[c] {
      SelectCount(s, v, true, c);
      SelectCount(s, v, false, c);
    }
  }

  /** The two selections together are as long as the pile. */
  lemma {:induction false} SelectSizes(s: seq<Card>, v: int)
    ensures |Select(s, v, true)| + |Select(s, v, false)| == |s|
  {
    if s != [] {
      SelectSizes(s[1..], v);
    }
  }

  /** Some card of value `v` is present exactly when the selection of `v` is non-empty. */
  lemma {:induction false} SelectNonEmpty(s: seq<Card>, v: int)
    ensures Select(s, v, true) != [] <==> exists k :: 0 <= k < |s| && s[k].value == v
  {
    if s != [] {
      SelectNonEmpty(s[1..], v);
      if exists k :: 0 <= k < |s| && s[k].value == v {
        var k :| 0 <= k < |s| && s[k].value == v;
        if k > 0 {
          assert s[1..][k - 1].value == v;
        }
      }
      if exists k :: 0 <= k < |s[1..]| && s[1..][k].value == v {
        var k :| 0 <= k < |s[1..]| && s[1..][k].value == v;
        assert s[k + 1].value == v;
      }
    }
  }

  /** Keeping the other values of a pile holding no card of `v` keeps it whole. */
  lemma {:induction false} SelectNoneOfValue(s: seq<Card>, v: int)
    requires Select(s, v, true) == []
    ensures Select(s, v, false) == s
  {
    if s != [] {
      SelectNoneOfValue(s[1..], v);
      assert s == [s[0]] + s[1..];
    }
  }

  /** `s.index(c)`: the first position holding `c`. */
  function IndexOf(s: seq<Card>, c: Card): (r: nat)
    requires c in s
    ensures r < |s| && s[r] == c
    ensures forall k :: 0 <= k < r ==> s[k] != c
  {
    if s[0] == c then 0 else 1 + IndexOf(s[1..], c)
  }

  /** `del s[i]`. */
  function RemoveAt(s: seq<Card>, i: nat): (r: seq<Card>)
    requires i < |s|
    ensures |r| == |s| - 1
  {
    s[..i] + s[i + 1..]
  }

  /** The first selected card of value `v` sits at the first position holding that value. */
  lemma {:induction false} FirstOfValue(s: seq<Card>, v: int) returns (j: nat)
    requires Select(s, v, true) != []
    ensures j < |s| && s[j] == Select(s, v, true)[0]
    ensures forall k :: 0 <= k < j ==> s[k].value != v
  {
    if s[0].value == v {
      j := 0;
    } else {
      var j' := FirstOfValue(s[1..], v);
      j := j' + 1;
    }
  }

  /** The first card of the selection of `v` occurs in the pile. */
  lemma FirstSelectedIn(s: seq<Card>, v: int)
    requires Select(s, v, true) != []
    ensures Select(s, v, true)[0] in s
  {
    var j := FirstOfValue(s, v);
  }

  /** Deleting the first card after a prefix keeps the prefix and the rest. */
  lemma RemoveAfterPrefix(a: seq<Card>, b: seq<Card>)
    requires b != []
    ensures (a + b)[|a|] == b[0]
    ensures RemoveAt(a + b, |a|) == a + b[1..]
  {
    assert (a + b)[..|a|] == a;
    assert (a + b)[|a| + 1..] == b[1..];
  }

  /**
   * Removing the first occurrence `i` of the first card of value `v` drops
   * that card from the selection of `v` and leaves the other values untouched.
   */
  lemma RemoveFirstOfValue(s: seq<Card>, v: int, i: nat)
    requires Select(s, v, true) != []
    requires i < |s| && s[i] == Select(s, v, true)[0]
    requires forall k :: 0 <= k < i ==> s[k] != s[i]
    ensures Select(RemoveAt(s, i), v, true) == Select(s, v, true)[1..]
    ensures Select(RemoveAt(s, i), v, false) == Select(s, v, false)
  {
    var x := s[i];
    SelectValues(s, v, true);
    var j := FirstOfValue(s, v);
    var pre, post := s[..i], s[i + 1..];
    assert forall k :: 0 <= k < |pre| ==> pre[k].value != v;
    SelectNonEmpty(pre, v);
    assert s == pre + [x] + post;
    SelectAppend(pre + [x], post, v, true);
    SelectAppend(pre, [x], v, true);
    SelectAppend(pre, post, v, true);
    SelectRemoveOther(pre, x, post, v);
  }

  /** Removing a card of value `v` does not change the cards of the other values. */
  lemma SelectRemoveOther(pre: seq<Card>, x: Card, post: seq<Card>, v: int)
    requires x.value == v
    ensures Select(pre + [x] + post, v, false) == Select(pre + post, v, false)
  {
    SelectAppend(pre + [x], post, v, false);
    SelectAppend(pre, [x], v, false);
    SelectAppend(pre, post, v, false);
  }

  /** One iteration of the loop of `request_card`, on the invariant relating the processed and the unprocessed cards. */
  lemma RequestStep(given: seq<Card>, kept: seq<Card>, matching: seq<Card>, rest: seq<Card>, v: int)
    requires rest != []
    requires Select(given, v, false) == kept + Select(rest, v, false)
    requires Select(given, v, true) == matching + Select(rest, v, true)
    ensures rest[0].value == v ==>
      && Select(given, v, true) == (matching + [rest[0]]) + Select(rest[1..], v, true)
      && Select(given, v, false) == kept + Select(rest[1..], v, false)
    ensures rest[0].value != v ==>
      && Select(given, v, true) == matching + Select(rest[1..], v, true)
      && Select(given, v, false) == (kept + [rest[0]]) + Select(rest[1..], v, false)
  {
    var c, tail := rest[0], rest[1..];
    SelectCons(rest, v, true);
    SelectCons(rest, v, false);
    if c.value == v {
      Assoc(matching, [c], Select(tail, v, true));
    } else {
      Assoc(kept, [c], Select(tail, v, false));
    }
  }
}
