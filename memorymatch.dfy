/** The pair-matching game of `games/MemoryMatch.tsx`: sixteen cards, each
    of eight icons twice; the player opens at most two cards at a time, and
    the pair is resolved later by a deferred step that either keeps both
    cards open as matched or turns both back down. */
module MemoryMatch {

  const ICONS: seq<string> := ["🔥", "⚡", "🌌", "⚛️", "🛰️", "💾", "🧩", "🧪"]
  const PAIRS: nat := 8
  const DECK_SIZE: nat := 16

  datatype Card = Card(id: nat, icon: string, flipped: bool, matched: bool)

  /** A resolution scheduled by the second flip of a pair: whether the two
      icons agreed, the two positions, and the card list it captured. */
  datatype Resolution = Resolution(isMatch: bool, first: nat, second: nat, captured: seq<Card>)

  predicate WellFormed(t: Resolution)
  {
    t.first < |t.captured| && t.second < |t.captured|
  }

  function IconsOf(cards: seq<Card>): (icons: seq<string>)
    ensures |icons| == |cards|
    ensures forall i :: 0 <= i < |cards| ==> icons[i] == cards[i].icon
  {
    seq(|cards|, i requires 0 <= i < |cards| => cards[i].icon)
  }

  predicate Distinct(s: seq<string>)
  {
    forall i, j :: 0 <= i < j < |s| ==> s[i] != s[j]
  }

  /** The deck order is some shuffle of every icon twice. */
  predicate IsShuffle(order: seq<string>)
  {
    multiset(order) == multiset(ICONS + ICONS)
  }

  /** The cards `initGame` builds from a shuffled icon order. */
  function Deal(order: seq<string>): seq<Card>
  {
    seq(|order|, i requires 0 <= i < |order| => Card(i, order[i], false, false))
  }

  /** Number of matched cards. */
  function MatchedCount(cards: seq<Card>): (n: nat)
    ensures n <= |cards|
  {
    if cards == [] then 0 else (if cards[0].matched then 1 else 0) + MatchedCount(cards[1..])
  }

  lemma IconsDistinct()
    ensures Distinct(ICONS)
  {
  }

  /** In a sequence without repeats every element occurs exactly once. */
  lemma {:induction false} DistinctOnce(s: seq<string>, x: string)
    requires Distinct(s)
    ensures multiset(s)[x] == if x in s then 1 else 0
  {
    if s != [] {
      assert s == [s[0]] + s[1..];
      assert Distinct(s[1..]) by {
        forall i, j | 0 <= i < j < |s[1..]| ensures s[1..][i] != s[1..][j] {
          assert s[1..][i] == s[i + 1] && s[1..][j] == s[j + 1];
        }
      }
      DistinctOnce(s[1..], x);
      if x == s[0] {
        assert x !in s[1..] by {
          forall k | 0 <= k < |s[1..]| ensures s[1..][k] != x {
            assert s[1..][k] == s[k + 1];
          }
        }
      }
    }
  }

  /** The deck has every icon exactly twice and nothing else. */
  lemma PairDeckCounts(x: string)
    ensures multiset(ICONS + ICONS)[x] == if x in ICONS then 2 else 0
  {
    IconsDistinct();
    DistinctOnce(ICONS, x);
  }

  /** `initGame`: sixteen face-down, unmatched cards numbered by position,
      holding each of the eight icons exactly twice, in the shuffled order. */
  lemma DealtDeck(order: seq<string>)
    requires IsShuffle(order)
    ensures |Deal(order)| == DECK_SIZE
    ensures IconsOf(Deal(order)) == order
    ensures forall x :: multiset(IconsOf(Deal(order)))[x] == if x in ICONS then 2 else 0
    ensures forall i :: 0 <= i < DECK_SIZE ==>
      Deal(order)[i].id == i && !Deal(order)[i].flipped && !Deal(order)[i].matched
    ensures MatchedCount(Deal(order)) == 0
  {
    assert |order| == |multiset(order)| == |multiset(ICONS + ICONS)| == DECK_SIZE;
    assert IconsOf(Deal(order)) == order;
    forall x ensures multiset(IconsOf(Deal(order)))[x] == if x in ICONS then 2 else 0 {
      PairDeckCounts(x);
    }
    NoneMatched(Deal(order));
  }

  lemma {:induction false} NoneMatched(cards: seq<Card>)
    requires forall i :: 0 <= i < |cards| ==> !cards[i].matched
    ensures MatchedCount(cards) == 0
  {
    if cards != [] {
      assert cards[0] == cards[0];
      NoneMatched(cards[1..]);
    }
  }

  /** All cards are matched exactly when the matched count is the deck size. */
  lemma {:induction false} AllMatchedIffFullCount(cards: seq<Card>)
    ensures MatchedCount(cards) == |cards| <==> forall i :: 0 <= i < |cards| ==> cards[i].matched
  {
    if cards != [] {
      AllMatchedIffFullCount(cards[1..]);
      if forall i :: 0 <= i < |cards| ==> cards[i].matched {
        assert forall i :: 0 <= i < |cards[1..]| ==> cards[1..][i].matched by {
          forall i | 0 <= i < |cards[1..]| ensures cards[1..][i].matched {
            assert cards[1..][i] == cards[i + 1];
          }
        }
      } else if cards[0].matched {
        var i :| 0 <= i < |cards| && !cards[i].matched;
        assert !cards[1..][i - 1].matched;
      }
    }
  }

  /** Changing one card changes the matched count only through its
      `matched` flag. */
  lemma {:induction false} MatchedCountUpdate(cards: seq<Card>, i: nat, c: Card)
    requires i < |cards|
    ensures MatchedCount(cards[i := c]) ==
      MatchedCount(cards) - (if cards[i].matched then 1 else 0) + (if c.matched then 1 else 0)
  {
    if i > 0 {
      assert cards[i := c][1..] == cards[1..][i - 1 := c];
      MatchedCountUpdate(cards[1..], i - 1, c);
    }
  }

  /** The resolution a second flip schedules. */
  function Scheduled(cards: seq<Card>, first: nat, second: nat): Resolution
    requires first < |cards| && second < |cards|
  {
    Resolution(cards[first].icon == cards[second].icon, first, second, cards)
  }

  /** The card list a resolution installs: the captured cards with both
      positions marked matched (equal icons) or turned back down (unequal
      icons); no other card and no icon changes. */
  function Applied(t: Resolution): (r: seq<Card>)
    requires WellFormed(t)
    ensures |r| == |t.captured| && IconsOf(r) == IconsOf(t.captured)
    ensures forall i :: 0 <= i < |r| && i != t.first && i != t.second ==> r[i] == t.captured[i]
    ensures forall i :: 0 <= i < |r| ==> r[i].id == t.captured[i].id
    ensures t.isMatch ==> r[t.first].matched && r[t.second].matched
    ensures t.isMatch ==> r[t.first].flipped == t.captured[t.first].flipped
    ensures !t.isMatch ==> !r[t.first].flipped && !r[t.second].flipped
    ensures !t.isMatch ==> r[t.first].matched == t.captured[t.first].matched
  {
    var c := t.captured;
    if t.isMatch then
      var c1 := c[t.first := c[t.first].(matched := true)];
      c1[t.second := c1[t.second].(matched := true)]
    else
      var c1 := c[t.first := c[t.first].(flipped := false)];
      c1[t.second := c1[t.second].(flipped := false)]
  }

  /** What the second flip of two different cards leads to once its timer
      fires: equal icons leave both cards open and matched, different icons
      turn both face down and leave them unmatched; every other card is the
      one the flip saw. */
  lemma ScheduledOutcome(cards: seq<Card>, first: nat, second: nat)
    requires first < |cards| && second < |cards| && first != second
    ensures var r := Applied(Scheduled(cards, first, second));
            && |r| == |cards|
            && (forall i :: 0 <= i < |cards| && i != first && i != second ==> r[i] == cards[i])
            && (cards[first].icon == cards[second].icon ==>
                  r[first] == cards[first].(matched := true) && r[second] == cards[second].(matched := true))
            && (cards[first].icon != cards[second].icon ==>
                  r[first] == cards[first].(flipped := false) && r[second] == cards[second].(flipped := false))
  {
  }

  /** The state every reachable configuration satisfies: the deck keeps
      its icons, open-but-unmatched cards are exactly the selection, a
      pending resolution exists exactly while two cards are selected,
      matched cards number twice the `matches` counter, and no match is
      counted without a move. */
  ghost predicate Inv(cards: seq<Card>, selection: seq<nat>, moves: nat, matches: nat,
                      pending: seq<Resolution>)
  {
    && |cards| == DECK_SIZE
    && multiset(IconsOf(cards)) == multiset(ICONS + ICONS)
    && (forall i :: 0 <= i < |cards| ==> cards[i].id == i)
    && |selection| <= 2
    && (forall k :: 0 <= k < |selection| ==> selection[k] < |cards|)
    && (|selection| == 2 ==> selection[0] != selection[1])
    && (forall i :: 0 <= i < |cards| ==> (cards[i].flipped && !cards[i].matched <==> i in selection))
    && (forall i :: 0 <= i < |cards| ==> cards[i].matched ==> cards[i].flipped)
    && MatchedCount(cards) == 2 * matches
    && |pending| == (if |selection| == 2 then 1 else 0)
    && (|pending| == 1 ==> pending[0] == Scheduled(cards, selection[0], selection[1]))
    && matches + |pending| <= moves
  }

  lemma DealtInv(order: seq<string>)
    requires IsShuffle(order)
    ensures Inv(Deal(order), [], 0, 0, [])
  {
    DealtDeck(order);
  }

  /** `handleFlip` on an allowed card (fewer than two open, the card face
      down and unmatched) keeps the invariant: the card opens, its index
      joins the selection, and the second flip counts a move and schedules
      the resolution. */
  lemma FlipKeepsInv(cards: seq<Card>, selection: seq<nat>, moves: nat, matches: nat,
                     pending: seq<Resolution>, index: nat)
    requires Inv(cards, selection, moves, matches, pending)
    requires index < |cards|
    requires |selection| != 2 && !cards[index].flipped && !cards[index].matched
    ensures var c := cards[index := cards[index].(flipped := true)];
            var s := selection + [index];
            Inv(c, s, moves + (if |s| == 2 then 1 else 0), matches,
                pending + (if |s| == 2 then [Scheduled(c, s[0], s[1])] else []))
  {
    var c := cards[index := cards[index].(flipped := true)];
    var s := selection + [index];
    MatchedCountUpdate(cards, index, cards[index].(flipped := true));
    assert IconsOf(c) == IconsOf(cards);
    assert index !in selection;
    forall i | 0 <= i < |c| ensures (c[i].flipped && !c[i].matched <==> i in s) {
      if i != index {
        assert c[i] == cards[i];
        assert i in s <==> i in selection;
      }
    }
    if |s| == 2 {
      assert s[1] == index && s[0] == selection[0];
    }
  }

  /** Resolving two distinct open, unmatched cards adds two matched cards
      for a match and none for a mismatch. */
  lemma ResolvedCount(t: Resolution)
    requires WellFormed(t) && t.first != t.second
    requires !t.captured[t.first].matched && !t.captured[t.second].matched
    ensures MatchedCount(Applied(t)) == MatchedCount(t.captured) + (if t.isMatch then 2 else 0)
  {
    var c, f, s := t.captured, t.first, t.second;
    var c1 := if t.isMatch then c[f := c[f].(matched := true)] else c[f := c[f].(flipped := false)];
    var r := if t.isMatch then c1[s := c1[s].(matched := true)] else c1[s := c1[s].(flipped := false)];
    assert r == Applied(t);
    MatchedCountUpdate(c, f, c1[f]);
    MatchedCountUpdate(c1, s, r[s]);
  }

  /** After a resolution of the whole selection no card is open and
      unmatched, and every matched card is still face up. */
  lemma ResolvedClosed(t: Resolution, selection: seq<nat>)
    requires WellFormed(t) && |selection| == 2 && t.first == selection[0] && t.second == selection[1]
    requires forall i :: 0 <= i < |t.captured| ==>
      (t.captured[i].flipped && !t.captured[i].matched <==> i in selection)
    requires forall i :: 0 <= i < |t.captured| ==> t.captured[i].matched ==> t.captured[i].flipped
    ensures forall i :: 0 <= i < |Applied(t)| ==> !(Applied(t)[i].flipped && !Applied(t)[i].matched)
    ensures forall i :: 0 <= i < |Applied(t)| ==> Applied(t)[i].matched ==> Applied(t)[i].flipped
  {
    var r := Applied(t);
    assert t.first in selection && t.second in selection;
    forall i | 0 <= i < |r| ensures !(r[i].flipped && !r[i].matched) && (r[i].matched ==> r[i].flipped) {
      if i != t.first && i != t.second {
        assert r[i] == t.captured[i];
        assert i !in selection by {
          if i in selection {
            var k :| 0 <= k < 2 && selection[k] == i;
          }
        }
      }
    }
  }

  /** Firing the one pending resolution keeps the invariant: both cards
      become matched (and `matches` grows by one) or both turn back down,
      and the selection is cleared. */
  lemma ResolveKeepsInv(cards: seq<Card>, selection: seq<nat>, moves: nat, matches: nat,
                        pending: seq<Resolution>)
    requires Inv(cards, selection, moves, matches, pending)
    requires |pending| == 1
    ensures Inv(Applied(pending[0]), [], moves, matches + (if pending[0].isMatch then 1 else 0), [])
  {
    var t := pending[0];
    assert selection[0] in selection && selection[1] in selection;
    ResolvedCount(t);
    ResolvedClosed(t, selection);
  }

  /** The banner condition `matches === 8` holds exactly when every card
      is matched; nothing is then selected or pending. */
  lemma WonIffAllMatched(cards: seq<Card>, selection: seq<nat>, moves: nat, matches: nat,
                         pending: seq<Resolution>)
    requires Inv(cards, selection, moves, matches, pending)
    ensures matches == PAIRS <==> forall i :: 0 <= i < |cards| ==> cards[i].matched
    ensures matches == PAIRS ==> selection == [] && pending == []
  {
    AllMatchedIffFullCount(cards);
    if matches == PAIRS && |selection| > 0 {
      assert selection[0] in selection;
      assert !cards[selection[0]].matched;
    }
  }

  /** A resolution left over from an earlier deck is not cancelled by
      `initGame`: firing it brings back that deck's icon order, whatever
      the new deal was. */
  lemma StaleResolutionRestoresOldDeck(oldOrder: seq<string>, newOrder: seq<string>, t: Resolution)
    requires WellFormed(t) && IconsOf(t.captured) == oldOrder
    requires oldOrder != newOrder
    ensures IconsOf(Applied(t)) != IconsOf(Deal(newOrder))
  {
    assert IconsOf(Deal(newOrder)) == newOrder;
  }

  class Game {
    var cards: seq<Card>
    var flippedIndices: seq<nat>
    var moves: nat
    var matches: nat
    /** Timeouts scheduled and not yet fired, oldest first. */
    var pending: seq<Resolution>

    ghost predicate Valid()
      reads this
    {
      Inv(cards, flippedIndices, moves, matches, pending)
    }

    /** Mounting runs `initGame` once. */
    constructor (order: seq<string>)
      requires IsShuffle(order)
      ensures Valid()
      ensures cards == Deal(order) && flippedIndices == [] && moves == 0 && matches == 0
      ensures pending == []
    {
      cards := Deal(order);
      flippedIndices := [];
      moves := 0;
      matches := 0;
      pending := [];
      DealtInv(order);
    }

    /** `initGame` with the shuffled icon order; timeouts already
        scheduled stay pending. */
    method InitGame(order: seq<string>)
      requires IsShuffle(order)
      modifies this
      ensures cards == Deal(order) && flippedIndices == [] && moves == 0 && matches == 0
      ensures pending == old(pending)
      ensures pending == [] ==> Valid()
    {
      cards := Deal(order);
      flippedIndices := [];
      moves := 0;
      matches := 0;
      DealtInv(order);
    }

    /** `handleFlip(index)`. */
    method HandleFlip(index: nat)
      requires Valid()
      requires index < |cards|
      modifies this
      ensures Valid()
      ensures old(|flippedIndices| == 2 || cards[index].flipped || cards[index].matched) ==>
        cards == old(cards) && flippedIndices == old(flippedIndices) && moves == old(moves) &&
        matches == old(matches) && pending == old(pending)
      ensures !old(|flippedIndices| == 2 || cards[index].flipped || cards[index].matched) ==>
        && cards == old(cards)[index := old(cards)[index].(flipped := true)]
        && flippedIndices == old(flippedIndices) + [index]
        && matches == old(matches)
        && (|flippedIndices| == 2 ==>
              moves == old(moves) + 1 &&
              pending == old(pending) + [Scheduled(cards, flippedIndices[0], flippedIndices[1])])
        && (|flippedIndices| < 2 ==> moves == old(moves) && pending == old(pending))
    {
      if |flippedIndices| == 2 || cards[index].flipped || cards[index].matched {
        return;
      }
      FlipKeepsInv(cards, flippedIndices, moves, matches, pending, index);
      var newCards := cards[index := cards[index].(flipped := true)];
      var newFlipped := flippedIndices + [index];
      cards, flippedIndices := newCards, newFlipped;
      if |newFlipped| == 2 {
        moves, pending := moves + 1, pending + [Scheduled(newCards, newFlipped[0], newFlipped[1])];
      }
    }

    /** The timeout of `pending[k]` fires (600 ms after a matching pair,
        1000 ms after a mismatch). It installs the card list derived from
        the one it captured and clears the selection. */
    method Resolve(k: nat)
      requires k < |pending| && WellFormed(pending[k])
      modifies this
      ensures cards == Applied(old(pending[k]))
      ensures flippedIndices == [] && moves == old(moves)
      ensures matches == old(matches) + (if old(pending[k]).isMatch then 1 else 0)
      ensures pending == old(pending[..k] + pending[k + 1..])
      ensures old(Valid()) ==> Valid()
    {
      if Valid() {
        ResolveKeepsInv(cards, flippedIndices, moves, matches, pending);
      }
      var t := pending[k];
      cards := Applied(t);
      flippedIndices := [];
      if t.isMatch {
        matches := matches + 1;
      }
      pending := pending[..k] + pending[k + 1..];
    }
  }
}
