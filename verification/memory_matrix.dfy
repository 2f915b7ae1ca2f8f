/**
 * The memory-matching game on the games page (src/pages/Games.tsx,
 * `MemoryGame`): twelve face-down cards, two of each of six icons. A flip
 * turns a card face up; a second flip either solves a matching pair or
 * leaves the mismatch showing until a timer hides it again. The shuffle
 * is a deck passed in; the hiding timer is its own step.
 */
module MemoryMatrix {
  import opened Wrappers
  import opened Collections

  datatype Icon = Zap | Ghost | Shield | Rocket | Cpu | Sparkles

  const Icons: seq<Icon> := [Zap, Ghost, Shield, Rocket, Cpu, Sparkles]

  /** Score for each solved pair. */
  const PairReward: nat := 200

  /** Bonus added to the reported score when the last pair is solved. */
  const ClearBonus: nat := 500

  /** A shuffle of two copies of every icon. */
  predicate IsDeck(cards: seq<Icon>) {
    multiset(cards) == multiset(Icons + Icons)
  }

  datatype Memory = Memory(
    cards: seq<Icon>,
    flipped: seq<nat>,  // indices face up and unsolved, in flip order
    solved: seq<nat>,   // indices of solved cards, pair by pair
    score: nat)

  function NewGame(deck: seq<Icon>): (m: Memory)
    requires IsDeck(deck)
    ensures m == Memory(deck, [], [], 0)
    ensures Valid(m) && |m.cards| == 2 * |Icons|
  {
    assert |multiset(deck)| == |multiset(Icons + Icons)|;
    Memory(deck, [], [], 0)
  }

  /** Position of the other card of the pair that position k of `solved` belongs to. */
  function Partner(k: nat): nat {
    if k % 2 == 0 then k + 1 else k - 1
  }

  /** `solved` lists whole pairs of matching cards, one pair after another. */
  predicate PairedUp(cards: seq<Icon>, solved: seq<nat>)
    requires forall k :: 0 <= k < |solved| ==> solved[k] < |cards|
  {
    && |solved| % 2 == 0
    && forall k :: 0 <= k < |solved| ==> cards[solved[k]] == cards[solved[Partner(k)]]
  }

  /**
   * The invariant: at most two cards face up, never a solved one; a pair
   * left face up is a mismatch waiting to be hidden; `solved` lists whole
   * matching pairs; the score pays for each solved pair.
   */
  predicate Valid(m: Memory) {
    && |m.flipped| <= 2
    && (forall k :: 0 <= k < |m.flipped| ==> m.flipped[k] < |m.cards| && m.flipped[k] !in m.solved)
    && (forall k :: 0 <= k < |m.solved| ==> m.solved[k] < |m.cards|)
    && Distinct(m.flipped) && Distinct(m.solved)
    && (|m.flipped| == 2 ==> m.cards[m.flipped[0]] != m.cards[m.flipped[1]])
    && PairedUp(m.cards, m.solved)
    && m.score == PairReward * (|m.solved| / 2)
  }

  /** A flip is ignored on a face-up or solved card, or while two cards show. */
  predicate Blocked(m: Memory, i: nat) {
    i in m.flipped || i in m.solved || |m.flipped| == 2
  }

  /** The flip turns the second card of a matching pair. */
  predicate Completes(m: Memory, i: nat)
    requires i < |m.cards| && (forall k :: 0 <= k < |m.flipped| ==> m.flipped[k] < |m.cards|)
  {
    !Blocked(m, i) && |m.flipped| == 1 && m.cards[m.flipped[0]] == m.cards[i]
  }

  /** The state after a flip and the score reported when the board is cleared. */
  datatype Outcome = Outcome(state: Memory, clearScore: Option<nat>)

  function Flip(m: Memory, i: nat): (o: Outcome)
    requires i < |m.cards|
    requires forall k :: 0 <= k < |m.flipped| ==> m.flipped[k] < |m.cards|
    ensures o.state.cards == m.cards
    ensures Blocked(m, i) ==> o == Outcome(m, None)
    // a matching second card solves the pair at once
    ensures Completes(m, i) ==>
      && o.state.solved == m.solved + [m.flipped[0], i]
      && o.state.flipped == []
      && o.state.score == m.score + PairReward
    // any other honoured flip just turns the card face up
    ensures !Blocked(m, i) && !Completes(m, i) ==>
      o.state == m.(flipped := m.flipped + [i]) && o.clearScore.None?
    // the page hears about the game only when the last pair is solved
    ensures o.clearScore.Some? <==> Completes(m, i) && |o.state.solved| == |m.cards|
    ensures o.clearScore.Some? ==> o.clearScore.value == m.score + ClearBonus
  {
    if i in m.flipped || i in m.solved || |m.flipped| == 2 then Outcome(m, None)
    else
      var newFlipped := m.flipped + [i];
      if |newFlipped| == 2 && m.cards[newFlipped[0]] == m.cards[newFlipped[1]] then
        var next := m.(solved := m.solved + newFlipped, flipped := [], score := m.score + PairReward);
        Outcome(next, if |m.solved| + 2 == |m.cards| then Some(m.score + ClearBonus) else None)
      else
        Outcome(m.(flipped := newFlipped), None)
  }

  /** The timer after a mismatch turns both cards face down again. */
  function HideMismatch(m: Memory): (r: Memory)
    ensures r.flipped == [] && r == m.(flipped := [])
  {
    m.(flipped := [])
  }

  lemma FlipPreservesValid(m: Memory, i: nat)
    requires Valid(m) && i < |m.cards|
    ensures Valid(Flip(m, i).state)
  {
    if Completes(m, i) {
      SolvingKeepsPairs(m, i);
    } else if !Blocked(m, i) {
      var r := Flip(m, i).state;
      assert r.flipped == m.flipped + [i];
    }
  }

  /** Solving a pair appends two matching cards, so `solved` still lists whole pairs. */
  lemma SolvingKeepsPairs(m: Memory, i: nat)
    requires Valid(m) && i < |m.cards| && Completes(m, i)
    ensures Valid(Flip(m, i).state)
  {
    var r := Flip(m, i).state;
    assert r.solved == m.solved + [m.flipped[0], i];
    assert m.flipped[0] !in m.solved && i !in m.solved && m.flipped[0] != i;
    AppendPair(m.cards, m.solved, m.flipped[0], i);
  }

  lemma AppendPair(cards: seq<Icon>, solved: seq<nat>, a: nat, b: nat)
    requires forall k :: 0 <= k < |solved| ==> solved[k] < |cards|
    requires PairedUp(cards, solved) && Distinct(solved)
    requires a < |cards| && b < |cards| && a != b && a !in solved && b !in solved
    requires cards[a] == cards[b]
    ensures PairedUp(cards, solved + [a, b]) && Distinct(solved + [a, b])
  {
    var r, n := solved + [a, b], |solved|;
    forall k | 0 <= k < |r|
      ensures cards[r[k]] == cards[r[Partner(k)]]
    {
      if k < n {
        assert Partner(k) < n;
      }
    }
  }

  lemma HideMismatchPreservesValid(m: Memory)
    requires Valid(m)
    ensures Valid(HideMismatch(m))
  {
  }

  /** Solved cards stay solved and the score never falls. */
  lemma FlipOnlyAddsSolved(m: Memory, i: nat)
    requires Valid(m) && i < |m.cards|
    ensures m.solved <= Flip(m, i).state.solved
    ensures |Flip(m, i).state.solved| <= |m.solved| + 2
    ensures m.score <= Flip(m, i).state.score
  {
  }

  // ---------------------------------------------------------------------
  // Clearing the board
  // ---------------------------------------------------------------------

  /** The card positions below n. */
  function Range(n: nat): (r: set<nat>)
    ensures forall k: nat :: k in r <==> k < n
  {
    if n == 0 then {} else Range(n - 1) + {n - 1}
  }

  lemma {:induction false} RangeCount(n: nat)
    ensures |Range(n)| == n
  {
    if n > 0 {
      RangeCount(n - 1);
    }
  }

  /** Once every card is solved, none can be face up. */
  lemma ClearedHasNothingFlipped(m: Memory)
    requires Valid(m) && |m.solved| == |m.cards|
    ensures m.flipped == []
  {
    if m.flipped != [] {
      var f := m.flipped[0];
      DistinctElemsCount(m.solved);
      RangeCount(|m.cards|);
      assert Elems(m.solved) + {f} <= Range(|m.cards|);
      SubsetCount(Elems(m.solved) + {f}, Range(|m.cards|));
      assert false;
    }
  }

  /**
   * The reset button, shown once the board is cleared: a new shuffle, no
   * solved cards and a zero score. The face-up list is left as it is,
   * which is empty at that point.
   */
  function Reset(m: Memory, deck: seq<Icon>): (r: Memory)
    requires IsDeck(deck)
    ensures r.cards == deck && r.solved == [] && r.score == 0 && r.flipped == m.flipped
  {
    m.(cards := deck, solved := [], score := 0)
  }

  lemma ResetAfterClearIsNewGame(m: Memory, deck: seq<Icon>)
    requires Valid(m) && |m.solved| == |m.cards| && IsDeck(deck)
    ensures Reset(m, deck) == NewGame(deck)
  {
    ClearedHasNothingFlipped(m);
  }

  /** Two quick flips of a matching pair solve it and pay 200. */
  lemma MatchingPairScores()
    ensures
      var m := Memory([Zap, Ghost, Zap, Ghost], [], [], 0);
      var o := Flip(Flip(m, 0).state, 2);
      o.state.solved == [0, 2] && o.state.flipped == [] && o.state.score == 200 && o.clearScore.None?
  {
  }
}
