/**
 * `nj/worklist.py`: the list rebalancer of `arg_sort` and the display order of
 * `arg_list`.
 *
 * `arg_sort` visits every list of the board. A list with no cards, or the list
 * named `done`, is skipped. Otherwise the smallest and largest card positions
 * are read, the cards are stably sorted by due date-time (undated cards keyed as
 * `datetime.max`), and the card at sorted index `idx` is moved to
 * `min_pos + idx * (max_pos - min_pos) / (len_cards - 1)` when it is not there
 * already. A list of exactly one card divides by zero.
 */
module Worklist {
  import opened Wrappers
  import opened Calendar
  import opened Decimal
  import opened Strings
  import opened Trello
  import StableSort

  // ---------------------------------------------------------------------
  // The rebalancing of one list, as values
  // ---------------------------------------------------------------------

  /** The sort key of `arg_sort`: the due date-time, or `datetime.max` for an undated card. */
  function SortKey(c: Card): DateTime {
    if c.due.Some? then c.due.value else MaxDateTime
  }

  function SortKeys(cs: seq<Card>): seq<DateTime> {
    seq(|cs|, i requires 0 <= i < |cs| => SortKey(cs[i]))
  }

  /** The order in which `arg_sort` visits the cards of a list: indices of `cs`, stably sorted by due date-time. */
  function SortOrder(cs: seq<Card>): seq<nat> {
    StableSort.Order(DateTimeLess, SortKeys(cs))
  }

  /** Card `i` is visited before card `j`: an earlier due date-time, or the same one and a smaller index. */
  predicate SortedBefore(cs: seq<Card>, i: nat, j: nat)
    requires i < |cs| && j < |cs|
  {
    StableSort.Before(DateTimeLess, SortKeys(cs), i, j)
  }

  /** The smallest position of any card in the list. */
  function MinPos(cs: seq<Card>): (m: real)
    requires |cs| > 0
    ensures exists i :: 0 <= i < |cs| && cs[i].pos == m
    ensures forall i :: 0 <= i < |cs| ==> m <= cs[i].pos
  {
    if |cs| == 1 then cs[0].pos
    else
      var rest := MinPos(cs[1..]);
      assert forall i :: 1 <= i < |cs| ==> cs[i] == cs[1..][i - 1];
      if cs[0].pos <= rest then cs[0].pos else rest
  }

  /** The largest position of any card in the list. */
  function MaxPos(cs: seq<Card>): (m: real)
    requires |cs| > 0
    ensures exists i :: 0 <= i < |cs| && cs[i].pos == m
    ensures forall i :: 0 <= i < |cs| ==> cs[i].pos <= m
  {
    if |cs| == 1 then cs[0].pos
    else
      var rest := MaxPos(cs[1..]);
      assert forall i :: 1 <= i < |cs| ==> cs[i] == cs[1..][i - 1];
      if cs[0].pos >= rest then cs[0].pos else rest
  }

  /** The position `arg_sort` gives to the card at sorted index `idx`. */
  function Target(cs: seq<Card>, idx: nat): real
    requires |cs| >= 2
  {
    Interpolated(MinPos(cs), MaxPos(cs), idx, |cs|)
  }

  /**
   * The point `idx / (count - 1)` of the way from `lo` to `hi`: `count` points spread
   * evenly over the range, the first at `lo` and the last at `hi`.
   */
  function Interpolated(lo: real, hi: real, idx: nat, count: nat): real
    requires count >= 2
  {
    lo + (idx as real * (hi - lo)) / ((count - 1) as real)
  }

  /** The list after the cards at sorted indices `0..k-1` have been moved to their targets. */
  function Placed(cs: seq<Card>, k: nat): (r: seq<Card>)
    requires |cs| >= 2 && k <= |cs|
    ensures |r| == |cs|
  {
    if k == 0 then cs
    else
      var prev := Placed(cs, k - 1);
      var i := SortOrder(cs)[k - 1];
      prev[i := prev[i].(pos := Target(cs, k - 1))]
  }

  /** The list as `arg_sort` leaves it. */
  function Rebalanced(cs: seq<Card>): seq<Card>
    requires |cs| >= 2
  {
    Placed(cs, |cs|)
  }

  /** One `card.set_pos(target_pos)` call: the index of the card in the list and its new position. */
  datatype Write = SetPos(card: nat, pos: real)

  /** The `set_pos` calls made for sorted indices `0..k-1`: only where the position changes. */
  function WritesUpTo(cs: seq<Card>, k: nat): seq<Write>
    requires |cs| >= 2 && k <= |cs|
  {
    if k == 0 then []
    else
      var i := SortOrder(cs)[k - 1];
      WritesUpTo(cs, k - 1) + (if cs[i].pos != Target(cs, k - 1) then [SetPos(i, Target(cs, k - 1))] else [])
  }

  /** Every `set_pos` call `arg_sort` makes on a list, in order. */
  function PlannedWrites(cs: seq<Card>): seq<Write>
    requires |cs| >= 2
  {
    WritesUpTo(cs, |cs|)
  }

  /** The lists `arg_sort` leaves alone: empty ones and the one named `done`. */
  predicate Skipped(name: string, cs: seq<Card>) {
    |cs| == 0 || name == "done"
  }

  // ---------------------------------------------------------------------
  // Properties of the rebalancing
  // ---------------------------------------------------------------------

  /** Due date-times compare as a strict total order on every list. */
  lemma SortKeysTotal(cs: seq<Card>)
    ensures StableSort.StrictTotalOn(DateTimeLess, SortKeys(cs))
  {
    var ks := SortKeys(cs);
    forall i, j, l | 0 <= i < |ks| && 0 <= j < |ks| && 0 <= l < |ks|
      ensures !DateTimeLess(ks[i], ks[i])
      ensures DateTimeLess(ks[i], ks[j]) && DateTimeLess(ks[j], ks[l]) ==> DateTimeLess(ks[i], ks[l])
      ensures ks[i] != ks[j] ==> DateTimeLess(ks[i], ks[j]) || DateTimeLess(ks[j], ks[i])
    {
      DateTimeLessIsStrictTotal(ks[i], ks[j], ks[l]);
    }
  }

  /**
   * The targets run from `min_pos` (first sorted card) to `max_pos` (last one),
   * never decrease, and strictly increase when the positions were not all equal.
   */
  lemma TargetRange(cs: seq<Card>, a: nat, b: nat)
    requires |cs| >= 2 && a <= b < |cs|
    ensures Target(cs, 0) == MinPos(cs) && Target(cs, |cs| - 1) == MaxPos(cs)
    ensures MinPos(cs) <= Target(cs, a) <= Target(cs, b) <= MaxPos(cs)
    ensures a < b && MinPos(cs) < MaxPos(cs) ==> Target(cs, a) < Target(cs, b)
  {
    assert MinPos(cs) <= cs[0].pos <= MaxPos(cs);
    InterpolatedRange(MinPos(cs), MaxPos(cs), a, b, |cs|);
  }

  /** The interpolation runs from `lo` at index 0 to `hi` at the last index, growing with the index. */
  lemma InterpolatedRange(lo: real, hi: real, a: nat, b: nat, count: nat)
    requires lo <= hi && 2 <= count && a <= b < count
    ensures Interpolated(lo, hi, 0, count) == lo && Interpolated(lo, hi, count - 1, count) == hi
    ensures lo <= Interpolated(lo, hi, a, count) <= Interpolated(lo, hi, b, count) <= hi
    ensures a < b && lo < hi ==> Interpolated(lo, hi, a, count) < Interpolated(lo, hi, b, count)
  {
    InterpolatedEnds(lo, hi, count);
    InterpolatedMonotone(lo, hi, 0, a, count);
    InterpolatedMonotone(lo, hi, a, b, count);
    InterpolatedMonotone(lo, hi, b, count - 1, count);
  }

  lemma InterpolatedEnds(lo: real, hi: real, count: nat)
    requires 2 <= count
    ensures Interpolated(lo, hi, 0, count) == lo && Interpolated(lo, hi, count - 1, count) == hi
  {
    var steps := (count - 1) as real;
    DivideBack(hi - lo, steps);
  }

  lemma InterpolatedMonotone(lo: real, hi: real, a: nat, b: nat, count: nat)
    requires lo <= hi && 2 <= count && a <= b
    ensures Interpolated(lo, hi, a, count) <= Interpolated(lo, hi, b, count)
    ensures a < b && lo < hi ==> Interpolated(lo, hi, a, count) < Interpolated(lo, hi, b, count)
  {
    Scaled(hi - lo, (count - 1) as real, a as real, b as real);
  }

  /** Scaling by a non-negative span over a positive step count is monotone in the scaled value. */
  lemma Scaled(span: real, steps: real, x: real, y: real)
    requires span >= 0.0 && steps > 0.0 && x <= y
    ensures (x * span) / steps <= (y * span) / steps
    ensures x < y && span > 0.0 ==> (x * span) / steps < (y * span) / steps
  {
    if x < y && span > 0.0 {
      ScaledStrict(span, steps, x, y);
    } else {
      ScaleMonotone(x, y, span);
      DivideMonotone(x * span, y * span, steps);
    }
  }

  lemma ScaledStrict(span: real, steps: real, x: real, y: real)
    requires x < y && span > 0.0 && steps > 0.0
    ensures (x * span) / steps < (y * span) / steps
  {
    ScaleStrict(x, y, span);
    DivideStrict(x * span, y * span, steps);
  }

  lemma ScaleMonotone(x: real, y: real, f: real)
    requires x <= y && f >= 0.0
    ensures x * f <= y * f
  {
    assert y * f - x * f == (y - x) * f;
  }

  lemma ScaleStrict(x: real, y: real, f: real)
    requires x < y && f > 0.0
    ensures x * f < y * f
  {
    assert y * f - x * f == (y - x) * f;
  }

  lemma DivideMonotone(p: real, q: real, d: real)
    requires d > 0.0 && p <= q
    ensures p / d <= q / d
  {
    assert q / d - p / d == (q - p) / d;
  }

  lemma DivideStrict(p: real, q: real, d: real)
    requires d > 0.0 && p < q
    ensures p / d < q / d
  {
    assert q / d - p / d == (q - p) / d;
  }

  lemma DivideBack(span: real, steps: real)
    requires steps > 0.0
    ensures (0.0 * span) / steps == 0.0 && (steps * span) / steps == span
  {
  }

  /**
   * After the first `k` sorted cards are placed, each of them sits at its target
   * with nothing else changed, and every later card is as it was.
   */
  lemma {:induction false} PlacedSpec(cs: seq<Card>, k: nat)
    requires |cs| >= 2 && k <= |cs|
    ensures forall j :: 0 <= j < k ==>
      Placed(cs, k)[SortOrder(cs)[j]] == cs[SortOrder(cs)[j]].(pos := Target(cs, j))
    ensures forall j :: k <= j < |cs| ==> Placed(cs, k)[SortOrder(cs)[j]] == cs[SortOrder(cs)[j]]
  {
    if k > 0 {
      PlacedSpec(cs, k - 1);
    }
  }

  /** A card not yet reached in the sorted order is untouched. */
  lemma PlacedLater(cs: seq<Card>, k: nat, j: nat)
    requires |cs| >= 2 && k <= j < |cs|
    ensures Placed(cs, k)[SortOrder(cs)[j]] == cs[SortOrder(cs)[j]]
  {
    PlacedSpec(cs, k);
  }

  /** The new position of every card is its target, by its sorted index; nothing else about a card changes. */
  lemma RebalancedSpec(cs: seq<Card>, j: nat)
    requires |cs| >= 2 && j < |cs|
    ensures |Rebalanced(cs)| == |cs|
    ensures Rebalanced(cs)[SortOrder(cs)[j]] == cs[SortOrder(cs)[j]].(pos := Target(cs, j))
  {
    PlacedSpec(cs, |cs|);
  }

  /**
   * One turn of the loop: the card at sorted index `k` is still as it was, moves
   * to its target, and a `set_pos` call is made only when its position changes.
   */
  lemma PlacedStep(cs: seq<Card>, k: nat)
    requires |cs| >= 2 && k < |cs|
    ensures var i, t := SortOrder(cs)[k], Target(cs, k);
      && i < |cs|
      && Placed(cs, k)[i] == cs[i]
      && Placed(cs, k + 1) == Placed(cs, k)[i := cs[i].(pos := t)]
      && WritesUpTo(cs, k + 1) == WritesUpTo(cs, k) + (if cs[i].pos != t then [SetPos(i, t)] else [])
  {
    PlacedLater(cs, k, k);
  }

  /** The sorted index at which `arg_sort` visits card `i`. */
  lemma SortedIndexOf(cs: seq<Card>, i: nat) returns (j: nat)
    requires i < |cs|
    ensures j < |cs| && SortOrder(cs)[j] == i
  {
    assert i in SortOrder(cs);
    j :| 0 <= j < |SortOrder(cs)| && SortOrder(cs)[j] == i;
  }

  /** Rebalancing changes only positions, and every new position lies in `[min_pos, max_pos]`. */
  lemma RebalancedBounds(cs: seq<Card>)
    requires |cs| >= 2
    ensures |Rebalanced(cs)| == |cs|
    ensures forall i :: 0 <= i < |cs| ==>
      Rebalanced(cs)[i] == cs[i].(pos := Rebalanced(cs)[i].pos)
      && MinPos(cs) <= Rebalanced(cs)[i].pos <= MaxPos(cs)
  {
    forall i | 0 <= i < |cs|
      ensures Rebalanced(cs)[i] == cs[i].(pos := Rebalanced(cs)[i].pos)
      ensures MinPos(cs) <= Rebalanced(cs)[i].pos <= MaxPos(cs)
    {
      var j := SortedIndexOf(cs, i);
      RebalancedSpec(cs, j);
      TargetRange(cs, j, j);
    }
  }

  /** The first card in due order ends at `min_pos` and the last at `max_pos`. */
  lemma RebalancedEnds(cs: seq<Card>)
    requires |cs| >= 2
    ensures Rebalanced(cs)[SortOrder(cs)[0]].pos == MinPos(cs)
    ensures Rebalanced(cs)[SortOrder(cs)[|cs| - 1]].pos == MaxPos(cs)
  {
    RebalancedSpec(cs, 0);
    RebalancedSpec(cs, |cs| - 1);
    TargetRange(cs, 0, |cs| - 1);
  }

  /**
   * Positions follow the stable due-date order: a card sorted earlier never ends
   * after a card sorted later, and ends strictly before it unless all positions
   * were equal.
   */
  lemma RebalancedFollowsDueOrder(cs: seq<Card>, i: nat, k: nat)
    requires |cs| >= 2 && i < |cs| && k < |cs|
    requires SortedBefore(cs, i, k)
    ensures Rebalanced(cs)[i].pos <= Rebalanced(cs)[k].pos
    ensures MinPos(cs) < MaxPos(cs) ==> Rebalanced(cs)[i].pos < Rebalanced(cs)[k].pos
  {
    SortKeysTotal(cs);
    var a := SortedIndexOf(cs, i);
    var b := SortedIndexOf(cs, k);
    StableSort.OrderPositions(DateTimeLess, SortKeys(cs), a, b);
    RebalancedSpec(cs, a);
    RebalancedSpec(cs, b);
    TargetRange(cs, a, b);
  }

  /** Every card due before `datetime.max` ends strictly before every undated card, unless all positions were equal. */
  lemma DatedBeforeUndated(cs: seq<Card>, i: nat, k: nat)
    requires |cs| >= 2 && i < |cs| && k < |cs|
    requires cs[i].due.Some? && cs[i].due.value != MaxDateTime && ValidDateTime(cs[i].due.value)
    requires cs[k].due.None?
    requires MinPos(cs) < MaxPos(cs)
    ensures Rebalanced(cs)[i].pos < Rebalanced(cs)[k].pos
  {
    BelowMaxDateTime(cs[i].due.value);
    RebalancedFollowsDueOrder(cs, i, k);
  }

  /** The `set_pos` calls are exactly the cards whose position changes, each with its new position. */
  lemma {:induction false} WritesUpToSpec(cs: seq<Card>, k: nat)
    requires |cs| >= 2 && k <= |cs|
    ensures forall w :: w in WritesUpTo(cs, k) ==>
      exists j :: 0 <= j < k && w == SetPos(SortOrder(cs)[j], Target(cs, j))
                 && cs[SortOrder(cs)[j]].pos != Target(cs, j)
    ensures forall j :: 0 <= j < k && cs[SortOrder(cs)[j]].pos != Target(cs, j) ==>
      SetPos(SortOrder(cs)[j], Target(cs, j)) in WritesUpTo(cs, k)
  {
    if k > 0 {
      WritesUpToSpec(cs, k - 1);
    }
  }

  /** A `set_pos` call is made for a card exactly when its position changes, and it sets the new position. */
  lemma PlannedWritesSpec(cs: seq<Card>, i: nat)
    requires |cs| >= 2 && i < |cs|
    ensures (exists w :: w in PlannedWrites(cs) && w.card == i) <==> cs[i].pos != Rebalanced(cs)[i].pos
    ensures forall w :: w in PlannedWrites(cs) ==> w.card < |cs| && w.pos == Rebalanced(cs)[w.card].pos
  {
    WritesUpToSpec(cs, |cs|);
    var j := SortedIndexOf(cs, i);
    RebalancedSpec(cs, j);
    forall w | w in PlannedWrites(cs) ensures w.card < |cs| && w.pos == Rebalanced(cs)[w.card].pos {
      var b :| 0 <= b < |cs| && w == SetPos(SortOrder(cs)[b], Target(cs, b));
      RebalancedSpec(cs, b);
    }
    if exists w :: w in PlannedWrites(cs) && w.card == i {
      var w :| w in PlannedWrites(cs) && w.card == i;
      var b :| 0 <= b < |cs| && w == SetPos(SortOrder(cs)[b], Target(cs, b))
               && cs[SortOrder(cs)[b]].pos != Target(cs, b);
      assert b == j;
    }
  }

  /** When all cards share one position, nothing moves. */
  lemma AllEqualStays(cs: seq<Card>)
    requires |cs| >= 2
    requires forall i :: 0 <= i < |cs| ==> cs[i].pos == cs[0].pos
    ensures Rebalanced(cs) == cs
  {
    var r := Rebalanced(cs);
    var lo :| 0 <= lo < |cs| && cs[lo].pos == MinPos(cs);
    var hi :| 0 <= hi < |cs| && cs[hi].pos == MaxPos(cs);
    RebalancedBounds(cs);
    forall i | 0 <= i < |cs| ensures r[i] == cs[i] {
      assert r[i].pos == cs[i].pos;
    }
  }

  /** No `set_pos` call is made while every card visited so far already sits at its target. */
  lemma {:induction false} WritesUpToEmpty(cs: seq<Card>, k: nat)
    requires |cs| >= 2 && k <= |cs|
    requires forall j :: 0 <= j < k ==> cs[SortOrder(cs)[j]].pos == Target(cs, j)
    ensures WritesUpTo(cs, k) == []
  {
    if k > 0 {
      WritesUpToEmpty(cs, k - 1);
    }
  }

  /** A rebalance that moves nothing makes no `set_pos` call. */
  lemma NoMoveNoWrites(cs: seq<Card>)
    requires |cs| >= 2 && Rebalanced(cs) == cs
    ensures PlannedWrites(cs) == []
  {
    forall j | 0 <= j < |cs| ensures cs[SortOrder(cs)[j]].pos == Target(cs, j) {
      RebalancedSpec(cs, j);
    }
    WritesUpToEmpty(cs, |cs|);
  }

  /** When all cards share one position, nothing is written and nothing moves. */
  lemma AllEqualIsNoop(cs: seq<Card>)
    requires |cs| >= 2
    requires forall i :: 0 <= i < |cs| ==> cs[i].pos == cs[0].pos
    ensures PlannedWrites(cs) == []
    ensures Rebalanced(cs) == cs
  {
    AllEqualStays(cs);
    NoMoveNoWrites(cs);
  }

  /** The extreme positions survive a rebalance. */
  lemma RebalancedKeepsRange(cs: seq<Card>)
    requires |cs| >= 2
    ensures MinPos(Rebalanced(cs)) == MinPos(cs) && MaxPos(Rebalanced(cs)) == MaxPos(cs)
  {
    var r := Rebalanced(cs);
    RebalancedBounds(cs);
    RebalancedEnds(cs);
    assert SortOrder(cs)[0] < |r| && SortOrder(cs)[|cs| - 1] < |r|;
    var lo :| 0 <= lo < |r| && r[lo].pos == MinPos(r);
    var hi :| 0 <= hi < |r| && r[hi].pos == MaxPos(r);
    assert MinPos(r) <= r[SortOrder(cs)[0]].pos;
    assert r[SortOrder(cs)[|cs| - 1]].pos <= MaxPos(r);
  }

  /** A rebalanced list sorts in the same order and has the same targets. */
  lemma RebalancedSameOrder(cs: seq<Card>)
    requires |cs| >= 2
    ensures |Rebalanced(cs)| == |cs|
    ensures SortOrder(Rebalanced(cs)) == SortOrder(cs)
    ensures forall j :: 0 <= j < |cs| ==> Target(Rebalanced(cs), j) == Target(cs, j)
  {
    var r := Rebalanced(cs);
    RebalancedBounds(cs);
    RebalancedKeepsRange(cs);
    SameDuesSameKeys(cs, r);
  }

  lemma SameDuesSameKeys(cs: seq<Card>, ds: seq<Card>)
    requires |cs| == |ds|
    requires forall i :: 0 <= i < |cs| ==> ds[i] == cs[i].(pos := ds[i].pos)
    ensures SortKeys(ds) == SortKeys(cs)
  {
    forall i | 0 <= i < |cs| ensures SortKeys(ds)[i] == SortKeys(cs)[i] {
      assert ds[i].due == cs[i].due;
    }
  }

  /** Sorting a list a second time writes nothing and moves nothing. */
  lemma RebalanceIdempotent(cs: seq<Card>)
    requires |cs| >= 2
    ensures Rebalanced(Rebalanced(cs)) == Rebalanced(cs)
    ensures PlannedWrites(Rebalanced(cs)) == []
  {
    var r := Rebalanced(cs);
    RebalancedSameOrder(cs);
    forall i | 0 <= i < |r| ensures Rebalanced(r)[i] == r[i] {
      var j := SortedIndexOf(cs, i);
      RebalancedSpec(cs, j);
      RebalancedSpec(r, j);
    }
    assert |Rebalanced(r)| == |r|;
    NoMoveNoWrites(r);
  }

  // ---------------------------------------------------------------------
  // arg_sort, imperatively
  // ---------------------------------------------------------------------

  /**
   * The body of `arg_sort`'s loop for one list, moving cards in place. Returns
   * the `set_pos` calls made, or the `ZeroDivisionError` a one-card list raises.
   */
  method SortList(name: string, cards: array<Card>) returns (r: Result<seq<Write>, Exception>)
    modifies cards
    ensures Skipped(name, old(cards[..])) ==> r == Success([]) && cards[..] == old(cards[..])
    ensures !Skipped(name, old(cards[..])) && cards.Length == 1 ==>
      r == Failure(ZeroDivisionError) && cards[..] == old(cards[..])
    ensures !Skipped(name, old(cards[..])) && cards.Length >= 2 ==>
      r == Success(PlannedWrites(old(cards[..]))) && cards[..] == Rebalanced(old(cards[..]))
  {
    var cs := cards[..];
    if cards.Length == 0 || name == "done" {
      return Success([]);
    }
    var minPos := MinPos(cs);
    var maxPos := MaxPos(cs);
    var lenCards := cards.Length;
    var order := SortOrder(cs);
    var writes: seq<Write> := [];
    var idx := 0;
    while idx < lenCards
      invariant 0 <= idx <= lenCards
      invariant lenCards == 1 ==> idx == 0 && cards[..] == cs
      invariant lenCards >= 2 ==> cards[..] == Placed(cs, idx) && writes == WritesUpTo(cs, idx)
    {
      if lenCards - 1 == 0 {
        return Failure(ZeroDivisionError);
      }
      var targetPos := Interpolated(minPos, maxPos, idx, lenCards);
      var i := order[idx];
      PlacedStep(cs, idx);
      if cards[i].pos != targetPos {
        cards[i] := cards[i].(pos := targetPos);
        writes := writes + [SetPos(i, targetPos)];
      } else {
        assert cards[i].(pos := targetPos) == cards[i];
      }
      idx := idx + 1;
    }
    return Success(writes);
  }

  /** A list of `arg_sort`'s board: its name and its cards. */
  datatype CardList = CardList(name: string, cards: array<Card>)

  /** What a completed `arg_sort` leaves in a list. */
  function AfterSort(name: string, cs: seq<Card>): seq<Card> {
    if Skipped(name, cs) || |cs| < 2 then cs else Rebalanced(cs)
  }

  /** A list on which `arg_sort` raises `ZeroDivisionError`. */
  predicate DividesByZero(name: string, cs: seq<Card>) {
    !Skipped(name, cs) && |cs| == 1
  }

  /**
   * `arg_sort`: rebalance the lists in board order. The first list of exactly one
   * card raises `ZeroDivisionError`, which ends the run: its index is returned,
   * the lists before it are sorted and it and the lists after it are untouched.
   */
  method SortBoard(lists: seq<CardList>) returns (failed: Option<nat>)
    requires forall a, b :: 0 <= a < |lists| && 0 <= b < |lists| && a != b ==> lists[a].cards != lists[b].cards
    modifies set l | l in lists :: l.cards
    ensures failed.None? ==> forall k :: 0 <= k < |lists| ==>
      !DividesByZero(lists[k].name, old(lists[k].cards[..]))
      && lists[k].cards[..] == AfterSort(lists[k].name, old(lists[k].cards[..]))
    ensures failed.Some? ==>
      && failed.value < |lists|
      && DividesByZero(lists[failed.value].name, old(lists[failed.value].cards[..]))
      && (forall k :: 0 <= k < failed.value ==>
            !DividesByZero(lists[k].name, old(lists[k].cards[..]))
            && lists[k].cards[..] == AfterSort(lists[k].name, old(lists[k].cards[..])))
      && (forall k :: failed.value <= k < |lists| ==> lists[k].cards[..] == old(lists[k].cards[..]))
  {
    var k := 0;
    while k < |lists|
      invariant 0 <= k <= |lists|
      invariant forall j :: 0 <= j < k ==>
        !DividesByZero(lists[j].name, old(lists[j].cards[..]))
        && lists[j].cards[..] == AfterSort(lists[j].name, old(lists[j].cards[..]))
      invariant forall j :: k <= j < |lists| ==> lists[j].cards[..] == old(lists[j].cards[..])
    {
      var outcome := SortList(lists[k].name, lists[k].cards);
      if outcome.Failure? {
        return Some(k);
      }
      k := k + 1;
    }
    return None;
  }

  // ---------------------------------------------------------------------
  // arg_list's display order
  // ---------------------------------------------------------------------

  /** The offset and fraction part of `str(due_date)`: `[.ffffff]+00:00`. */
  function FractionText(us: nat): string {
    if us == 0 then "+00:00" else "." + (Pad(us, 6) + "+00:00")
  }

  /** `str(due_date)` for a due date-time in UTC: `YYYY-MM-DD HH:MM:SS[.ffffff]+00:00`. */
  function DueText(t: DateTime): string
    requires ValidDateTime(t)
  {
    Pad(t.date.year, 4) + ("-" + MonthText(t))
  }

  /** `DueText` from the month on: `MM-DD HH:MM:SS[.ffffff]+00:00`. */
  function MonthText(t: DateTime): string
    requires ValidDateTime(t)
  {
    Pad(t.date.month, 2) + ("-" + DayText(t))
  }

  function DayText(t: DateTime): string
    requires ValidDateTime(t)
  {
    Pad(t.date.day, 2) + (" " + HourText(t))
  }

  function HourText(t: DateTime): string
    requires ValidDateTime(t)
  {
    Pad(t.hour, 2) + (":" + MinuteText(t))
  }

  function MinuteText(t: DateTime): string
    requires ValidDateTime(t)
  {
    Pad(t.minute, 2) + (":" + SecondText(t))
  }

  function SecondText(t: DateTime): string
    requires ValidDateTime(t)
  {
    Pad(t.second, 2) + FractionText(t.microsecond)
  }

  /** Every due date-time a card can hold. */
  predicate ValidDues(cs: seq<Card>) {
    forall i :: 0 <= i < |cs| && cs[i].due.Some? ==> ValidDateTime(cs[i].due.value)
  }

  /** The text `arg_list` sorts a card by: its due date-time as `str` prints it, or `'zzz'` when undated. */
  function DisplayKey(c: Card): string
    requires c.due.Some? ==> ValidDateTime(c.due.value)
  {
    if c.due.Some? then DueText(c.due.value) else "zzz"
  }

  function DisplayKeys(cs: seq<Card>): seq<string>
    requires ValidDues(cs)
  {
    seq(|cs|, i requires 0 <= i < |cs| => DisplayKey(cs[i]))
  }

  /** The order in which `arg_list` prints the cards of a list. */
  function DisplayOrder(cs: seq<Card>): seq<nat>
    requires ValidDues(cs)
  {
    StableSort.Order(LexLess, DisplayKeys(cs))
  }

  lemma DisplayKeysTotal(cs: seq<Card>)
    requires ValidDues(cs)
    ensures StableSort.StrictTotalOn(LexLess, DisplayKeys(cs))
  {
    var ks := DisplayKeys(cs);
    forall i, j, l | 0 <= i < |ks| && 0 <= j < |ks| && 0 <= l < |ks|
      ensures !LexLess(ks[i], ks[i])
      ensures LexLess(ks[i], ks[j]) && LexLess(ks[j], ks[l]) ==> LexLess(ks[i], ks[l])
      ensures ks[i] != ks[j] ==> LexLess(ks[i], ks[j]) || LexLess(ks[j], ks[i])
    {
      LexLessIsStrictTotal(ks[i], ks[j], ks[l]);
    }
  }

  /** The texts of later date-times sort later: `str` preserves chronological order. */
  lemma DueTextOrder(a: DateTime, b: DateTime)
    requires ValidDateTime(a) && ValidDateTime(b) && DateTimeLess(a, b)
    ensures LexLess(DueText(a), DueText(b))
  {
    // The comparison is decided by the first field in which the two differ.
    assert Pow10(2) == 100 && Pow10(4) == 10000;
    if a.second < b.second || (a.second == b.second && a.microsecond < b.microsecond) {
      SecondTextOrder(a, b);
    }
    if a.minute < b.minute || (a.minute == b.minute && LexLess(SecondText(a), SecondText(b))) {
      FieldThenRest(a.minute, b.minute, 2, ":", SecondText(a), SecondText(b));
    }
    if a.hour < b.hour || (a.hour == b.hour && LexLess(MinuteText(a), MinuteText(b))) {
      FieldThenRest(a.hour, b.hour, 2, ":", MinuteText(a), MinuteText(b));
    }
    if a.date.day < b.date.day || (a.date.day == b.date.day && LexLess(HourText(a), HourText(b))) {
      FieldThenRest(a.date.day, b.date.day, 2, " ", HourText(a), HourText(b));
    }
    if a.date.month < b.date.month || (a.date.month == b.date.month && LexLess(DayText(a), DayText(b))) {
      FieldThenRest(a.date.month, b.date.month, 2, "-", DayText(a), DayText(b));
    }
    FieldThenRest(a.date.year, b.date.year, 4, "-", MonthText(a), MonthText(b));
  }

  /** Seconds, then the fraction: the earlier (second, microsecond) pair has the smaller text. */
  lemma SecondTextOrder(a: DateTime, b: DateTime)
    requires ValidDateTime(a) && ValidDateTime(b)
    requires a.second < b.second || (a.second == b.second && a.microsecond < b.microsecond)
    ensures LexLess(SecondText(a), SecondText(b))
  {
    assert Pow10(2) == 100;
    if a.second == b.second {
      FractionOrder(a.microsecond, b.microsecond);
    }
    FieldOrder(a.second, b.second, 2, FractionText(a.microsecond), FractionText(b.microsecond));
  }

  /** A field, a separator and the rest: the field decides unless it is equal, then the rest does. */
  lemma FieldThenRest(x: nat, y: nat, w: nat, sep: string, r1: string, r2: string)
    requires x < Pow10(w) && y < Pow10(w)
    requires x < y || (x == y && LexLess(r1, r2))
    ensures LexLess(Pad(x, w) + (sep + r1), Pad(y, w) + (sep + r2))
  {
    if x == y {
      LexLessCommonPrefix(sep, r1, r2);
    }
    FieldOrder(x, y, w, sep + r1, sep + r2);
  }

  /** A zero-padded field followed by the rest of the text: compare the field first, then the rest. */
  lemma FieldOrder(x: nat, y: nat, w: nat, r1: string, r2: string)
    requires x < Pow10(w) && y < Pow10(w)
    ensures x < y ==> LexLess(Pad(x, w) + r1, Pad(y, w) + r2)
    ensures x == y && LexLess(r1, r2) ==> LexLess(Pad(x, w) + r1, Pad(y, w) + r2)
  {
    if x < y {
      PadOrder(x, y, w);
      LexLessExtend(Pad(x, w), r1, Pad(y, w), r2);
    }
    if x == y && LexLess(r1, r2) {
      LexLessCommonPrefix(Pad(x, w), r1, r2);
    }
  }

  lemma FractionOrder(x: nat, y: nat)
    requires x < y < 1000000
    ensures LexLess(FractionText(x), FractionText(y))
  {
    if x > 0 {
      assert Pow10(6) == 1000000;
      FieldOrder(x, y, 6, "+00:00", "+00:00");
      LexLessCommonPrefix(".", Pad(x, 6) + "+00:00", Pad(y, 6) + "+00:00");
    }
  }

  /** Every due-date text starts with a digit, so it sorts before `'zzz'`. */
  lemma DueTextBeforeUndated(t: DateTime)
    requires ValidDateTime(t)
    ensures LexLess(DueText(t), "zzz")
  {
    var s := DueText(t);
    assert s[0] == Pad(t.date.year, 4)[0];
  }

  /** `arg_list` prints every dated card before every undated card. */
  lemma DisplayUndatedLast(cs: seq<Card>, a: nat, b: nat)
    requires ValidDues(cs) && a < |cs| && b < |cs|
    requires cs[DisplayOrder(cs)[a]].due.Some? && cs[DisplayOrder(cs)[b]].due.None?
    ensures a < b
  {
    var order := DisplayOrder(cs);
    DisplayKeysTotal(cs);
    DueTextBeforeUndated(cs[order[a]].due.value);
    StableSort.OrderPositions(LexLess, DisplayKeys(cs), a, b);
  }

  /** `arg_list` prints dated cards in chronological order. */
  lemma DisplayChronological(cs: seq<Card>, a: nat, b: nat)
    requires ValidDues(cs) && a < |cs| && b < |cs|
    requires cs[DisplayOrder(cs)[a]].due.Some? && cs[DisplayOrder(cs)[b]].due.Some?
    requires DateTimeLess(cs[DisplayOrder(cs)[a]].due.value, cs[DisplayOrder(cs)[b]].due.value)
    ensures a < b
  {
    var order := DisplayOrder(cs);
    DisplayKeysTotal(cs);
    DueTextOrder(cs[order[a]].due.value, cs[order[b]].due.value);
    StableSort.OrderPositions(LexLess, DisplayKeys(cs), a, b);
  }
}
