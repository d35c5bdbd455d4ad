/**
 The round-close decision of the click game, as pure functions over a
 snapshot of the tally.

 A tally maps each participant id to its click count. The order in which
 the engine visits the participants is the dictionary's enumeration order,
 which the runtime chooses; here it is any duplicate-free sequence `order`
 listing exactly the tally's keys.
 */
module Rounds {

  type Tally = map<string, int>

  /** The two locals of the selection loop: the winner list and the best count so far. */
  datatype Selection = Selection(winners: seq<string>, biggestValue: int)

  /** What a round close reports: the "no participation" sentinel, or the winners and their count. */
  datatype RoundResult = NoParticipation | Winners(ids: seq<string>, nbClicks: int)

  /** Every key that `order` visits is in the tally. */
  predicate Covers(order: seq<string>, tally: Tally) {
    forall k | k in order :: k in tally
  }

  /** No id occurs twice in `ids`. */
  predicate NoDuplicates(ids: seq<string>) {
    forall i, j | 0 <= i < j < |ids| :: ids[i] != ids[j]
  }

  /** `order` lists every key of the tally exactly once. */
  predicate Enumerates(order: seq<string>, tally: Tally) {
    && NoDuplicates(order)
    && (forall k | k in order :: k in tally)
    && (forall k | k in tally :: k in order)
  }

  /** Every count of the tally is non-negative. */
  predicate NonNegative(tally: Tally) {
    forall k | k in tally :: tally[k] >= 0
  }

  /** The tally with its keys kept and every count set to 0. */
  function ZeroAll(tally: Tally): (r: Tally)
    ensures r.Keys == tally.Keys
    ensures forall k | k in r :: r[k] == 0
  {
    map k | k in tally :: 0
  }

  // ---------------------------------------------------------------------
  // Reference definitions: what the best count and the first winner are.
  // ---------------------------------------------------------------------

  /** `b` is the largest count among the visited keys, or 0 when none is positive. */
  ghost predicate IsBest(order: seq<string>, tally: Tally, b: int)
    requires Covers(order, tally)
  {
    && b >= 0
    && (forall i | 0 <= i < |order| :: tally[order[i]] <= b)
    && (b > 0 ==> exists i | 0 <= i < |order| :: tally[order[i]] == b)
  }

  /** Position `i` is the first in `order` whose count is `b`. */
  ghost predicate IsFirstAt(order: seq<string>, tally: Tally, i: int, b: int)
    requires Covers(order, tally)
  {
    && 0 <= i < |order|
    && tally[order[i]] == b
    && (forall j | 0 <= j < i :: tally[order[j]] < b)
  }

  // ---------------------------------------------------------------------
  // The selection loop as written (Game.cs lines 48-63).
  // ---------------------------------------------------------------------

  /** One iteration of the selection loop for `key` with count `value`, with
      its nested conditions kept as they are: the list is changed only when
      `value` is strictly above the best so far. */
  function Step(s: Selection, key: string, value: int): Selection {
    if value > 0 && value >= s.biggestValue then
      if value > s.biggestValue then
        var cleared := if value > s.biggestValue then Selection([], value) else s;
        Selection(cleared.winners + [key], cleared.biggestValue)
      else s
    else s
  }

  /** The loop's locals after visiting all of `order`, starting from an empty
      list and a best count of 0. */
  function Select(order: seq<string>, tally: Tally): Selection
    requires Covers(order, tally)
  {
    if order == [] then Selection([], 0)
    else
      var n := |order| - 1;
      assert order[n] in order;
      Step(Select(order[..n], tally), order[n], tally[order[n]])
  }

  /** The loop finds the top count (0 when no count is positive); the list is
      empty exactly when that count is 0, and otherwise holds just the first
      key in `order` that reaches it. */
  lemma {:induction false} SelectIsFirstMaximum(order: seq<string>, tally: Tally)
    requires Covers(order, tally)
    ensures IsBest(order, tally, Select(order, tally).biggestValue)
    ensures Select(order, tally).biggestValue == 0 ==> Select(order, tally).winners == []
    ensures Select(order, tally).biggestValue > 0 ==>
              exists i :: IsFirstAt(order, tally, i, Select(order, tally).biggestValue)
                       && Select(order, tally).winners == [order[i]]
  {
    if order != [] {
      var n := |order| - 1;
      var p := order[..n];
      assert Covers(p, tally);
      SelectIsFirstMaximum(p, tally);
      var s' := Select(p, tally);
      var v := tally[order[n]];
      assert forall i | 0 <= i < n :: p[i] == order[i];
      if v > s'.biggestValue && v > 0 {
        assert IsFirstAt(order, tally, n, v);
      } else {
        assert Select(order, tally) == s';
        if s'.biggestValue > 0 {
          var i :| IsFirstAt(p, tally, i, s'.biggestValue) && s'.winners == [p[i]];
          assert IsFirstAt(order, tally, i, s'.biggestValue);
        }
      }
    }
  }

  /** The selection keeps at most one winner, and a winner was visited and
      holds the top count. */
  lemma SelectAtMostOneWinner(order: seq<string>, tally: Tally)
    requires Covers(order, tally)
    ensures |Select(order, tally).winners| <= 1
    ensures forall w | w in Select(order, tally).winners ::
              w in order && tally[w] == Select(order, tally).biggestValue
  {
    SelectIsFirstMaximum(order, tally);
  }

  /** Ties are dropped: when a later key has the same positive top count as
      an earlier one, the later key is not among the winners. */
  lemma TiesAreDropped(order: seq<string>, tally: Tally, i: int, j: int)
    requires Enumerates(order, tally)
    requires 0 <= i < j < |order|
    requires tally[order[i]] == tally[order[j]] == Select(order, tally).biggestValue > 0
    ensures order[j] !in Select(order, tally).winners
  {
    SelectIsFirstMaximum(order, tally);
    var b := Select(order, tally).biggestValue;
    var f :| IsFirstAt(order, tally, f, b) && Select(order, tally).winners == [order[f]];
    assert f <= i;
  }

  /** Two participants tied at three clicks: only the first in enumeration
      order is kept by the loop as written, both by the co-winner rule. */
  lemma TiedPairExample()
    ensures Resolve(["A", "B"], map["A" := 3, "B" := 3]) == Winners(["A"], 3)
    ensures ResolveWithTies(["A", "B"], map["A" := 3, "B" := 3]) == Winners(["A", "B"], 3)
  {
    var order, tally := ["A", "B"], map["A" := 3, "B" := 3];
    assert order[..1] == ["A"] && ["A"][..0] == [];
    assert Select(["A"], tally) == Selection(["A"], 3);
    assert SelectWithTies(["A"], tally) == Selection(["A"], 3);
  }

  // ---------------------------------------------------------------------
  // The outcome of a round close (Game.cs lines 65-75 and 91-95).
  // ---------------------------------------------------------------------

  /** The result the round close reports: the sentinel when the best count is
      0, otherwise the winner list and the best count. */
  function Resolve(order: seq<string>, tally: Tally): RoundResult
    requires Covers(order, tally)
  {
    var s := Select(order, tally);
    if s.biggestValue == 0 then NoParticipation else Winners(s.winners, s.biggestValue)
  }

  /** No participation is reported exactly when no visited count is positive. */
  lemma ResolveNoParticipation(order: seq<string>, tally: Tally)
    requires Covers(order, tally)
    ensures Resolve(order, tally) == NoParticipation <==>
              forall i | 0 <= i < |order| :: tally[order[i]] <= 0
  {
    SelectIsFirstMaximum(order, tally);
  }

  /** A reported round has one winner, a participant of the tally, whose count
      is the positive maximum of the tally and which comes before every other
      participant with that count in enumeration order. */
  lemma ResolveWinner(order: seq<string>, tally: Tally)
    requires Enumerates(order, tally)
    requires Resolve(order, tally).Winners?
    ensures var r := Resolve(order, tally);
      && r.nbClicks > 0
      && |r.ids| == 1
      && r.ids[0] in tally
      && tally[r.ids[0]] == r.nbClicks
      && (forall k | k in tally :: tally[k] <= r.nbClicks)
      && (forall i, j | 0 <= i < |order| && 0 <= j < |order| && order[j] == r.ids[0]
            && tally[order[i]] == r.nbClicks :: j <= i)
  {
    SelectIsFirstMaximum(order, tally);
    var r := Resolve(order, tally);
    var f :| IsFirstAt(order, tally, f, r.nbClicks) && r.ids == [order[f]];
    forall k | k in tally ensures tally[k] <= r.nbClicks {
      var i :| 0 <= i < |order| && order[i] == k;
    }
  }

  /** After the reset, an immediate second round close reports no
      participation: the reset leaves nothing to win. */
  lemma ResolveAfterReset(order: seq<string>, tally: Tally)
    requires Covers(order, tally)
    ensures Covers(order, ZeroAll(tally))
    ensures Resolve(order, ZeroAll(tally)) == NoParticipation
  {
    ResolveNoParticipation(order, ZeroAll(tally));
  }

  /** The reset is idempotent. */
  lemma ZeroAllIdempotent(tally: Tally)
    ensures ZeroAll(ZeroAll(tally)) == ZeroAll(tally)
  {
  }

  // ---------------------------------------------------------------------
  // The co-winner rule the nested conditions of lines 51-61 evidently aim at:
  // the same loop without the guard at line 53 around the Add at line 60.
  // ---------------------------------------------------------------------

  /** One iteration of the loop with ties kept: a strictly larger count starts
      a new list, an equal positive count joins the list. */
  function StepWithTies(s: Selection, key: string, value: int): Selection {
    if value > 0 && value >= s.biggestValue then
      var cleared := if value > s.biggestValue then Selection([], value) else s;
      Selection(cleared.winners + [key], cleared.biggestValue)
    else s
  }

  function SelectWithTies(order: seq<string>, tally: Tally): Selection
    requires Covers(order, tally)
  {
    if order == [] then Selection([], 0)
    else
      var n := |order| - 1;
      assert order[n] in order;
      StepWithTies(SelectWithTies(order[..n], tally), order[n], tally[order[n]])
  }

  /** With ties kept, the loop finds the same top count, and the winner list
      holds exactly the visited keys whose count is that positive top count. */
  lemma {:induction false} SelectWithTiesIsArgmax(order: seq<string>, tally: Tally)
    requires Covers(order, tally)
    ensures IsBest(order, tally, SelectWithTies(order, tally).biggestValue)
    ensures forall k :: k in SelectWithTies(order, tally).winners <==>
              k in order && tally[k] == SelectWithTies(order, tally).biggestValue > 0
  {
    if order != [] {
      var n := |order| - 1;
      var p := order[..n];
      assert Covers(p, tally);
      SelectWithTiesIsArgmax(p, tally);
      var s' := SelectWithTies(p, tally);
      var s := SelectWithTies(order, tally);
      var v := tally[order[n]];
      assert forall i | 0 <= i < n :: p[i] == order[i];
      assert order == p + [order[n]];
      forall k ensures k in s.winners <==> k in order && tally[k] == s.biggestValue > 0 {
        if k in p {
          var i :| 0 <= i < n && p[i] == k;
          assert tally[k] <= s'.biggestValue;
        }
      }
    }
  }

  /** Over a duplicate-free order, the winner list kept with ties names
      each participant at most once. */
  lemma {:induction false} SelectWithTiesDistinct(order: seq<string>, tally: Tally)
    requires Covers(order, tally)
    requires NoDuplicates(order)
    ensures forall k | k in SelectWithTies(order, tally).winners :: k in order
    ensures NoDuplicates(SelectWithTies(order, tally).winners)
  {
    if order != [] {
      var n := |order| - 1;
      var p := order[..n];
      assert Covers(p, tally);
      SelectWithTiesDistinct(p, tally);
      assert order == p + [order[n]];
      assert order[n] !in p by {
        forall i | 0 <= i < n ensures p[i] != order[n] { assert p[i] == order[i]; }
      }
      var w' := SelectWithTies(p, tally).winners;
      var w := SelectWithTies(order, tally).winners;
      assert w == w' || w == [order[n]] || w == w' + [order[n]];
      if w == w' + [order[n]] {
        assert order[n] !in w';
        forall i, j | 0 <= i < j < |w| ensures w[i] != w[j] {
          assert w[i] == w'[i];
          if j == |w'| {
            assert w[j] == order[n] && w'[i] in w';
          } else {
            assert w[j] == w'[j];
          }
        }
      }
    }
  }

  /** The round close with ties kept. */
  function ResolveWithTies(order: seq<string>, tally: Tally): RoundResult
    requires Covers(order, tally)
  {
    var s := SelectWithTies(order, tally);
    if s.biggestValue == 0 then NoParticipation else Winners(s.winners, s.biggestValue)
  }

  /** With ties kept, a reported round names every participant with the
      positive maximum count, each once, and no one else; the sentinel is
      reported exactly when no count is positive. */
  lemma ResolveWithTiesCoWinners(order: seq<string>, tally: Tally)
    requires Enumerates(order, tally)
    ensures ResolveWithTies(order, tally) == NoParticipation <==>
              forall k | k in tally :: tally[k] <= 0
    ensures ResolveWithTies(order, tally).Winners? ==>
              var r := ResolveWithTies(order, tally);
              && r.nbClicks > 0
              && (forall k | k in tally :: tally[k] <= r.nbClicks)
              && (forall k :: k in r.ids <==> k in tally && tally[k] == r.nbClicks)
              && NoDuplicates(r.ids)
  {
    SelectWithTiesIsArgmax(order, tally);
    SelectWithTiesDistinct(order, tally);
    var b := SelectWithTies(order, tally).biggestValue;
    forall k | k in tally ensures tally[k] <= b {
      var i :| 0 <= i < |order| && order[i] == k;
    }
    if b > 0 {
      var i :| 0 <= i < |order| && tally[order[i]] == b;
      assert order[i] in tally;
    }
  }
}
