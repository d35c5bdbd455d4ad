/**
 The round engine of the click game: the in-memory tally that hub callbacks
 change, and the round close that picks the winner and resets the counts.
 Persistence of win credits, the broadcast to clients and the timer loop
 that calls the round close are not part of this model.
 */
module GameEngine {
  import opened Rounds

  /** Whether a click was counted, or the id was not in the tally (where the
      dictionary indexer would throw KeyNotFoundException). */
  datatype ClickOutcome = Counted | KeyNotFound(userId: string)

  class Game {
    /** Click count per participant id for the current round. */
    var data: map<string, int>

    /** Every count is non-negative: the only writes are `= 0` and `++`. */
    ghost predicate Valid()
      reads this
    {
      NonNegative(data)
    }

    constructor ()
      ensures Valid() && data == map[]
    {
      data := map[];
    }

    /** A participant joins: inserted with count 0, or a stale count reset to 0. */
    method AddUser(userId: string)
      requires Valid()
      modifies this
      ensures Valid()
      ensures data == old(data)[userId := 0]
      ensures data.Keys == old(data).Keys + {userId} && data[userId] == 0
      ensures forall k | k in old(data) && k != userId :: data[k] == old(data)[k]
    {
      data := data[userId := 0];
    }

    /** A participant leaves: its entry is dropped; an absent id is no error. */
    method RemoveUser(userId: string)
      requires Valid()
      modifies this
      ensures Valid()
      ensures data == old(data) - {userId}
      ensures userId !in data && data.Keys == old(data).Keys - {userId}
      ensures forall k | k in data :: data[k] == old(data)[k]
    {
      data := data - {userId};
    }

    /** A click: the participant's count rises by exactly one; an id not in
        the tally is reported and changes nothing. */
    method Increment(userId: string) returns (outcome: ClickOutcome)
      requires Valid()
      modifies this
      ensures Valid()
      ensures outcome == (if userId in old(data) then Counted else KeyNotFound(userId))
      ensures userId in old(data) ==> data == old(data)[userId := old(data)[userId] + 1]
      ensures userId !in old(data) ==> data == old(data)
      ensures data.Keys == old(data).Keys
      ensures forall k | k in data && k != userId :: data[k] == old(data)[k]
    {
      if userId !in data {
        return KeyNotFound(userId);
      }
      data := data[userId := data[userId] + 1];
      outcome := Counted;
    }

    /** The selection loop of the round close: one pass over the keys in
        enumeration order, keeping the best count and the winner list. */
    method SelectWinners(order: seq<string>) returns (winners: seq<string>, biggestValue: int)
      requires Covers(order, data)
      ensures Selection(winners, biggestValue) == Select(order, data)
      ensures IsBest(order, data, biggestValue)
      ensures winners == [] <==> biggestValue == 0
      ensures |winners| <= 1
    {
      winners := [];
      biggestValue := 0;
      var i := 0;
      while i < |order|
        invariant 0 <= i <= |order|
        invariant Covers(order[..i], data)
        invariant Selection(winners, biggestValue) == Select(order[..i], data)
      {
        var key := order[i];
        var value := data[key];
        if value > 0 && value >= biggestValue {
          if value > biggestValue {
            if value > biggestValue {
              winners := [];
              biggestValue := value;
            }
            winners := winners + [key];
          }
        }
        assert order[..i + 1][..i] == order[..i];
        i := i + 1;
      }
      assert order[..i] == order;
      SelectIsFirstMaximum(order, data);
    }

    /** The reset at the end of a round: every key stays, every count becomes 0. */
    method ResetCounts(order: seq<string>)
      requires Valid() && Enumerates(order, data)
      modifies this
      ensures Valid()
      ensures data == ZeroAll(old(data))
    {
      var i := 0;
      while i < |order|
        invariant 0 <= i <= |order|
        invariant data.Keys == old(data).Keys
        invariant Valid()
        invariant forall j | 0 <= j < i :: data[order[j]] == 0
        invariant forall j | i <= j < |order| :: data[order[j]] == old(data)[order[j]]
      {
        data := data[order[i] := 0];
        i := i + 1;
      }
      forall k | k in data ensures data[k] == 0 {
        var j :| 0 <= j < |order| && order[j] == k;
      }
    }

    /** The round close as the source writes it: the sentinel when no count is
        positive (tally untouched), otherwise the first key reaching the top
        count, then every count reset to 0. Either way the tally is left in a
        state where an immediate second close reports no participation. */
    method EndRound(order: seq<string>) returns (result: RoundResult)
      requires Valid() && Enumerates(order, data)
      modifies this
      ensures Valid()
      ensures result == Resolve(order, old(data))
      ensures result == NoParticipation <==> forall k | k in old(data) :: old(data)[k] == 0
      ensures result == NoParticipation ==> data == old(data)
      ensures result.Winners? ==> data == ZeroAll(old(data))
      ensures Enumerates(order, data) && Resolve(order, data) == NoParticipation
    {
      var winners, biggestValue := SelectWinners(order);
      ResolveNoParticipation(order, data);
      if biggestValue == 0 {
        forall k | k in data ensures data[k] == 0 {
          var j :| 0 <= j < |order| && order[j] == k;
        }
        return NoParticipation;
      }
      result := Winners(winners, biggestValue);
      ResetCounts(order);
      ResolveAfterReset(order, old(data));
    }

    /** The round close with the co-winner rule: every participant holding
        the positive top count is named. */
    method EndRoundWithTies(order: seq<string>) returns (result: RoundResult)
      requires Valid() && Enumerates(order, data)
      modifies this
      ensures Valid()
      ensures result == ResolveWithTies(order, old(data))
      ensures result.Winners? ==> forall k :: k in result.ids <==>
                k in old(data) && old(data)[k] == result.nbClicks
      ensures result.Winners? ==> NoDuplicates(result.ids)
      ensures result == NoParticipation ==> data == old(data)
      ensures result.Winners? ==> data == ZeroAll(old(data))
    {
      var winners: seq<string> := [];
      var biggestValue := 0;
      var i := 0;
      while i < |order|
        invariant 0 <= i <= |order|
        invariant Covers(order[..i], data)
        invariant Selection(winners, biggestValue) == SelectWithTies(order[..i], data)
      {
        var key := order[i];
        var value := data[key];
        if value > 0 && value >= biggestValue {
          if value > biggestValue {
            winners := [];
            biggestValue := value;
          }
          winners := winners + [key];
        }
        assert order[..i + 1][..i] == order[..i];
        i := i + 1;
      }
      assert order[..i] == order;
      ResolveWithTiesCoWinners(order, data);
      if biggestValue == 0 {
        return NoParticipation;
      }
      result := Winners(winners, biggestValue);
      ResetCounts(order);
    }
  }

  // -----------------------------------------------------------------------
  // Round scenarios, driven through the engine's own operations.
  // -----------------------------------------------------------------------

  /** Nobody joins: the round close reports no participation. */
  method EmptyRound() returns (r: RoundResult)
    ensures r == NoParticipation
  {
    var g := new Game();
    r := g.EndRound([]);
  }

  /** A joins, clicks once and leaves before the close: A is gone from the
      tally and the round has no participation. */
  method JoinClickLeave() returns (present: bool, r: RoundResult)
    ensures !present && r == NoParticipation
  {
    var g := new Game();
    g.AddUser("A");
    var _ := g.Increment("A");
    g.RemoveUser("A");
    present := "A" in g.data;
    r := g.EndRound([]);
  }

  /** A click from an id that never joined is reported and not counted. */
  method UnknownClick() returns (outcome: ClickOutcome, r: RoundResult)
    ensures outcome == KeyNotFound("B") && r == NoParticipation
  {
    var g := new Game();
    g.AddUser("A");
    outcome := g.Increment("B");
    r := g.EndRound(["A"]);
  }

  /** A and B join, then each clicks three times. */
  method ThreeClicksEach() returns (g: Game)
    ensures fresh(g) && g.Valid() && g.data == map["A" := 3, "B" := 3]
  {
    g := new Game();
    g.AddUser("A");
    g.AddUser("B");
    var n := 0;
    while n < 3
      invariant 0 <= n <= 3
      invariant g.Valid() && g.data == map["A" := n, "B" := n]
    {
      var _ := g.Increment("A");
      var _ := g.Increment("B");
      n := n + 1;
    }
  }

  /** A and B both click three times, A first in enumeration order: as
      written only A is named; with the co-winner rule both are. */
  method TiedRound() returns (asWritten: RoundResult, withTies: RoundResult)
    ensures asWritten == Winners(["A"], 3)
    ensures withTies == Winners(["A", "B"], 3)
  {
    var g := ThreeClicksEach();
    var order := ["A", "B"];
    TiedPairExample();
    asWritten := g.EndRound(order);
    var h := ThreeClicksEach();
    withTies := h.EndRoundWithTies(order);
  }
}
