/**
 * The state of the GroupEats component and its handlers: the candidate
 * list, the cursor into it, every ballot, the match list, the group and
 * the search radius. Each handler is one atomic transition.
 */
module Session {
  import opened Wrappers
  import opened Catalog
  import opened RadiusFilter
  import opened Ballots

  class GroupEats {
    var restaurants: seq<Item>
    var index: nat
    var votes: Votes
    var matches: seq<Item>
    var members: seq<Member>
    var searchRadius: int

    /** The cursor is on a restaurant, or at 0 when the list is empty. */
    ghost predicate Valid()
      reads this
    {
      index == 0 || index < |restaurants|
    }

    /** The component as first mounted: no candidates yet, no votes, no matches, radius 5. */
    constructor (group: Group)
      ensures Valid()
      ensures restaurants == [] && index == 0 && votes == map[] && matches == []
      ensures members == group.members && searchRadius == DefaultRadius
    {
      restaurants := [];
      index := 0;
      votes := map[];
      matches := [];
      members := group.members;
      searchRadius := DefaultRadius;
    }

    /**
     * Loading the candidates: the catalog filtered by the current radius,
     * cursor back to the first. Ballots and matches are kept, so a restaurant
     * that comes back into range keeps its earlier votes.
     */
    method Load()
      modifies this
      ensures Valid()
      ensures restaurants == WithinRadius(SampleRestaurants, searchRadius) && index == 0
      ensures votes == old(votes) && matches == old(matches)
      ensures members == old(members) && searchRadius == old(searchRadius)
    {
      restaurants := WithinRadius(SampleRestaurants, searchRadius);
      index := 0;
    }

    /** Moving the radius slider: the new radius, then the candidates reloaded with it. */
    method SetSearchRadius(radius: int)
      modifies this
      ensures Valid()
      ensures searchRadius == radius
      ensures restaurants == WithinRadius(SampleRestaurants, radius) && index == 0
      ensures votes == old(votes) && matches == old(matches) && members == old(members)
    {
      searchRadius := radius;
      Load();
    }

    /**
     * `voter` swipes `vote` on `restaurantId`. The vote overwrites that
     * member's earlier one; when the ballot then holds a vote from as many
     * members as the group has, all likes, the restaurant under the cursor
     * is appended to the matches (again, if it is already there); the
     * cursor moves on unless it is on the last restaurant.
     */
    method HandleSwipe(voter: int, restaurantId: int, vote: Vote)
      requires Valid() && index < |restaurants|
      modifies this
      ensures Valid()
      ensures votes == RecordVote(old(votes), restaurantId, voter, vote)
      ensures matches == MatchesAfter(old(matches), old(restaurants[index]), votes[restaurantId], |members|)
      ensures index == NextIndex(old(index), |restaurants|)
      ensures restaurants == old(restaurants) && members == old(members) && searchRadius == old(searchRadius)
      ensures old(OnlyFrom(votes, voter)) ==> OnlyFrom(votes, voter)
      ensures old(OnlyFrom(votes, voter)) && |members| >= 2 ==> matches == old(matches)
    {
      SoleVoterStep(votes, restaurantId, voter, vote, |members|);
      var ballot := BallotFor(votes, restaurantId)[voter := vote];
      votes := votes[restaurantId := ballot];
      assert votes == RecordVote(old(votes), restaurantId, voter, vote);
      var shown := restaurants[index];
      if |ballot| == |members| {
        if AllLiked(ballot) {
          matches := matches + [shown];
        }
      }
      assert matches == MatchesAfter(old(matches), shown, ballot, |members|);
      if index < |restaurants| - 1 {
        index := index + 1;
      }
    }

    /** The restaurant under the cursor; none only when the list is empty ("All done"). */
    function CurrentRestaurant(): (r: Option<Item>)
      reads this
      ensures r.Some? <==> index < |restaurants|
      ensures r.Some? ==> r.value == restaurants[index]
      ensures Valid() ==> (r.None? <==> restaurants == [])
    {
      if index < |restaurants| then Some(restaurants[index]) else None
    }

    /** The tally shown under a restaurant; none until someone has voted on it. */
    function GetVoteStatus(restaurantId: int): (r: Option<VoteStatus>)
      reads this
      ensures r.None? <==> restaurantId !in votes
      ensures r.Some? ==> r.value.votedCount == |votes[restaurantId]| && r.value.totalMembers == |members|
      ensures r.Some? ==> r.value.likeCount + |Passers(votes[restaurantId])| == r.value.votedCount
      ensures r.Some? ==> r.value.likeCount <= r.value.votedCount
      ensures r.Some? ==> (Complete(votes[restaurantId], |members|) <==>
        r.value.likeCount == r.value.votedCount == r.value.totalMembers)
    {
      if restaurantId in votes then Some(Tally(votes[restaurantId], |members|)) else None
    }
  }
}
