/**
 * The pure logic behind a swipe in GroupEats: recording a member's vote on
 * a restaurant's ballot, deciding whether that ballot is a unanimous match,
 * moving the cursor, and tallying a ballot for display. Ballots are keyed by
 * restaurant id, then by member id, as the nested object `groupVotes` is.
 */
module Ballots {
  import opened Catalog

  datatype Vote = Like | Pass

  /** One restaurant's votes: member id to that member's latest vote. */
  type Ballot = map<int, Vote>

  /** Every ballot: restaurant id to its ballot. */
  type Votes = map<int, Ballot>

  /** The ballot of a restaurant, empty when nobody has voted on it yet. */
  function BallotFor(votes: Votes, restaurantId: int): Ballot {
    if restaurantId in votes then votes[restaurantId] else map[]
  }

  /**
   * The ballots after `voter` votes `vote` on `restaurantId`: that one entry
   * is set, overwriting the member's earlier vote, and nothing else changes.
   */
  function RecordVote(votes: Votes, restaurantId: int, voter: int, vote: Vote): (r: Votes)
    ensures restaurantId in r && voter in r[restaurantId] && r[restaurantId][voter] == vote
    ensures r.Keys == votes.Keys + {restaurantId}
    ensures r[restaurantId].Keys == BallotFor(votes, restaurantId).Keys + {voter}
  {
    votes[restaurantId := BallotFor(votes, restaurantId)[voter := vote]]
  }

  /**
   * Recording a vote leaves every other (restaurant, member) entry as it
   * was, and adds a voter to the ballot only when the member had not voted
   * on it before.
   */
  lemma RecordVoteFrame(votes: Votes, restaurantId: int, voter: int, vote: Vote)
    ensures forall id :: id in votes && id != restaurantId ==>
      RecordVote(votes, restaurantId, voter, vote)[id] == votes[id]
    ensures forall u :: u in BallotFor(votes, restaurantId) && u != voter ==>
      RecordVote(votes, restaurantId, voter, vote)[restaurantId][u] == BallotFor(votes, restaurantId)[u]
    ensures |RecordVote(votes, restaurantId, voter, vote)[restaurantId]| ==
      |BallotFor(votes, restaurantId)| + (if voter in BallotFor(votes, restaurantId) then 0 else 1)
  {
  }

  predicate AllLiked(b: Ballot) {
    forall u :: u in b ==> b[u] == Like
  }

  /** A ballot is a match once as many members voted as the group has and every vote is a like. */
  predicate Complete(b: Ballot, groupSize: int) {
    |b| == groupSize && AllLiked(b)
  }

  /**
   * The match list after a swipe whose ballot is now `b`: the restaurant
   * shown when the swipe happened is appended when `b` is complete.
   */
  function MatchesAfter(matches: seq<Item>, shown: Item, b: Ballot, groupSize: int): (r: seq<Item>)
    ensures |matches| <= |r| <= |matches| + 1
    ensures r[..|matches|] == matches
    ensures |r| == |matches| + 1 <==> Complete(b, groupSize)
    ensures |r| == |matches| + 1 ==> r[|matches|] == shown
    ensures (exists u :: u in b && b[u] == Pass) ==> r == matches
  {
    if Complete(b, groupSize) then matches + [shown] else matches
  }

  /**
   * The cursor after a swipe over a list of `length` restaurants: one step
   * forward while that leaves it on a restaurant, otherwise where it was.
   */
  function NextIndex(index: nat, length: nat): (r: nat)
    ensures r == index || r == index + 1
    ensures r == index + 1 <==> index + 1 < length
    ensures index < length ==> r < length
  {
    if index < length - 1 then index + 1 else index
  }

  /** The cursor after `k` swipes. */
  function Advance(index: nat, length: nat, k: nat): nat {
    if k == 0 then index else NextIndex(Advance(index, length, k - 1), length)
  }

  /**
   * On a non-empty list the cursor climbs one per swipe and stops at the
   * last restaurant: it never reaches `length`, so the list is never
   * "swiped through".
   */
  lemma {:induction false} AdvanceStopsAtLast(index: nat, length: nat, k: nat)
    requires index < length
    ensures Advance(index, length, k) == if index + k < length then index + k else length - 1
    ensures Advance(index, length, k) < length
  {
    if k > 0 {
      AdvanceStopsAtLast(index, length, k - 1);
    }
  }

  /** What the card shows under a restaurant: voters so far, likes among them, group size. */
  datatype VoteStatus = VoteStatus(votedCount: nat, likeCount: nat, totalMembers: nat)

  function Likers(b: Ballot): set<int> {
    set u | u in b && b[u] == Like
  }

  function Passers(b: Ballot): set<int> {
    set u | u in b && b[u] == Pass
  }

  /** Every voter either liked or passed, never both. */
  lemma LikersAndPassers(b: Ballot)
    ensures |Likers(b)| + |Passers(b)| == |b|
  {
    forall u | u in b ensures u in Likers(b) + Passers(b) {
      if b[u] == Like { assert u in Likers(b); } else { assert u in Passers(b); }
    }
    assert b.Keys == Likers(b) + Passers(b);
    assert Likers(b) !! Passers(b);
  }

  /**
   * A vote moves the like count by one: up for a first like or a pass turned
   * like, down for a like turned pass, otherwise not at all.
   */
  lemma LikeCountAfterVote(votes: Votes, restaurantId: int, voter: int, vote: Vote)
    ensures var before := BallotFor(votes, restaurantId);
      |Likers(RecordVote(votes, restaurantId, voter, vote)[restaurantId])| ==
        |Likers(before)| - (if voter in before && before[voter] == Like then 1 else 0) + (if vote == Like then 1 else 0)
  {
    var before := BallotFor(votes, restaurantId);
    assert RecordVote(votes, restaurantId, voter, vote)[restaurantId] == before[voter := vote];
    LikersAfterWrite(before, voter, vote);
  }

  lemma LikersAfterWrite(b: Ballot, voter: int, vote: Vote)
    ensures |Likers(b[voter := vote])| ==
      |Likers(b)| - (if voter in b && b[voter] == Like then 1 else 0) + (if vote == Like then 1 else 0)
  {
    var rest := Likers(b) - {voter};
    var added: set<int> := if vote == Like then {voter} else {};
    forall u | u in Likers(b[voter := vote]) ensures u in rest + added {
      if u != voter { assert u in Likers(b); }
    }
    forall u | u in rest + added ensures u in Likers(b[voter := vote]) {
      if u != voter { assert u in b && b[u] == Like; }
    }
    assert Likers(b[voter := vote]) == rest + added;
    if voter in b && b[voter] == Like {
      assert Likers(b) == rest + {voter};
    } else {
      assert Likers(b) == rest;
    }
  }

  function Tally(b: Ballot, groupSize: nat): (s: VoteStatus)
    ensures s.votedCount == |b| && s.totalMembers == groupSize
    ensures s.likeCount + |Passers(b)| == s.votedCount
    ensures s.likeCount <= s.votedCount
    ensures s.likeCount == s.votedCount <==> AllLiked(b)
    ensures Complete(b, groupSize) <==> s.votedCount == s.likeCount == s.totalMembers
  {
    SubsetCardinality(Likers(b), b.Keys);
    LikersAreAll(b);
    LikersAndPassers(b);
    VoteStatus(|b|, |Likers(b)|, groupSize)
  }

  lemma LikersAreAll(b: Ballot)
    ensures Likers(b) == b.Keys <==> AllLiked(b)
  {
    if Likers(b) == b.Keys {
      forall u | u in b ensures b[u] == Like {
        assert u in Likers(b);
      }
    }
    if AllLiked(b) {
      assert forall u :: u in b.Keys ==> u in Likers(b);
    }
  }

  lemma SubsetCardinality<T>(a: set<T>, b: set<T>)
    requires a <= b
    ensures |a| <= |b|
    ensures |a| == |b| ==> a == b
  {
    assert b == a + (b - a);
  }

  /** One swipe as a handler call sees it: who voted, on which restaurant id, and how. */
  datatype Swipe = Swipe(voter: int, restaurantId: int, vote: Vote)

  /** The ballots after a sequence of swipes, in order. */
  function VotesAfter(votes: Votes, swipes: seq<Swipe>): Votes
    decreases |swipes|
  {
    if swipes == [] then votes
    else
      var last := swipes[|swipes| - 1];
      RecordVote(VotesAfter(votes, swipes[..|swipes| - 1]), last.restaurantId, last.voter, last.vote)
  }

  /** The members who swiped on `restaurantId` somewhere in `swipes`. */
  function VotersOn(swipes: seq<Swipe>, restaurantId: int): set<int> {
    set i | 0 <= i < |swipes| && swipes[i].restaurantId == restaurantId :: swipes[i].voter
  }

  /** A ballot's voters are its earlier voters plus everyone who swiped on it, each counted once. */
  lemma {:induction false} BallotVoters(votes: Votes, swipes: seq<Swipe>, restaurantId: int)
    ensures BallotFor(VotesAfter(votes, swipes), restaurantId).Keys
      == BallotFor(votes, restaurantId).Keys + VotersOn(swipes, restaurantId)
    decreases |swipes|
  {
    if swipes != [] {
      var n := |swipes| - 1;
      var front, last := swipes[..n], swipes[n];
      assert front + [last] == swipes;
      BallotVoters(votes, front, restaurantId);
      VotesAfterSnoc(votes, front, last);
      VotersOnSnoc(front, last, restaurantId);
    }
  }

  lemma VotersOnSnoc(swipes: seq<Swipe>, s: Swipe, restaurantId: int)
    ensures VotersOn(swipes + [s], restaurantId)
      == VotersOn(swipes, restaurantId) + (if s.restaurantId == restaurantId then {s.voter} else {})
  {
    var all := swipes + [s];
    forall u | u in VotersOn(all, restaurantId)
      ensures u in VotersOn(swipes, restaurantId) || (s.restaurantId == restaurantId && u == s.voter)
    {
      var i :| 0 <= i < |all| && all[i].restaurantId == restaurantId && all[i].voter == u;
      if i < |swipes| {
        assert all[i] == swipes[i];
      }
    }
    forall u | u in VotersOn(swipes, restaurantId) ensures u in VotersOn(all, restaurantId) {
      var i :| 0 <= i < |swipes| && swipes[i].restaurantId == restaurantId && swipes[i].voter == u;
      assert all[i] == swipes[i];
    }
    if s.restaurantId == restaurantId {
      assert all[|swipes|] == s;
    }
  }

  /**
   * A member's vote on a ballot is the one of their last swipe on it: a later
   * swipe overwrites, swipes by others or on other restaurants leave it alone.
   */
  lemma {:induction false} LastVoteWins(votes: Votes, swipes: seq<Swipe>, j: nat)
    requires j < |swipes|
    requires forall k :: j < k < |swipes| ==>
      swipes[k].voter != swipes[j].voter || swipes[k].restaurantId != swipes[j].restaurantId
    ensures swipes[j].voter in BallotFor(VotesAfter(votes, swipes), swipes[j].restaurantId)
    ensures BallotFor(VotesAfter(votes, swipes), swipes[j].restaurantId)[swipes[j].voter] == swipes[j].vote
    decreases |swipes|
  {
    var n := |swipes| - 1;
    var front := swipes[..n];
    var last := swipes[n];
    VotesAfterSnoc(votes, front, last);
    assert front + [last] == swipes;
    if j < n {
      assert front[j] == swipes[j];
      LastVoteWins(votes, front, j);
      var before := VotesAfter(votes, front);
      assert swipes[j].voter in BallotFor(before, swipes[j].restaurantId);
      assert RecordVote(before, last.restaurantId, last.voter, last.vote) == VotesAfter(votes, swipes);
    }
  }

  lemma VotesAfterSnoc(votes: Votes, swipes: seq<Swipe>, s: Swipe)
    ensures VotesAfter(votes, swipes + [s]) == RecordVote(VotesAfter(votes, swipes), s.restaurantId, s.voter, s.vote)
  {
    assert (swipes + [s])[..|swipes|] == swipes;
  }

  /**
   * A pass stands until the same member re-votes on that restaurant: whatever
   * the others vote, and in whatever order, the ballot is not a match.
   */
  lemma PassVetoes(votes: Votes, swipes: seq<Swipe>, j: nat, groupSize: int)
    requires j < |swipes| && swipes[j].vote == Pass
    requires forall k :: j < k < |swipes| ==>
      swipes[k].voter != swipes[j].voter || swipes[k].restaurantId != swipes[j].restaurantId
    ensures !Complete(BallotFor(VotesAfter(votes, swipes), swipes[j].restaurantId), groupSize)
  {
    LastVoteWins(votes, swipes, j);
  }

  /**
   * Nothing stops a duplicate match: a member re-voting like on a ballot that
   * is already complete leaves it complete, so the restaurant is appended again.
   */
  lemma RevoteKeepsComplete(votes: Votes, restaurantId: int, voter: int, groupSize: int)
    requires Complete(BallotFor(votes, restaurantId), groupSize)
    requires voter in BallotFor(votes, restaurantId)
    ensures Complete(RecordVote(votes, restaurantId, voter, Like)[restaurantId], groupSize)
  {
  }

  /** Only `voter` has ever voted, on any restaurant. */
  predicate OnlyFrom(votes: Votes, voter: int) {
    forall id :: id in votes ==> votes[id].Keys <= {voter}
  }

  /** A ballot with a single possible voter never reaches a group of two or more. */
  lemma SoleVoterIncomplete(votes: Votes, voter: int, restaurantId: int, groupSize: int)
    requires OnlyFrom(votes, voter)
    requires groupSize >= 2
    ensures !Complete(BallotFor(votes, restaurantId), groupSize)
  {
    SubsetCardinality(BallotFor(votes, restaurantId).Keys, {voter});
  }

  /**
   * One swipe by the only member who has voted keeps it that way, and the
   * ballot it leaves cannot complete a group of two or more.
   */
  lemma SoleVoterStep(votes: Votes, restaurantId: int, voter: int, vote: Vote, groupSize: int)
    ensures OnlyFrom(votes, voter) ==> OnlyFrom(RecordVote(votes, restaurantId, voter, vote), voter)
    ensures OnlyFrom(votes, voter) && groupSize >= 2 ==>
      !Complete(RecordVote(votes, restaurantId, voter, vote)[restaurantId], groupSize)
  {
    var after := RecordVote(votes, restaurantId, voter, vote);
    if OnlyFrom(votes, voter) {
      assert OnlyFrom(after, voter);
      if groupSize >= 2 {
        SoleVoterIncomplete(after, voter, restaurantId, groupSize);
      }
    }
  }

  /** Swipes by one member only keep every ballot to that member. */
  lemma {:induction false} SoleVoterStaysSole(votes: Votes, swipes: seq<Swipe>, voter: int)
    requires OnlyFrom(votes, voter)
    requires forall i :: 0 <= i < |swipes| ==> swipes[i].voter == voter
    ensures OnlyFrom(VotesAfter(votes, swipes), voter)
    decreases |swipes|
  {
    if swipes != [] {
      SoleVoterStaysSole(votes, swipes[..|swipes| - 1], voter);
    }
  }

  /**
   * With every vote cast as the signed-in user (member 1) and the four-member
   * sample group, no swipe ever completes a ballot, so no match is ever added.
   */
  lemma SampleSessionNeverMatches(swipes: seq<Swipe>, k: nat, restaurantId: int)
    requires forall i :: 0 <= i < |swipes| ==> swipes[i].voter == CurrentUser.id
    requires k <= |swipes|
    ensures !Complete(BallotFor(VotesAfter(map[], swipes[..k]), restaurantId), |SampleGroup.members|)
  {
    SoleVoterStaysSole(map[], swipes[..k], CurrentUser.id);
    SoleVoterIncomplete(VotesAfter(map[], swipes[..k]), CurrentUser.id, restaurantId, |SampleGroup.members|);
  }

  /**
   * Four members vote on a restaurant, one handler call each: three likes
   * and a pass leave no match; the passing member switching to like
   * overwrites the pass and completes the ballot.
   */
  lemma OverwriteCompletesBallot(r: int, a: int, b: int, c: int, d: int)
    requires a != b && a != c && a != d && b != c && b != d && c != d
    ensures var likes := RecordVote(RecordVote(RecordVote(map[], r, a, Like), r, b, Like), r, c, Like);
      && !Complete(RecordVote(likes, r, d, Pass)[r], 4)
      && Complete(RecordVote(RecordVote(likes, r, d, Pass), r, d, Like)[r], 4)
  {
    var likes := RecordVote(RecordVote(RecordVote(map[], r, a, Like), r, b, Like), r, c, Like);
    ThreeLikes(r, a, b, c);
    FourthVote(likes[r], a, b, c, d);
    assert RecordVote(likes, r, d, Pass)[r] == likes[r][d := Pass];
    assert RecordVote(RecordVote(likes, r, d, Pass), r, d, Like)[r] == likes[r][d := Pass][d := Like];
  }

  lemma ThreeLikes(r: int, a: int, b: int, c: int)
    ensures RecordVote(RecordVote(RecordVote(map[], r, a, Like), r, b, Like), r, c, Like)[r]
      == map[a := Like, b := Like, c := Like]
  {
  }

  /** Three likes plus a fourth member's pass is no match; that member's like overwrites it and is. */
  lemma FourthVote(b3: Ballot, a: int, b: int, c: int, d: int)
    requires a != b && a != c && a != d && b != c && b != d && c != d
    requires b3 == map[a := Like, b := Like, c := Like]
    ensures !Complete(b3[d := Pass], 4)
    ensures Complete(b3[d := Pass][d := Like], 4)
  {
    assert b3[d := Pass][d] == Pass;
    assert b3[d := Pass][d := Like].Keys == {a, b, c, d};
  }

  /** The same scenario for the sample group's four members on restaurant 1. */
  lemma SampleGroupOverwrite()
    ensures var likes := RecordVote(RecordVote(RecordVote(map[], 1, 1, Like), 1, 2, Like), 1, 3, Like);
      && !Complete(RecordVote(likes, 1, 4, Pass)[1], |SampleGroup.members|)
      && Complete(RecordVote(RecordVote(likes, 1, 4, Pass), 1, 4, Like)[1], |SampleGroup.members|)
  {
    OverwriteCompletesBallot(1, 1, 2, 3, 4);
  }
}
