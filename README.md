# GroupEats voting session in Dafny

GroupEats is a single-page demo. A fixed group of four friends swipes through
a fixed catalog of eight restaurants, and the app records each member's like
or pass. A restaurant becomes a group match when every member of the group
has liked it. This project models the voting state machine inside the
`GroupEats` component (`src/App.js`) and proves properties of it. That state
machine covers the candidate list filtered by search radius, the cursor, the
nested ballots, and the append-only match list.

Modules:

- `Wrappers` (`wrappers.dfy`): `Option`, which stands for JavaScript's
  `undefined`/`null` results.
- `Catalog` (`catalog.dfy`): restaurants, members and groups, plus the sample
  catalog, the sample group, the signed-in user (member 1), the default radius
  of 5 miles and the slider's 1–25 range. Distances and ratings are the
  source's one-decimal literals, kept as `real`.
- `RadiusFilter` (`radius_filter.dfy`): the candidate list as a function of the
  catalog and the radius, with lemmas for its members, order,
  monotonicity and the sample results.
- `Ballots` (`ballots.dfy`): the pure logic of a swipe:
  - `RecordVote`, the nested-map write;
  - `Complete` and `MatchesAfter`, the unanimity test and the append;
  - `NextIndex`, the clamped cursor;
  - `Tally`, the vote status;
  - `VotesAfter`, the ballots after a whole sequence of swipes, with lemmas
    about every such sequence.
- `Session` (`session.dfy`): the class `GroupEats`. Its fields are the
  component's state (`restaurants`, `index`, `votes`, `matches`, `members`,
  `searchRadius`). Each handler is a method, and each method's `ensures` ties
  the new state to the `Ballots` and `RadiusFilter` functions.

The member who votes is a parameter of `HandleSwipe`. The source always
passes the signed-in user, whose id is 1.

Behaviour of the code that the model keeps as written:

- The cursor stops at the last restaurant. It never reaches the list's
  length, so the "All done" screen appears only when the list is empty.
- The match appended is the restaurant under the cursor. The source does not
  look it up by the id that was voted on.
- Nothing prevents duplicate matches. Re-voting like on a ballot that is
  already complete appends the restaurant again (`RevoteKeepsComplete`).
- Changing the radius resets the cursor. It keeps all ballots and matches.
- With a one-mile radius the sample catalog yields restaurants 1, 3 and 7.
  Restaurant 1 is at 0.8 miles, so it is a candidate too.
- Every radius the slider allows keeps restaurant 3 (0.5 miles), so in the
  demo the list is never empty (`SliderNeverEmpties`).
- Because every vote is cast as member 1 and the sample group has four
  members, no ballot can ever complete. The demo never records a match
  (`SampleSessionNeverMatches`).

## Model

| member | source | states |
|---|---|---|
| `Session.GroupEats.constructor` | src/App.js:5-16 | The initial component state: no candidates, cursor 0, no ballots, no matches, radius 5, and the members of the given group (set at src/App.js:179). |
| `Session.GroupEats.Load` | src/App.js:163-169 | The candidate list becomes the sample catalog filtered by the current radius and the cursor returns to 0. Ballots, matches, members and radius are unchanged. |
| `Session.GroupEats.SetSearchRadius` | src/App.js:157-174 | Moving the slider stores the new radius and reloads the candidates with it. The cursor becomes 0 and ballots and matches are kept. |
| `Session.GroupEats.HandleSwipe` | src/App.js:182-206 | The ballots become `RecordVote` of the old ballots. The matches become `MatchesAfter`, which appends the restaurant under the cursor before the cursor moves. The cursor becomes `NextIndex`. The cursor invariant is kept and nothing else changes. If only the voter had ever voted and the group has two or more members, the matches are unchanged. |
| `Session.GroupEats.CurrentRestaurant` | src/App.js:208-210 | Returns a restaurant exactly when the cursor is inside the list, and that restaurant is the one at the cursor. Under the cursor invariant it returns none exactly when the list is empty. |
| `Session.GroupEats.GetVoteStatus` | src/App.js:212-218 | Returns none exactly when the restaurant has no ballot. Otherwise `votedCount` is the number of voters and `totalMembers` is the group size. `likeCount` plus the number of pass votes equals `votedCount`. All three counts are equal exactly when the ballot is a match. |
| `RadiusFilter.WithinRadius` | src/App.js:164 | The candidate list is no longer than the catalog and each of its items is at most `radius` miles away. |
| `RadiusFilter.WithinRadiusMembers` | src/App.js:164 | An item is a candidate exactly when it is in the catalog and within the radius. |
| `RadiusFilter.WithinRadiusOrder` | src/App.js:164 | The candidates keep their catalog order: they form a subsequence of the catalog. |
| `RadiusFilter.WithinRadiusAppend` | src/App.js:164 | Filtering a concatenation gives the concatenation of the filtered parts. |
| `RadiusFilter.WithinRadiusKeepsAll` | src/App.js:164 | When every catalog item is in range, the candidate list is the whole catalog. |
| `RadiusFilter.WithinRadiusMonotonic` | src/App.js:164 | A larger radius never loses a candidate. The narrower list is a subsequence of the wider one. |
| `RadiusFilter.SampleOneMile` | src/App.js:19-107 | A radius of 1 mile yields restaurant ids 1, 3 and 7 of the sample catalog, in that order. |
| `RadiusFilter.SliderNeverEmpties` | src/App.js:329-331 | For every radius the slider allows (1 to 25 miles), the sample catalog's candidate list is not empty. |
| `RadiusFilter.SampleWideRadius` | src/App.js:19-107 | Any radius of 3 miles or more yields all 8 sample restaurants in catalog order. |
| `Ballots.RecordVote` | src/App.js:183-188 | After a vote, the ballot holds the voter with the new vote. The restaurant ids gain only this restaurant, and the ballot's voters gain only this voter. |
| `Ballots.RecordVoteFrame` | src/App.js:183-188 | A vote changes no other restaurant's ballot and no other member's entry. The voter count grows by one only on a member's first vote, so a repeat vote overwrites. |
| `Ballots.MatchesAfter` | src/App.js:191-200 | The match list grows by at most one and only by appending, so earlier entries are kept. It grows exactly when the ballot is complete, and the new entry is the restaurant shown. Any pass leaves it unchanged. |
| `Ballots.NextIndex` | src/App.js:203-205 | The cursor moves by 0 or 1. It moves exactly when that leaves it inside the list, and it never leaves a non-empty list. |
| `Ballots.AdvanceStopsAtLast` | src/App.js:203-205 | After `k` swipes on a non-empty list, the cursor is `min(index + k, length - 1)`, so it is always below the length. |
| `Ballots.Tally` | src/App.js:214-217 | The vote count is the number of voters. The like count plus the number of pass votes equals the vote count, so the like count is at most the vote count. The two are equal exactly when every vote is a like. All three counts are equal exactly when the ballot is complete. |
| `Ballots.LikersAndPassers` | src/App.js:216 | Every voter either liked or passed: the likes and the passes add up to the number of voters. |
| `Ballots.LikeCountAfterVote` | src/App.js:187 | A vote moves a ballot's like count by at most one. A first like or a pass turned like adds one, a like turned pass removes one, and any other vote leaves it unchanged. |
| `Ballots.LikersAreAll` | src/App.js:196 | The members who liked are all the voters exactly when every recorded vote is a like. |
| `Ballots.BallotVoters` | src/App.js:183-188 | After any sequence of swipes, a restaurant's voters are its earlier voters plus every member who swiped on it. Each member is counted once. |
| `Ballots.LastVoteWins` | src/App.js:187 | After any sequence of swipes, a member's entry on a ballot is the vote from that member's last swipe on that restaurant. |
| `Ballots.PassVetoes` | src/App.js:195-199 | A pass that its member never re-votes keeps the ballot from completing, whatever the others vote and in any order. |
| `Ballots.RevoteKeepsComplete` | src/App.js:195-199 | Re-voting like on an already complete ballot leaves it complete, so the restaurant would be appended again. |
| `Ballots.SoleVoterIncomplete` | src/App.js:195 | If only one member has ever voted, no ballot can reach a group size of two or more. |
| `Ballots.SoleVoterStep` | src/App.js:178-195 | A swipe by the only member who has voted keeps it the only voter, and the ballot it leaves is not complete. |
| `Ballots.SoleVoterStaysSole` | src/App.js:178-188 | Any sequence of swipes by one member keeps that member the only voter on every ballot. |
| `Ballots.SampleSessionNeverMatches` | src/App.js:111-122 | When every swipe is cast as member 1 and the group is the 4-member sample group, no prefix of the swipes ever completes a ballot, so no match is ever added. |
| `Ballots.OverwriteCompletesBallot` | src/App.js:183-199 | Four distinct members vote on one restaurant: three likes and a pass do not complete the ballot. When the passing member re-votes like, the new vote overwrites the pass and the ballot completes. |
| `Ballots.SampleGroupOverwrite` | src/App.js:111-122 | The same scenario for the sample group's members 1–4 on restaurant 1. |

## Left out

- Geolocation (src/App.js:125-154): a browser call with a fallback
  coordinate. The voting logic never uses the coordinate. `Load` stands for
  the load effect after a location is known.
- The 1.5-second `setTimeout` and the `loading` and `error` flags
  (src/App.js:157-174, 220-247): these are timing and display state. Only the
  resulting filter-and-reset transition is modelled.
- All rendering: views, buttons, icons, the `showSettings` and `showMatches`
  flags, and the image fallback (src/App.js:249-494).
- React's asynchronous, batched `useState` updates: each handler is one
  atomic transition over the current state.
- The slider's `parseInt` (src/App.js:333): the radius is an integer
  parameter, and the slider limits it to 1–25 miles.
- The image URL, description and address of each restaurant are display-only
  and are not fields of `Catalog.Item`.
- Aliasing in `handleSwipe`: `{ ...groupVotes }` is a shallow copy, so the
  source writes into the inner ballot object that the old state shares. The
  model replaces the ballots with a new map value. Once `setGroupVotes` runs,
  the stored state is the same.
- `Session.GroupEats.HandleSwipe` requires the cursor to be on a restaurant.
  The vote buttons are rendered only when there is a current restaurant
  (src/App.js:413, 465-471). The source does not say what a swipe on an empty
  list would do.
- `HandleSwipe` does not check that `restaurantId` is the id of the
  restaurant under the cursor. The source does not check it either, and every
  caller passes the current restaurant's id.
