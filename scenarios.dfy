/** The create-poll-and-vote flow of the app's tests, replayed on the model,
    with its outcome stated as postconditions:
    a poll with choices Red and Blue, one vote by a second user, the results,
    and the same user's second vote. */
module Scenarios {
  import opened Common
  import opened Models
  import opened Store
  import opened Serializers
  import opened Views

  /** The first step: user 1 creates "Fav color?" with choices Red and Blue. */
  method CreateFavColor(db: Database) returns (poll: Poll, red: Choice, blue: Choice)
    requires db.Valid() && db.votes == []
    modifies db
    ensures db.Valid() && db.votes == []
    ensures poll in db.polls && poll.title == "Fav color?" && poll.isActive && poll.expiresAt.None?
    ensures Filter(db.choices, OwnedBy(poll.id)) == [red, blue]
    ensures red in db.choices && red.poll == poll.id && red.text == "Red" && blue.text == "Blue"
    ensures red.id != blue.id
  {
    poll := PerformCreatePoll(db, PollInput("Fav color?", None, None, None, ["Red", "Blue"]), 1, 100);
    var mine := Filter(db.choices, OwnedBy(poll.id));
    assert |Texts(mine)| == 2;
    FilterPairwise(db.choices, OwnedBy(poll.id), ChoiceIdBefore);
    assert ChoiceIdBefore(mine[0], mine[1]);
    red, blue := mine[0], mine[1];
    assert mine == [red, blue];
    assert red in mine;
  }

  /** The results of a two-choice poll after one vote for its first choice. */
  lemma OneVoteForFirstChoice(polls: seq<Poll>, choices: seq<Choice>, poll: Poll, first: Choice, second: Choice,
                              cast: Vote)
    requires Pairwise(polls, PollIdBefore) && poll in polls
    requires Filter(choices, OwnedBy(poll.id)) == [first, second]
    requires cast.choice == first.id && first.id != second.id
    ensures
      var r := Results(polls, choices, [cast], None, poll.id);
      && r.Ok? && r.value.poll == poll.title
      && |r.value.results| == 2
      && r.value.results[0].choice == first.text && r.value.results[0].votes == 1
      && r.value.results[1].choice == second.text && r.value.results[1].votes == 0
  {
    assert FilterPolls(polls, None) == polls;
    var r := Results(polls, choices, [cast], None, poll.id);
    var q :| q in polls && q.id == poll.id && r.value.poll == q.title;
    PairwiseUnique(polls, PollIdBefore, q, poll);
    GetVotesSnoc([], cast, first.id);
    GetVotesSnoc([], cast, second.id);
    assert [] + [cast] == [cast];
  }

  method RedBlueFlow() returns (created: Poll, first: Result<Vote, VoteError>,
                                results: Result<PollResults, ResultsError>,
                                second: Result<Vote, VoteError>)
    ensures created.title == "Fav color?" && created.isActive && created.expiresAt.None?
    ensures first.Ok? && first.value.user == 2
    ensures results.Ok? && results.value.poll == "Fav color?"
    ensures |results.value.results| == 2
    ensures results.value.results[0].choice == "Red" && results.value.results[0].votes == 1
    ensures results.value.results[1].choice == "Blue" && results.value.results[1].votes == 0
    ensures second == Err(AlreadyVoted)
  {
    var db := new Database();
    var red, blue;
    created, red, blue := CreateFavColor(db);
    first := CreateVote(db, VoteData(Some(created), red), 2, 101);
    assert db.votes == [first.value];
    results := Results(db.polls, db.choices, db.votes, None, created.id);
    OneVoteForFirstChoice(db.polls, db.choices, created, red, blue, first.value);
    DuplicateRefusedWhateverChoice(created, red, 2, db.votes, 102);
    second := CreateVote(db, VoteData(Some(created), red), 2, 102);
  }
}
