/** The three records of the polls app (`Poll`, `Choice`, `Vote`), their
    defaults, and the table constraints the store enforces: primary keys,
    foreign keys, column widths and `unique_together = ('poll', 'user')`. */
module Models {
  import opened Common

  type PollId = nat
  type ChoiceId = nat
  type VoteId = nat
  /** Users are an identity supplied by authentication; only their id matters. */
  type UserId = nat
  /** Timestamps are integers; `now` is always passed in by the caller. */
  type Time = int

  /** `CharField(max_length=255)` of `Poll.title` and `Choice.text`. */
  const MaxTitleLength: nat := 255
  const MaxChoiceTextLength: nat := 255

  datatype Poll = Poll(
    id: PollId,
    title: string,
    description: string,
    createdBy: UserId,
    createdAt: Time,
    expiresAt: Option<Time>,
    isActive: bool)

  datatype Choice = Choice(id: ChoiceId, poll: PollId, text: string)

  datatype Vote = Vote(id: VoteId, poll: PollId, choice: ChoiceId, user: UserId, votedAt: Time)

  /** The row `Poll.objects.create(...)` builds from the fields it is given:
      the fields that are not given take the model's defaults. */
  function NewPoll(id: PollId, title: string, description: Option<string>, createdBy: UserId,
                   now: Time, expiresAt: Option<Time>, isActive: Option<bool>): (p: Poll)
    ensures p.id == id && p.title == title && p.createdBy == createdBy && p.createdAt == now
    ensures p.description == (if description.Some? then description.value else "")
    ensures p.expiresAt == expiresAt
    ensures p.isActive <==> isActive != Some(false)
  {
    Poll(id, title, description.GetOr(""), createdBy, now, expiresAt, isActive.GetOr(true))
  }

  // ---- keys ------------------------------------------------------------

  function PollIds(polls: seq<Poll>): set<PollId> { set p | p in polls :: p.id }
  function ChoiceIds(choices: seq<Choice>): set<ChoiceId> { set c | c in choices :: c.id }

  /** Primary keys are allocated in increasing order, hence distinct. */
  predicate PollIdBefore(a: Poll, b: Poll) { a.id < b.id }
  predicate ChoiceIdBefore(a: Choice, b: Choice) { a.id < b.id }
  predicate VoteIdBefore(a: Vote, b: Vote) { a.id < b.id }

  // ---- unique_together = ('poll', 'user') ------------------------------

  /** Two votes that do not clash on the (poll, user) pair. */
  predicate DistinctVoter(a: Vote, b: Vote) { a.poll != b.poll || a.user != b.user }

  /** The store already holds a vote of `user` on `poll`. */
  predicate HasVoted(votes: seq<Vote>, poll: PollId, user: UserId) {
    exists v :: v in votes && v.poll == poll && v.user == user
  }

  /** After one more vote is stored, the user has voted on the poll exactly when
      they had before or the new vote is theirs on that poll. */
  lemma HasVotedSnoc(votes: seq<Vote>, v: Vote, poll: PollId, user: UserId)
    ensures HasVoted(votes + [v], poll, user) <==> (HasVoted(votes, poll, user) || (v.poll == poll && v.user == user))
  {
    if HasVoted(votes + [v], poll, user) {
      var w :| w in votes + [v] && w.poll == poll && w.user == user;
      if w != v {
        assert w in votes;
      }
    }
    if HasVoted(votes, poll, user) {
      var w :| w in votes && w.poll == poll && w.user == user;
      assert w in votes + [v];
    }
  }

  /** At most one vote per (poll, user) pair. */
  ghost predicate OneVotePerUser(votes: seq<Vote>) { Pairwise(votes, DistinctVoter) }

  /** Adding a vote keeps the constraint exactly when its voter has no vote on that poll yet. */
  lemma OneVotePerUserSnoc(votes: seq<Vote>, v: Vote)
    requires OneVotePerUser(votes)
    ensures OneVotePerUser(votes + [v]) <==> !HasVoted(votes, v.poll, v.user)
  {
    if !HasVoted(votes, v.poll, v.user) {
      PairwiseSnoc(votes, v, DistinctVoter);
    } else {
      var w :| w in votes && w.poll == v.poll && w.user == v.user;
      var i :| 0 <= i < |votes| && votes[i] == w;
      var t := votes + [v];
      assert t[i] == w && t[|votes|] == v;
      assert !DistinctVoter(t[i], t[|votes|]);
    }
  }

  // ---- foreign keys and column widths -----------------------------------

  /** `Choice.poll` refers to an existing poll. */
  ghost predicate ChoicesOwned(polls: seq<Poll>, choices: seq<Choice>) {
    forall c :: c in choices ==> c.poll in PollIds(polls)
  }

  /** `Vote.poll` and `Vote.choice` refer to existing rows. */
  ghost predicate VotesReference(polls: seq<Poll>, choices: seq<Choice>, votes: seq<Vote>) {
    forall v :: v in votes ==> v.poll in PollIds(polls) && v.choice in ChoiceIds(choices)
  }

  /** Title and choice text fit their `max_length=255` columns. */
  ghost predicate WithinWidths(polls: seq<Poll>, choices: seq<Choice>) {
    && (forall p :: p in polls ==> |p.title| <= MaxTitleLength)
    && (forall c :: c in choices ==> |c.text| <= MaxChoiceTextLength)
  }

  /** Everything the database itself guarantees about the three tables. */
  ghost predicate Integrity(polls: seq<Poll>, choices: seq<Choice>, votes: seq<Vote>) {
    && Pairwise(polls, PollIdBefore)
    && Pairwise(choices, ChoiceIdBefore)
    && Pairwise(votes, VoteIdBefore)
    && ChoicesOwned(polls, choices)
    && VotesReference(polls, choices, votes)
    && WithinWidths(polls, choices)
    && OneVotePerUser(votes)
  }

  // ---- the application-level invariant ---------------------------------

  /** `choices` holds a choice with id `choice` owned by poll `poll`. */
  predicate ChoiceOfPoll(choices: seq<Choice>, choice: ChoiceId, poll: PollId) {
    exists c :: c in choices && c.id == choice && c.poll == poll
  }

  /** Every vote names a choice of its own poll. The database does not check
      this; the vote validator does before each insert. */
  ghost predicate VotesConsistent(choices: seq<Choice>, votes: seq<Vote>) {
    forall v :: v in votes ==> ChoiceOfPoll(choices, v.choice, v.poll)
  }

  // ---- conditions used by queries --------------------------------------

  function OwnedBy(poll: PollId): Choice -> bool { (c: Choice) => c.poll == poll }
  function VoteForChoice(choice: ChoiceId): Vote -> bool { (v: Vote) => v.choice == choice }
  function VoteOnPoll(poll: PollId): Vote -> bool { (v: Vote) => v.poll == poll }

  /** `Meta.ordering = ['-created_at']`: a listing in which no poll precedes a newer one. */
  predicate NewerOrSame(a: Poll, b: Poll) { a.createdAt >= b.createdAt }
  ghost predicate NewestFirst(polls: seq<Poll>) { Pairwise(polls, NewerOrSame) }
}
