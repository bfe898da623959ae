/** The relational store behind the ORM, as one sequential in-memory object:
    three tables in insertion (primary-key) order, auto-increment counters,
    and the constraints of the models enforced on every write. */
module Store {
  import opened Common
  import opened Models

  /** An unsaved `Choice(poll=poll, text=text)`, before the store gives it an id. */
  datatype ChoiceDraft = ChoiceDraft(poll: PollId, text: string)

  /** The `IntegrityError` an insert reports when it would break `unique_together`. */
  datatype IntegrityError = UniqueViolation

  /** The rows `bulk_create` stores for `drafts`, numbered from `firstId` in input order. */
  function Saved(drafts: seq<ChoiceDraft>, firstId: ChoiceId): (cs: seq<Choice>)
    ensures |cs| == |drafts|
    ensures forall k :: 0 <= k < |cs| ==> cs[k].id == firstId + k
    ensures forall k :: 0 <= k < |cs| ==> cs[k].poll == drafts[k].poll && cs[k].text == drafts[k].text
  {
    seq(|drafts|, k requires 0 <= k < |drafts| => Choice(firstId + k, drafts[k].poll, drafts[k].text))
  }

  function PollOtherThan(id: PollId): Poll -> bool { (p: Poll) => p.id != id }
  function ChoiceNotOwnedBy(poll: PollId): Choice -> bool { (c: Choice) => c.poll != poll }
  function ChoiceOtherThan(id: ChoiceId): Choice -> bool { (c: Choice) => c.id != id }
  /** A vote outlives the deletion of `poll` unless it points at the poll or at
      one of the poll's choices in `choices`. */
  function VoteSurvives(poll: PollId, choices: seq<Choice>): Vote -> bool {
    (v: Vote) => v.poll != poll && !ChoiceOfPoll(choices, v.choice, poll)
  }
  function VoteNotFor(choice: ChoiceId): Vote -> bool { (v: Vote) => v.choice != choice }

  /** Every stored key is below its table's auto-increment counter. */
  ghost predicate KeysBelow(polls: seq<Poll>, choices: seq<Choice>, votes: seq<Vote>,
                            np: PollId, nc: ChoiceId, nv: VoteId) {
    && (forall p :: p in polls ==> p.id < np)
    && (forall c :: c in choices ==> c.id < nc)
    && (forall v :: v in votes ==> v.id < nv)
  }

  /** Deleting poll `id` with its cascade keeps every table constraint, and
      exactly the key `id` is gone from the polls. */
  lemma PollCascadeKeepsIntegrity(polls: seq<Poll>, choices: seq<Choice>, votes: seq<Vote>, id: PollId)
    requires Integrity(polls, choices, votes)
    ensures Integrity(Filter(polls, PollOtherThan(id)), Filter(choices, ChoiceNotOwnedBy(id)),
                      Filter(votes, VoteSurvives(id, choices)))
    ensures PollIds(Filter(polls, PollOtherThan(id))) == PollIds(polls) - {id}
  {
    var ps := Filter(polls, PollOtherThan(id));
    var cs := Filter(choices, ChoiceNotOwnedBy(id));
    var vs := Filter(votes, VoteSurvives(id, choices));
    FilterPairwise(polls, PollOtherThan(id), PollIdBefore);
    FilterPairwise(choices, ChoiceNotOwnedBy(id), ChoiceIdBefore);
    FilterPairwise(votes, VoteSurvives(id, choices), VoteIdBefore);
    FilterPairwise(votes, VoteSurvives(id, choices), DistinctVoter);
    forall c | c in cs ensures c.poll in PollIds(ps) {
      var q :| q in polls && q.id == c.poll;
      assert q in ps;
    }
    forall v | v in vs ensures v.poll in PollIds(ps) && v.choice in ChoiceIds(cs) {
      var q :| q in polls && q.id == v.poll;
      assert q in ps;
      var c :| c in choices && c.id == v.choice;
      assert c.poll == id ==> ChoiceOfPoll(choices, v.choice, id);
      assert c in cs;
    }
    forall x | x in PollIds(polls) - {id} ensures x in PollIds(ps) {
      var q :| q in polls && q.id == x;
      assert q in ps;
    }
  }

  /** Deleting rows never brings a key up to its counter. */
  lemma PollCascadeKeepsKeysBelow(polls: seq<Poll>, choices: seq<Choice>, votes: seq<Vote>, id: PollId,
                                  np: PollId, nc: ChoiceId, nv: VoteId)
    requires KeysBelow(polls, choices, votes, np, nc, nv)
    ensures KeysBelow(Filter(polls, PollOtherThan(id)), Filter(choices, ChoiceNotOwnedBy(id)),
                      Filter(votes, VoteSurvives(id, choices)), np, nc, nv)
  {
  }

  /** Deleting poll `id` with its cascade keeps every remaining vote on a choice of its own poll. */
  lemma PollCascadeKeepsConsistency(choices: seq<Choice>, votes: seq<Vote>, id: PollId)
    requires VotesConsistent(choices, votes)
    ensures VotesConsistent(Filter(choices, ChoiceNotOwnedBy(id)), Filter(votes, VoteSurvives(id, choices)))
  {
    var cs := Filter(choices, ChoiceNotOwnedBy(id));
    forall v | v in Filter(votes, VoteSurvives(id, choices))
      ensures ChoiceOfPoll(cs, v.choice, v.poll)
    {
      var c :| c in choices && c.id == v.choice && c.poll == v.poll;
      assert c in cs;
    }
  }

  class Database {
    var polls: seq<Poll>
    var choices: seq<Choice>
    var votes: seq<Vote>
    var nextPollId: PollId
    var nextChoiceId: ChoiceId
    var nextVoteId: VoteId

    /** The table constraints, and every stored key below its counter. */
    ghost predicate Valid()
      reads this
    {
      && Integrity(polls, choices, votes)
      && KeysBelow(polls, choices, votes, nextPollId, nextChoiceId, nextVoteId)
    }

    /** An empty database; auto-increment keys start at 1. */
    constructor ()
      ensures Valid()
      ensures polls == [] && choices == [] && votes == []
    {
      polls, choices, votes := [], [], [];
      nextPollId, nextChoiceId, nextVoteId := 1, 1, 1;
    }

    /** `Poll.objects.create(...)`: stores one new poll with a fresh key. */
    method InsertPoll(title: string, description: Option<string>, createdBy: UserId, now: Time,
                      expiresAt: Option<Time>, isActive: Option<bool>) returns (poll: Poll)
      requires Valid()
      requires |title| <= MaxTitleLength
      modifies this
      ensures Valid()
      ensures poll == NewPoll(poll.id, title, description, createdBy, now, expiresAt, isActive)
      ensures poll.id !in PollIds(old(polls))
      ensures polls == old(polls) + [poll]
      ensures choices == old(choices) && votes == old(votes)
    {
      poll := NewPoll(nextPollId, title, description, createdBy, now, expiresAt, isActive);
      PairwiseSnoc(polls, poll, PollIdBefore);
      polls := polls + [poll];
      nextPollId := nextPollId + 1;
      assert forall p :: p in old(polls) ==> p in polls;
    }

    /** `Choice.objects.bulk_create(drafts)`: stores all drafts, in order, with fresh keys. */
    method BulkCreateChoices(drafts: seq<ChoiceDraft>)
      requires Valid()
      requires forall d :: d in drafts ==> d.poll in PollIds(polls) && |d.text| <= MaxChoiceTextLength
      modifies this
      ensures Valid()
      ensures choices == old(choices) + Saved(drafts, old(nextChoiceId))
      ensures forall c :: c in Saved(drafts, old(nextChoiceId)) ==> c.id !in ChoiceIds(old(choices))
      ensures polls == old(polls) && votes == old(votes)
    {
      var added := Saved(drafts, nextChoiceId);
      assert Pairwise(added, ChoiceIdBefore);
      forall c | c in added ensures c.id >= nextChoiceId && c.poll in PollIds(polls) && |c.text| <= MaxChoiceTextLength {
        var k :| 0 <= k < |added| && added[k] == c;
        assert drafts[k] in drafts;
      }
      PairwiseConcat(choices, added, ChoiceIdBefore);
      choices := choices + added;
      nextChoiceId := nextChoiceId + |drafts|;
      forall c | c in choices ensures c.id < nextChoiceId {
        if c !in old(choices) {
          var k :| 0 <= k < |added| && added[k] == c;
        }
      }
      assert forall c :: c in old(choices) ==> c in choices;
    }

    /** Inserts a vote under the `unique_together = ('poll', 'user')` constraint:
        a second vote of the same user on the same poll is refused and nothing is stored. */
    method InsertVote(poll: PollId, choice: ChoiceId, user: UserId, now: Time)
      returns (r: Result<Vote, IntegrityError>)
      requires Valid()
      requires poll in PollIds(polls) && choice in ChoiceIds(choices)
      modifies this
      ensures Valid()
      ensures polls == old(polls) && choices == old(choices)
      ensures HasVoted(old(votes), poll, user) ==> r == Err(UniqueViolation) && votes == old(votes)
      ensures !HasVoted(old(votes), poll, user) ==>
        && r.Ok?
        && r.value.poll == poll && r.value.choice == choice && r.value.user == user && r.value.votedAt == now
        && (forall w :: w in old(votes) ==> w.id != r.value.id)
        && votes == old(votes) + [r.value]
    {
      if HasVoted(votes, poll, user) {
        r := Err(UniqueViolation);
        return;
      }
      var v := Vote(nextVoteId, poll, choice, user, now);
      OneVotePerUserSnoc(votes, v);
      PairwiseSnoc(votes, v, VoteIdBefore);
      votes := votes + [v];
      nextVoteId := nextVoteId + 1;
      r := Ok(v);
    }

    /** Deletes poll `id`; `on_delete=CASCADE` removes its choices, and the votes
        that point at the poll or at any of those choices. */
    method DeletePoll(id: PollId)
      requires Valid()
      modifies this
      ensures Valid()
      ensures polls == Filter(old(polls), PollOtherThan(id))
      ensures choices == Filter(old(choices), ChoiceNotOwnedBy(id))
      ensures votes == Filter(old(votes), VoteSurvives(id, old(choices)))
      ensures PollIds(polls) == PollIds(old(polls)) - {id}
      ensures forall c :: c in choices <==> c in old(choices) && c.poll != id
      ensures forall v :: v in votes <==>
        v in old(votes) && v.poll != id && !ChoiceOfPoll(old(choices), v.choice, id)
      ensures VotesConsistent(old(choices), old(votes)) ==> VotesConsistent(choices, votes)
    {
      var ps := Filter(polls, PollOtherThan(id));
      var cs := Filter(choices, ChoiceNotOwnedBy(id));
      var vs := Filter(votes, VoteSurvives(id, choices));
      PollCascadeKeepsIntegrity(polls, choices, votes, id);
      PollCascadeKeepsKeysBelow(polls, choices, votes, id, nextPollId, nextChoiceId, nextVoteId);
      if VotesConsistent(choices, votes) {
        PollCascadeKeepsConsistency(choices, votes, id);
      }
      polls, choices, votes := ps, cs, vs;
    }

    /** Deletes choice `id`; `on_delete=CASCADE` removes the votes that point at it. */
    method DeleteChoice(id: ChoiceId)
      requires Valid()
      modifies this
      ensures Valid()
      ensures polls == old(polls)
      ensures choices == Filter(old(choices), ChoiceOtherThan(id))
      ensures votes == Filter(old(votes), VoteNotFor(id))
      ensures id !in ChoiceIds(choices)
      ensures forall v :: v in votes <==> v in old(votes) && v.choice != id
      ensures VotesConsistent(old(choices), old(votes)) ==> VotesConsistent(choices, votes)
    {
      var cs := Filter(choices, ChoiceOtherThan(id));
      var vs := Filter(votes, VoteNotFor(id));
      FilterPairwise(choices, ChoiceOtherThan(id), ChoiceIdBefore);
      FilterPairwise(votes, VoteNotFor(id), VoteIdBefore);
      FilterPairwise(votes, VoteNotFor(id), DistinctVoter);
      forall v | v in vs ensures v.choice in ChoiceIds(cs) {
        var c :| c in choices && c.id == v.choice;
        assert c in cs;
      }
      forall v | v in vs && ChoiceOfPoll(choices, v.choice, v.poll)
        ensures ChoiceOfPoll(cs, v.choice, v.poll)
      {
        var c :| c in choices && c.id == v.choice && c.poll == v.poll;
        assert c in cs;
      }
      choices, votes := cs, vs;
    }
  }
}
