/** The serializers of the polls app: the per-choice vote count, poll
    creation with its ordered choices, and the vote validator with its
    fixed order of checks. */
module Serializers {
  import opened Common
  import opened Models
  import opened Store

  // ---- ChoiceSerializer.get_votes -------------------------------------

  /** `obj.votes.count()`: the number of stored votes that reference choice `choice`. */
  function GetVotes(votes: seq<Vote>, choice: ChoiceId): (n: nat)
    ensures n == |Filter(votes, VoteForChoice(choice))|
    ensures n <= |votes|
    ensures n == 0 <==> forall v :: v in votes ==> v.choice != choice
  {
    CountIsFilterLength(votes, VoteForChoice(choice));
    FilterZeroIff(votes, choice);
    Count(votes, VoteForChoice(choice))
  }

  lemma FilterZeroIff(votes: seq<Vote>, choice: ChoiceId)
    ensures |Filter(votes, VoteForChoice(choice))| == 0 <==> forall v :: v in votes ==> v.choice != choice
  {
    if forall v :: v in votes ==> v.choice != choice {
      FilterKeepsNone(votes, VoteForChoice(choice));
    }
  }

  /** Storing one more vote adds one to the count of its own choice and nothing to the others. */
  lemma GetVotesSnoc(votes: seq<Vote>, v: Vote, choice: ChoiceId)
    ensures GetVotes(votes + [v], choice) == GetVotes(votes, choice) + (if v.choice == choice then 1 else 0)
  {
    CountSnoc(votes, v, VoteForChoice(choice));
  }

  // ---- PollCreateSerializer.create ------------------------------------

  /** The validated payload of a create request (`choices` is a required list field). */
  datatype PollInput = PollInput(
    title: string,
    description: Option<string>,
    expiresAt: Option<Time>,
    isActive: Option<bool>,
    choices: seq<string>)

  /** Field validation of the payload: a title and choice texts that are not
      blank and fit 255 characters. An empty list of choices is accepted. */
  predicate IsValidPollInput(data: PollInput) {
    && 0 < |data.title| <= MaxTitleLength
    && forall t :: t in data.choices ==> 0 < |t| <= MaxChoiceTextLength
  }

  /** Validated input fits the model's columns: the poll built from it and
      choices carrying its texts stay within `max_length=255`. */
  lemma ValidInputFitsColumns(data: PollInput, p: Poll, cs: seq<Choice>)
    requires IsValidPollInput(data)
    requires p.title == data.title && Texts(cs) == data.choices
    ensures WithinWidths([p], cs)
  {
    forall c | c in cs ensures |c.text| <= MaxChoiceTextLength {
      var k :| 0 <= k < |cs| && cs[k] == c;
      assert data.choices[k] == c.text;
    }
  }

  /** The texts of a sequence of choices, in order. */
  function Texts(cs: seq<Choice>): (ts: seq<string>)
    ensures |ts| == |cs| && forall i :: 0 <= i < |cs| ==> ts[i] == cs[i].text
  {
    seq(|cs|, i requires 0 <= i < |cs| => cs[i].text)
  }

  /** `[Choice(poll=poll, text=text) for text in choices_data]`: one unsaved
      choice per text, in input order. */
  method DraftChoices(poll: PollId, texts: seq<string>) returns (drafts: seq<ChoiceDraft>)
    ensures |drafts| == |texts|
    ensures forall k :: 0 <= k < |texts| ==> drafts[k].poll == poll && drafts[k].text == texts[k]
  {
    drafts := [];
    var i := 0;
    while i < |texts|
      invariant 0 <= i <= |texts|
      invariant |drafts| == i
      invariant forall k :: 0 <= k < i ==> drafts[k] == ChoiceDraft(poll, texts[k])
    {
      drafts := drafts + [ChoiceDraft(poll, texts[i])];
      i := i + 1;
    }
  }

  /** After the bulk insert, the new poll's choices are exactly the saved rows. */
  lemma SavedAreThePollsChoices(before: seq<Choice>, drafts: seq<ChoiceDraft>, firstId: ChoiceId,
                                poll: PollId, texts: seq<string>)
    requires forall c :: c in before ==> c.poll != poll
    requires |drafts| == |texts|
    requires forall k :: 0 <= k < |texts| ==> drafts[k].poll == poll && drafts[k].text == texts[k]
    ensures Filter(before + Saved(drafts, firstId), OwnedBy(poll)) == Saved(drafts, firstId)
    ensures Texts(Saved(drafts, firstId)) == texts
  {
    var saved := Saved(drafts, firstId);
    FilterConcat(before, saved, OwnedBy(poll));
    FilterKeepsNone(before, OwnedBy(poll));
    forall c | c in saved ensures c.poll == poll {
      var k :| 0 <= k < |saved| && saved[k] == c;
    }
    FilterKeepsAll(saved, OwnedBy(poll));
    assert [] + saved == saved;
  }

  /** Stores the poll, then one choice per input text, in input order, all owned
      by the new poll. Earlier rows are untouched and no vote is added. */
  method Create(db: Database, data: PollInput, createdBy: UserId, now: Time) returns (poll: Poll)
    requires db.Valid()
    requires IsValidPollInput(data)
    modifies db
    ensures db.Valid()
    ensures poll == NewPoll(poll.id, data.title, data.description, createdBy, now, data.expiresAt, data.isActive)
    ensures poll.id !in PollIds(old(db.polls))
    ensures db.polls == old(db.polls) + [poll]
    ensures db.choices == old(db.choices) + Filter(db.choices, OwnedBy(poll.id))
    ensures Texts(Filter(db.choices, OwnedBy(poll.id))) == data.choices
    ensures db.votes == old(db.votes)
    ensures VotesConsistent(old(db.choices), old(db.votes)) ==> VotesConsistent(db.choices, db.votes)
  {
    var choicesData := data.choices;
    poll := db.InsertPoll(data.title, data.description, createdBy, now, data.expiresAt, data.isActive);
    var drafts := DraftChoices(poll.id, choicesData);
    forall d | d in drafts ensures d.poll in PollIds(db.polls) && |d.text| <= MaxChoiceTextLength {
      var k :| 0 <= k < |drafts| && drafts[k] == d;
      assert choicesData[k] in choicesData;
    }
    ghost var before := db.choices;
    ghost var firstId := db.nextChoiceId;
    assert forall c :: c in before ==> c.poll != poll.id;
    db.BulkCreateChoices(drafts);
    SavedAreThePollsChoices(before, drafts, firstId, poll.id, choicesData);
    forall v | v in db.votes && ChoiceOfPoll(before, v.choice, v.poll)
      ensures ChoiceOfPoll(db.choices, v.choice, v.poll)
    {
      var c :| c in before && c.id == v.choice && c.poll == v.poll;
      assert c in db.choices;
    }
  }

  // ---- VoteSerializer.validate ----------------------------------------

  /** The fields of a vote request once resolved: the poll may be absent; the
      choice field is required, and the validator uses it unguarded. */
  datatype VoteData = VoteData(poll: Option<Poll>, choice: Choice)

  /** The reasons a vote is refused, one per check of the validator. */
  datatype VoteError = PollRequired | AlreadyVoted | PollExpired | ChoiceMismatch

  /** The message each refusal carries. */
  function Message(e: VoteError): string {
    match e
    case PollRequired => "Poll is required."
    case AlreadyVoted => "You have already voted on this poll."
    case PollExpired => "Poll has expired."
    case ChoiceMismatch => "Choice does not belong to the given poll."
  }

  /** A poll is expired when it has an expiry strictly earlier than `now`. */
  predicate Expired(p: Poll, now: Time) {
    p.expiresAt.Some? && p.expiresAt.value < now
  }

  /** Each refusal carries its own message, so a client can tell them apart. */
  lemma MessagesDistinct(e1: VoteError, e2: VoteError)
    ensures Message(e1) == Message(e2) <==> e1 == e2
  {
    if e1 != e2 {
      assert Message(e1)[5] != Message(e2)[5];
    }
  }

  /** A vote refused because the poll has expired is refused for that reason
      at every later time too: the validator never reopens an expired poll. */
  lemma ExpiredStaysRefused(data: VoteData, user: UserId, votes: seq<Vote>, now: Time, later: Time)
    requires now <= later
    requires ValidateVote(data, user, votes, now) == Err(PollExpired)
    ensures ValidateVote(data, user, votes, later) == Err(PollExpired)
  {
  }

  /** The position of each check in the validator's fixed order. */
  function Rank(e: VoteError): nat {
    match e
    case PollRequired => 0
    case AlreadyVoted => 1
    case PollExpired => 2
    case ChoiceMismatch => 3
  }

  /** Every reason that applies to a vote request, whatever the order of checking. */
  function Violations(data: VoteData, user: UserId, votes: seq<Vote>, now: Time): set<VoteError> {
    if data.poll.None? then {PollRequired}
    else
      var p := data.poll.value;
      (if HasVoted(votes, p.id, user) then {AlreadyVoted} else {})
      + (if Expired(p, now) then {PollExpired} else {})
      + (if data.choice.poll != p.id then {ChoiceMismatch} else {})
  }

  /** Accepts the vote unchanged when no reason applies; otherwise reports the
      reason that comes first in the order missing, duplicate, expired, mismatch. */
  function ValidateVote(data: VoteData, user: UserId, votes: seq<Vote>, now: Time): (r: Result<VoteData, VoteError>)
    ensures r.Ok? <==> Violations(data, user, votes, now) == {}
    ensures r.Ok? ==> r.value == data
    ensures r.Err? ==> r.error in Violations(data, user, votes, now)
    ensures r.Err? ==> forall e :: e in Violations(data, user, votes, now) ==> Rank(r.error) <= Rank(e)
  {
    if data.poll.None? then Err(PollRequired)
    else
      var poll := data.poll.value;
      if HasVoted(votes, poll.id, user) then Err(AlreadyVoted)
      else if Expired(poll, now) then Err(PollExpired)
      else if data.choice.poll != poll.id then Err(ChoiceMismatch)
      else Ok(data)
  }

  /** A vote request without a poll is refused as such. */
  lemma MissingPollRefused(choice: Choice, user: UserId, votes: seq<Vote>, now: Time)
    ensures ValidateVote(VoteData(None, choice), user, votes, now) == Err(PollRequired)
    ensures Message(PollRequired) == "Poll is required."
  {
  }

  /** A user who already voted on a poll is refused as a duplicate, whatever
      choice either vote names and whatever else is wrong with the poll. */
  lemma DuplicateRefusedWhateverChoice(p: Poll, choice: Choice, user: UserId, votes: seq<Vote>, now: Time)
    requires HasVoted(votes, p.id, user)
    ensures ValidateVote(VoteData(Some(p), choice), user, votes, now) == Err(AlreadyVoted)
    ensures Message(AlreadyVoted) == "You have already voted on this poll."
  {
  }

  /** Past the first two checks, the vote is refused as expired exactly when the
      expiry is strictly before `now`. */
  lemma ExpiredIff(p: Poll, choice: Choice, user: UserId, votes: seq<Vote>, now: Time)
    requires !HasVoted(votes, p.id, user)
    ensures ValidateVote(VoteData(Some(p), choice), user, votes, now) == Err(PollExpired)
        <==> p.expiresAt.Some? && p.expiresAt.value < now
    ensures Message(PollExpired) == "Poll has expired."
  {
  }

  /** An expiry equal to `now` is still open, and a poll without expiry never expires. */
  lemma ExpiryBoundary(p: Poll, choice: Choice, user: UserId, votes: seq<Vote>, now: Time)
    requires !HasVoted(votes, p.id, user) && choice.poll == p.id
    requires p.expiresAt == Some(now) || p.expiresAt.None?
    ensures ValidateVote(VoteData(Some(p), choice), user, votes, now).Ok?
  {
  }

  /** A choice of another poll is refused as a mismatch once the earlier checks pass. */
  lemma MismatchRefused(p: Poll, choice: Choice, user: UserId, votes: seq<Vote>, now: Time)
    requires !HasVoted(votes, p.id, user) && !Expired(p, now)
    requires choice.poll != p.id
    ensures ValidateVote(VoteData(Some(p), choice), user, votes, now) == Err(ChoiceMismatch)
    ensures Message(ChoiceMismatch) == "Choice does not belong to the given poll."
  {
  }

  /** An accepted vote names a poll, a choice of that poll, and a user without a vote on it. */
  lemma AcceptedVoteFits(data: VoteData, user: UserId, votes: seq<Vote>, now: Time)
    requires ValidateVote(data, user, votes, now).Ok?
    ensures data.poll.Some? && data.choice.poll == data.poll.value.id
    ensures !HasVoted(votes, data.poll.value.id, user) && !Expired(data.poll.value, now)
  {
  }
}
