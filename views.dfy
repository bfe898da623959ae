/** The views of the polls app: the active-flag filter of the poll listing,
    the results tally, and the two create endpoints that write to the store
    on behalf of the requesting user. */
module Views {
  import opened Common
  import opened Models
  import opened Store
  import opened Serializers

  // ---- PollViewSet.get_queryset ---------------------------------------

  datatype ActiveFilter = OnlyActive | OnlyInactive | AllPolls

  /** ASCII lower-casing. No character outside ASCII lower-cases to a letter of
      the accepted words, so this decides the same as Python's `str.lower()` here. */
  function LowerChar(c: char): char {
    if 'A' <= c <= 'Z' then (c as int + 32) as char else c
  }

  function Lower(s: string): string {
    seq(|s|, i requires 0 <= i < |s| => LowerChar(s[i]))
  }

  /** Lower-casing keeps the length, leaves no upper-case letter, and a second
      lower-casing changes nothing. */
  lemma LowerIdempotent(s: string)
    ensures |Lower(s)| == |s| && NoUpperCase(Lower(s))
    ensures Lower(Lower(s)) == Lower(s)
  {
    assert forall i :: 0 <= i < |s| ==> LowerChar(LowerChar(s[i])) == LowerChar(s[i]);
  }

  /** Two characters are the same letter up to case. */
  predicate SameLetter(a: char, b: char) {
    || a == b
    || ('A' <= a <= 'Z' && b as int == a as int + 32)
    || ('A' <= b <= 'Z' && a as int == b as int + 32)
  }

  /** Case-insensitive equality, character by character. */
  predicate EqualsIgnoringCase(s: string, t: string) {
    |s| == |t| && forall i :: 0 <= i < |s| ==> SameLetter(s[i], t[i])
  }

  predicate NoUpperCase(w: string) {
    forall i :: 0 <= i < |w| ==> !('A' <= w[i] <= 'Z')
  }

  const TrueWords: seq<string> := ["1", "true", "yes"]
  const FalseWords: seq<string> := ["0", "false", "no"]

  /** Lower-casing `s` gives the lower-case word `w` exactly when `s` equals `w` up to case. */
  lemma LowerMatches(s: string, w: string)
    requires NoUpperCase(w)
    ensures Lower(s) == w <==> EqualsIgnoringCase(s, w)
  {
    if EqualsIgnoringCase(s, w) {
      assert forall i :: 0 <= i < |s| ==> Lower(s)[i] == w[i];
    }
  }

  /** The filter a value of the `active` query parameter selects. */
  function ParseActive(active: Option<string>): (f: ActiveFilter)
    ensures f == OnlyActive <==> (active.Some? &&
      (EqualsIgnoringCase(active.value, "1") || EqualsIgnoringCase(active.value, "true")
       || EqualsIgnoringCase(active.value, "yes")))
    ensures f == OnlyInactive <==> (active.Some? &&
      (EqualsIgnoringCase(active.value, "0") || EqualsIgnoringCase(active.value, "false")
       || EqualsIgnoringCase(active.value, "no")))
  {
    if active.None? then AllPolls
    else
      var s := active.value;
      LowerMatches(s, "1"); LowerMatches(s, "true"); LowerMatches(s, "yes");
      LowerMatches(s, "0"); LowerMatches(s, "false"); LowerMatches(s, "no");
      if Lower(s) in TrueWords then OnlyActive
      else if Lower(s) in FalseWords then OnlyInactive
      else AllPolls
  }

  /** `qs.filter(is_active=True)`, `qs.filter(is_active=False)`, or no filter. */
  function Keeps(f: ActiveFilter): (keep: Poll -> bool)
    ensures forall p: Poll :: keep(p) <==> (f == AllPolls || p.isActive == (f == OnlyActive))
  {
    (p: Poll) =>
      match f
      case OnlyActive => p.isActive
      case OnlyInactive => !p.isActive
      case AllPolls => true
  }

  /** The listing for an `active` parameter: only active polls, only inactive
      ones, or all of them, in the order of the input listing. */
  function FilterPolls(polls: seq<Poll>, active: Option<string>): (r: seq<Poll>)
    ensures forall p :: p in r <==> (p in polls
      && (ParseActive(active) == OnlyActive ==> p.isActive)
      && (ParseActive(active) == OnlyInactive ==> !p.isActive))
    ensures IsSubsequence(r, polls)
    ensures |r| == Count(polls, Keeps(ParseActive(active)))
    ensures ParseActive(active) == AllPolls ==> r == polls
  {
    var f := ParseActive(active);
    CountIsFilterLength(polls, Keeps(f));
    if f == AllPolls then FilterKeepsAll(polls, Keeps(f)); Filter(polls, Keeps(f))
    else Filter(polls, Keeps(f))
  }

  /** Filtering a newest-first listing leaves it newest-first. */
  lemma ListingStaysNewestFirst(polls: seq<Poll>, active: Option<string>)
    requires NewestFirst(polls)
    ensures NewestFirst(FilterPolls(polls, active))
  {
    FilterPairwise(polls, Keeps(ParseActive(active)), NewerOrSame);
  }

  // ---- PollViewSet.results --------------------------------------------

  datatype ResultEntry = ResultEntry(id: ChoiceId, choice: string, votes: nat)
  datatype PollResults = PollResults(poll: string, results: seq<ResultEntry>)
  /** `get_object()` found no poll with the requested key in the queryset of
      the request, which `get_queryset` has already filtered by `active`. */
  datatype ResultsError = NotFound

  /** The poll with key `pk` in the listing, if it has one. */
  function FindPoll(polls: seq<Poll>, pk: PollId): (r: Option<Poll>)
    ensures r.Some? ==> r.value in polls && r.value.id == pk
    ensures r.None? <==> pk !in PollIds(polls)
  {
    if polls == [] then None
    else if polls[0].id == pk then Some(polls[0])
    else
      var rest := FindPoll(polls[1..], pk);
      assert PollIds(polls) == {polls[0].id} + PollIds(polls[1..]) by {
        assert forall p :: p in polls <==> p == polls[0] || p in polls[1..];
      }
      rest
  }

  /** One entry per choice, in the given order, with that choice's vote count. */
  function Tally(cs: seq<Choice>, votes: seq<Vote>): (r: seq<ResultEntry>)
    ensures |r| == |cs|
    ensures forall i :: 0 <= i < |cs| ==>
      r[i].id == cs[i].id && r[i].choice == cs[i].text && r[i].votes == GetVotes(votes, cs[i].id)
  {
    if cs == [] then []
    else [ResultEntry(cs[0].id, cs[0].text, GetVotes(votes, cs[0].id))] + Tally(cs[1..], votes)
  }

  /** The results of poll `pk`, looked up in the listing the `active` parameter
      selects: its title, and one entry per choice of that poll (and of no
      other), in store order, each with the number of votes for it. */
  function Results(polls: seq<Poll>, choices: seq<Choice>, votes: seq<Vote>, active: Option<string>, pk: PollId)
    : (r: Result<PollResults, ResultsError>)
    ensures r.Err? <==> pk !in PollIds(FilterPolls(polls, active))
    ensures r.Ok? ==> exists p :: p in FilterPolls(polls, active) && p.id == pk && r.value.poll == p.title
    ensures r.Ok? ==>
      var mine := Filter(choices, OwnedBy(pk));
      && |r.value.results| == |mine|
      && forall i :: 0 <= i < |mine| ==>
        && r.value.results[i].id == mine[i].id
        && r.value.results[i].choice == mine[i].text
        && r.value.results[i].votes == GetVotes(votes, mine[i].id)
  {
    match FindPoll(FilterPolls(polls, active), pk)
    case None => Err(NotFound)
    case Some(poll) => Ok(PollResults(poll.title, Tally(Filter(choices, OwnedBy(pk)), votes)))
  }

  /** Without an `active` parameter, results fail exactly when no poll has the key. */
  lemma ResultsUnfiltered(polls: seq<Poll>, choices: seq<Choice>, votes: seq<Vote>, pk: PollId)
    ensures Results(polls, choices, votes, None, pk).Err? <==> pk !in PollIds(polls)
  {
  }

  /** A stored poll that the `active` parameter filters out has no results: the
      request is answered as not found. */
  lemma ResultsOfFilteredOutPoll(polls: seq<Poll>, choices: seq<Choice>, votes: seq<Vote>,
                                 active: Option<string>, p: Poll)
    requires Pairwise(polls, PollIdBefore)
    requires p in polls && p !in FilterPolls(polls, active)
    ensures Results(polls, choices, votes, active, p.id) == Err(NotFound)
  {
    if p.id in PollIds(FilterPolls(polls, active)) {
      var q :| q in FilterPolls(polls, active) && q.id == p.id;
      PairwiseUnique(polls, PollIdBefore, p, q);
    }
  }

  /** The sum of the `votes` fields of a list of result entries. */
  function TotalVotes(entries: seq<ResultEntry>): nat {
    if entries == [] then 0 else entries[0].votes + TotalVotes(entries[1..])
  }

  function VoteForAnyOf(cs: seq<Choice>): Vote -> bool { (v: Vote) => v.choice in ChoiceIds(cs) }

  /** Over choices with distinct keys, the tally adds up to the votes that name any of them. */
  lemma {:induction false} TallyCountsItsChoices(cs: seq<Choice>, votes: seq<Vote>)
    requires Pairwise(cs, ChoiceIdBefore)
    ensures TotalVotes(Tally(cs, votes)) == Count(votes, VoteForAnyOf(cs))
  {
    if cs == [] {
      CountNone(votes, VoteForAnyOf(cs));
    } else {
      var c, rest := cs[0], cs[1..];
      assert Pairwise(rest, ChoiceIdBefore) by {
        forall i, j | 0 <= i < j < |rest| ensures ChoiceIdBefore(rest[i], rest[j]) {
          assert rest[i] == cs[i + 1] && rest[j] == cs[j + 1];
        }
      }
      TallyCountsItsChoices(rest, votes);
      var t := Tally(cs, votes);
      assert t[1..] == Tally(rest, votes);
      forall x | x in rest ensures x.id != c.id {
        var k :| 0 <= k < |rest| && rest[k] == x;
        assert ChoiceIdBefore(cs[0], cs[k + 1]);
      }
      forall v | v in votes
        ensures VoteForAnyOf(cs)(v) <==> VoteForChoice(c.id)(v) || VoteForAnyOf(rest)(v)
      {
        assert forall x :: x in cs <==> x == c || x in rest;
      }
      CountDisjointUnion(votes, VoteForChoice(c.id), VoteForAnyOf(rest), VoteForAnyOf(cs));
    }
  }

  /** When every stored vote names a choice of its own poll (as the validator
      ensures), the results of a poll add up to the number of votes on it. */
  lemma TallyAddsUp(polls: seq<Poll>, choices: seq<Choice>, votes: seq<Vote>, active: Option<string>, pk: PollId)
    requires Pairwise(choices, ChoiceIdBefore)
    requires VotesConsistent(choices, votes)
    requires pk in PollIds(FilterPolls(polls, active))
    ensures Results(polls, choices, votes, active, pk).Ok?
    ensures TotalVotes(Results(polls, choices, votes, active, pk).value.results) == Count(votes, VoteOnPoll(pk))
  {
    var mine := Filter(choices, OwnedBy(pk));
    FilterPairwise(choices, OwnedBy(pk), ChoiceIdBefore);
    TallyCountsItsChoices(mine, votes);
    forall v | v in votes ensures VoteForAnyOf(mine)(v) <==> VoteOnPoll(pk)(v) {
      var c :| c in choices && c.id == v.choice && c.poll == v.poll;
      if v.choice in ChoiceIds(mine) {
        var c' :| c' in mine && c'.id == v.choice;
        PairwiseUnique(choices, ChoiceIdBefore, c, c');
      } else {
        assert c !in mine;
      }
    }
    CountCongruent(votes, VoteForAnyOf(mine), VoteOnPoll(pk));
  }

  /** One more stored vote raises the entry of its own choice by one and leaves
      every other entry of the results as it was. */
  lemma VoteRaisesOneEntry(polls: seq<Poll>, choices: seq<Choice>, votes: seq<Vote>, active: Option<string>,
                           v: Vote, pk: PollId, i: nat)
    requires pk in PollIds(FilterPolls(polls, active))
    requires i < |Filter(choices, OwnedBy(pk))|
    ensures
      var before := Results(polls, choices, votes, active, pk).value.results;
      var after := Results(polls, choices, votes + [v], active, pk).value.results;
      after[i].votes == before[i].votes + (if v.choice == before[i].id then 1 else 0)
  {
    GetVotesSnoc(votes, v, Filter(choices, OwnedBy(pk))[i].id);
  }

  // ---- PollViewSet.perform_create -------------------------------------

  /** Creates the poll with the requesting user as its creator. */
  method PerformCreatePoll(db: Database, data: PollInput, user: UserId, now: Time) returns (poll: Poll)
    requires db.Valid()
    requires IsValidPollInput(data)
    modifies db
    ensures db.Valid()
    ensures poll.createdBy == user
    ensures poll == NewPoll(poll.id, data.title, data.description, user, now, data.expiresAt, data.isActive)
    ensures poll.id !in PollIds(old(db.polls))
    ensures db.polls == old(db.polls) + [poll]
    ensures db.choices == old(db.choices) + Filter(db.choices, OwnedBy(poll.id))
    ensures Texts(Filter(db.choices, OwnedBy(poll.id))) == data.choices
    ensures db.votes == old(db.votes)
    ensures VotesConsistent(old(db.choices), old(db.votes)) ==> VotesConsistent(db.choices, db.votes)
  {
    poll := Create(db, data, user, now);
  }

  // ---- VoteCreateAPIView ----------------------------------------------

  /** `perform_create`: stores the vote with the requesting user as voter; when
      the store refuses it under `unique_together`, reports the same error as
      the validator's duplicate check and stores nothing. */
  method PerformCreateVote(db: Database, poll: Poll, choice: Choice, user: UserId, now: Time)
    returns (r: Result<Vote, VoteError>)
    requires db.Valid()
    requires poll in db.polls && choice in db.choices
    modifies db
    ensures db.Valid()
    ensures db.polls == old(db.polls) && db.choices == old(db.choices)
    ensures HasVoted(old(db.votes), poll.id, user) ==> r == Err(AlreadyVoted) && db.votes == old(db.votes)
    ensures r.Err? ==> Message(r.error) == "You have already voted on this poll."
    ensures !HasVoted(old(db.votes), poll.id, user) ==>
      && r.Ok?
      && r.value.poll == poll.id && r.value.choice == choice.id && r.value.user == user && r.value.votedAt == now
      && (forall w :: w in old(db.votes) ==> w.id != r.value.id)
      && db.votes == old(db.votes) + [r.value]
    ensures VotesConsistent(old(db.choices), old(db.votes)) && choice.poll == poll.id ==>
      VotesConsistent(db.choices, db.votes)
  {
    var inserted := db.InsertVote(poll.id, choice.id, user, now);
    match inserted
    case Err(_) =>
      r := Err(AlreadyVoted);
    case Ok(v) =>
      r := Ok(v);
      assert choice in db.choices;
  }

  /** A vote request: the validator runs first and any refusal is returned with
      nothing stored; an accepted vote is then stored for the requesting user. */
  method CreateVote(db: Database, data: VoteData, user: UserId, now: Time) returns (r: Result<Vote, VoteError>)
    requires db.Valid()
    requires data.poll.Some? ==> data.poll.value in db.polls
    requires data.choice in db.choices
    modifies db
    ensures db.Valid()
    ensures db.polls == old(db.polls) && db.choices == old(db.choices)
    ensures ValidateVote(data, user, old(db.votes), now).Err? ==>
      r == Err(ValidateVote(data, user, old(db.votes), now).error) && db.votes == old(db.votes)
    ensures ValidateVote(data, user, old(db.votes), now).Ok? ==>
      && r.Ok?
      && r.value.poll == data.poll.value.id && r.value.choice == data.choice.id && r.value.user == user
      && r.value.votedAt == now
      && (forall w :: w in old(db.votes) ==> w.id != r.value.id)
      && db.votes == old(db.votes) + [r.value]
    ensures VotesConsistent(old(db.choices), old(db.votes)) ==> VotesConsistent(db.choices, db.votes)
  {
    var checked := ValidateVote(data, user, db.votes, now);
    if checked.Err? {
      r := Err(checked.error);
      return;
    }
    r := PerformCreateVote(db, data.poll.value, data.choice, user, now);
  }
}
