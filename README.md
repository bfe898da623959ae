# Polls API voting core, modelled in Dafny

This project models the voting-integrity core of a small Django polls API.
Authenticated users create polls with an ordered list of choices. Other users
cast at most one vote per poll. Results are tallied on demand.

The ORM and the HTTP layer are replaced by plain data. A `Store.Database`
object stands in for the three tables. It keeps polls, choices and votes as
sequences in primary-key order, with auto-increment counters. Its `Valid()`
invariant holds the constraints declared on the models: primary keys, foreign
keys, the 255-character columns, and `unique_together = ('poll', 'user')` on
votes. The current time is an integer parameter `now`, and users are opaque
integer ids.

Modules follow the source files:

- `Common`: option and result types, plus what the queries are built from. `Filter` is an order-preserving `filter(...)`, `Count` is `.count()`, and `Pairwise` states a relation between every earlier and later element.
- `Models` (`polls/models.py`): the `Poll`, `Choice` and `Vote` records, the defaults, and the table constraints as predicates. It also holds `VotesConsistent`, the application-level invariant that every vote names a choice of its own poll.
- `Store`: the database object. It does the inserts, including `bulk_create`, the insert that enforces `unique_together`, and the cascading deletes.
- `Serializers` (`polls/serializers.py`): `get_votes`, poll creation with its choices, and the vote validator.
- `Views` (`polls/views.py`): the `active` filter of the listing, the results endpoint, and the two `perform_create` methods.
- `Scenarios`: the create-and-vote flow of `polls/tests.py`, stated as postconditions.

## Model

| member | source | states |
|---|---|---|
| `Models.NewPoll` | polls/models.py:4-10 | A new poll takes the given id, title, creator and creation time. It is active unless `is_active` is given as false. It has no expiry unless one is given. Its description is empty when none is given. |
| `Models.OneVotePerUserSnoc` | polls/models.py:38-39 | Adding a vote keeps "at most one vote per (poll, user)" exactly when that user has no vote on that poll yet. |
| `Common.PairwiseUnique` | polls/models.py:4-32 | In a table whose implicit auto-increment primary keys are strictly increasing, two stored rows with the same key are the same row. So a poll key names one poll, and a choice key names one choice with one owning poll. |
| `Models.HasVotedSnoc` | polls/serializers.py:75 | The `Vote.objects.filter(poll=poll, user=user).exists()` query holds after one more vote exactly when it held before or the new vote is that user's vote on that poll. |
| `Store.Database.constructor` | polls/models.py:4-43 | An empty store satisfies every table constraint. |
| `Store.Database.InsertPoll` | polls/serializers.py:50 | `Poll.objects.create` appends one poll with a fresh key and the model defaults. Choices and votes are untouched and the constraints still hold. |
| `Store.Database.BulkCreateChoices` | polls/serializers.py:52 | `bulk_create` appends one row per draft, in input order, with fresh keys. Nothing else changes and the constraints still hold. |
| `Store.Saved` | polls/serializers.py:52 | The rows `bulk_create` stores get consecutive keys from the counter, in input order, and keep each draft's poll and text. |
| `Store.Database.InsertVote` | polls/models.py:32-39 | An insert that would give a (poll, user) pair a second vote is refused with an integrity error and stores nothing. Otherwise exactly one vote is appended, with the given poll, choice, user and time. |
| `Store.Database.DeletePoll` | polls/models.py:23-34 | Deleting a poll removes it, its choices (cascade on `Choice.poll`), and every vote that points at the poll or at one of its choices. Other rows keep their order, the constraints hold, and "every vote names a choice of its own poll" is preserved. |
| `Store.PollCascadeKeepsIntegrity` | polls/models.py:23-39 | After a poll is deleted with its cascade, the remaining tables still meet every table constraint: increasing keys, foreign keys, widths and one vote per (poll, user). Exactly that poll's key is gone. |
| `Store.PollCascadeKeepsConsistency` | polls/models.py:33-34 | If every vote named a choice of its own poll before a poll was deleted with its cascade, that still holds for the votes that remain. |
| `Store.Database.DeleteChoice` | polls/models.py:34 | Deleting a choice removes exactly the votes that point at it (cascade on `Vote.choice`). The constraints and vote consistency are preserved. |
| `Serializers.GetVotes` | polls/serializers.py:13-14 | The count is the number of stored votes whose choice is this choice. It is at most the number of votes, and it is zero exactly when no vote names the choice. |
| `Serializers.GetVotesSnoc` | polls/serializers.py:13-14 | One more stored vote raises the count of its own choice by one and leaves every other choice's count unchanged. |
| `Serializers.ValidInputFitsColumns` | polls/serializers.py:36-39 | Input that passes field validation (a non-blank title and choice texts of at most 255 characters) builds a poll and choices that fit the `max_length=255` columns. |
| `Serializers.DraftChoices` | polls/serializers.py:51 | The comprehension builds one unsaved choice per input text, in input order, each owned by the new poll. |
| `Serializers.SavedAreThePollsChoices` | polls/serializers.py:51-52 | After the bulk insert, the choices owned by the new poll are exactly the saved rows, and their texts are the input texts in order. |
| `Serializers.Create` | polls/serializers.py:48-53 | Creation adds one poll and exactly `len(choices)` choices, all owned by the new poll, with texts equal to the input in order. An empty list gives a poll with no choices. Earlier polls, choices and votes are unchanged. |
| `Serializers.ValidateVote` | polls/serializers.py:67-85 | A vote is accepted, and returned unchanged, exactly when no refusal reason applies. Otherwise the reported reason is one that applies and comes first in the order missing poll, duplicate, expired, choice mismatch. |
| `Serializers.MessagesDistinct` | polls/serializers.py:72-83 | The four refusals carry four different messages, so the message tells which check refused the vote. |
| `Serializers.ExpiredStaysRefused` | polls/serializers.py:78-79 | A vote refused with "Poll has expired." at some time is refused for that same reason at every later time. |
| `Serializers.MissingPollRefused` | polls/serializers.py:72-73 | A vote without a poll is refused with "Poll is required.". |
| `Serializers.DuplicateRefusedWhateverChoice` | polls/serializers.py:75-76 | A user who already has a vote on the poll is refused with "You have already voted on this poll.", whichever choice either vote names and whether or not the poll is also expired or mismatched. |
| `Serializers.ExpiredIff` | polls/serializers.py:78-79 | Once the first two checks pass, the vote is refused with "Poll has expired." exactly when the poll has an expiry strictly earlier than now. |
| `Serializers.ExpiryBoundary` | polls/serializers.py:78-79 | An expiry equal to now does not refuse the vote, and a poll without an expiry never does. |
| `Serializers.MismatchRefused` | polls/serializers.py:81-83 | Once the earlier checks pass, a choice owned by another poll is refused with "Choice does not belong to the given poll.". |
| `Serializers.AcceptedVoteFits` | polls/serializers.py:67-85 | An accepted vote names a poll, a choice of that same poll, and a user with no vote on it, and the poll is not expired. |
| `Views.LowerMatches` | polls/views.py:30-32 | Lower-casing a parameter and comparing it with a lower-case word is the same as comparing them letter by letter, ignoring case. |
| `Views.LowerIdempotent` | polls/views.py:30 | ASCII lower-casing (`Lower`), which stands in for `.lower()`, keeps the length, leaves no upper-case letter, and lower-casing twice gives the same string as lower-casing once. |
| `Views.ParseActive` | polls/views.py:28-33 | The filter keeps only active polls exactly when the parameter is "1", "true" or "yes" in any case. It keeps only inactive polls exactly when the parameter is "0", "false" or "no" in any case. Anything else, or no parameter, keeps all polls. |
| `Views.Keeps` | polls/views.py:31-33 | The active-only filter keeps exactly the polls with `is_active` true, as `filter(is_active=True)` does. The inactive-only filter keeps exactly those with `is_active` false. The unfiltered listing keeps every poll. |
| `Views.FilterPolls` | polls/views.py:26-34 | The listing holds exactly the input polls that match the filter, as a subsequence that keeps the input order, with as many entries as the input has matching polls. With no usable parameter it is the input itself. |
| `Views.ListingStaysNewestFirst` | polls/models.py:13 | Filtering a newest-first listing leaves it newest-first. |
| `Views.FindPoll` | polls/views.py:41 | `get_object` finds a poll with the requested key in the queryset it is given, and fails exactly when that queryset has no poll with the key. |
| `Views.Tally` | polls/views.py:43-46 | There is one entry per given choice, in the same order, carrying that choice's id and text and its vote count. |
| `Views.Results` | polls/views.py:36-50 | The poll is looked up in the listing filtered by the request's `active` parameter. Results fail as not found exactly when that listing has no poll with the key. Otherwise they carry the title of that poll and one entry per choice of that poll, and of no other poll, in store order. Each entry's `votes` is the number of votes for that choice. |
| `Views.ResultsUnfiltered` | polls/views.py:28-29 | Without an `active` parameter, results fail exactly when no stored poll has the key. |
| `Views.ResultsOfFilteredOutPoll` | polls/views.py:26-41 | Results for a stored poll that the `active` parameter filters out are answered as not found. |
| `Views.TallyCountsItsChoices` | polls/views.py:42-45 | Over choices with distinct keys, the entries' vote counts add up to the number of votes naming any of those choices. |
| `Views.TallyAddsUp` | polls/views.py:42-45 | When every stored vote names a choice of its own poll, the `votes` of a poll's results add up to the number of votes on that poll. |
| `Views.VoteRaisesOneEntry` | polls/views.py:42-45 | One more stored vote raises the results entry of its own choice by one and leaves every other entry unchanged. |
| `Views.PerformCreatePoll` | polls/views.py:23-24 | The created poll has the requesting user as its creator, with all the effects of poll creation. |
| `Views.PerformCreateVote` | polls/views.py:56-60 | The vote is stored with the requesting user as voter, the current time and a fresh key. If the uniqueness constraint refuses it, the result is the validator's "already voted" error, with the message "You have already voted on this poll.", and no vote is added. |
| `Views.CreateVote` | polls/views.py:52-60 | A vote request returns the validator's refusal, storing nothing, or stores exactly one vote: for the given poll and choice, by the requesting user, at the current time, with a fresh key. It preserves the table constraints and "every vote names a choice of its own poll". |
| `Scenarios.CreateFavColor` | polls/tests.py:24-32 | Creating "Fav color?" with Red and Blue gives an active poll with no expiry, whose choices are Red then Blue, with distinct ids. |
| `Scenarios.OneVoteForFirstChoice` | polls/tests.py:37-42 | After one vote for the first of a poll's two choices, the results without a filter carry the poll's title, with one vote for the first choice and none for the second. |
| `Scenarios.RedBlueFlow` | polls/tests.py:21-52 | After one vote for Red by a second user, the results read Red 1, Blue 0. The same user's second vote is refused as already voted. |

## Left out

- HTTP routing, URL configuration, the API-doc pages, static files, the admin registration and the `landing` view are not modelled. They are framework wiring.
- JWT authentication and the permission classes are not modelled. The requesting user is a given identity, passed as a `UserId`.
- JSON shaping is not modelled: `to_representation`, the serializer field lists and `PollSerializer`. Results are datatypes with the same keys (`poll`, `results`, `id`, `choice`, `votes`).
- Models.NewPoll: the default `is_active` of True applies to JSON requests. For a form-encoded request, the `BooleanField` reads an absent `is_active` as False, and that path is not modelled.
- Field-level request parsing is not modelled. This covers resolving `poll` and `choice` keys to rows (its "invalid pk" errors), whitespace trimming, and the messages of field errors. `Serializers.IsValidPollInput` gives the resulting conditions (non-blank title and texts of at most 255 characters), and creation requires them, as `create` only ever receives validated data.
- Serializers.Create: `choices` is a required list field, so the `pop('choices', [])` default is never used and the input always carries a list.
- Serializers.ValidateVote: the choice is always present, because the field is required. The source dereferences it without a check, so a missing choice would be a crash rather than a refusal.
- Serializers.ValidateVote: the missing-poll refusal is modelled, but the endpoint never reaches it. `Vote.poll` is a non-null foreign key, so its serializer field is required and non-null, and field validation refuses a missing poll first.
- The concurrent check-then-insert race is not modelled. The model is sequential, so in `Views.CreateVote` the store's uniqueness refusal cannot follow a passed validation. `Views.PerformCreateVote` states the translation of that refusal on its own.
- Creation has no rollback. The source does not wrap the poll insert and `bulk_create` in a transaction. In the model neither store write can fail on validated input, so there is no partial-failure path.
- Timestamps are integers. `created_at` and `voted_at` are taken from the `now` parameter instead of the clock.
- The `ORDER BY -created_at` sort is the database's work and is not modelled. The listing is taken in the order the query returns, and `Views.ListingStaysNewestFirst` shows that filtering keeps that order.
- Users are not stored. Deleting a user, which cascades to their polls and votes, is not modelled.
- Updating a poll's active flag or expiry through the generic update endpoint is not modelled.
- Query tuning is not modelled: `select_related`, `prefetch_related`, the indexes and `__str__`.
- Choice results are kept in the store's primary-key order, since `Choice` declares no ordering.
- Views.LowerIdempotent: Python's `.lower()` uses full case mapping and can lengthen a string ('İ', U+0130, becomes two code points). The model's ASCII `Lower` keeps the length. This does not change the `active` decision, since no such character lower-cases into one of the six words.
- Views.ParseActive: lower-casing is ASCII only. Python's `str.lower()` maps no non-ASCII character to a letter of the six accepted words, so the decision is the same.

## Notes on the code

A poll and its choices are meant to become visible together. The code,
however, inserts the poll and then bulk-inserts the choices, with no
transaction around the two writes. The model follows the code: two
sequential store writes, and no rollback.

The code accepts an empty list of choices, so the model does too. A minimum
number of choices is not enforced anywhere in the code.
