# Secret Santa bot: the event lifecycle

A model of the event lifecycle of the Secret Santa web application. The
application keeps three tables: participants, matches and settings.
Participants register through a public form. An administrator then creates
matches, sends each giver a notification, toggles reveals and deletes or
resets data. Once any notification email has gone out, the event is locked:
registration, re-matching, clearing matches and deleting participants are
refused.

The Dafny project has six modules:

- `Models` (`models.dfy`). The three record shapes and their column defaults.
  It states the constraints the schema and the handlers keep (`Consistent`:
  distinct primary keys, unique emails, names that fit their column, matches
  that name existing participants). It also gives SQLite's rowid allocation
  (one more than the largest rowid, or 1 in an empty table) and lookups by
  primary key.
- `Sanitize` (`sanitize.dfy`). Python's `str.strip()`, `str.split()` and
  `" ".join(...)` over the characters `str.isspace` accepts, and the flattening
  `" ".join(s.split())` that the mail handlers apply to names and preferences.
- `Cycle` (`cycle.dfy`). The single-cycle match construction over a shuffled
  order, and the proof that it forms one cycle through everybody.
- `Phases` (`phases.dfy`). The dashboard phase derived from the match rows.
- `Notify` (`notify.dfy`). The pieces of the mail handlers:
  - the two notification kinds and the classification of send failures;
  - the operator summaries of those failures;
  - reference functions for one pass of the send loop (which attempt each unsent
    match gets, the tallies, the first failure, the matches left afterwards);
  - the reveal toggle.
- `Routes` (`routes.dfy`). The handlers, written as methods of the class
  `Store`, whose fields are the three tables. The send loop is the method
  `AttemptUnsent`, proved against the `Notify` reference functions. Every
  handler keeps `Consistent` and states its whole new state, error paths
  included.

Inputs the application gets from outside are parameters:

- the shuffle is an input `order`, which must be a permutation of the
  participant ids;
- `validate_email` is a function `validate` that returns the normalised
  address, or `None` for an invalid one;
- the SMTP transport is an oracle `deliver` that maps the attempt number to
  how that attempt ends (`Delivered`, an authentication error, another SMTP
  error or any other exception, the last two with their message text);
- a reveal toggle takes the outcome of its one possible attempt.

The handlers are more permissive than the phase names suggest; the model
follows the code:

- Registration is refused only once some match has `email_sent`. Existing
  matches do not close it (app/routes.py:48-51).
- Creating matches deletes the existing matches before it checks for at least
  two participants. With fewer than two, the match table is left empty
  (app/routes.py:197-208).
- Clearing matches has no "matches must exist" guard. It succeeds and reports
  0 on an empty table (app/routes.py:253-261).
- Sending emails has no lock guard. It attempts every unsent match, even
  after an earlier pass has locked the event (app/routes.py:271-275).
- Deleting an unknown participant is refused as not found before the lock is
  checked (app/routes.py:459-465).

## Model

| member | source | states |
|---|---|---|
| Models.NewMatch | app/models.py:24-26 | a freshly created match has the given giver, receiver and id, and `email_sent`, `revealed` and `thank_you_email_sent` all false |
| Models.NextRowId | app/models.py:6 | the id the database gives a new row is at least 1, larger than every existing id, and either 1 or one more than an existing id |
| Models.FindParticipant | app/routes.py:459 | a participant is found exactly when some row has that id, and the row found has that id and is one of the rows |
| Models.FindMatch | app/routes.py:386 | a position is found only if the match there has that id, and none is found only when no match has it |
| Sanitize.LeadingSpaces | app/routes.py:53-55 | the count of leading characters removed is all whitespace and stops at the first non-whitespace character |
| Sanitize.TrailingSpaces | app/routes.py:53-55 | the count of trailing characters removed is all whitespace and stops at the last non-whitespace character |
| Sanitize.Strip | app/routes.py:53-55 | the stripped field is the slice between its leading and its trailing whitespace, with only whitespace cut off on either side |
| Sanitize.StripEnds | app/routes.py:53-55 | a non-empty stripped field neither starts nor ends with whitespace, so exactly the whitespace at both ends is cut off |
| Sanitize.StripEmpty | app/routes.py:58 | a field strips to empty, and is refused as missing, exactly when it is all whitespace |
| Sanitize.StripIdempotent | app/routes.py:53-55 | stripping a stripped field changes nothing |
| Sanitize.Split | app/routes.py:288 | `split()` yields only non-empty words without whitespace |
| Sanitize.SplitOfSpaces | app/routes.py:288 | text splits into no words exactly when it is all whitespace |
| Sanitize.SplitAfterSpace | app/routes.py:288 | any whitespace character in front of the text (space, tab, line break or any other) adds no word, so every run of whitespace only separates |
| Sanitize.SplitWordThen | app/routes.py:288 | a word followed by whitespace or by the end of the text is the first word, followed by the words of the rest. With the two rows above this fixes `split()` on every input |
| Sanitize.Normalize | app/routes.py:288-290 | the flattened text has no line break or carriage return, its only whitespace is single spaces between non-space characters, it neither starts nor ends with a space, and its words are exactly the input's words |
| Sanitize.NormalizedIsJoin | app/routes.py:288 | a flattened text is its own words joined by single spaces |
| Sanitize.NormalizeUnique | app/routes.py:288-290 | a text is the flattening of the input exactly when it is flattened and has the input's words, so the contract of `Normalize` determines its result |
| Sanitize.JoinLength | app/routes.py:288 | `" ".join` of no words is empty; otherwise the result starts with the first word and is as long as the words plus one separator per gap |
| Sanitize.SplitJoin | app/routes.py:288 | splitting words joined by single spaces gives the same words back |
| Sanitize.NormalizeIdempotent | app/routes.py:288-290 | flattening a flattened text changes nothing |
| Sanitize.NormalizeKeepsText | app/routes.py:288-290 | flattening keeps every non-whitespace character, in order |
| Sanitize.NonSpacesOfSplit | app/routes.py:288 | the words `split()` yields, concatenated, are exactly the non-whitespace characters of the input |
| Sanitize.JoinNormalized | app/routes.py:288 | joining words with single spaces yields flattened text whose first character is the first word's first character |
| Cycle.CyclePairs | app/routes.py:223-226 | one (giver, receiver) pair per position of the shuffled order; `CycleIsSingle` states what the pairs form |
| Cycle.BuildCycle | app/routes.py:222-226 | the loop appends the pair (order[i], order[(i + 1) mod n]) for every position i |
| Cycle.CycleHasNoSelfPair | app/routes.py:228-229 | over at least two distinct ids nobody gives to themselves, so the validity check always passes and the retry loop's failure branch is never reached |
| Cycle.CycleIsSingle | app/routes.py:210-226 | over at least two distinct ids every id gives exactly once and receives exactly once. Following giver to receiver from any id visits every id and returns only after exactly n steps |
| Cycle.WalkAlongOrder | app/routes.py:223-226 | k steps of giver to receiver from position i of the shuffled order end at position i + k, counted round the ring |
| Cycle.SingleCycleOverPermutation | app/routes.py:217-218 | being one cycle through the participants does not depend on the order in which the ids are listed |
| Cycle.DistinctPermutation | app/routes.py:217-218 | a shuffle of distinct ids is itself free of repeats |
| Phases.PhaseOf | app/routes.py:158-173 | the phase is locked exactly when some match has `email_sent`, matching exactly when matches exist and none has, and registration exactly when there are no matches |
| Notify.FlatName | app/routes.py:288-289 | a name as a notification carries it (also at lines 397-398 of the reveal email) is flattened, has exactly the name's words and keeps its non-whitespace characters; by `Sanitize.NormalizeUnique` that is `" ".join(name.split())` and nothing else |
| Notify.MatchNotice.Preference | app/routes.py:290 | the preference in the notification is flattened; a missing or empty preference reads as the placeholder, and a non-empty one keeps exactly the preference's words and its non-whitespace characters |
| Notify.PreferenceText | app/routes.py:290 | `gift_preference or "No preference specified"`, flattened: the text is flattened, a missing or empty preference gives the placeholder, and a non-empty one gives text with exactly its words |
| Notify.PlaceholderIsFlat | app/routes.py:290 | the placeholder text is already flat, so flattening leaves it unchanged |
| Notify.ContainsOccurs | app/routes.py:340-351 | Python's `sub in s` holds exactly when `sub` occurs as a contiguous slice of the message |
| Notify.Classify | app/routes.py:328-354 | an authentication error is its own kind. An SMTP error is "connection refused" exactly when its message contains "Connection refused", "timeout" exactly when it does not but contains "timed out", and a plain SMTP error with its message otherwise. Any other exception is "unknown host" exactly when its message contains "Name or service not known", and a general error with its message otherwise |
| Notify.Summary | app/routes.py:331-354 | every failure summary is non-empty, so once recorded it counts as set and is never overwritten |
| Notify.SummaryOf | app/routes.py:356-359 | a summary is reported exactly when a failure was recorded, and it is that failure's non-empty summary |
| Notify.SendStep | app/routes.py:281-326 | an emailed match is left alone, and an unsent one becomes sent exactly when its attempt is delivered. Id, giver, receiver and the reveal flags never change |
| Notify.CountUnsentZero | app/routes.py:271-275 | there is nothing to send exactly when every match has `email_sent` |
| Notify.UnsentBeforeZero | app/routes.py:271-275 | none of the first k matches is unsent exactly when all of them have `email_sent` |
| Notify.AfterSend | app/routes.py:281-326 | the pass keeps every match, in its position; `AfterSendAt` gives each one |
| Notify.AfterSendAt | app/routes.py:281-326 | after the pass, each match is that match meeting the attempt numbered by the unsent matches before it |
| Notify.AfterSendAllSent | app/routes.py:271-275 | a pass over matches that are all emailed changes nothing |
| Notify.SentPlusFailed | app/routes.py:277-354 | every attempt is counted once, as sent or as failed: `sent_count + error_count` is the number attempted |
| Notify.FirstFailureIsEarliest | app/routes.py:279-354 | the recorded error is absent exactly when every attempt was delivered, and otherwise it is the classification of the earliest failed attempt |
| Notify.AfterSendLocks | app/routes.py:323-325 | after a pass the event is locked exactly when it was locked before or some attempt of the pass was delivered |
| Notify.AfterSendLeavesFailures | app/routes.py:271-326 | the matches still unsent after a pass are exactly as many as its failed attempts |
| Notify.NoticesUpToCount | app/routes.py:281-295 | one notification is built per attempted match |
| Notify.NoticesUpToAt | app/routes.py:283-295 | attempt number n carries the notification for the giver of the n-th unsent match, about that match's receiver |
| Notify.Toggled | app/routes.py:386-432 | a toggle always flips `revealed`, and `thank_you_email_sent` becomes true only when a hidden-to-revealed flip without an earlier thank-you was delivered. Nothing else changes |
| Notify.RevealSentOnce | app/routes.py:391 | after a successful reveal email, toggling off and on again never attempts another one |
| Notify.RevealRetriedAfterFailure | app/routes.py:391-450 | a failed reveal email leaves the match revealed and eligible, so the next flip to revealed tries again |
| Routes.FormError | app/routes.py:57-91 | the form checks are made in the handler's order over the stripped fields. Each error is reported exactly when its check is the first to fail, and none exactly when all pass |
| Routes.Admit | app/routes.py:46-104 | registration is closed exactly when some email was sent. Form errors come next. The duplicate-email error happens exactly when the form passes and the normalised email is taken. A row is admitted exactly when every check passes, with the next rowid, the stripped name and preference and the validator's normalised address |
| Routes.AdmitConsistent | app/routes.py:93-104 | the admitted row keeps the tables consistent: a fresh id, an unused email, a name within 100 characters |
| Routes.AppendParticipantConsistent | app/models.py:6-8 | adding a participant with a fresh id, an unused email and a fitting name keeps the tables consistent |
| Routes.MatchPairs | app/routes.py:233-234 | the (giver, receiver) pairs of the match rows, one per row in row order |
| Routes.InsertedMatches | app/routes.py:233-235 | inserting the pairs into an empty match table gives one row per pair, in order, with rowids 1, 2, ... and every flag false |
| Routes.NextRowIdAfterBatch | app/routes.py:233-241 | after rows with ids 1..n the next rowid is n + 1 |
| Routes.InsertedMatchesConsistent | app/routes.py:233-241 | inserting pairs between existing participants into an empty match table keeps the tables consistent |
| Routes.CycleMatchesConsistent | app/routes.py:214-241 | the matches inserted for a shuffle of at least two participants are consistent, form one cycle through all participants, and put the event in the matching phase |
| Routes.UpdateMatchConsistent | app/routes.py:386-452 | rewriting the flags of one match keeps the tables consistent |
| Routes.AfterSendConsistent | app/routes.py:323-325 | a send pass only sets flags, so the tables stay consistent |
| Routes.WithoutParticipant | app/routes.py:472 | deleting the participant keeps exactly the other participants, with ids still distinct and emails still unique |
| Routes.WithoutMatchesOf | app/routes.py:467-470 | deleting the matches of an id keeps exactly the matches naming that id neither as giver nor as receiver, with ids still distinct |
| Routes.ReferencesKept | app/routes.py:467-473 | after both deletes every remaining match still names remaining participants |
| Routes.AttemptUnsent | app/routes.py:277-354 | the loop leaves the matches as the reference pass does. Its sent count, error count and first error are those of the attempts made, and it builds one notification per unsent match, in order |
| Routes.Store.constructor | app/models.py:5-36 | the application starts with all three tables empty, which is consistent |
| Routes.Store.Register | app/routes.py:44-111 | on any refused check nothing is inserted, and the error is `Admit`'s. Otherwise exactly the admitted row is appended and its id returned. Matches and settings are unchanged, and the tables stay consistent |
| Routes.Store.CreateMatches | app/routes.py:187-246 | once locked, it is refused and nothing changes. Otherwise the matches are deleted first. Below two participants it is refused, leaving no matches. Otherwise exactly the cycle's matches are inserted: one per participant, all flags false, one cycle through everybody, phase matching. Participants and settings are unchanged |
| Routes.Store.ClearMatches | app/routes.py:249-265 | once locked, it is refused and nothing changes. Otherwise every match is deleted, the number deleted is reported, and the phase is registration |
| Routes.Store.SendEmails | app/routes.py:268-361 | with nothing unsent it reports so and changes nothing. Otherwise the matches become the reference pass's result, and the report holds the pass's sent count, error count and first failure's summary. Participants and settings are unchanged |
| Routes.Store.ToggleReveal | app/routes.py:383-453 | an unknown match id is refused and nothing changes. Otherwise exactly that match is toggled. A reveal email is attempted exactly on a hidden-to-revealed flip without an earlier thank-you, to the receiver about the giver, and the new `revealed` value is reported |
| Routes.Store.DeleteParticipant | app/routes.py:456-480 | an unknown id is refused first. Once locked, it is refused and nothing changes. Otherwise exactly that participant and exactly the matches naming them are removed, and everything else is unchanged |
| Routes.Store.ResetAll | app/routes.py:483-493 | with no guard, all three tables become empty and the phase is registration |

## Left out

- HTTP routing, templates, `flash` and redirects, the `admin_required`
  session check, admin login and password hashing, CSRF and the rate limiter:
  these are request plumbing. The flash messages are represented by the error
  and summary values the handlers return.
- The reveal listing page (app/routes.py:364-380): it only reads the rows for
  display.
- SMTP transport and MIME message building: these are network I/O. A send is
  the `deliver` oracle's answer. The messages are represented only by the
  fields the handlers compute for them (`MatchNotice`, `RevealNotice`).
- The mapping from Python exception classes to `SendOutcome` is assumed to
  be what the except clauses catch in order. The model does not capture which
  exceptions `smtplib` raises for which network condition.
- `email_validator` is the opaque parameter `validate`, and `random.shuffle`
  is the input `order`.
- Routes.Store.CreateMatches: takes the shuffled order as a precondition in
  every call, also when it is refused.
- The 100-attempt retry around the construction is a single construction.
  `Cycle.CycleHasNoSelfPair` proves that its validity check always passes, so
  the retry and its failure message are never reached.
- SQLAlchemy sessions and commits: each handler is one atomic update of the
  tables.
- Routes.Store.SendEmails: the commit after each successful send is one
  assignment of the whole pass's result after the loop. These are equivalent
  because the model is sequential, but a crash in the middle of a pass is not
  modelled.
- Concurrent requests: the model is sequential.
- Models.NextRowId: allocates ids as SQLite does, one more than the largest
  id, so after the match table is emptied the new matches get ids 1..n
  (`Routes.InsertedMatches`). SQLite is only the default database; another
  database behind `DATABASE_URL` may keep counting after a delete and give
  other ids. The model does not cover that.
- Timestamps (`created_at`) and logging.
- Routes.AttemptUnsent: `if not first_error` is modelled as "no failure
  recorded yet". Every summary is non-empty (`Notify.Summary`), so the two
  agree.
- Models.Consistent: does not include the 120-character email column or the
  widths of the setting columns. No handler checks them, and SQLite does not
  enforce declared widths.
- Sanitize.Normalize: Dafny strings are sequences of Unicode scalar values.
  Python strings are sequences of code points, so lone surrogates are not
  covered. Case folding and normalisation play no part in the handlers.
- Settings rows are only ever deleted (by the full reset). No handler in the
  core creates them.
- `app/__init__.py` configuration and the `dev-tools` scripts are not part of
  this model.
