# Bookmark validation model

A Dafny model of the `Bookmark` record of a discussion forum: a user's bookmark on a post,
optionally with a reminder. Before a bookmark is written, three validations run, in the order they
are declared, and each appends errors to the record's error collection:

1. `reminder_at` must be present when a reminder type is set and it is not `at_desktop`.
2. No other stored bookmark may hold the same user and post (`unique_per_post_for_user`).
3. A set `reminder_at` may be neither before the current instant nor more than ten years after it
   (`ensure_sane_reminder_at_time`); both checks always run.

The reminder types form a closed enumeration bound to the integers 0..6 (`at_desktop` is 0).

## Layout

- `options.dfy`: `Options.Option`, for nullable columns and for lookups that find nothing.
- `reminder_types.dfy`: the enumeration and its stored integers, with the reverse lookup.
- `bookmark.dfy`: the record, the error identifiers, the lookup by user and post, each rule as a
  pure function, `Validate` (all three rules in order) and the lemmas that state what each rule
  promises.
- `bookmark_store.dfy`: the `bookmarks` table as a class `Table` whose `rows` and `nextId` its
  methods update. `FindBy` is the validator's read. `Write` is the persistence layer's insert or
  update. It also enforces the unique index on (user_id, post_id), which refuses a clashing row.
- `bookmark_validator.dfy`: the error collection as a class, the three validators as methods that
  append to it, `RunValidations`, and `Save`, which writes only when validation reports nothing.

Modelling choices:

- Instants are integer seconds. The current time `now` is a parameter.
- `10.years` is the fixed offset `DistantFutureWindow` = 10 × 31556952 seconds.
- `reminder_type` keeps the raw integer of its nullable column. Rule 1 therefore fires for any
  present value other than 0, including values outside 0..6, as the condition in the source does.
- Messages are identifiers. The rendered `at_desktop` label that the first one carries is the
  uninterpreted string `deskLabel`.
- `find_by` returns the first stored match. Under the unique index there is at most one match, so
  the choice does not matter (`Bookmarks.LookupIsTheOnlyMatch`).

Two consequences of the code worth stating:

- `reminder_at == now` is accepted: the past check at app/models/bookmark.rb:24 is a strict
  comparison, as is the future check at line 27 (`Bookmarks.WindowEndsAccepted`).
- Rule 1 and rule 3 never both report, because one needs `reminder_at` absent and the other needs
  it set (`Bookmarks.PresenceAndTimeRulesExclusive`). Rule 2 accumulates with either
  (`Bookmarks.ViolationsAccumulate`).

## Model

| member | source | states |
|---|---|---|
| `ReminderTypes.Value` | app/models/bookmark.rb:32-42 | every reminder type is stored as an integer in 0..6 |
| `ReminderTypes.FromValue` | app/models/bookmark.rb:32-42 | an integer denotes a reminder type exactly when it is in 0..6, and then one whose stored integer it is |
| `ReminderTypes.ValueInjective` | app/models/bookmark.rb:33-41 | no two reminder types share an integer |
| `ReminderTypes.FromValueOfValue` | app/models/bookmark.rb:33-41 | reading back a stored reminder type gives the same type |
| `ReminderTypes.ValuesCoverRange` | app/models/bookmark.rb:33-41 | each of 0..6 is some reminder type's integer |
| `Bookmarks.UniqueUserPost` | app/models/bookmark.rb:67 | under the unique index, a row is the only one with its user and post |
| `Bookmarks.ReminderAtRequired` | app/models/bookmark.rb:10 | the presence condition holds exactly when a reminder type is set and it does not decode to `at_desktop` |
| `Bookmarks.FindByUserPost` | app/models/bookmark.rb:17 | the lookup finds nothing exactly when no stored row has the user and post; what it finds is a stored row with both |
| `Bookmarks.LookupIsTheOnlyMatch` | app/models/bookmark.rb:67 | under the unique index, the lookup returns the one stored row with that user and post |
| `Bookmarks.LookupDecidesConflict` | app/models/bookmark.rb:17-18 | under the unique index, "found and the id differs" holds exactly when another stored bookmark holds the user and post |
| `Bookmarks.PresenceErrors` | app/models/bookmark.rb:8-11 | rule 1 adds at most one error, keyed to `reminder_at`, with the time-must-be-provided message carrying the `at_desktop` label |
| `Bookmarks.UniquenessErrors` | app/models/bookmark.rb:16-20 | rule 2 adds at most one error, the base already-bookmarked error |
| `Bookmarks.SaneReminderErrors` | app/models/bookmark.rb:22-30 | rule 3 adds at most one base error, and none when `reminder_at` is blank |
| `Bookmarks.Validate` | app/models/bookmark.rb:8-14 | one validation reports at most two errors |
| `Bookmarks.TimeMustBeProvidedIff` | app/models/bookmark.rb:8-11 | the `reminder_at` presence error is reported exactly when a reminder type other than `at_desktop` is set and `reminder_at` is absent |
| `Bookmarks.NoReminderAtErrorWithoutScheduledType` | app/models/bookmark.rb:10 | with no reminder type, or `at_desktop`, no error is keyed to `reminder_at`, whatever `reminder_at` is |
| `Bookmarks.ScheduledTypeNeedsTime` | app/models/bookmark.rb:10 | each reminder type except `at_desktop`, stored without a time, gets the presence error |
| `Bookmarks.AlreadyBookmarkedIff` | app/models/bookmark.rb:16-19 | under the unique index, the already-bookmarked error is reported exactly when another stored bookmark (a different id) holds the user and post |
| `Bookmarks.NewRecordConflictsWithAnyMatch` | app/models/bookmark.rb:18 | a record without an id conflicts with any stored bookmark of the same user and post |
| `Bookmarks.ResavingStoredRecordPasses` | app/models/bookmark.rb:18 | re-saving a stored bookmark (same id) does not trip the uniqueness rule |
| `Bookmarks.PastReminderIff` | app/models/bookmark.rb:23-26 | the past-reminder error is reported exactly when `reminder_at` is set and strictly before `now` |
| `Bookmarks.DistantFutureIff` | app/models/bookmark.rb:23-29 | the distant-future error is reported exactly when `reminder_at` is set and strictly after `now` plus ten years |
| `Bookmarks.WindowEndsAccepted` | app/models/bookmark.rb:24-29 | `reminder_at` equal to `now`, or to exactly `now` plus ten years, gets no time error |
| `Bookmarks.PresenceAndTimeRulesExclusive` | app/models/bookmark.rb:8-11 | rule 1 and rule 3 never both report, since one needs `reminder_at` absent and the other needs it set |
| `Bookmarks.ViolationsAccumulate` | app/models/bookmark.rb:13-30 | all rules run: a uniqueness clash is reported together with a presence, past or distant-future violation, in declaration order |
| `Bookmarks.ValidIff` | app/models/bookmark.rb:8-30 | under the unique index, validation reports nothing exactly when the record invariants hold: a time for scheduled types, no other bookmark of the same user and post, the time within [now, now + ten years] |
| `BookmarkStore.Stored` | app/models/bookmark.rb:49 | a write replaces the row with the same id, or adds the row, and leaves every other row as it was |
| `BookmarkStore.StoredKeepsIndexes` | app/models/bookmark.rb:67 | writing a row that conflicts with no other row keeps ids distinct and (user_id, post_id) unique |
| `BookmarkStore.Table.Valid` | app/models/bookmark.rb:49-67 | the table invariant (every row has an id below `nextId`, ids distinct, (user_id, post_id) unique) leaves no row without an id and none with id `nextId` |
| `BookmarkStore.Table.constructor` | app/models/bookmark.rb:45-67 | an empty table meets the table invariant |
| `BookmarkStore.Table.FindBy` | app/models/bookmark.rb:17 | the search of the rows returns what the lookup specifies |
| `BookmarkStore.Table.Write` | app/models/bookmark.rb:67 | the unique index refuses exactly a row that conflicts with another stored row, and then nothing changes; otherwise the row is stored with its own id or `nextId`, and `nextId` moves past the id used; the table invariant is kept |
| `BookmarkValidator.ErrorCollection.constructor` | app/models/bookmark.rb:13-14 | a fresh error collection is empty |
| `BookmarkValidator.ErrorCollection.Add` | app/models/bookmark.rb:19 | adding an error appends it and removes nothing |
| `BookmarkValidator.ValidateReminderAtPresence` | app/models/bookmark.rb:8-11 | the presence validation appends exactly rule 1's errors |
| `BookmarkValidator.UniquePerPostForUser` | app/models/bookmark.rb:16-20 | the uniqueness validation appends exactly rule 2's errors for what the lookup finds |
| `BookmarkValidator.EnsureSaneReminderAtTime` | app/models/bookmark.rb:22-30 | the two time checks append exactly rule 3's errors, past first |
| `BookmarkValidator.RunValidations` | app/models/bookmark.rb:8-14 | running the validators in order on a fresh collection yields `Validate`'s errors |
| `BookmarkValidator.Save` | app/models/bookmark.rb:13-20 | the record is written exactly when validation reports nothing, and otherwise the table is unchanged; the saved row keeps its id or takes `nextId`, so saving a record without an id adds a row; the unique index never refuses a validated record; the table invariant is kept |
| `BookmarkValidator.SecondCreateRejected` | app/models/bookmark.rb:16-19 | after a bookmark is stored, creating another for the same user and post is refused by the uniqueness rule |

## Left out

- The ORM, its persistence and the `belongs_to` associations to user, post and topic: the table is an in-memory sequence of rows, and foreign keys are not checked.
- Message rendering and translation: messages are identifiers, and the `at_desktop` label is an uninterpreted string.
- Bookmarks.SaneReminderErrors: the source reads the clock twice, once for the past check (line 24) and once for the future check (line 27). The model takes both reads as the single instant `now`, so it does not capture a reminder time that lies between the two reads or between their ten-year bounds.
- The system clock and calendar arithmetic: `now` is a parameter, and ten years is the fixed offset of 10 × 31556952 seconds, so leap years and month lengths are not modelled.
- Concurrency: two saves racing between validation and write are not modelled. Saves run one at a time, and the unique index in `BookmarkStore.Table.Write` stands for the database constraint that backs up the rule.
- The 64-bit width of `id`, `user_id`, `topic_id` and `post_id`: integers are unbounded.
- Id assignment by a database sequence: a record without an id gets `nextId`. A record written with an explicit id moves `nextId` past it.
- The ordering of `find_by` when several rows match: the model takes the first. With the unique index at most one row matches.
- The maintenance of `created_at`, `updated_at` and `reminder_last_sent_at`: they are carried as fields and never changed by the model.
