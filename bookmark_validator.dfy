/**
 * Validating a candidate bookmark the way the record does before a write: the three validators
 * run in declaration order and append to the record's error collection, and a save writes the
 * record only when that collection stays empty.
 */
module BookmarkValidator {
  import opened Options
  import opened Bookmarks
  import opened BookmarkStore

  /** The record's `errors`: validators only ever append to it. */
  class ErrorCollection {
    var entries: seq<ValidationError>

    constructor ()
      ensures entries == []
    {
      entries := [];
    }

    method Add(attribute: Attribute, message: Message)
      modifies this
      ensures entries == old(entries) + [ValidationError(attribute, message)]
    {
      entries := entries + [ValidationError(attribute, message)];
    }
  }

  /** The presence validation of `reminder_at`, conditional on the reminder type. */
  method ValidateReminderAtPresence(b: Bookmark, deskLabel: string, errors: ErrorCollection)
    modifies errors
    ensures errors.entries == old(errors.entries) + PresenceErrors(b, deskLabel)
  {
    if ReminderAtRequired(b) && b.reminderAt.None? {
      errors.Add(ReminderAt, TimeMustBeProvided(deskLabel));
    }
  }

  /** `unique_per_post_for_user`: look the pair up; complain unless nothing or the record itself is found. */
  method UniquePerPostForUser(b: Bookmark, table: Table, errors: ErrorCollection)
    modifies errors
    ensures errors.entries == old(errors.entries) + UniquenessErrors(b, FindByUserPost(table.rows, b.userId, b.postId))
  {
    var existing := table.FindBy(b.userId, b.postId);
    if existing.None? || existing.value.id == b.id {
      return;
    }
    errors.Add(Base, AlreadyBookmarkedPost);
  }

  /** `ensure_sane_reminder_at_time`: two independent checks against `now`, each of which may append. */
  method EnsureSaneReminderAtTime(b: Bookmark, now: int, errors: ErrorCollection)
    modifies errors
    ensures errors.entries == old(errors.entries) + SaneReminderErrors(b, now)
  {
    if b.reminderAt.None? {
      return;
    }
    if b.reminderAt.value < now {
      errors.Add(Base, CannotSetPastReminder);
    }
    if b.reminderAt.value > now + DistantFutureWindow {
      errors.Add(Base, CannotSetReminderInDistantFuture);
    }
  }

  /** Runs every validator on a fresh error collection and returns what they collected. */
  method RunValidations(b: Bookmark, table: Table, now: int, deskLabel: string) returns (errs: seq<ValidationError>)
    ensures errs == Validate(b, table.rows, now, deskLabel)
  {
    var errors := new ErrorCollection();
    ValidateReminderAtPresence(b, deskLabel, errors);
    UniquePerPostForUser(b, table, errors);
    EnsureSaneReminderAtTime(b, now, errors);
    errs := errors.entries;
  }

  /**
   * What saving a record can come to: the stored row, the validation errors, or a violation of
   * the unique index reported by the table.
   */
  datatype SaveOutcome = Saved(row: Bookmark) | Invalid(errors: seq<ValidationError>) | ConstraintViolation

  /**
   * Validate, then write only if no error was collected. Done one save at a time, the unique
   * index is never what refuses the write: the uniqueness rule has already caught the clash.
   */
  method Save(table: Table, b: Bookmark, now: int, deskLabel: string) returns (outcome: SaveOutcome)
    requires table.Valid()
    modifies table
    ensures table.Valid()
    ensures !outcome.ConstraintViolation?
    ensures outcome.Invalid? <==> Validate(b, old(table.rows), now, deskLabel) != []
    ensures outcome.Invalid? ==>
              outcome.errors == Validate(b, old(table.rows), now, deskLabel)
              && table.rows == old(table.rows) && table.nextId == old(table.nextId)
    ensures outcome.Saved? ==>
              outcome.row.id.Some? && outcome.row == b.(id := outcome.row.id)
              && Acceptable(b, old(table.rows), now)
              && table.rows == Stored(old(table.rows), outcome.row)
    ensures outcome.Saved? ==>
              outcome.row.id == (if b.id.Some? then b.id else Some(old(table.nextId)))
    ensures outcome.Saved? && b.id.None? ==> |table.rows| == |old(table.rows)| + 1
  {
    var errs := RunValidations(b, table, now, deskLabel);
    if errs != [] {
      return Invalid(errs);
    }
    ValidIff(b, table.rows, now, deskLabel);
    var written := table.Write(b);
    match written
    case Written(row) => outcome := Saved(row);
    case UniqueViolation => outcome := ConstraintViolation;
  }

  /**
   * Once a bookmark has been stored, creating a second one for the same user and post is
   * refused by the uniqueness rule.
   */
  lemma SecondCreateRejected(rows: seq<Bookmark>, row: Bookmark, b: Bookmark, now: int, deskLabel: string)
    requires forall k :: 0 <= k < |rows| ==> rows[k].id.Some?
    requires row.id.Some?
    requires b.id == None && SameUserAndPost(row, b.userId, b.postId)
    ensures AlreadyBookmarkedError in Validate(b, Stored(rows, row), now, deskLabel)
  {
    var r := Stored(rows, row);
    var k :| 0 <= k < |r| && r[k] == row;
    forall i | 0 <= i < |r| ensures r[i].id.Some? {
      if i < |rows| && rows[i].id != row.id {
        assert r[i] == rows[i];
      }
    }
    NewRecordConflictsWithAnyMatch(b, r, now, deskLabel, k);
  }
}
