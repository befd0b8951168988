/**
 * The `Bookmark` record and its three validation rules, as pure functions of the candidate
 * record, the bookmarks already stored and the current instant.
 *
 * Instants are whole seconds on an integer time line. Messages are message identifiers; their
 * rendering is not modelled, and the rendered deskLabel of `at_desktop` that the first message
 * carries is an uninterpreted parameter `deskLabel`.
 */
module Bookmarks {
  import opened Options
  import ReminderTypes

  /** Seconds in a year as the duration `1.year` counts them (365.2425 days). */
  const SecondsPerYear: int := 31556952

  /** How far into the future a reminder may be set: ten years. */
  const DistantFutureWindow: int := 10 * SecondsPerYear

  /**
   * A row of the `bookmarks` table. `id` is None for a record not yet saved; `reminderType`
   * holds the raw integer of the nullable `reminder_type` column; instants are Option<int>.
   */
  datatype Bookmark = Bookmark(
    id: Option<int>,
    userId: int,
    topicId: int,
    postId: int,
    name: Option<string>,
    reminderType: Option<int>,
    reminderAt: Option<int>,
    reminderLastSentAt: Option<int>,
    createdAt: Option<int>,
    updatedAt: Option<int>)

  /** What an error is attached to: the `reminder_at` field or the record as a whole. */
  datatype Attribute = ReminderAt | Base

  datatype Message =
    | TimeMustBeProvided(reminderTypeLabel: string)
    | AlreadyBookmarkedPost
    | CannotSetPastReminder
    | CannotSetReminderInDistantFuture

  datatype ValidationError = ValidationError(attribute: Attribute, message: Message)

  function TimeRequiredError(deskLabel: string): ValidationError
  {
    ValidationError(ReminderAt, TimeMustBeProvided(deskLabel))
  }

  const AlreadyBookmarkedError := ValidationError(Base, AlreadyBookmarkedPost)
  const PastReminderError := ValidationError(Base, CannotSetPastReminder)
  const DistantFutureError := ValidationError(Base, CannotSetReminderInDistantFuture)

  // ---------------------------------------------------------------------------------------
  // The stored bookmarks and the lookup by user and post

  predicate SameUserAndPost(row: Bookmark, userId: int, postId: int)
  {
    row.userId == userId && row.postId == postId
  }

  /** The unique index on (user_id, post_id): no two stored rows share the pair. */
  ghost predicate UniqueUserPost(rows: seq<Bookmark>)
    ensures UniqueUserPost(rows) ==>
              forall i, j ::
                (0 <= i < |rows| && 0 <= j < |rows| && SameUserAndPost(rows[j], rows[i].userId, rows[i].postId))
                ==> i == j
  {
    forall i, j :: 0 <= i < j < |rows| ==> !SameUserAndPost(rows[j], rows[i].userId, rows[i].postId)
  }

  /**
   * `find_by(user_id:, post_id:)` over the stored rows: some stored row with that user and
   * post, or None when there is none. The first one is taken.
   */
  function FindByUserPost(rows: seq<Bookmark>, userId: int, postId: int): (r: Option<Bookmark>)
    ensures r.None? <==> forall k :: 0 <= k < |rows| ==> !SameUserAndPost(rows[k], userId, postId)
    ensures r.Some? ==> exists k :: 0 <= k < |rows| && rows[k] == r.value && SameUserAndPost(rows[k], userId, postId)
  {
    if rows == [] then None
    else if SameUserAndPost(rows[0], userId, postId) then Some(rows[0])
    else
      var r := FindByUserPost(rows[1..], userId, postId);
      assert forall k :: 1 <= k < |rows| ==> rows[k] == rows[1..][k - 1];
      r
  }

  /** Under the unique index, the row the lookup finds is the only one with that user and post. */
  lemma LookupIsTheOnlyMatch(rows: seq<Bookmark>, userId: int, postId: int, k: int)
    requires UniqueUserPost(rows)
    requires 0 <= k < |rows| && SameUserAndPost(rows[k], userId, postId)
    ensures FindByUserPost(rows, userId, postId) == Some(rows[k])
  {
  }

  /** Some stored bookmark has the candidate's user and post but is not the candidate itself. */
  ghost predicate Conflicts(rows: seq<Bookmark>, b: Bookmark)
  {
    exists k :: 0 <= k < |rows| && SameUserAndPost(rows[k], b.userId, b.postId) && rows[k].id != b.id
  }

  /**
   * Under the unique index, "look the pair up, then compare the ids" decides exactly whether
   * another stored bookmark holds the candidate's user and post.
   */
  lemma LookupDecidesConflict(rows: seq<Bookmark>, b: Bookmark)
    requires UniqueUserPost(rows)
    ensures (var m := FindByUserPost(rows, b.userId, b.postId); m.Some? && m.value.id != b.id)
            <==> Conflicts(rows, b)
  {
  }

  // ---------------------------------------------------------------------------------------
  // The three rules, in the order they are declared

  /** The condition of the presence validation: a reminder type is set and it is not `at_desktop`. */
  predicate ReminderAtRequired(b: Bookmark)
    ensures ReminderAtRequired(b) <==>
              b.reminderType.Some? && ReminderTypes.FromValue(b.reminderType.value) != Some(ReminderTypes.AtDesktop)
  {
    b.reminderType.Some? && b.reminderType.value != ReminderTypes.Value(ReminderTypes.AtDesktop)
  }

  /** Rule 1: `reminder_at` must be present when the reminder type needs a time. */
  function PresenceErrors(b: Bookmark, deskLabel: string): (errors: seq<ValidationError>)
    ensures |errors| <= 1
    ensures forall e :: e in errors ==> e == TimeRequiredError(deskLabel)
  {
    if ReminderAtRequired(b) && b.reminderAt.None? then [TimeRequiredError(deskLabel)] else []
  }

  /** Rule 2, given what the lookup found: an error unless nothing was found or it is the candidate. */
  function UniquenessErrors(b: Bookmark, existing: Option<Bookmark>): (errors: seq<ValidationError>)
    ensures |errors| <= 1
    ensures forall e :: e in errors ==> e == AlreadyBookmarkedError
  {
    if existing.None? || existing.value.id == b.id then [] else [AlreadyBookmarkedError]
  }

  /** Rule 3: a set reminder may be neither in the past nor beyond the ten-year window. */
  function SaneReminderErrors(b: Bookmark, now: int): (errors: seq<ValidationError>)
    ensures |errors| <= 1
    ensures forall e :: e in errors ==> e.attribute == Base
    ensures errors != [] ==> b.reminderAt.Some?
  {
    if b.reminderAt.None? then []
    else
      var at := b.reminderAt.value;
      (if at < now then [PastReminderError] else [])
      + (if at > now + DistantFutureWindow then [DistantFutureError] else [])
  }

  /**
   * All the errors validating `b` produces against the stored `rows` at instant `now`: every
   * rule runs, and each appends its errors in declaration order. Rules 1 and 3 never both
   * report, because one needs `reminder_at` absent and the other needs it set.
   */
  function Validate(b: Bookmark, rows: seq<Bookmark>, now: int, deskLabel: string): (errors: seq<ValidationError>)
    ensures |errors| <= 2
  {
    PresenceErrors(b, deskLabel)
    + UniquenessErrors(b, FindByUserPost(rows, b.userId, b.postId))
    + SaneReminderErrors(b, now)
  }

  // ---------------------------------------------------------------------------------------
  // What each rule promises, stated on the whole validation

  /** The presence error, keyed to `reminder_at`, is reported exactly when a reminder type other
      than `at_desktop` is set and `reminder_at` is absent. */
  lemma TimeMustBeProvidedIff(b: Bookmark, rows: seq<Bookmark>, now: int, deskLabel: string)
    ensures TimeRequiredError(deskLabel) in Validate(b, rows, now, deskLabel)
            <==> b.reminderType != None
                 && b.reminderType != Some(ReminderTypes.Value(ReminderTypes.AtDesktop))
                 && b.reminderAt == None
  {
  }

  /** With no reminder type, or `at_desktop`, nothing is reported against `reminder_at`, whatever
      `reminder_at` holds. */
  lemma NoReminderAtErrorWithoutScheduledType(b: Bookmark, rows: seq<Bookmark>, now: int, deskLabel: string)
    requires b.reminderType == None || b.reminderType == Some(ReminderTypes.Value(ReminderTypes.AtDesktop))
    ensures forall e :: e in Validate(b, rows, now, deskLabel) ==> e.attribute != ReminderAt
  {
  }

  /** Every reminder type except `at_desktop` needs a reminder time. */
  lemma ScheduledTypeNeedsTime(t: ReminderTypes.ReminderType, b: Bookmark, rows: seq<Bookmark>, now: int, deskLabel: string)
    requires t != ReminderTypes.AtDesktop
    requires b.reminderType == Some(ReminderTypes.Value(t)) && b.reminderAt == None
    ensures TimeRequiredError(deskLabel) in Validate(b, rows, now, deskLabel)
  {
  }

  /** Under the unique index, the uniqueness error is reported exactly when another stored
      bookmark holds the candidate's user and post. */
  lemma AlreadyBookmarkedIff(b: Bookmark, rows: seq<Bookmark>, now: int, deskLabel: string)
    requires UniqueUserPost(rows)
    ensures AlreadyBookmarkedError in Validate(b, rows, now, deskLabel) <==> Conflicts(rows, b)
  {
  }

  /** A record not yet saved conflicts with any stored bookmark of the same user and post. */
  lemma NewRecordConflictsWithAnyMatch(b: Bookmark, rows: seq<Bookmark>, now: int, deskLabel: string, k: int)
    requires forall i :: 0 <= i < |rows| ==> rows[i].id.Some?
    requires b.id == None
    requires 0 <= k < |rows| && SameUserAndPost(rows[k], b.userId, b.postId)
    ensures AlreadyBookmarkedError in Validate(b, rows, now, deskLabel)
  {
  }

  /** Re-saving a stored bookmark does not trip the uniqueness rule. */
  lemma ResavingStoredRecordPasses(b: Bookmark, rows: seq<Bookmark>, now: int, deskLabel: string, k: int)
    requires UniqueUserPost(rows)
    requires 0 <= k < |rows| && rows[k].id == b.id && SameUserAndPost(rows[k], b.userId, b.postId)
    ensures AlreadyBookmarkedError !in Validate(b, rows, now, deskLabel)
  {
  }

  /** The past-reminder error is reported exactly when `reminder_at` is strictly before `now`. */
  lemma PastReminderIff(b: Bookmark, rows: seq<Bookmark>, now: int, deskLabel: string)
    ensures PastReminderError in Validate(b, rows, now, deskLabel)
            <==> b.reminderAt.Some? && b.reminderAt.value < now
  {
  }

  /** The distant-future error is reported exactly when `reminder_at` is strictly after
      `now` plus ten years. */
  lemma DistantFutureIff(b: Bookmark, rows: seq<Bookmark>, now: int, deskLabel: string)
    ensures DistantFutureError in Validate(b, rows, now, deskLabel)
            <==> b.reminderAt.Some? && b.reminderAt.value > now + DistantFutureWindow
  {
  }

  /** Both ends of the window are accepted: `now` itself and exactly ten years on. */
  lemma WindowEndsAccepted(b: Bookmark, now: int)
    requires b.reminderAt == Some(now) || b.reminderAt == Some(now + DistantFutureWindow)
    ensures SaneReminderErrors(b, now) == []
  {
  }

  /** The presence rule and the time rule never both report. */
  lemma PresenceAndTimeRulesExclusive(b: Bookmark, now: int, deskLabel: string)
    ensures PresenceErrors(b, deskLabel) == [] || SaneReminderErrors(b, now) == []
  {
  }

  /** Independent violations are all reported, in declaration order. */
  lemma ViolationsAccumulate(b: Bookmark, rows: seq<Bookmark>, now: int, deskLabel: string)
    requires UniqueUserPost(rows)
    requires Conflicts(rows, b)
    ensures ReminderAtRequired(b) && b.reminderAt.None? ==>
              Validate(b, rows, now, deskLabel) == [TimeRequiredError(deskLabel), AlreadyBookmarkedError]
    ensures b.reminderAt.Some? && b.reminderAt.value < now ==>
              Validate(b, rows, now, deskLabel) == [AlreadyBookmarkedError, PastReminderError]
    ensures b.reminderAt.Some? && b.reminderAt.value > now + DistantFutureWindow ==>
              Validate(b, rows, now, deskLabel) == [AlreadyBookmarkedError, DistantFutureError]
  {
  }

  /**
   * The record invariants a saved bookmark must meet at instant `now`, stated on their own:
   * a reminder type other than `at_desktop` comes with a time, no other stored bookmark holds
   * the same user and post, and a set time lies within [now, now + ten years].
   */
  ghost predicate Acceptable(b: Bookmark, rows: seq<Bookmark>, now: int)
  {
    && (b.reminderType.Some? && b.reminderType.value != 0 ==> b.reminderAt.Some?)
    && !Conflicts(rows, b)
    && (b.reminderAt.Some? ==> now <= b.reminderAt.value <= now + DistantFutureWindow)
  }

  /** Validation reports nothing exactly when the record invariants hold. */
  lemma ValidIff(b: Bookmark, rows: seq<Bookmark>, now: int, deskLabel: string)
    requires UniqueUserPost(rows)
    ensures Validate(b, rows, now, deskLabel) == [] <==> Acceptable(b, rows, now)
  {
  }
}
