/** `struct Author` and its validating constructor (models/author.h). */
module AuthorModel {
  import opened Wrappers
  import opened Clock

  datatype Author = Author(id: int, fullName: string, dateOfBirth: string, dateOfDeath: string, biography: string)

  /** The `invalid_argument` exceptions `validate()` throws, in the order it checks. */
  datatype AuthorError =
    | EmptyName
    | InvalidDateFormat(date: string)
    | BirthInFuture
    | DeathInFuture
    | DeathBeforeBirth

  /** A date field passes on its own: absent (empty), or parseable and not after `now`. */
  predicate DateAcceptable(date: string, clock: Clock) {
    date == "" || (clock.parseDate(date).Some? && clock.parseDate(date).value <= clock.now)
  }

  /**
   * What an acceptable author is, stated declaratively: a non-empty name,
   * each present date parseable and not in the future, and, when both
   * dates are present, birth not later than death.
   */
  predicate AuthorAcceptable(fullName: string, dateOfBirth: string, dateOfDeath: string, clock: Clock) {
    && fullName != ""
    && DateAcceptable(dateOfBirth, clock)
    && DateAcceptable(dateOfDeath, clock)
    && (dateOfBirth != "" && dateOfDeath != "" ==>
          clock.parseDate(dateOfBirth).value <= clock.parseDate(dateOfDeath).value)
  }

  /**
   * `Author(fn, dob, dod, bio, id = -1)`: stores the arguments, then runs the
   * checks of `validate()` in source order; the first failing check decides
   * the exception.
   */
  function NewAuthor(fullName: string, dateOfBirth: string, dateOfDeath: string, biography: string,
                     clock: Clock, id: int := -1): (r: Result<Author, AuthorError>)
    ensures r.Success? <==> AuthorAcceptable(fullName, dateOfBirth, dateOfDeath, clock)
    ensures r.Success? ==> r.value == Author(id, fullName, dateOfBirth, dateOfDeath, biography)
    ensures fullName == "" ==> r == Failure(EmptyName)
  {
    var hasBirth := dateOfBirth != "";
    var hasDeath := dateOfDeath != "";
    var birth := clock.parseDate(dateOfBirth);
    var death := clock.parseDate(dateOfDeath);
    if fullName == "" then Failure(EmptyName)
    else if hasBirth && birth.None? then Failure(InvalidDateFormat(dateOfBirth))
    else if hasBirth && birth.value > clock.now then Failure(BirthInFuture)
    else if hasDeath && death.None? then Failure(InvalidDateFormat(dateOfDeath))
    else if hasDeath && death.value > clock.now then Failure(DeathInFuture)
    else if hasBirth && hasDeath && birth.value > death.value then Failure(DeathBeforeBirth)
    else Success(Author(id, fullName, dateOfBirth, dateOfDeath, biography))
  }

  /** An empty date is never handed to the date parser: the outcome does not depend on it. */
  lemma EmptyDatesAreNotParsed(fullName: string, biography: string, clock: Clock, other: string -> Option<int>, id: int)
    ensures NewAuthor(fullName, "", "", biography, clock, id)
         == NewAuthor(fullName, "", "", biography, clock.(parseDate := other), id)
  {
  }

  /** Equal birth and death dates are accepted; only a strictly later birth is refused. */
  lemma BirthEqualDeathAccepted(fullName: string, dateOfBirth: string, dateOfDeath: string, biography: string, clock: Clock)
    requires fullName != "" && dateOfBirth != "" && dateOfDeath != ""
    requires clock.parseDate(dateOfBirth).Some? && clock.parseDate(dateOfDeath).Some?
    requires clock.parseDate(dateOfBirth).value == clock.parseDate(dateOfDeath).value <= clock.now
    ensures NewAuthor(fullName, dateOfBirth, dateOfDeath, biography, clock).Success?
  {
  }

  /** Birth strictly after death (both in the past) is refused with the ordering error. */
  lemma BirthAfterDeathRefused(fullName: string, dateOfBirth: string, dateOfDeath: string, biography: string, clock: Clock)
    requires fullName != "" && dateOfBirth != "" && dateOfDeath != ""
    requires clock.parseDate(dateOfBirth).Some? && clock.parseDate(dateOfDeath).Some?
    requires clock.parseDate(dateOfDeath).value < clock.parseDate(dateOfBirth).value <= clock.now
    ensures NewAuthor(fullName, dateOfBirth, dateOfDeath, biography, clock) == Failure(DeathBeforeBirth)
  {
  }
}
