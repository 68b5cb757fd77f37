/** `struct Publisher` and its validating constructor (models/publisher.h). */
module PublisherModel {
  import opened Wrappers
  import opened Numbers

  datatype Publisher = Publisher(id: int, name: string, address: string, phone: string, mail: string)

  datatype PublisherError = EmptyName | IncorrectMail

  /** No character of `s` is white space (`\S` in the mail pattern). */
  predicate NoSpace(s: string) {
    forall k :: 0 <= k < |s| ==> !IsCSpace(s[k])
  }

  /**
   * The pattern `^\S+@\S+\.\S+$` matched with its `@` at index `i` and its
   * `.` at index `j`: three non-empty runs of non-space characters around them.
   */
  predicate MailPieces(mail: string, i: int, j: int)
    requires 0 <= i < j < |mail|
  {
    && 0 < i && NoSpace(mail[..i])
    && mail[i] == '@'
    && i + 1 < j && NoSpace(mail[i + 1..j])
    && mail[j] == '.'
    && j + 1 < |mail| && NoSpace(mail[j + 1..])
  }

  /** `std::regex_match(mail, email_pattern)`: some choice of the two positions matches. */
  predicate MailMatches(mail: string) {
    exists i, j | 0 <= i < j < |mail| :: MailPieces(mail, i, j)
  }

  /**
   * The pattern restated on the whole text: no white space anywhere, an `@`
   * at some index i >= 1 and a `.` at some index j with i + 2 <= j <= |mail| - 2.
   */
  lemma MailMatchesIff(mail: string)
    ensures MailMatches(mail) <==>
      NoSpace(mail) && exists i, j | 1 <= i && i + 2 <= j <= |mail| - 2 :: mail[i] == '@' && mail[j] == '.'
  {
    if MailMatches(mail) {
      var i, j :| 0 <= i < j < |mail| && MailPieces(mail, i, j);
      forall k | 0 <= k < |mail| ensures !IsCSpace(mail[k]) {
        if k < i {
          assert mail[k] == mail[..i][k];
        } else if i < k < j {
          assert mail[k] == mail[i + 1..j][k - i - 1];
        } else if j < k {
          assert mail[k] == mail[j + 1..][k - j - 1];
        }
      }
    }
    if NoSpace(mail) && exists i, j | 1 <= i && i + 2 <= j <= |mail| - 2 :: mail[i] == '@' && mail[j] == '.' {
      var i, j :| 1 <= i && i + 2 <= j <= |mail| - 2 && mail[i] == '@' && mail[j] == '.';
      assert MailPieces(mail, i, j);
    }
  }

  /** An empty mail never matches, so a publisher always needs one. */
  lemma EmptyMailRefused(name: string, address: string, phone: string)
    ensures NewPublisher(name, address, phone, "").Failure?
  {
  }

  /**
   * `Publisher(n, addr, ph, m, id = -1)`: the name must be non-empty, then
   * the mail must match the pattern; address and phone are never checked.
   */
  function NewPublisher(name: string, address: string, phone: string, mail: string, id: int := -1)
    : (r: Result<Publisher, PublisherError>)
    ensures r.Success? <==> name != "" && MailMatches(mail)
    ensures r.Success? ==> r.value == Publisher(id, name, address, phone, mail)
    ensures name == "" ==> r == Failure(EmptyName)
  {
    if name == "" then Failure(EmptyName)
    else if !MailMatches(mail) then Failure(IncorrectMail)
    else Success(Publisher(id, name, address, phone, mail))
  }

  predicate PublisherRebuilds(p: Publisher) {
    NewPublisher(p.name, p.address, p.phone, p.mail, p.id).Success?
  }
}
