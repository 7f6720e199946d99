/** The `Threads` Mongoose model: the record shape, its defaults, the
    required-field validation, the `created_on` / `bumped_on` timestamps and
    the pre-save hook that replaces the plaintext delete password by its
    digest. */
module ThreadModel {
  import opened Results
  import opened Hashing

  /** A MongoDB ObjectId, reduced to the tick of the logical clock at which it
      was generated.  Fresh ids are therefore distinct from all earlier ones. */
  datatype ObjectId = ObjectId(stamp: nat)

  /** An element of a thread's `replies` array. */
  datatype Reply = Reply(
    id: ObjectId,
    text: string,
    created_on: nat,
    delete_password: Digest,
    reported: bool)

  /** A persisted thread document.  Timestamps are ticks of a logical clock. */
  datatype Thread = Thread(
    id: ObjectId,
    board: string,
    text: string,
    reported: bool,
    delete_password: Digest,
    replycount: nat,
    replies: seq<Reply>,
    created_on: nat,
    bumped_on: nat)

  /** The value of the `delete_password` path of an unsaved document.  A
      `Plain` value is one that was assigned since the last save, which is
      exactly when Mongoose reports the path as modified. */
  datatype PasswordValue = Plain(secret: string) | Hashed(digest: Digest)

  /** A document that has been built but not yet saved. */
  datatype Draft = Draft(
    board: string,
    text: string,
    reported: bool,
    delete_password: PasswordValue,
    replycount: nat,
    replies: seq<Reply>)

  const ValidationFailed := "Threads validation failed"

  /** Sort keys for the two orderings the handler uses. */
  function CreatedOn(r: Reply): nat { r.created_on }
  function BumpedOn(t: Thread): nat { t.bumped_on }

  /** `new Thread({ board, text, delete_password })`: the schema defaults
      fill in `reported`, `replycount` and `replies`. */
  function NewThread(board: string, text: string, secret: string): (d: Draft)
    ensures HasRequired(d) <==> board != "" && text != "" && secret != ""
    ensures d.board == board && d.text == text
    ensures d.delete_password == Plain(secret)
    ensures !d.reported && d.replycount == 0 && d.replies == []
  {
    Draft(board, text, false, Plain(secret), 0, [])
  }

  /** Mongoose's `required` validator: a required string must be non-empty. */
  predicate HasRequired(d: Draft)
  {
    d.board != "" && d.text != "" && d.delete_password != Plain("")
  }

  /** The pre-save hook: a modified password is replaced by its digest, an
      unmodified one is stored as it is. */
  function PreSave(v: PasswordValue): (h: Digest)
    ensures v.Plain? ==> Matches(v.secret, h)
    ensures v.Plain? ==> forall other :: Matches(other, h) ==> other == v.secret
    ensures v.Hashed? ==> h == v.digest
  {
    match v
    case Plain(secret) => Hash(secret)
    case Hashed(digest) => digest
  }

  /** `thread.save()` on a new document at clock tick `now`: validation, then
      the pre-save hook, then the `timestamps` option sets both `created_on`
      and `bumped_on`. */
  function Save(d: Draft, id: ObjectId, now: nat): (r: Result<Thread>)
    ensures r.Ok? <==> HasRequired(d)
    ensures r.Err? ==> r.failure == Rejected(ValidationFailed)
    ensures r.Ok? ==> r.value.id == id && r.value.created_on == now && r.value.bumped_on == now
    ensures r.Ok? ==> r.value.board != "" && r.value.text != ""
    ensures r.Ok? ==>
      && r.value.board == d.board && r.value.text == d.text
      && r.value.reported == d.reported
      && r.value.replycount == d.replycount && r.value.replies == d.replies
    ensures r.Ok? && d.delete_password.Plain? ==> Matches(d.delete_password.secret, r.value.delete_password)
    ensures r.Ok? && d.delete_password.Hashed? ==> r.value.delete_password == d.delete_password.digest
  {
    if !HasRequired(d) then Err(Rejected(ValidationFailed))
    else
      Ok(Thread(id, d.board, d.text, d.reported, PreSave(d.delete_password),
                d.replycount, d.replies, now, now))
  }

  /** The `timestamps` option on an update query: `bumped_on` becomes the
      time of the update and nothing else changes. */
  function Touch(t: Thread, now: nat): (u: Thread)
    ensures u.bumped_on == now
    ensures u.(bumped_on := t.bumped_on) == t
  {
    t.(bumped_on := now)
  }

  /** Saving a freshly built thread: it succeeds exactly when board, text and
      password are all non-empty, and then the stored record carries the
      schema defaults, equal timestamps and a digest of the secret. */
  lemma NewThreadSaved(board: string, text: string, secret: string, id: ObjectId, now: nat)
    ensures Save(NewThread(board, text, secret), id, now).Ok? <==> board != "" && text != "" && secret != ""
    ensures var r := Save(NewThread(board, text, secret), id, now);
      r.Ok? ==>
        && r.value.board == board && r.value.text == text
        && !r.value.reported
        && r.value.replycount == 0 && r.value.replies == []
        && r.value.created_on == r.value.bumped_on == now
        && Matches(secret, r.value.delete_password)
  {
  }
}
