/** The thread handler: the eight operations behind the `/api/threads` and
    `/api/replies` routes, as pure transitions on an abstract store.

    The store is the `Threads` collection together with a logical clock.
    Every write that stamps a time or generates an ObjectId takes the current
    tick and advances the clock by one, so timestamps strictly increase and
    generated ids are fresh.  Request parameters arrive already extracted:
    an id that is absent or the empty string is `None`, and a text or
    password that is absent is the empty string (the handler's checks treat
    both as missing). */
module ThreadHandler {
  import opened Results
  import opened Hashing
  import opened Ordering
  import opened ThreadModel

  /** A MongoDB collection: every document is stored under its own `_id`. */
  type Collection = m: map<ObjectId, Thread> | forall k :: k in m ==> m[k].id == k
    witness map[]

  datatype Db = Db(threads: Collection, clock: nat)

  /** What an operation returns, paired with the store after it. */
  datatype Step<+T> = Step(result: Result<T>, db: Db)

  const PageSize: nat := 10
  const PreviewSize: nat := 3
  const Deleted := "[deleted]"
  const Success := "success"

  const BoardRequired := "board name is a required field"
  const ThreadTextRequired := "thread name is a required field"
  const PasswordRequired := "password is a required field"
  const ReportIdRequired := "cannot report a thread without its id"
  const CannotReportThread := "cannot report this thread"
  const ThreadIdRequired := "thread id is a required field"
  const ReplyTextRequired := "reply text is a required field"
  const ReplyIdRequired := "reply id is a required field"
  const CannotReportReply := "cannot report this reply"
  const IncorrectPassword := "incorrect password"

  function Min(a: nat, b: nat): nat { if a <= b then a else b }

  /** The listing's projection of a thread: only its first three replies. */
  function Preview(t: Thread): (p: Thread)
    ensures |p.replies| <= PreviewSize
    ensures p.replies <= t.replies
    ensures |p.replies| == PreviewSize || p.replies == t.replies
    ensures p.(replies := t.replies) == t
  {
    t.(replies := t.replies[..Min(PreviewSize, |t.replies|)])
  }

  /** The position of the first reply with id `rid`, or `|rs|` when there is
      none.  Both the handler's lookup of a reply in a loaded thread and
      MongoDB's positional update address this first match. */
  function IndexOfReply(rs: seq<Reply>, rid: ObjectId): (i: nat)
    ensures i <= |rs|
    ensures i < |rs| ==> rs[i].id == rid
    ensures forall j :: 0 <= j < i ==> rs[j].id != rid
    decreases |rs|
  {
    if |rs| == 0 then 0
    else if rs[0].id == rid then 0
    else 1 + IndexOfReply(rs[1..], rid)
  }

  // ---------------------------------------------------------------------
  // getThreads
  // ---------------------------------------------------------------------

  ghost function OnBoard(db: Db, board: string): set<ObjectId>
  {
    set k | k in db.threads && db.threads[k].board == board
  }

  ghost predicate Shown(page: seq<Thread>, k: ObjectId)
  {
    exists i :: 0 <= i < |page| && page[i].id == k
  }

  /** The board listing query: the (at most ten) most recently bumped threads of the board, newest
      first, each cut down to its first three replies.  Threads with equal
      `bumped_on` may come in any order. */
  ghost predicate IsListing(db: Db, board: string, page: seq<Thread>)
  {
    && |page| == Min(PageSize, |OnBoard(db, board)|)
    && (forall i :: 0 <= i < |page| ==>
          page[i].id in OnBoard(db, board) && page[i] == Preview(db.threads[page[i].id]))
    && (forall i, j :: 0 <= i < j < |page| ==> page[i].id != page[j].id)
    && SortedDesc(page, BumpedOn)
    && (forall k, i :: k in OnBoard(db, board) && !Shown(page, k) && 0 <= i < |page| ==>
          db.threads[k].bumped_on <= page[i].bumped_on)
  }

  /** Every thread of the board, each exactly once, most recently bumped first. */
  ghost predicate IsRanking(db: Db, board: string, ranked: seq<Thread>)
  {
    && SortedDesc(ranked, BumpedOn)
    && Distinct(ranked)
    && |ranked| == |OnBoard(db, board)|
    && (forall i :: 0 <= i < |ranked| ==>
          ranked[i].id in OnBoard(db, board) && db.threads[ranked[i].id] == ranked[i])
    && (forall k :: k in OnBoard(db, board) ==> db.threads[k] in ranked)
  }

  /** The first `PageSize` threads of a ranking, each cut to its preview. */
  function Page(ranked: seq<Thread>): (page: seq<Thread>)
    ensures |page| <= PageSize && |page| <= |ranked|
    ensures |page| == PageSize || |page| == |ranked|
    ensures forall i :: 0 <= i < |page| ==> page[i] == Preview(ranked[i])
  {
    var n := Min(PageSize, |ranked|);
    seq(n, i requires 0 <= i < n => Preview(ranked[i]))
  }

  /** Inserting one more thread of the board keeps the partial ranking. */
  lemma RankStep(ranked: seq<Thread>, t: Thread)
    requires SortedDesc(ranked, BumpedOn) && Distinct(ranked) && t !in ranked
    ensures SortedDesc(Insert(ranked, t, BumpedOn), BumpedOn)
    ensures Distinct(Insert(ranked, t, BumpedOn))
    ensures forall y :: y in Insert(ranked, t, BumpedOn) <==> y in ranked || y == t
    ensures forall i :: 0 <= i < |ranked| + 1 ==> Insert(ranked, t, BumpedOn)[i] in ranked + [t]
  {
    InsertSorted(ranked, t, BumpedOn);
    InsertKeepsDistinct(ranked, t, BumpedOn);
    forall y
      ensures y in Insert(ranked, t, BumpedOn) <==> y in ranked || y == t
    {
      InsertMembers(ranked, t, BumpedOn, y);
    }
  }

  /** Collects the board's threads from the collection into a ranking. */
  method RankBoard(db: Db, board: string) returns (ranked: seq<Thread>)
    ensures IsRanking(db, board, ranked)
  {
    var pending := db.threads.Keys;
    ghost var seen: set<ObjectId> := {};
    ranked := [];
    while pending != {}
      invariant pending <= db.threads.Keys
      invariant forall k :: k in seen <==> k in db.threads && k !in pending && db.threads[k].board == board
      invariant |ranked| == |seen|
      invariant SortedDesc(ranked, BumpedOn)
      invariant Distinct(ranked)
      invariant forall i :: 0 <= i < |ranked| ==> ranked[i].id in seen && db.threads[ranked[i].id] == ranked[i]
      invariant forall k :: k in seen ==> db.threads[k] in ranked
      decreases pending
    {
      var k :| k in pending;
      var t := db.threads[k];
      if t.board == board {
        assert t !in ranked;
        RankStep(ranked, t);
        ranked := Insert(ranked, t, BumpedOn);
        seen := seen + {k};
      }
      pending := pending - {k};
    }
    assert seen == OnBoard(db, board);
  }

  /** The first page of a ranking is a listing. */
  lemma RankingPage(db: Db, board: string, ranked: seq<Thread>)
    requires IsRanking(db, board, ranked)
    ensures IsListing(db, board, Page(ranked))
  {
    var page := Page(ranked);
    var n := |page|;
    forall i, j | 0 <= i < j < n
      ensures page[i].id != page[j].id
    {
      assert ranked[i] != ranked[j];
    }
    forall j | 0 <= j < n
      ensures Shown(page, ranked[j].id)
    {
      assert page[j].id == ranked[j].id;
    }
    forall k, i | k in OnBoard(db, board) && !Shown(page, k) && 0 <= i < n
      ensures db.threads[k].bumped_on <= page[i].bumped_on
    {
      var j :| 0 <= j < |ranked| && ranked[j] == db.threads[k];
      assert n <= j;
    }
  }

  method GetThreads(db: Db, board: string) returns (r: Result<seq<Thread>>)
    ensures board == "" ==> r == Err(Rejected(BoardRequired))
    ensures board != "" ==> r.Ok? && IsListing(db, board, r.value)
  {
    if board == "" {
      return Err(Rejected(BoardRequired));
    }
    var ranked := RankBoard(db, board);
    RankingPage(db, board, ranked);
    r := Ok(Page(ranked));
  }

  // ---------------------------------------------------------------------
  // createThread
  // ---------------------------------------------------------------------

  function CreateThread(db: Db, text: string, secret: string, board: string): (s: Step<Thread>)
    ensures text == "" ==> s == Step(Err(Rejected(ThreadTextRequired)), db)
    ensures text != "" && board == "" ==> s == Step(Err(Rejected(BoardRequired)), db)
    ensures text != "" && board != "" && secret == "" ==> s == Step(Err(Rejected(PasswordRequired)), db)
    ensures text != "" && board != "" && secret != "" ==>
      && s.result.Ok?
      && var t := s.result.value;
      && t.id == ObjectId(db.clock)
      && t.board == board && t.text == text
      && !t.reported && t.replycount == 0 && t.replies == []
      && Matches(secret, t.delete_password)
      && t.created_on == t.bumped_on == db.clock
      && s.db.threads == db.threads[t.id := t]
      && s.db.clock == db.clock + 1
  {
    if text == "" then Step(Err(Rejected(ThreadTextRequired)), db)
    else if board == "" then Step(Err(Rejected(BoardRequired)), db)
    else if secret == "" then Step(Err(Rejected(PasswordRequired)), db)
    else
      var id := ObjectId(db.clock);
      match Save(NewThread(board, text, secret), id, db.clock)
      case Ok(t) => Step(Ok(t), Db(db.threads[id := t], db.clock + 1))
      case Err(f) => Step(Err(f), db)
  }

  // ---------------------------------------------------------------------
  // reportThread
  // ---------------------------------------------------------------------

  function ReportThread(db: Db, tid: Option<ObjectId>): (s: Step<string>)
    ensures tid.None? ==> s == Step(Err(Rejected(ReportIdRequired)), db)
    ensures tid.Some? && tid.value !in db.threads ==> s == Step(Err(Rejected(CannotReportThread)), db)
    ensures tid.Some? && tid.value in db.threads ==>
      && s.result == Ok(Success)
      && s.db.threads.Keys == db.threads.Keys
      && s.db.threads[tid.value].reported
      && s.db.threads[tid.value] == Touch(db.threads[tid.value].(reported := true), db.clock)
      && (forall k :: k in db.threads && k != tid.value ==> s.db.threads[k] == db.threads[k])
      && s.db.clock == db.clock + 1
  {
    match tid
    case None => Step(Err(Rejected(ReportIdRequired)), db)
    case Some(id) =>
      if id in db.threads then
        var t := Touch(db.threads[id].(reported := true), db.clock);
        Step(Ok(Success), Db(db.threads[id := t], db.clock + 1))
      else
        Step(Err(Rejected(CannotReportThread)), db)
  }

  // ---------------------------------------------------------------------
  // deleteThread
  // ---------------------------------------------------------------------

  function DeleteThread(db: Db, tid: Option<ObjectId>, secret: string): (s: Step<string>)
    ensures tid.None? ==> s == Step(Err(Rejected(ThreadIdRequired)), db)
    ensures tid.Some? && secret == "" ==> s == Step(Err(Rejected(PasswordRequired)), db)
    ensures tid.Some? && secret != "" && tid.value !in db.threads ==> s == Step(Err(Fault), db)
    ensures tid.Some? && secret != "" && tid.value in db.threads ==>
      (s.result.Ok? <==> Matches(secret, db.threads[tid.value].delete_password))
    ensures s.result.Ok? ==>
      && s.result.value == Success
      && tid.Some? && tid.value in db.threads && tid.value !in s.db.threads
      && s.db.threads.Keys == db.threads.Keys - {tid.value}
      && (forall k :: k in s.db.threads ==> s.db.threads[k] == db.threads[k])
    ensures s.result.Err? ==> s.db == db
    ensures tid.Some? && secret != "" && tid.value in db.threads && s.result.Err? ==>
      s.result.failure == Rejected(IncorrectPassword)
  {
    match tid
    case None => Step(Err(Rejected(ThreadIdRequired)), db)
    case Some(id) =>
      if secret == "" then Step(Err(Rejected(PasswordRequired)), db)
      else if id !in db.threads then Step(Err(Fault), db)
      else if Matches(secret, db.threads[id].delete_password) then
        Step(Ok(Success), Db(db.threads - {id}, db.clock))
      else
        Step(Err(Rejected(IncorrectPassword)), db)
  }

  // ---------------------------------------------------------------------
  // getReplysList
  // ---------------------------------------------------------------------

  /** Lookup by id: the whole document with every reply, or `null`. */
  function GetReplysList(db: Db, tid: Option<ObjectId>): (r: Result<Option<Thread>>)
    ensures tid.None? ==> r == Err(Rejected(ThreadIdRequired))
    ensures tid.Some? ==> r.Ok?
    ensures r.Ok? && r.value.Some? ==>
      tid.Some? && tid.value in db.threads && r.value.value == db.threads[tid.value]
    ensures r.Ok? && r.value.None? ==> tid.Some? && tid.value !in db.threads
  {
    match tid
    case None => Err(Rejected(ThreadIdRequired))
    case Some(id) => if id in db.threads then Ok(Some(db.threads[id])) else Ok(None)
  }

  // ---------------------------------------------------------------------
  // createReply
  // ---------------------------------------------------------------------

  /** The reply record built from the request at clock tick `now`. */
  function NewReply(text: string, secret: string, now: nat): (r: Reply)
    ensures r.id == ObjectId(now) && r.created_on == now
    ensures r.text == text && !r.reported
    ensures Matches(secret, r.delete_password)
    ensures forall other :: Matches(other, r.delete_password) ==> other == secret
  {
    Reply(ObjectId(now), text, now, Hash(secret), false)
  }

  /** The single update that accepts a reply: the counter goes up by one,
      the reply is pushed and the array re-sorted newest first, and the
      update is timestamped. */
  function AddReply(t: Thread, r: Reply, now: nat): (u: Thread)
    ensures u.replycount == t.replycount + 1
    ensures |u.replies| == |t.replies| + 1
    ensures multiset(u.replies) == multiset(t.replies) + multiset{r}
    ensures SortedDesc(u.replies, CreatedOn)
    ensures u.bumped_on == now
    ensures u == t.(replycount := u.replycount, replies := u.replies, bumped_on := now)
  {
    SortIsSorted(t.replies + [r], CreatedOn);
    Touch(t.(replycount := t.replycount + 1, replies := Sort(t.replies + [r], CreatedOn)), now)
  }

  /** The result is the document as it was BEFORE the update (the query does
      not ask for the new one), or `null` when no thread has the id. */
  function CreateReply(db: Db, tid: Option<ObjectId>, text: string, secret: string): (s: Step<Option<Thread>>)
    ensures text == "" ==> s == Step(Err(Rejected(ReplyTextRequired)), db)
    ensures text != "" && secret == "" ==> s == Step(Err(Rejected(PasswordRequired)), db)
    ensures text != "" && secret != "" && !(tid.Some? && tid.value in db.threads) ==>
      s == Step(Ok(None), db)
    ensures text != "" && secret != "" && tid.Some? && tid.value in db.threads ==>
      && var old_t := db.threads[tid.value];
      && s.db.threads.Keys == db.threads.Keys
      && var new_t := s.db.threads[tid.value];
      && s.result == Ok(Some(old_t))
      && (forall k :: k in db.threads && k != tid.value ==> s.db.threads[k] == db.threads[k])
      && new_t.replycount == old_t.replycount + 1
      && |new_t.replies| == |old_t.replies| + 1
      && multiset(new_t.replies) == multiset(old_t.replies) + multiset{NewReply(text, secret, db.clock)}
      && SortedDesc(new_t.replies, CreatedOn)
      && new_t.bumped_on == db.clock
      && new_t == old_t.(replycount := new_t.replycount, replies := new_t.replies, bumped_on := new_t.bumped_on)
      && s.db.clock == db.clock + 1
  {
    if text == "" then Step(Err(Rejected(ReplyTextRequired)), db)
    else if secret == "" then Step(Err(Rejected(PasswordRequired)), db)
    else
      var reply := NewReply(text, secret, db.clock);
      if tid.Some? && tid.value in db.threads then
        var t := db.threads[tid.value];
        Step(Ok(Some(t)), Db(db.threads[tid.value := AddReply(t, reply, db.clock)], db.clock + 1))
      else
        Step(Ok(None), db)
  }

  // ---------------------------------------------------------------------
  // reportReply
  // ---------------------------------------------------------------------

  /** Sets `reported` on the reply at position `i` and stamps the update. */
  function FlagReply(t: Thread, i: nat, now: nat): (u: Thread)
    requires i < |t.replies|
    ensures |u.replies| == |t.replies|
    ensures u.replies[i] == t.replies[i].(reported := true)
    ensures forall j :: 0 <= j < |t.replies| && j != i ==> u.replies[j] == t.replies[j]
    ensures u == t.(replies := u.replies, bumped_on := now)
  {
    Touch(t.(replies := t.replies[i := t.replies[i].(reported := true)]), now)
  }

  function ReportReply(db: Db, tid: Option<ObjectId>, rid: Option<ObjectId>): (s: Step<string>)
    ensures tid.None? ==> s == Step(Err(Rejected(ThreadIdRequired)), db)
    ensures tid.Some? && rid.None? ==> s == Step(Err(Rejected(ReplyIdRequired)), db)
    ensures tid.Some? && rid.Some? ==>
      (s.result.Ok? <==> tid.value in db.threads && IndexOfReply(db.threads[tid.value].replies, rid.value) < |db.threads[tid.value].replies|)
    ensures tid.Some? && rid.Some? && s.result.Err? ==> s == Step(Err(Rejected(CannotReportReply)), db)
    ensures s.result.Ok? ==>
      && s.result.value == Success
      && tid.Some? && rid.Some? && tid.value in db.threads
      && var old_t := db.threads[tid.value];
      && s.db.threads.Keys == db.threads.Keys
      && var new_t := s.db.threads[tid.value];
      && var i := IndexOfReply(old_t.replies, rid.value);
      && (forall k :: k in db.threads && k != tid.value ==> s.db.threads[k] == db.threads[k])
      && |new_t.replies| == |old_t.replies|
      && i < |old_t.replies|
      && new_t.replies[i] == old_t.replies[i].(reported := true)
      && (forall j :: 0 <= j < |old_t.replies| && j != i ==> new_t.replies[j] == old_t.replies[j])
      && new_t == old_t.(replies := new_t.replies, bumped_on := db.clock)
      && s.db.clock == db.clock + 1
  {
    match (tid, rid)
    case (None, _) => Step(Err(Rejected(ThreadIdRequired)), db)
    case (Some(_), None) => Step(Err(Rejected(ReplyIdRequired)), db)
    case (Some(id), Some(reply_id)) =>
      if id in db.threads && IndexOfReply(db.threads[id].replies, reply_id) < |db.threads[id].replies| then
        var t := db.threads[id];
        var t' := FlagReply(t, IndexOfReply(t.replies, reply_id), db.clock);
        Step(Ok(Success), Db(db.threads[id := t'], db.clock + 1))
      else
        Step(Err(Rejected(CannotReportReply)), db)
  }

  // ---------------------------------------------------------------------
  // deleteReply
  // ---------------------------------------------------------------------

  /** Replaces the text of the reply at position `i` by the placeholder and
      stamps the update. */
  function RedactReply(t: Thread, i: nat, now: nat): (u: Thread)
    requires i < |t.replies|
    ensures |u.replies| == |t.replies|
    ensures u.replies[i] == t.replies[i].(text := Deleted)
    ensures forall j :: 0 <= j < |t.replies| && j != i ==> u.replies[j] == t.replies[j]
    ensures u == t.(replies := u.replies, bumped_on := now)
  {
    Touch(t.(replies := t.replies[i := t.replies[i].(text := Deleted)]), now)
  }

  function DeleteReply(db: Db, tid: Option<ObjectId>, rid: Option<ObjectId>, secret: string): (s: Step<string>)
    ensures tid.None? ==> s == Step(Err(Rejected(ThreadIdRequired)), db)
    ensures tid.Some? && rid.None? ==> s == Step(Err(Rejected(ReplyIdRequired)), db)
    ensures tid.Some? && rid.Some? && secret == "" ==> s == Step(Err(Rejected(PasswordRequired)), db)
    ensures (tid.Some? && rid.Some? && secret != "" &&
             (tid.value !in db.threads || IndexOfReply(db.threads[tid.value].replies, rid.value) == |db.threads[tid.value].replies|))
            ==> s == Step(Err(Fault), db)
    ensures s.result.Err? ==> s.db == db
    ensures s.result.Ok? ==>
      && s.result.value == Success
      && tid.Some? && rid.Some? && tid.value in db.threads
      && var old_t := db.threads[tid.value];
      && s.db.threads.Keys == db.threads.Keys
      && var new_t := s.db.threads[tid.value];
      && var i := IndexOfReply(old_t.replies, rid.value);
      && i < |old_t.replies|
      && Matches(secret, old_t.replies[i].delete_password)
      && (forall k :: k in db.threads && k != tid.value ==> s.db.threads[k] == db.threads[k])
      && |new_t.replies| == |old_t.replies|
      && new_t.replies[i] == old_t.replies[i].(text := Deleted)
      && (forall j :: 0 <= j < |old_t.replies| && j != i ==> new_t.replies[j] == old_t.replies[j])
      && new_t == old_t.(replies := new_t.replies, bumped_on := db.clock)
      && s.db.clock == db.clock + 1
    ensures (s.result.Err? && tid.Some? && rid.Some? && secret != "" && tid.value in db.threads &&
             IndexOfReply(db.threads[tid.value].replies, rid.value) < |db.threads[tid.value].replies|)
            ==>
      && !Matches(secret, db.threads[tid.value].replies[IndexOfReply(db.threads[tid.value].replies, rid.value)].delete_password)
      && s.result.failure == Rejected(IncorrectPassword)
  {
    match (tid, rid)
    case (None, _) => Step(Err(Rejected(ThreadIdRequired)), db)
    case (Some(_), None) => Step(Err(Rejected(ReplyIdRequired)), db)
    case (Some(id), Some(reply_id)) =>
      if secret == "" then Step(Err(Rejected(PasswordRequired)), db)
      else if id !in db.threads then Step(Err(Fault), db)
      else
        var t := db.threads[id];
        var i := IndexOfReply(t.replies, reply_id);
        if i == |t.replies| then Step(Err(Fault), db)
        else if Matches(secret, t.replies[i].delete_password) then
          Step(Ok(Success), Db(db.threads[id := RedactReply(t, i, db.clock)], db.clock + 1))
        else
          Step(Err(Rejected(IncorrectPassword)), db)
  }
}
