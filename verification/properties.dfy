/** Properties that relate several calls of the thread handler: what a read
    sees after a write, round trips through create and delete, idempotence
    of reporting, and the reply preview. */
module HandlerProperties {
  import opened Results
  import opened Hashing
  import opened Ordering
  import opened ThreadModel
  import opened ThreadHandler
  import opened StoreInvariant

  // ---------------------------------------------------------------------
  // Listing
  // ---------------------------------------------------------------------

  /** A listing never has more than ten threads, holds only threads of the
      requested board and shows at most three replies of each. */
  lemma ListingBounds(db: Db, board: string, page: seq<Thread>)
    requires IsListing(db, board, page)
    ensures |page| <= PageSize
    ensures forall i :: 0 <= i < |page| ==> page[i].board == board && |page[i].replies| <= PreviewSize
  {
  }

  /** On a thread whose replies are newest first, the preview keeps the first
      replies, loses nothing else, and every reply it drops is no newer than
      every reply it keeps. */
  lemma PreviewKeepsNewest(t: Thread)
    requires SortedDesc(t.replies, CreatedOn)
    ensures |Preview(t).replies| == Min(PreviewSize, |t.replies|)
    ensures Preview(t).replies + t.replies[|Preview(t).replies|..] == t.replies
    ensures Preview(t) == t.(replies := Preview(t).replies)
    ensures forall i, j :: 0 <= i < |Preview(t).replies| <= j < |t.replies| ==>
      Preview(t).replies[i].created_on >= t.replies[j].created_on
  {
    var p := Preview(t).replies;
    forall i, j | 0 <= i < |p| <= j < |t.replies|
      ensures p[i].created_on >= t.replies[j].created_on
    {
      assert p[i] == t.replies[i];
      assert CreatedOn(t.replies[i]) >= CreatedOn(t.replies[j]);
    }
  }

  /** A thread just created on a board is on the first page of that board:
      it is the most recently bumped thread there. */
  lemma CreateThenListed(db: Db, text: string, secret: string, board: string, page: seq<Thread>)
    requires Valid(db)
    requires text != "" && secret != "" && board != ""
    requires IsListing(CreateThread(db, text, secret, board).db, board, page)
    ensures exists i :: 0 <= i < |page| && page[i].id == ObjectId(db.clock) && page[i].text == text
  {
    var s := CreateThread(db, text, secret, board);
    var id := ObjectId(db.clock);
    assert id in OnBoard(s.db, board);
    assert |OnBoard(s.db, board)| > 0;
    forall k | k in s.db.threads && k != id
      ensures s.db.threads[k].bumped_on < db.clock
    {
      assert ThreadOk(db.threads[k], db.clock);
    }
    assert page[0].bumped_on == s.db.threads[page[0].id].bumped_on;
    assert Shown(page, id);
    var i :| 0 <= i < |page| && page[i].id == id;
    assert page[i] == Preview(s.db.threads[id]);
  }

  // ---------------------------------------------------------------------
  // Threads
  // ---------------------------------------------------------------------

  /** Deleting a thread just created succeeds exactly with the secret it was
      created with, and then the collection is as it was before. */
  lemma CreateThenDelete(db: Db, text: string, secret: string, board: string, attempt: string)
    requires Valid(db)
    requires text != "" && secret != "" && board != "" && attempt != ""
    ensures var s1 := CreateThread(db, text, secret, board);
      var s2 := DeleteThread(s1.db, Some(ObjectId(db.clock)), attempt);
      && (s2.result.Ok? <==> attempt == secret)
      && (s2.result.Ok? ==> s2.db.threads == db.threads)
      && (s2.result.Err? ==> s2.result.failure == Rejected(IncorrectPassword) && s2.db == s1.db)
  {
    var s1 := CreateThread(db, text, secret, board);
    var id := ObjectId(db.clock);
    CreateThreadKeepsValid(db, text, secret, board);
    assert id !in db.threads;
    assert Matches(attempt, s1.db.threads[id].delete_password) <==> attempt == secret;
    var s2 := DeleteThread(s1.db, Some(id), attempt);
    if s2.result.Ok? {
      assert s2.db.threads == s1.db.threads - {id};
      assert s1.db.threads == db.threads[id := s1.result.value];
      RemoveAfterAdd(db.threads, id, s1.result.value);
    }
  }

  lemma RemoveAfterAdd(m: map<ObjectId, Thread>, k: ObjectId, v: Thread)
    requires k !in m
    ensures m[k := v] - {k} == m
  {
    assert (m[k := v] - {k}).Keys == m.Keys;
  }

  /** After a successful delete the thread can no longer be read, neither on
      its own nor in any listing. */
  lemma DeletedThreadGone(db: Db, tid: Option<ObjectId>, secret: string, board: string, page: seq<Thread>)
    requires DeleteThread(db, tid, secret).result.Ok?
    requires IsListing(DeleteThread(db, tid, secret).db, board, page)
    ensures GetReplysList(DeleteThread(db, tid, secret).db, tid) == Ok(None)
    ensures forall i :: 0 <= i < |page| ==> page[i].id != tid.value
  {
  }

  /** Reporting a thread twice: the second report succeeds too, the thread
      stays reported, and only its bump time moves. */
  lemma ReportThreadIdempotent(db: Db, tid: Option<ObjectId>)
    requires ReportThread(db, tid).result.Ok?
    ensures var s1 := ReportThread(db, tid);
      var s2 := ReportThread(s1.db, tid);
      && s2.result == Ok(Success)
      && s2.db.threads[tid.value].reported
      && s2.db.threads == s1.db.threads[tid.value := Touch(s1.db.threads[tid.value], s1.db.clock)]
  {
  }

  // ---------------------------------------------------------------------
  // Replies
  // ---------------------------------------------------------------------

  /** On a valid store an accepted reply becomes the first reply of the
      thread, unreported and protected by its own secret, the count grows by
      one and the thread's bump time moves strictly past its creation. */
  lemma CreateReplyOnValid(db: Db, k: ObjectId, text: string, secret: string)
    requires Valid(db) && k in db.threads
    requires text != "" && secret != ""
    ensures var s := CreateReply(db, Some(k), text, secret);
      var old_t := db.threads[k];
      var new_t := s.db.threads[k];
      && new_t.replies == [NewReply(text, secret, db.clock)] + old_t.replies
      && new_t.replies[0].text == text
      && new_t.replies[0].id !in (set i | 0 <= i < |old_t.replies| :: old_t.replies[i].id)
      && !new_t.replies[0].reported
      && (forall attempt :: Matches(attempt, new_t.replies[0].delete_password) <==> attempt == secret)
      && new_t.replycount == |new_t.replies|
      && new_t.created_on < new_t.bumped_on
      && GetReplysList(s.db, Some(k)) == Ok(Some(new_t))
  {
    AddReplyPrepends(db, k, text, secret);
    CreateReplyKeepsValid(db, Some(k), text, secret);
    var old_t := db.threads[k];
    forall i | 0 <= i < |old_t.replies|
      ensures old_t.replies[i].id != ObjectId(db.clock)
    {
      assert ThreadOk(old_t, db.clock);
    }
    assert ThreadOk(CreateReply(db, Some(k), text, secret).db.threads[k], db.clock + 1);
  }

  /** Redacting the newest reply of a thread, whose replies are those of an
      earlier version with that reply in front. */
  lemma RedactNewest(db1: Db, k: ObjectId, r: Reply, before: seq<Reply>, attempt: string)
    requires k in db1.threads && attempt != ""
    requires db1.threads[k].replies == [r] + before
    ensures var s := DeleteReply(db1, Some(k), Some(r.id), attempt);
      && (s.result.Ok? <==> Matches(attempt, r.delete_password))
      && (s.result.Ok? ==>
            && s.db.threads[k].replies == [r.(text := Deleted)] + before
            && s.db.threads[k].replycount == db1.threads[k].replycount)
      && (s.result.Err? ==> s.result.failure == Rejected(IncorrectPassword) && s.db == db1)
  {
    var t := db1.threads[k];
    assert IndexOfReply(t.replies, r.id) == 0;
    var s := DeleteReply(db1, Some(k), Some(r.id), attempt);
    if s.result.Ok? {
      assert s.db.threads[k].replies == t.replies[0 := r.(text := Deleted)];
      assert t.replies[0 := r.(text := Deleted)] == [r.(text := Deleted)] + before;
    }
  }

  /** Redacting a reply just posted succeeds exactly with the reply's own
      secret.  On success only its text changes, to the placeholder; on
      failure the store is left as the reply found it. */
  lemma ReplyThenDelete(db: Db, k: ObjectId, text: string, secret: string, attempt: string)
    requires Valid(db) && k in db.threads
    requires text != "" && secret != "" && attempt != ""
    ensures var s1 := CreateReply(db, Some(k), text, secret);
      var s2 := DeleteReply(s1.db, Some(k), Some(ObjectId(db.clock)), attempt);
      && (s2.result.Ok? <==> attempt == secret)
      && (s2.result.Ok? ==>
            && s2.db.threads[k].replies == [NewReply(Deleted, secret, db.clock)] + db.threads[k].replies
            && s2.db.threads[k].replycount == db.threads[k].replycount + 1)
      && (s2.result.Err? ==>
            && s2.result.failure == Rejected(IncorrectPassword)
            && s2.db == s1.db
            && s2.db.threads[k].replies[0].text == text)
  {
    var s1 := CreateReply(db, Some(k), text, secret);
    var r := NewReply(text, secret, db.clock);
    AddReplyPrepends(db, k, text, secret);
    RedactNewest(s1.db, k, r, db.threads[k].replies, attempt);
  }

  /** A reply is redacted on its own secret: the thread's secret plays no
      part, whichever of the two the caller supplies. */
  lemma DeleteReplyUsesReplySecret(db: Db, k: ObjectId, rid: ObjectId, secret: string)
    requires k in db.threads && secret != ""
    requires IndexOfReply(db.threads[k].replies, rid) < |db.threads[k].replies|
    ensures var reply := db.threads[k].replies[IndexOfReply(db.threads[k].replies, rid)];
      DeleteReply(db, Some(k), Some(rid), secret).result.Ok? <==> Matches(secret, reply.delete_password)
    ensures var reply := db.threads[k].replies[IndexOfReply(db.threads[k].replies, rid)];
      Matches(secret, db.threads[k].delete_password) && !Matches(secret, reply.delete_password) ==>
        DeleteReply(db, Some(k), Some(rid), secret) == Step(Err(Rejected(IncorrectPassword)), db)
  {
  }

  /** The redacting update filters on the reply id alone.  On a valid store
      the only thread holding that reply is the one the handler loaded, so
      the update lands there. */
  lemma RedactionTargetsLoadedThread(db: Db, k: ObjectId, rid: ObjectId)
    requires Valid(db) && k in db.threads
    requires IndexOfReply(db.threads[k].replies, rid) < |db.threads[k].replies|
    ensures forall k' :: k' in db.threads ==>
      (IndexOfReply(db.threads[k'].replies, rid) < |db.threads[k'].replies| <==> k' == k)
  {
    var i := IndexOfReply(db.threads[k].replies, rid);
    forall k' | k' in db.threads && IndexOfReply(db.threads[k'].replies, rid) < |db.threads[k'].replies|
      ensures k' == k
    {
      var j := IndexOfReply(db.threads[k'].replies, rid);
      assert db.threads[k].replies[i].id == db.threads[k'].replies[j].id;
    }
  }

  /** Reporting a reply twice: the second report succeeds too, the reply
      stays reported, and only the thread's bump time moves. */
  lemma ReportReplyIdempotent(db: Db, tid: Option<ObjectId>, rid: Option<ObjectId>)
    requires ReportReply(db, tid, rid).result.Ok?
    ensures var s1 := ReportReply(db, tid, rid);
      var s2 := ReportReply(s1.db, tid, rid);
      && s2.result == Ok(Success)
      && s2.db.threads == s1.db.threads[tid.value := Touch(s1.db.threads[tid.value], s1.db.clock)]
  {
    var s1 := ReportReply(db, tid, rid);
    var t := db.threads[tid.value];
    var i := IndexOfReply(t.replies, rid.value);
    var t1 := s1.db.threads[tid.value];
    assert forall j :: 0 <= j < i ==> t1.replies[j].id == t.replies[j].id;
    assert IndexOfReply(t1.replies, rid.value) == i;
    assert t1.replies[i := t1.replies[i].(reported := true)] == t1.replies;
  }

  // ---------------------------------------------------------------------
  // Timestamps
  // ---------------------------------------------------------------------

  /** In every reachable store `bumped_on` is never before `created_on`, and
      strictly after it once the thread has a reply. */
  lemma BumpAfterCreate(db: Db, k: ObjectId)
    requires Valid(db) && k in db.threads
    ensures db.threads[k].created_on <= db.threads[k].bumped_on
    ensures |db.threads[k].replies| > 0 ==> db.threads[k].created_on < db.threads[k].bumped_on
  {
    var t := db.threads[k];
    assert ThreadOk(t, db.clock);
    if |t.replies| > 0 {
      assert t.created_on < t.replies[0].created_on <= t.bumped_on;
    }
  }

  // ---------------------------------------------------------------------
  // A whole session
  // ---------------------------------------------------------------------

  /** Post a thread, reply to it, fail and then succeed to redact the reply
      with its secret, and delete the thread with its own secret. */
  lemma Session()
    ensures var s1 := CreateThread(Initial(), "hello", "pw1", "qa");
      var tid := Some(ObjectId(0));
      var rid := Some(ObjectId(1));
      var s2 := CreateReply(s1.db, tid, "hi", "pw2");
      var s3 := DeleteReply(s2.db, tid, rid, "pw1");
      var s4 := DeleteReply(s3.db, tid, rid, "pw2");
      var s5 := DeleteThread(s4.db, tid, "pw1");
      && s1.result.Ok?
      && s2.result == Ok(Some(s1.result.value))
      && GetReplysList(s2.db, tid).value.value.replycount == 1
      && GetReplysList(s2.db, tid).value.value.replies[0].text == "hi"
      && GetReplysList(s2.db, tid).value.value.created_on < GetReplysList(s2.db, tid).value.value.bumped_on
      && s3 == Step(Err(Rejected(IncorrectPassword)), s2.db)
      && s4.result == Ok(Success)
      && GetReplysList(s4.db, tid).value.value.replies[0].text == Deleted
      && GetReplysList(s4.db, tid).value.value.replycount == 1
      && s5.result == Ok(Success)
      && GetReplysList(s5.db, tid) == Ok(None)
  {
    var id := ObjectId(0);
    var t0 := Thread(id, "qa", "hello", false, Hash("pw1"), 0, [], 0, 0);
    var s1 := CreateThread(Initial(), "hello", "pw1", "qa");
    assert s1 == Step(Ok(t0), Db(map[id := t0], 1));
    var r := NewReply("hi", "pw2", 1);
    assert Sort([r], CreatedOn) == [r];
    var t1 := t0.(replycount := 1, replies := [r], bumped_on := 1);
    var s2 := CreateReply(s1.db, Some(id), "hi", "pw2");
    assert s2 == Step(Ok(Some(t0)), Db(map[id := t1], 2));
    var s3 := DeleteReply(s2.db, Some(id), Some(ObjectId(1)), "pw1");
    assert IndexOfReply(t1.replies, ObjectId(1)) == 0;
    assert s3 == Step(Err(Rejected(IncorrectPassword)), s2.db);
    var t2 := t1.(replies := [r.(text := Deleted)], bumped_on := 2);
    assert t1.replies[0 := t1.replies[0].(text := Deleted)] == [r.(text := Deleted)];
    assert RedactReply(t1, 0, 2) == t2;
    var s4 := DeleteReply(s3.db, Some(id), Some(ObjectId(1)), "pw2");
    assert s4 == Step(Ok(Success), Db(map[id := t2], 3));
    var s5 := DeleteThread(s4.db, Some(id), "pw1");
    assert s5.result == Ok(Success);
  }
}
