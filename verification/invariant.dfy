/** The invariant every reachable store satisfies, and its preservation by
    each operation of the handler.

    The empty collection satisfies it, and each operation maps a store that
    satisfies it to one that does, so every store the handler can produce
    satisfies it. */
module StoreInvariant {
  import opened Results
  import opened Hashing
  import opened Ordering
  import opened ThreadModel
  import opened ThreadHandler

  /** What the schema and the handler together guarantee of one stored
      thread, relative to the current clock tick. */
  predicate ThreadOk(t: Thread, clock: nat)
  {
    && t.board != "" && t.text != ""
    && t.replycount == |t.replies|
    && t.id.stamp < clock
    && t.created_on <= t.bumped_on < clock
    && SortedDesc(t.replies, CreatedOn)
    && (forall i :: 0 <= i < |t.replies| ==>
          && t.created_on < t.replies[i].created_on <= t.bumped_on
          && t.replies[i].id.stamp < clock)
  }

  /** Reply ids, being fresh ObjectIds, are unique across the collection. */
  ghost predicate UniqueReplyIds(threads: map<ObjectId, Thread>)
  {
    forall k1, k2, i, j ::
      && k1 in threads && k2 in threads
      && 0 <= i < |threads[k1].replies| && 0 <= j < |threads[k2].replies|
      && threads[k1].replies[i].id == threads[k2].replies[j].id
      ==> k1 == k2 && i == j
  }

  ghost predicate AllThreadsOk(threads: map<ObjectId, Thread>, clock: nat)
  {
    forall k :: k in threads ==> ThreadOk(threads[k], clock)
  }

  ghost predicate Valid(db: Db)
  {
    AllThreadsOk(db.threads, db.clock) && UniqueReplyIds(db.threads)
  }

  /** The store before anything has been posted. */
  function Initial(): (db: Db)
    ensures Valid(db)
    ensures db.threads == map[]
  {
    Db(map[], 0)
  }

  lemma ThreadOkLater(t: Thread, clock: nat, later: nat)
    requires ThreadOk(t, clock) && clock <= later
    ensures ThreadOk(t, later)
  {
  }

  /** Replies with the same ids and creation times, position by position. */
  predicate SameSkeleton(a: seq<Reply>, b: seq<Reply>)
  {
    && |a| == |b|
    && forall i :: 0 <= i < |a| ==> a[i].id == b[i].id && a[i].created_on == b[i].created_on
  }

  /** Stamping a thread whose replies keep their ids and creation times
      keeps the thread well formed. */
  lemma SkeletonThreadOk(t: Thread, t': Thread, clock: nat)
    requires ThreadOk(t, clock)
    requires && t'.id == t.id && t'.board == t.board && t'.text == t.text
             && t'.replycount == t.replycount && t'.created_on == t.created_on
             && SameSkeleton(t.replies, t'.replies)
             && t'.bumped_on == clock
    ensures ThreadOk(t', clock + 1)
  {
    forall i, j | 0 <= i < j < |t'.replies|
      ensures CreatedOn(t'.replies[i]) >= CreatedOn(t'.replies[j])
    {
      assert CreatedOn(t.replies[i]) >= CreatedOn(t.replies[j]);
    }
    forall i | 0 <= i < |t'.replies|
      ensures t'.created_on < t'.replies[i].created_on <= t'.bumped_on
      ensures t'.replies[i].id.stamp < clock + 1
    {
      assert t.created_on < t.replies[i].created_on <= t.bumped_on;
    }
  }

  /** Replacing one thread by a well-formed one at a later tick keeps every
      thread well formed. */
  lemma ReplaceThreadOk(threads: map<ObjectId, Thread>, clock: nat, k: ObjectId, t': Thread)
    requires AllThreadsOk(threads, clock)
    requires ThreadOk(t', clock + 1)
    ensures AllThreadsOk(threads[k := t'], clock + 1)
  {
    var m := threads[k := t'];
    forall k' | k' in m
      ensures ThreadOk(m[k'], clock + 1)
    {
      if k' != k {
        ThreadOkLater(threads[k'], clock, clock + 1);
      }
    }
  }

  /** Replacing one thread's replies by replies with the same ids keeps the
      ids unique. */
  lemma SkeletonUnique(threads: map<ObjectId, Thread>, k: ObjectId, t': Thread)
    requires UniqueReplyIds(threads) && k in threads
    requires SameSkeleton(threads[k].replies, t'.replies)
    ensures UniqueReplyIds(threads[k := t'])
  {
    var m := threads[k := t'];
    forall k1, i | k1 in m && 0 <= i < |m[k1].replies|
      ensures i < |threads[k1].replies| && m[k1].replies[i].id == threads[k1].replies[i].id
    {
    }
  }

  /** An update that touches reply flags or texts and stamps the thread keeps
      the invariant: this covers reportThread, reportReply and deleteReply. */
  lemma UpdateInPlace(db: Db, k: ObjectId, t': Thread)
    requires Valid(db) && k in db.threads
    requires var t := db.threads[k];
      && t'.id == k && t'.board == t.board && t'.text == t.text
      && t'.replycount == t.replycount && t'.created_on == t.created_on
      && SameSkeleton(t.replies, t'.replies)
      && t'.bumped_on == db.clock
    ensures Valid(Db(db.threads[k := t'], db.clock + 1))
  {
    SkeletonThreadOk(db.threads[k], t', db.clock);
    ReplaceThreadOk(db.threads, db.clock, k, t');
    SkeletonUnique(db.threads, k, t');
  }

  lemma CreateThreadKeepsValid(db: Db, text: string, secret: string, board: string)
    requires Valid(db)
    ensures Valid(CreateThread(db, text, secret, board).db)
    ensures var s := CreateThread(db, text, secret, board);
      s.result.Ok? ==> s.result.value.id !in db.threads && |s.db.threads| == |db.threads| + 1
  {
    var s := CreateThread(db, text, secret, board);
    if s.result.Ok? {
      var t := s.result.value;
      assert forall k :: k in db.threads ==> k.stamp < db.clock;
      forall k | k in s.db.threads
        ensures ThreadOk(s.db.threads[k], s.db.clock)
      {
        if k != t.id {
          ThreadOkLater(db.threads[k], db.clock, s.db.clock);
        }
      }
    }
  }

  lemma ReportThreadKeepsValid(db: Db, tid: Option<ObjectId>)
    requires Valid(db)
    ensures Valid(ReportThread(db, tid).db)
  {
    if tid.Some? && tid.value in db.threads {
      var t := db.threads[tid.value];
      UpdateInPlace(db, tid.value, Touch(t.(reported := true), db.clock));
    }
  }

  lemma DeleteThreadKeepsValid(db: Db, tid: Option<ObjectId>, secret: string)
    requires Valid(db)
    ensures Valid(DeleteThread(db, tid, secret).db)
  {
  }

  lemma ReportReplyKeepsValid(db: Db, tid: Option<ObjectId>, rid: Option<ObjectId>)
    requires Valid(db)
    ensures Valid(ReportReply(db, tid, rid).db)
  {
    if tid.Some? && rid.Some? && tid.value in db.threads {
      var t := db.threads[tid.value];
      var i := IndexOfReply(t.replies, rid.value);
      if i < |t.replies| {
        UpdateInPlace(db, tid.value, FlagReply(t, i, db.clock));
      }
    }
  }

  lemma DeleteReplyKeepsValid(db: Db, tid: Option<ObjectId>, rid: Option<ObjectId>, secret: string)
    requires Valid(db)
    ensures Valid(DeleteReply(db, tid, rid, secret).db)
  {
    if tid.Some? && rid.Some? && secret != "" && tid.value in db.threads {
      var t := db.threads[tid.value];
      var i := IndexOfReply(t.replies, rid.value);
      if i < |t.replies| && Matches(secret, t.replies[i].delete_password) {
        UpdateInPlace(db, tid.value, RedactReply(t, i, db.clock));
      }
    }
  }

  /** On a valid store the re-sorting push only puts the new reply in front:
      it is strictly newer than every reply already there. */
  lemma AddReplyPrepends(db: Db, k: ObjectId, text: string, secret: string)
    requires Valid(db) && k in db.threads
    ensures AddReply(db.threads[k], NewReply(text, secret, db.clock), db.clock).replies
         == [NewReply(text, secret, db.clock)] + db.threads[k].replies
  {
    var t := db.threads[k];
    var r := NewReply(text, secret, db.clock);
    forall i | 0 <= i < |t.replies|
      ensures CreatedOn(t.replies[i]) < CreatedOn(r)
    {
      assert t.replies[i].created_on <= t.bumped_on;
    }
    PushNewest(t.replies, r, CreatedOn);
  }

  /** The thread after the push is well formed at the next tick. */
  lemma PrependThreadOk(t: Thread, r: Reply, clock: nat)
    requires ThreadOk(t, clock)
    requires r.created_on == clock && r.id.stamp == clock
    ensures ThreadOk(Touch(t.(replycount := t.replycount + 1, replies := [r] + t.replies), clock), clock + 1)
  {
    var t' := Touch(t.(replycount := t.replycount + 1, replies := [r] + t.replies), clock);
    forall i, j | 0 <= i < j < |t'.replies|
      ensures CreatedOn(t'.replies[i]) >= CreatedOn(t'.replies[j])
    {
      if i > 0 {
        assert CreatedOn(t.replies[i - 1]) >= CreatedOn(t.replies[j - 1]);
      } else {
        assert t.replies[j - 1].created_on <= t.bumped_on;
      }
    }
    forall i | 0 <= i < |t'.replies|
      ensures t'.created_on < t'.replies[i].created_on <= t'.bumped_on
      ensures t'.replies[i].id.stamp < clock + 1
    {
      if i > 0 {
        assert t'.replies[i] == t.replies[i - 1];
      }
    }
  }

  ghost predicate ReplyIdsBelow(threads: map<ObjectId, Thread>, clock: nat)
  {
    forall k, i :: k in threads && 0 <= i < |threads[k].replies| ==> threads[k].replies[i].id.stamp < clock
  }

  lemma ValidIdsBelow(db: Db)
    requires Valid(db)
    ensures ReplyIdsBelow(db.threads, db.clock)
  {
    forall k, i | k in db.threads && 0 <= i < |db.threads[k].replies|
      ensures db.threads[k].replies[i].id.stamp < db.clock
    {
      assert ThreadOk(db.threads[k], db.clock);
    }
  }

  /** Putting a reply with a fresh id in front of one thread's replies keeps
      the ids unique. */
  lemma PrependUnique(threads: map<ObjectId, Thread>, clock: nat, k: ObjectId, t': Thread, r: Reply)
    requires UniqueReplyIds(threads) && ReplyIdsBelow(threads, clock) && k in threads
    requires t'.replies == [r] + threads[k].replies
    requires r.id.stamp == clock
    ensures UniqueReplyIds(threads[k := t'])
  {
    var m := threads[k := t'];
    forall k', x | k' in m && 0 <= x < |m[k'].replies|
      ensures (k' == k && x == 0) || m[k'].replies[x].id.stamp < clock
      ensures !(k' == k && x == 0) ==> m[k'].replies[x] == threads[k'].replies[if k' == k then x - 1 else x]
    {
      if k' == k && x > 0 {
        assert m[k'].replies[x] == threads[k'].replies[x - 1];
      }
    }
  }

  /** The thread after a reply is accepted is well formed at the next tick. */
  lemma AddReplyThreadOk(db: Db, k: ObjectId, text: string, secret: string)
    requires Valid(db) && k in db.threads
    ensures ThreadOk(AddReply(db.threads[k], NewReply(text, secret, db.clock), db.clock), db.clock + 1)
  {
    var t := db.threads[k];
    var r := NewReply(text, secret, db.clock);
    AddReplyPrepends(db, k, text, secret);
    assert AddReply(t, r, db.clock) == Touch(t.(replycount := t.replycount + 1, replies := [r] + t.replies), db.clock);
    PrependThreadOk(t, r, db.clock);
  }

  lemma CreateReplyKeepsValid(db: Db, tid: Option<ObjectId>, text: string, secret: string)
    requires Valid(db)
    ensures Valid(CreateReply(db, tid, text, secret).db)
  {
    if text != "" && secret != "" && tid.Some? && tid.value in db.threads {
      var k := tid.value;
      var r := NewReply(text, secret, db.clock);
      var t' := AddReply(db.threads[k], r, db.clock);
      AddReplyThreadOk(db, k, text, secret);
      ReplaceThreadOk(db.threads, db.clock, k, t');
      AddReplyPrepends(db, k, text, secret);
      ValidIdsBelow(db);
      PrependUnique(db.threads, db.clock, k, t', r);
    }
  }
}
