/** app/api/cron/cleanup/route.ts: the reaper. It selects the records whose
    expiry lies strictly before `now`, tries to unlink the uploaded file behind
    each selected non-text record with an `/uploads/` reference, and counts the
    selected records. The deletion itself is `DumpStore.Sweep`. */
module CleanupRoute {
  import opened Types
  import opened Strings
  import opened Utils
  import DumpRoute

  /** The records with `expiresAt < now`, strictly (`findMany` with `lt`), in store order. */
  function Expired(rs: seq<Record>, now: int): (r: seq<Record>)
    ensures forall x :: multiset(r)[x] == if x.expiresAt < now then multiset(rs)[x] else 0
    ensures forall x :: x in r <==> x in rs && x.expiresAt < now
    decreases |rs|
  {
    if rs == [] then []
    else
      assert rs == [rs[0]] + rs[1..];
      (if rs[0].expiresAt < now then [rs[0]] else []) + Expired(rs[1..], now)
  }

  /** What `deleteMany` with `lt: now` leaves: the records with `expiresAt >= now`,
      in store order. */
  function Survivors(rs: seq<Record>, now: int): (r: seq<Record>)
    ensures forall x :: multiset(r)[x] == if x.expiresAt >= now then multiset(rs)[x] else 0
    ensures forall x :: x in r <==> x in rs && x.expiresAt >= now
    decreases |rs|
  {
    if rs == [] then []
    else
      assert rs == [rs[0]] + rs[1..];
      (if rs[0].expiresAt >= now then [rs[0]] else []) + Survivors(rs[1..], now)
  }

  /** The reaper tries to unlink the file behind a record exactly when the record
      is not text and its content is an `/uploads/` reference. */
  predicate IsUnlinkTarget(x: Record)
  {
    x.kind != Text && StartsWith(x.content, UploadsPrefix)
  }

  /** The references the reaper tries to unlink for `rs`, in order. */
  function UnlinkTargets(rs: seq<Record>): (paths: seq<string>)
    ensures |paths| <= |rs|
    ensures forall p :: p in paths ==> StartsWith(p, UploadsPrefix)
    decreases |rs|
  {
    if rs == [] then []
    else
      (if IsUnlinkTarget(rs[0]) then [rs[0].content] else []) + UnlinkTargets(rs[1..])
  }

  /** Unlink is attempted for exactly the non-text records of `rs` that hold an
      `/uploads/` reference, and only for their references. */
  lemma {:induction false} UnlinkTargetsExactly(rs: seq<Record>)
    ensures forall p :: p in UnlinkTargets(rs) <==> exists x :: x in rs && IsUnlinkTarget(x) && x.content == p
    decreases |rs|
  {
    if rs != [] {
      UnlinkTargetsExactly(rs[1..]);
      assert forall x :: x in rs <==> x == rs[0] || x in rs[1..];
    }
  }

  /** The paths of `attempted` whose unlink reported failure, in order. */
  function Failed(attempted: seq<string>, unlink: string -> bool): (r: seq<string>)
    ensures forall p :: p in r <==> p in attempted && !unlink(p)
    decreases |attempted|
  {
    if attempted == [] then []
    else
      assert forall p :: p in attempted <==> p == attempted[0] || p in attempted[1..];
      (if unlink(attempted[0]) then [] else [attempted[0]]) + Failed(attempted[1..], unlink)
  }

  /** The loop over the selected records. `unlink(path)` stands for `fs.unlink`,
      true when it succeeds. A failure is logged and the loop goes on, so every
      target is attempted whatever the earlier attempts returned. */
  method UnlinkExpired(expiredItems: seq<Record>, unlink: string -> bool)
    returns (attempted: seq<string>, failed: seq<string>)
    ensures attempted == UnlinkTargets(expiredItems)
    ensures failed == Failed(attempted, unlink)
  {
    attempted, failed := [], [];
    var i := 0;
    while i < |expiredItems|
      invariant 0 <= i <= |expiredItems|
      invariant attempted == UnlinkTargets(expiredItems[..i])
      invariant failed == Failed(attempted, unlink)
    {
      var item := expiredItems[i];
      assert expiredItems[..i + 1] == expiredItems[..i] + [item];
      UnlinkTargetsAppend(expiredItems[..i], item);
      if item.kind != Text && StartsWith(item.content, UploadsPrefix) {
        FailedAppend(attempted, item.content, unlink);
        attempted := attempted + [item.content];
        if !unlink(item.content) {
          failed := failed + [item.content];
        }
      }
      i := i + 1;
    }
    assert expiredItems[..i] == expiredItems;
  }

  lemma {:induction false} UnlinkTargetsAppend(rs: seq<Record>, x: Record)
    ensures UnlinkTargets(rs + [x]) == UnlinkTargets(rs) + (if IsUnlinkTarget(x) then [x.content] else [])
    decreases |rs|
  {
    if rs == [] {
      assert rs + [x] == [x];
    } else {
      assert (rs + [x])[1..] == rs[1..] + [x];
      UnlinkTargetsAppend(rs[1..], x);
    }
  }

  lemma {:induction false} FailedAppend(attempted: seq<string>, p: string, unlink: string -> bool)
    ensures Failed(attempted + [p], unlink) == Failed(attempted, unlink) + (if unlink(p) then [] else [p])
    decreases |attempted|
  {
    if attempted == [] {
      assert attempted + [p] == [p];
    } else {
      assert (attempted + [p])[1..] == attempted[1..] + [p];
      FailedAppend(attempted[1..], p, unlink);
    }
  }

  /** The selection and the survivors split the store: each stored record is
      either reaped or kept, never both. */
  lemma SweepPartition(rs: seq<Record>, now: int)
    ensures multiset(Expired(rs, now)) + multiset(Survivors(rs, now)) == multiset(rs)
  {
    var e, s := Expired(rs, now), Survivors(rs, now);
    assert forall x :: (multiset(e) + multiset(s))[x] == multiset(rs)[x];
  }

  /** Sweeping again at the same time selects nothing, unlinks nothing and
      changes nothing. */
  lemma {:induction false} SweepIdempotent(rs: seq<Record>, now: int)
    ensures Expired(Survivors(rs, now), now) == []
    ensures UnlinkTargets(Expired(Survivors(rs, now), now)) == []
    ensures Survivors(Survivors(rs, now), now) == Survivors(rs, now)
    decreases |rs|
  {
    if rs != [] {
      SweepIdempotent(rs[1..], now);
      var tail := Survivors(rs[1..], now);
      if rs[0].expiresAt >= now {
        assert Survivors(rs, now) == [rs[0]] + tail;
        assert ([rs[0]] + tail)[1..] == tail;
      } else {
        assert Survivors(rs, now) == tail;
      }
    }
  }

  /** Removing expired records keeps ids unique. */
  lemma {:induction false} SurvivorsKeepUniqueIds(rs: seq<Record>, now: int)
    requires UniqueIds(rs)
    ensures UniqueIds(Survivors(rs, now))
    decreases |rs|
  {
    if rs != [] {
      SurvivorsKeepUniqueIds(rs[1..], now);
      var tail := Survivors(rs[1..], now);
      if rs[0].expiresAt >= now {
        assert Survivors(rs, now) == [rs[0]] + tail;
        assert ([rs[0]] + tail)[1..] == tail;
        assert IdFree(tail, rs[0].id) by {
          forall x | x in tail ensures x.id != rs[0].id {
            assert x in rs[1..];
          }
        }
      } else {
        assert Survivors(rs, now) == tail;
      }
    }
  }

  /** A text record, or one whose content is an inline `data:` URL, is never
      an unlink target; so records the dump POST creates never lead to an unlink. */
  lemma InlineContentNeverUnlinked(x: Record)
    requires x.kind == Text || StartsWith(x.content, "data:")
    ensures !IsUnlinkTarget(x)
  {
    if x.kind != Text {
      assert x.content[0] == 'd';
    }
  }

  /** The listing and the reaper draw their lines at the same instant from both
      sides: a record expiring exactly at `now` is neither listed nor reaped. */
  lemma BoundaryRecord(x: Record, now: int)
    requires x.expiresAt == now
    ensures forall rs :: x !in DumpRoute.ListActive(rs, now)
    ensures forall rs :: x !in Expired(rs, now) && (x in rs ==> x in Survivors(rs, now))
  {
  }
}
