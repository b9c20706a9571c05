/** The dump item table as an object: the sequence of stored records, which the
    dump POST appends to and the cleanup GET sweeps. The listing (`ListActive`)
    and decoding (`Decode`) are functions of `items` and cannot change it. */
module Store {
  import opened Types
  import opened Utils
  import DataUrl
  import opened DumpRoute
  import opened CleanupRoute

  class DumpStore {
    var items: seq<Record>

    /** Ids are unique (each is a fresh uuid when its record is created). */
    ghost predicate Valid()
      reads this
    {
      UniqueIds(items)
    }

    constructor (initial: seq<Record>)
      requires UniqueIds(initial)
      ensures Valid() && items == initial
    {
      items := initial;
    }

    /** The dump POST: build the content, file name and MIME type from the form,
        then create the record, whose id is the fresh `id` and whose creation
        time is `now`. A rejected form leaves the store as it was; an accepted
        one appends exactly the new record and changes nothing else. */
    method Create(form: DumpForm, id: string, now: int) returns (res: Result<Record>)
      requires Valid()
      requires IdFree(items, id)
      modifies this
      ensures Valid()
      ensures Payload(form).Err? ==> res == Err(Payload(form).error) && items == old(items)
      ensures Payload(form).Ok? ==> res == Ok(Stamp(Payload(form).value, id, now))
      ensures res.Ok? ==> items == old(items) + [res.value]
      ensures res.Ok? ==> res.value.expiresAt == now + TtlMs
    {
      var isText := form.typeField == Str("text");
      var content := "";
      var fileName: Option<string> := None;
      var mimeType: Option<string> := None;
      if isText {
        match form.contentField
        case Str(s) =>
          content := s;
        case _ =>
          // a missing or file-valued content is not a string and the create call rejects it
          return Err(CreateFailed);
      } else {
        match form.fileField
        case Missing =>
          return Err(NoFileProvided);
        case Str(s) =>
          if s == "" {
            return Err(NoFileProvided);
          }
          // a string has no bytes to read
          return Err(CreateFailed);
        case Upload(file) =>
          fileName := Some(file.name);
          mimeType := Some(file.mimeType);
          content := DataUrl.DataUrl(file.mimeType, file.bytes);
      }
      var kind := if isText then Text else DetectFileType(if mimeType.Some? then mimeType.value else "");
      var item := Record(id, kind, content, fileName, mimeType, now, ExpirationTime(now));
      UniqueIdsAppend(items, item);
      items := items + [item];
      res := Ok(item);
    }

    /** The cleanup GET at time `now`: select the records that expired strictly
        before `now`, try to unlink the upload behind each selected target
        (`unlink` stands for the file system; a failure is logged and skipped),
        then delete exactly the selected records and report how many there were.
        Every record with `expiresAt >= now` stays, in its place. */
    method Sweep(now: int, unlink: string -> bool) returns (deletedCount: nat, attempted: seq<string>, failed: seq<string>)
      requires Valid()
      modifies this
      ensures Valid()
      ensures items == Survivors(old(items), now)
      ensures deletedCount == |Expired(old(items), now)|
      ensures attempted == UnlinkTargets(Expired(old(items), now))
      ensures failed == Failed(attempted, unlink)
    {
      var expiredItems := Expired(items, now);
      attempted, failed := UnlinkExpired(expiredItems, unlink);
      SurvivorsKeepUniqueIds(items, now);
      items := Survivors(items, now);
      deletedCount := |expiredItems|;
    }
  }

  /** Two sweeps at the same time, as a scheduler retrying would run them: the
      second deletes nothing, unlinks nothing and leaves the store unchanged. */
  method SweepTwice(store: DumpStore, now: int, unlink: string -> bool)
    returns (first: nat, second: nat, secondAttempted: seq<string>)
    requires store.Valid()
    modifies store
    ensures store.Valid()
    ensures store.items == Survivors(old(store.items), now)
    ensures first == |Expired(old(store.items), now)|
    ensures second == 0
    ensures secondAttempted == []
  {
    var attempted, failed;
    first, attempted, failed := store.Sweep(now, unlink);
    SweepIdempotent(old(store.items), now);
    second, secondAttempted, failed := store.Sweep(now, unlink);
  }

  /** A record the dump POST creates never leads the reaper to an unlink: its
      content is either text or an inline data URL, never an upload reference. */
  lemma CreatedNeverUnlinked(form: DumpForm, id: string, now: int)
    requires Payload(form).Ok?
    ensures !IsUnlinkTarget(Stamp(Payload(form).value, id, now))
  {
    InlineContentNeverUnlinked(Stamp(Payload(form).value, id, now));
  }
}
