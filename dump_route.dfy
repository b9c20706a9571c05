/** app/api/dump/route.ts: the listing of active items (GET) and the item a
    submission builds (POST). The insertion itself is `DumpStore.Create`. */
module DumpRoute {
  import opened Types
  import opened Strings
  import opened Utils
  import DataUrl

  // ---------------------------------------------------------------- GET

  /** The records with `expiresAt > now`, strictly, each as often as it is stored. */
  function Active(rs: seq<Record>, now: int): (r: seq<Record>)
    ensures forall x :: multiset(r)[x] == if x.expiresAt > now then multiset(rs)[x] else 0
    ensures forall x :: x in r <==> x in rs && x.expiresAt > now
    decreases |rs|
  {
    if rs == [] then []
    else
      assert rs == [rs[0]] + rs[1..];
      (if rs[0].expiresAt > now then [rs[0]] else []) + Active(rs[1..], now)
  }

  /** Ordered by `createdAt`, newest first. */
  predicate NewestFirst(rs: seq<Record>)
  {
    forall i, j :: 0 <= i < j < |rs| ==> rs[i].createdAt >= rs[j].createdAt
  }

  /** A record no older than everything after it keeps the order newest first. */
  lemma PrependNewestFirst(h: Record, rs: seq<Record>)
    requires NewestFirst(rs)
    requires forall y :: y in rs ==> y.createdAt <= h.createdAt
    ensures NewestFirst([h] + rs)
  {
    var r := [h] + rs;
    forall i, j | 0 <= i < j < |r| ensures r[i].createdAt >= r[j].createdAt {
      if i > 0 {
        assert r[i] == rs[i - 1] && r[j] == rs[j - 1];
      } else {
        assert r[j] == rs[j - 1] && rs[j - 1] in rs;
      }
    }
  }

  /** `x` placed into a newest-first sequence, before the first record not newer than it. */
  function InsertByCreated(x: Record, rs: seq<Record>): (r: seq<Record>)
    requires NewestFirst(rs)
    ensures NewestFirst(r)
    ensures multiset(r) == multiset(rs) + multiset{x}
    ensures forall y :: y in r ==> y == x || y in rs
    decreases |rs|
  {
    if rs == [] || x.createdAt >= rs[0].createdAt then
      PrependNewestFirst(x, rs);
      [x] + rs
    else
      var tail := InsertByCreated(x, rs[1..]);
      assert rs == [rs[0]] + rs[1..];
      PrependNewestFirst(rs[0], tail);
      [rs[0]] + tail
  }

  /** The records of `rs`, newest first (`orderBy: { createdAt: 'desc' }`). */
  function SortNewestFirst(rs: seq<Record>): (r: seq<Record>)
    ensures NewestFirst(r)
    ensures multiset(r) == multiset(rs)
    decreases |rs|
  {
    if rs == [] then []
    else
      assert rs == [rs[0]] + rs[1..];
      InsertByCreated(rs[0], SortNewestFirst(rs[1..]))
  }

  /** The GET listing at time `now`: every stored record with `expiresAt > now`,
      each exactly as often as it is stored, none other, newest first. */
  function ListActive(rs: seq<Record>, now: int): (r: seq<Record>)
    ensures NewestFirst(r)
    ensures forall x :: multiset(r)[x] == if x.expiresAt > now then multiset(rs)[x] else 0
    ensures forall x :: x in r <==> x in rs && x.expiresAt > now
  {
    var r := SortNewestFirst(Active(rs, now));
    assert forall x :: x in r <==> x in multiset(r);
    r
  }

  // ---------------------------------------------------------------- POST

  /** An uploaded file: its name, its MIME type and its bytes. */
  datatype UploadedFile = UploadedFile(name: string, mimeType: string, bytes: seq<byte>)

  /** What `formData.get(field)` yields: nothing, a string, or a file. */
  datatype FormValue = Missing | Str(s: string) | Upload(file: UploadedFile)

  /** The three fields of a submission form the handler reads. */
  datatype DumpForm = DumpForm(typeField: FormValue, contentField: FormValue, fileField: FormValue)

  const NoFileProvided := Failure(400, "No file provided")
  const CreateFailed := Failure(500, "Failed to create dump item")

  predicate IsTextRequest(form: DumpForm)
  {
    form.typeField == Str("text")
  }

  /** A form value that JavaScript treats as false: null, or the empty string. */
  predicate Falsy(v: FormValue)
  {
    v == Missing || v == Str("")
  }

  /** The record data a POST builds from its form (the `data` passed to create,
      without `expiresAt`), or the response it fails with.
      - A text request stores the `content` string as is, with no file name and
        no MIME type; a content field that is not a string cannot be stored in
        the string column and fails as a server error.
      - Any other request needs a file: without one it is rejected with
        "No file provided"; a string in its place has no bytes to read and fails
        as a server error; a file is stored inline as a data URL, its name and
        type recorded, and its kind classified from its MIME type. The
        requested kind itself is ignored, so hashed text is never produced. */
  function Payload(form: DumpForm): (r: Result<CreatePayload>)
    ensures r.Ok? ==> (r.value.kind == Text <==> IsTextRequest(form))
    ensures r.Ok? ==> r.value.kind != HashedText
    ensures IsTextRequest(form) ==>
      (r.Ok? <==> form.contentField.Str?) &&
      (r.Ok? ==> r.value == CreatePayload(Text, form.contentField.s, None, None))
    ensures IsTextRequest(form) && !form.contentField.Str? ==> r == Err(CreateFailed)
    ensures !IsTextRequest(form) && Falsy(form.fileField) ==> r == Err(NoFileProvided)
    ensures !IsTextRequest(form) && form.fileField.Str? && form.fileField.s != "" ==> r == Err(CreateFailed)
    ensures !IsTextRequest(form) ==> (r.Ok? <==> form.fileField.Upload?)
    ensures !IsTextRequest(form) && r.Ok? ==>
      var f := form.fileField.file;
      && r.value.kind == DetectFileType(f.mimeType)
      && StartsWith(r.value.content, DataUrl.Scheme)
      && DataUrl.Parse(r.value.content) == Some((f.mimeType, f.bytes))
      && r.value.fileName == Some(f.name)
      && r.value.mimeType == Some(f.mimeType)
    ensures r.Err? ==> r.error in {NoFileProvided, CreateFailed}
  {
    if IsTextRequest(form) then
      match form.contentField
      case Str(s) => Ok(CreatePayload(Text, s, None, None))
      case _ => Err(CreateFailed)
    else
      match form.fileField
      case Missing => Err(NoFileProvided)
      case Str(s) => if s == "" then Err(NoFileProvided) else Err(CreateFailed)
      case Upload(f) =>
        DataUrl.ParseDataUrl(f.mimeType, f.bytes);
        Ok(CreatePayload(DetectFileType(f.mimeType), DataUrl.DataUrl(f.mimeType, f.bytes), Some(f.name), Some(f.mimeType)))
  }

  /** The stored record for a payload: the store assigns the id and stamps
      `createdAt` with the current time; `expiresAt` is ten minutes later. */
  function Stamp(p: CreatePayload, id: string, now: int): (rec: Record)
    ensures rec.id == id && rec.createdAt == now
    ensures rec.expiresAt - rec.createdAt == TtlMs
    ensures CreatePayload(rec.kind, rec.content, rec.fileName, rec.mimeType) == p
  {
    Record(id, p.kind, p.content, p.fileName, p.mimeType, now, ExpirationTime(now))
  }

  /** A record just created is listed until its ten minutes are up, and only until then. */
  lemma FreshRecordListedUntilExpiry(rs: seq<Record>, p: CreatePayload, id: string, created: int, now: int)
    ensures var rec := Stamp(p, id, created);
      rec in ListActive(rs + [rec], now) <==> now < created + TtlMs
  {
    var rec := Stamp(p, id, created);
    assert rec in rs + [rec];
  }
}
