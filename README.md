# ttldump: the expiring content store, in Dafny

ttldump is a dump service. A client submits text or a file, and the service
keeps it for ten minutes. This project models the store behind it:

- the stored dump item and its five kinds (`Types`);
- the helpers in `app/lib/utils.ts` (`Utils`): expiry stamping, the countdown
  text, the icon map, the `/uploads/` reference and the MIME classifier;
- the listing of active items and the record a submission builds (`DumpRoute`);
- the decode request, with its validation order and its diagnosis of a failed
  lookup (`DecodeRoute`);
- the reaper (`CleanupRoute`);
- the table itself, as a class `Store.DumpStore` whose `items` the dump POST
  appends to (`Create`) and the cleanup GET sweeps (`Sweep`).

Listing and decoding are functions of `items`. Because they are functions, they
cannot change the store.

Times are integer milliseconds. Each operation reads the clock once, as its
`now` parameter. The fresh uuid is an `id` parameter. The stored inline form of
a file is a `data:` URL (section 3 of RFC 2397). Its payload is base 64 as in
section 4 of RFC 4648. Both are written out here, each with a parser that
undoes it (`Base64.Decode`, `DataUrl.Parse`); the service itself has no such
parser. Decryption is a function parameter, and `fs.unlink` is one too.

Where the code departs from what the service evidently intends, the model
follows the code:

- The reaper selects `expiresAt < now`, strictly. A record expiring exactly at
  `now` is neither listed nor reaped.
- A decode request for a hashed-text record expiring exactly at `now` gets the
  404 "Hashed text item not found or has expired", not the 400 "Item has
  expired": the lookup wants `expiresAt > now`, the diagnosis tests
  `expiresAt < now`, and the case in between falls through
  (app/api/decode/route.ts:26-64). The message meant for an expired item is the
  400 "Item has expired".
- A text submission with empty content is accepted and stored. There is no
  emptiness check (app/api/dump/route.ts:41-42).
- The dump POST never creates a hashed-text record. Any requested kind other
  than `text` is replaced by the kind classified from the file's MIME type.
- Reaping runs only when the cleanup route is called. No read or write path
  triggers it.
- Files are always stored inline as data URLs. The reaper's `/uploads/` branch
  therefore never fires for records this POST creates (`CreatedNeverUnlinked`).

## Model

| member | source | states |
|---|---|---|
| `Strings.NatToString` | app/lib/utils.ts:23 | the number inside a template literal: a non-empty digit string without a leading zero whose decimal value is the number |
| `Utils.MinutesField` | app/lib/utils.ts:9 | `getMinutes` is a minute of the hour, 0 to 59: the whole minutes elapsed since the last full hour |
| `Utils.ExpirationTime` | app/lib/utils.ts:7-11 | advancing the minutes field by ten (carrying into the hours) gives exactly `now + 600000` ms |
| `Utils.FormatRelativeTime` | app/lib/utils.ts:14-28 | the text is "Expired" exactly when the expiry instant is before `now` |
| `Utils.CountdownSeconds` | app/lib/utils.ts:22-24 | with `s` whole seconds left and `s < 60`, the text is "<s> seconds" |
| `Utils.CountdownMinutes` | app/lib/utils.ts:26-27 | with `60*m + s` whole seconds left, `m >= 1` and `0 <= s < 60`, the text is "<m> min <s> sec" |
| `Utils.IconForType` | app/lib/utils.ts:31-44 | the default package icon is given exactly to hashed text |
| `Utils.IconsDistinct` | app/lib/utils.ts:32-43 | different kinds get different icons |
| `Utils.UploadReference` | app/lib/utils.ts:47-56 | the reference starts with `/uploads/`, ends with the file name, and holds the unique token right after the prefix, then `-` |
| `Utils.DetectFileType` | app/lib/utils.ts:59-67 | total; the result is always image, pdf or file; image iff the type starts with `image/`; pdf iff it is exactly `application/pdf` |
| `Base64.Encode` | app/api/dump/route.ts:57-58 | four characters per started group of three bytes, each from the RFC 4648 alphabet or `=` |
| `Base64.DecodeEncode` | app/api/dump/route.ts:58 | decoding the encoding of any byte sequence gives back that sequence |
| `DataUrl.DataUrl` | app/api/dump/route.ts:58 | the inline content starts with `data:` |
| `DataUrl.ParseDataUrl` | app/api/dump/route.ts:58 | the MIME type and the bytes are recovered from the data URL alone, for every MIME type |
| `DumpRoute.Active` | app/api/dump/route.ts:10-15 | keeps every record with `expiresAt > now` as often as it is stored, and no other |
| `DumpRoute.InsertByCreated` | app/api/dump/route.ts:16-18 | inserting into a newest-first sequence keeps it newest first and adds exactly the one record |
| `DumpRoute.SortNewestFirst` | app/api/dump/route.ts:16-18 | the result is ordered by `createdAt` non-increasing and is a permutation of the input |
| `DumpRoute.ListActive` | app/api/dump/route.ts:10-19 | the listing is newest first and holds each record with `expiresAt > now` exactly as often as stored, nothing else |
| `DumpRoute.Payload` | app/api/dump/route.ts:35-69 | kind is text iff the requested type is `text`, never hashed text; a text record has no file name or MIME type; a missing file gives "No file provided"; a text form without string content, or a non-empty string in place of the file, gives the 500 "Failed to create dump item"; a file is stored as a data URL that parses back to its MIME type and bytes, with its name and type, and with its kind classified from its MIME type |
| `DumpRoute.Stamp` | app/api/dump/route.ts:64-72 | the record carries the payload unchanged, the assigned id, `createdAt == now`, and an expiry ten minutes after creation |
| `DumpRoute.FreshRecordListedUntilExpiry` | app/api/dump/route.ts:10-72 | a newly created record is listed exactly while `now` is less than its creation time plus ten minutes |
| `DecodeRoute.FindActiveHashed` | app/api/decode/route.ts:26-34 | a found record has the id, is hashed text and has `expiresAt > now`; when none is found, no such record exists |
| `DecodeRoute.FindById` | app/api/decode/route.ts:38-42 | a found record has the id; when none is found, no record has it |
| `DecodeRoute.Decode` | app/api/decode/route.ts:9-80 | a missing or empty key is rejected first, then a missing or empty id; any decoded text is non-empty and is the decryption of an active hashed-text record with that id; every other outcome is one of the seven error responses |
| `DecodeRoute.DecodeDiagnosis` | app/api/decode/route.ts:36-80 | with unique ids, an unknown id gives "Item not found"; otherwise the record with that id decides: wrong kind, then `expiresAt < now` "Item has expired", then `expiresAt == now` "Hashed text item not found or has expired", then an empty or null decryption "Invalid hash key", else the text |
| `DecodeRoute.DecryptOnlyActiveHashed` | app/api/decode/route.ts:26-68 | the outcome depends on decryption only at an active hashed-text record with the requested id |
| `CleanupRoute.Expired` | app/api/cron/cleanup/route.ts:11-17 | selects every record with `expiresAt < now`, strictly, as often as stored, and no other |
| `CleanupRoute.Survivors` | app/api/cron/cleanup/route.ts:32-38 | the records left after the delete are exactly those with `expiresAt >= now`, as often as stored |
| `CleanupRoute.UnlinkTargets` | app/api/cron/cleanup/route.ts:20-21 | no more unlinks than selected records, all of them `/uploads/` references |
| `CleanupRoute.UnlinkTargetsExactly` | app/api/cron/cleanup/route.ts:20-24 | a path is unlinked exactly when it is the content of a selected record that is not text and starts with `/uploads/` |
| `CleanupRoute.Failed` | app/api/cron/cleanup/route.ts:22-27 | the logged failures are exactly the attempted paths whose unlink failed |
| `CleanupRoute.UnlinkExpired` | app/api/cron/cleanup/route.ts:20-29 | the loop attempts exactly the targets among the selected records, in order, and goes on past every failure |
| `CleanupRoute.SweepPartition` | app/api/cron/cleanup/route.ts:11-38 | each stored record is either selected for reaping or kept, never both |
| `CleanupRoute.SweepIdempotent` | app/api/cron/cleanup/route.ts:11-38 | a second sweep at the same time selects nothing, unlinks nothing and keeps everything |
| `CleanupRoute.SurvivorsKeepUniqueIds` | app/api/cron/cleanup/route.ts:32-38 | deleting the expired records keeps ids unique |
| `CleanupRoute.InlineContentNeverUnlinked` | app/api/cron/cleanup/route.ts:21 | a text record, or one whose content is a `data:` URL, is never unlinked |
| `CleanupRoute.BoundaryRecord` | app/api/cron/cleanup/route.ts:14 | a record expiring exactly at `now` is not listed (app/api/dump/route.ts:12), not selected, and stays in the store |
| `Types.UniqueIdsDetermine` | app/types/index.ts:5 | in a store with unique ids, an id names at most one record |
| `Store.DumpStore.Create` | app/api/dump/route.ts:32-74 | a rejected form leaves the store unchanged; an accepted one appends exactly the stamped record, expiring at `now + 600000`, and keeps ids unique |
| `Store.DumpStore.Sweep` | app/api/cron/cleanup/route.ts:8-43 | the store becomes exactly the records with `expiresAt >= now`, in order; the count is the number selected; unlinks are attempted for exactly the selected targets, whatever their results |
| `Store.SweepTwice` | app/api/cron/cleanup/route.ts:11-43 | the second of two sweeps at the same time reports 0 and attempts no unlink |
| `Store.CreatedNeverUnlinked` | app/api/cron/cleanup/route.ts:21 | no record built by the dump POST is an unlink target |

## Left out

- HTTP framing: `NextResponse`, request parsing and logging are left out. The
  generic 500 responses are modelled only where the handler reaches them
  from its inputs: a non-string text content, or a string in place of a file.
- The database schema is not part of this model. A text form whose `content` is
  missing or a file is assumed to fail the create call with the 500 "Failed to
  create dump item". That assumes `content` is a required string column, as
  the `content: string` field of app/types/index.ts:7 suggests.
- JSON body fields of the decode request that are not strings (numbers,
  objects) are not modelled. The fields are absent, null or a string.
- `decryptText` is not part of this model. It is a function parameter whose
  null result is `None`. app/lib/utils.ts does not define `decryptText`, which
  app/api/decode/route.ts:4 imports, and no encryption function appears in the
  modelled files, so no encrypt/decrypt round trip is claimed.
- The persistence engine is replaced by a sequence of records. `createdAt` is
  assumed to be stamped with the same `now` as the handler. `findFirst` and
  `findMany` without an order return records in store order. Within equal
  `createdAt`, the listing's order is the one the insertion sort gives; the
  source leaves it unspecified.
- Id uniqueness, which a uuid provides, is a precondition of `Create`.
- The file system: `unlink` is a parameter. The unlinked path is the stored
  reference; joining it to the working directory and `public` is left out.
- The decode and cleanup handlers each read the clock twice. The model takes one
  snapshot per operation and does not model a time change between the reads.
- `setMinutes` is modelled in UTC. Local time zones and daylight saving are left
  out.
- Concurrency between the reaper and submissions is not modelled.
- The optional `hashKey` field of a dump item (app/types/index.ts:20) is never
  assigned by any modelled operation, so it is a field of neither `Record` nor
  `CreatePayload`.
- The user interface and the build configuration are not part of this model.
