/** The data model of the dump service: the five item kinds, a stored dump item,
    the creation payload, and the uniqueness of item ids across the store. */
module Types {

  datatype Option<+T> = None | Some(value: T)

  /** A request that was turned away: the HTTP status and the `error` message of its body. */
  datatype Failure = Failure(status: int, message: string)

  datatype Result<+T> = Ok(value: T) | Err(error: Failure)

  /** One byte of an uploaded file. */
  type byte = x: int | 0 <= x < 256

  /** The kind of a dump item: exactly one of five. */
  datatype Kind = Text | HashedText | Image | Pdf | File

  /** A stored dump item. Times are milliseconds since the epoch. An absent and a
      null `fileName` (or `mimeType`) are both `None`. */
  datatype Record = Record(
    id: string,
    kind: Kind,
    content: string,
    fileName: Option<string>,
    mimeType: Option<string>,
    createdAt: int,
    expiresAt: int)

  /** What a submission supplies. The id and both timestamps are not part of it:
      they are assigned when the record is created. */
  datatype CreatePayload = CreatePayload(
    kind: Kind,
    content: string,
    fileName: Option<string>,
    mimeType: Option<string>)

  /** No record of `rs` carries the id `id`. */
  predicate IdFree(rs: seq<Record>, id: string)
  {
    forall x :: x in rs ==> x.id != id
  }

  /** No two positions of `rs` hold records with the same id. */
  predicate UniqueIds(rs: seq<Record>)
    decreases |rs|
  {
    rs == [] || (IdFree(rs[1..], rs[0].id) && UniqueIds(rs[1..]))
  }

  /** In a store with unique ids, an id names at most one record. */
  lemma {:induction false} UniqueIdsDetermine(rs: seq<Record>, x: Record, y: Record)
    requires UniqueIds(rs)
    requires x in rs && y in rs && x.id == y.id
    ensures x == y
    decreases |rs|
  {
    if x != rs[0] && y != rs[0] {
      assert x in rs[1..] && y in rs[1..];
      UniqueIdsDetermine(rs[1..], x, y);
    }
    // otherwise one of them is rs[0], and IdFree(rs[1..], rs[0].id) rules out the other differing
  }

  /** Appending a record with a fresh id keeps ids unique. */
  lemma {:induction false} UniqueIdsAppend(rs: seq<Record>, r: Record)
    requires UniqueIds(rs) && IdFree(rs, r.id)
    ensures UniqueIds(rs + [r])
    decreases |rs|
  {
    if rs != [] {
      assert (rs + [r])[1..] == rs[1..] + [r];
      UniqueIdsAppend(rs[1..], r);
    }
  }
}
