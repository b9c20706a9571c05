/** app/api/decode/route.ts: decoding a hashed-text item. Two required fields are
    checked in order, the item is looked up, a failed lookup is diagnosed, and the
    decrypted text is returned unless it is empty. Decoding reads the store and
    never changes it. */
module DecodeRoute {
  import opened Types

  const HashKeyRequired := Failure(400, "Hash key is required")
  const ItemIdRequired := Failure(400, "Item ID is required")
  const ItemNotFound := Failure(404, "Item not found")
  const NotHashedText := Failure(400, "Item is not a hashed text item")
  const ItemExpired := Failure(400, "Item has expired")
  const NotFoundOrExpired := Failure(404, "Hashed text item not found or has expired")
  const InvalidHashKey := Failure(400, "Invalid hash key")

  /** A string field of the JSON body that JavaScript treats as true: present,
      not null and not empty. */
  predicate Truthy(v: Option<string>)
  {
    v.Some? && v.value != ""
  }

  /** The first record with this id, of kind hashed text, that expires after `now`. */
  function FindActiveHashed(rs: seq<Record>, id: string, now: int): (r: Option<Record>)
    ensures r.Some? ==> r.value in rs && r.value.id == id && r.value.kind == HashedText && r.value.expiresAt > now
    ensures r.None? ==> forall x :: x in rs && x.id == id && x.kind == HashedText ==> x.expiresAt <= now
    decreases |rs|
  {
    if rs == [] then None
    else if rs[0].id == id && rs[0].kind == HashedText && rs[0].expiresAt > now then Some(rs[0])
    else
      assert forall x :: x in rs ==> x == rs[0] || x in rs[1..];
      FindActiveHashed(rs[1..], id, now)
  }

  /** The first record with this id, whatever its kind and expiry. */
  function FindById(rs: seq<Record>, id: string): (r: Option<Record>)
    ensures r.Some? ==> r.value in rs && r.value.id == id
    ensures r.None? ==> IdFree(rs, id)
    decreases |rs|
  {
    if rs == [] then None
    else if rs[0].id == id then Some(rs[0])
    else
      assert forall x :: x in rs ==> x == rs[0] || x in rs[1..];
      FindById(rs[1..], id)
  }

  /** The decode request with body fields `hashKey` and `itemId` at time `now`.
      `decrypt(content, key)` stands for the decryption helper, which is not part
      of this model: `None` is its null result. Only a record with the requested
      id, of kind hashed text and still active is ever decrypted, and only a
      non-empty plaintext is returned. */
  function Decode(rs: seq<Record>, hashKey: Option<string>, itemId: Option<string>, now: int,
                  decrypt: (string, string) -> Option<string>): (r: Result<string>)
    ensures !Truthy(hashKey) ==> r == Err(HashKeyRequired)
    ensures Truthy(hashKey) && !Truthy(itemId) ==> r == Err(ItemIdRequired)
    ensures r.Ok? ==> r.value != "" && (exists x :: x in rs && x.id == itemId.value && x.kind == HashedText
                                             && x.expiresAt > now && decrypt(x.content, hashKey.value) == Some(r.value))
    ensures r.Err? ==> r.error in {HashKeyRequired, ItemIdRequired, ItemNotFound, NotHashedText,
                                   ItemExpired, NotFoundOrExpired, InvalidHashKey}
  {
    if !Truthy(hashKey) then Err(HashKeyRequired)
    else if !Truthy(itemId) then Err(ItemIdRequired)
    else
      match FindActiveHashed(rs, itemId.value, now)
      case None =>
        (match FindById(rs, itemId.value)
         case None => Err(ItemNotFound)
         case Some(item) =>
           if item.kind != HashedText then Err(NotHashedText)
           else if item.expiresAt < now then Err(ItemExpired)
           else Err(NotFoundOrExpired))
      case Some(item) =>
        var decrypted := decrypt(item.content, hashKey.value);
        if decrypted.None? || decrypted.value == "" then Err(InvalidHashKey)
        else Ok(decrypted.value)
  }

  /** The outcome the handler's cascade gives for the one record `x` with the
      requested id: a wrong kind is reported before expiry, an item expiring
      exactly now is reported as not found or expired (not as expired), and an
      active one is decrypted. */
  function Diagnose(x: Record, key: string, now: int, decrypt: (string, string) -> Option<string>): Result<string>
  {
    if x.kind != HashedText then Err(NotHashedText)
    else if x.expiresAt < now then Err(ItemExpired)
    else if x.expiresAt == now then Err(NotFoundOrExpired)
    else match decrypt(x.content, key)
      case Some(text) => if text == "" then Err(InvalidHashKey) else Ok(text)
      case None => Err(InvalidHashKey)
  }

  /** With both fields given and ids unique, a missing id is "Item not found",
      and otherwise the outcome is decided by the one record carrying the id. */
  lemma DecodeDiagnosis(rs: seq<Record>, key: string, id: string, now: int,
                        decrypt: (string, string) -> Option<string>)
    requires UniqueIds(rs)
    requires key != "" && id != ""
    ensures IdFree(rs, id) ==> Decode(rs, Some(key), Some(id), now, decrypt) == Err(ItemNotFound)
    ensures forall x :: x in rs && x.id == id ==>
      Decode(rs, Some(key), Some(id), now, decrypt) == Diagnose(x, key, now, decrypt)
  {
    forall x | x in rs && x.id == id
      ensures Decode(rs, Some(key), Some(id), now, decrypt) == Diagnose(x, key, now, decrypt)
    {
      match FindActiveHashed(rs, id, now)
      case Some(y) => UniqueIdsDetermine(rs, x, y);
      case None =>
        var z := FindById(rs, id);
        UniqueIdsDetermine(rs, x, z.value);
    }
  }

  /** Decryption is consulted only for an active hashed-text record with the
      requested id: two decryption helpers that agree there give the same outcome. */
  lemma DecryptOnlyActiveHashed(rs: seq<Record>, hashKey: Option<string>, itemId: Option<string>, now: int,
                                d1: (string, string) -> Option<string>, d2: (string, string) -> Option<string>)
    requires hashKey.Some? ==> forall x :: x in rs && Some(x.id) == itemId && x.kind == HashedText && x.expiresAt > now
                                 ==> d1(x.content, hashKey.value) == d2(x.content, hashKey.value)
    ensures Decode(rs, hashKey, itemId, now, d1) == Decode(rs, hashKey, itemId, now, d2)
  {
  }
}
