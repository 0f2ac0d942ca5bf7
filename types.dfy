/** Values shared by the key store: identifiers, key maps, table rows and the errors the store returns. */
module Types {

  /** A caller-chosen identifier naming one set of encrypted data keys. */
  type Id = string

  /** Key name to encrypted key material; the store treats both as opaque strings. */
  type Keys = map<string, string>

  datatype Option<+T> = None | Some(value: T)

  /** The errors the store hands back to its callers. */
  datatype StoreError =
    | IDAlreadyExists(id: Id)        // the conditional put found a row for `id`
    | BackendFailure(cause: string)  // any other failure of a DynamoDB call, passed on as it came
    | DecodeFailure(cause: string)   // a row that does not unmarshal into an `Item`

  datatype Result<+T> = Ok(value: T) | Err(error: StoreError)

  /** One row of the table: the identifier and its keys. */
  datatype Item = Item(id: Id, keys: Keys)

  /** What the table holds for an identifier: attribute values that unmarshal into an
      `Item`, or ones that do not (a row left by some other writer). */
  datatype Record = Encoded(item: Item) | Unreadable(reason: string)

  /** Attribute values for `item`, as the put request carries them. */
  function Marshal(item: Item): (r: Record)
    ensures Unmarshal(r) == Ok(item)
  {
    Encoded(item)
  }

  /** The unmarshalling of a row read back from the table. */
  function Unmarshal(r: Record): (res: Result<Item>)
    ensures res.Err? <==> r.Unreadable?
    ensures r.Encoded? ==> res == Ok(r.item)
    ensures res.Err? ==> res.error == DecodeFailure(r.reason)
  {
    match r
    case Encoded(item) => Ok(item)
    case Unreadable(reason) => Err(DecodeFailure(reason))
  }

  /** A row written by the store reads back as the item that was written. */
  lemma UnmarshalMarshal(item: Item)
    ensures Unmarshal(Marshal(item)) == Ok(item)
  {
  }
}
