/** The DynamoDB table behind the store, reduced to the two calls the store makes:
    a strongly consistent point read and a put guarded by `attribute_not_exists(id)`. */
module DurableTable {
  import opened Types

  /** The table's rows, by their `id` attribute. */
  type Table = map<Id, Record>

  datatype ReadResult = Found(record: Record) | Absent | ReadError(cause: string)

  datatype PutResult = Written | ConditionFailed | PutError(cause: string)

  datatype PutOutcome = PutOutcome(result: PutResult, table: Table)

  /** GetItem with ConsistentRead set. `fault` is a failure of the call itself
      (network, throttling, a cancelled context); without one, the read sees every
      row the table holds. */
  function GetItemConsistent(t: Table, id: Id, fault: Option<string>): (r: ReadResult)
    ensures fault.Some? ==> r == ReadError(fault.value)
    ensures fault.None? ==> (r == Absent <==> id !in t)
    ensures fault.None? && id in t ==> r == Found(t[id])
  {
    if fault.Some? then ReadError(fault.value)
    else if id in t then Found(t[id])
    else Absent
  }

  /** PutItem with the condition `attribute_not_exists(id)`: an atomic insert that
      happens only when the table holds no row for `id`. */
  function PutItemIfAbsent(t: Table, id: Id, record: Record, fault: Option<string>): (out: PutOutcome)
    ensures out.result == Written <==> fault.None? && id !in t
    ensures out.result == ConditionFailed <==> fault.None? && id in t
    ensures fault.Some? ==> out.result == PutError(fault.value)
    ensures out.table == if out.result == Written then t[id := record] else t
    ensures forall k | k in t :: k in out.table && out.table[k] == t[k]
  {
    if fault.Some? then PutOutcome(PutError(fault.value), t)
    else if id in t then PutOutcome(ConditionFailed, t)
    else PutOutcome(Written, t[id := record])
  }
}
