/** Failure-compatible result types and the driver's error taxonomy. */
module Outcomes {

  /** The exceptions the driver raises, one constructor per distinct cause. */
  datatype Error =
    | InvalidLocation   // errors.InvalidMemoryLocation: slot number or special name rejected
    | UnknownCode       // KeyError: a raw tone-mode, duplex or mode code with no table entry
    | TableIndex        // IndexError: a raw code past the end of an external lookup table
    | NoResponse        // errors.RadioError: the "0M PROGRAM" or "ID" exchange got no valid reply
    | ShortResponse     // "Did not receive block response": fewer than 5 header bytes
    | InvalidResponse   // "Invalid response": wrong tag or wrong echoed block index
    | MissingAck        // "Did not receive post-block ACK!"
    | Stalled           // the device stopped sending inside a block payload
    | EmptyBlockList    // IndexError: the block list to transfer is empty
    | PackRange         // struct.error: a block index that does not fit the 16-bit frame field
    | Nak(block: int)   // errors.RadioError: the device did not acknowledge a written block

  datatype Option<+T> = None | Some(value: T)

  datatype Result<+T> = Ok(value: T) | Err(error: Error) {
    predicate IsFailure() { Err? }

    function PropagateFailure<U>(): Result<U>
      requires Err?
    {
      Err(error)
    }

    function Extract(): T
      requires Ok?
    {
      value
    }
  }

  /** A dictionary lookup that raises KeyError when the key is absent. */
  function Known<T>(o: Option<T>): (r: Result<T>)
    ensures r.Ok? <==> o.Some?
    ensures r.Ok? ==> r.value == o.value
    ensures r.Err? ==> r.error == UnknownCode
  {
    match o
    case Some(v) => Ok(v)
    case None => Err(UnknownCode)
  }

  /** Python indexing `table[i]` with a non-negative raw code. */
  function Lookup<T>(table: seq<T>, i: int): (r: Result<T>)
    requires 0 <= i
    ensures r.Ok? <==> i < |table|
    ensures r.Ok? ==> r.value == table[i]
    ensures r.Err? ==> r.error == TableIndex
  {
    if i < |table| then Ok(table[i]) else Err(TableIndex)
  }

  /** Python `table.index(x)`: the position of the first occurrence of `x`. */
  function IndexOf<T(==)>(table: seq<T>, x: T): (i: nat)
    requires x in table
    ensures i < |table| && table[i] == x
    ensures forall j :: 0 <= j < i ==> table[j] != x
  {
    if table[0] == x then 0 else 1 + IndexOf(table[1..], x)
  }

  /** No value occurs twice in `table`. */
  predicate Distinct<T(==)>(table: seq<T>) {
    forall i, j :: 0 <= i < j < |table| ==> table[i] != table[j]
  }

  /** In a table without repetitions, `index` undoes indexing. */
  lemma IndexOfLookup<T>(table: seq<T>, i: nat)
    requires Distinct(table) && i < |table|
    ensures IndexOf(table, table[i]) == i
  {
  }
}
