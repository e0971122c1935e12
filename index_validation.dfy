/** The bounds check and normalisation that `LinkedList.index_into` performs
    before any list operation that takes an index. */
module IndexValidation {
  import opened Results

  /** Message of the `IndexError` raised for an index out of range. */
  const OutOfRange: string := "LinkedList index out of range."

  /** The indices a list of `length` elements accepts: `[-length, length)`
      for element access (`offset` 0), `[-length, length]` for insertion
      (`offset` 1). */
  predicate InRange(index: int, length: int, offset: int)
  {
    -length <= index < length + offset
  }

  /** Checks `index` against a list of `length` elements and maps it to a
      position. Element access uses `offset` 0 and accepts `[-length, length)`;
      insertion uses `offset` 1 and also accepts `length`. A negative index
      counts from the end. */
  function Normalise(index: int, length: nat, offset: nat): (r: Result<nat>)
    ensures r.Ok? <==> InRange(index, length, offset)
    ensures r.Ok? ==> r.value < length + offset
    ensures r.Ok? && 0 <= index ==> r.value == index
    ensures r.Ok? && index < 0 ==> r.value == index + length
    ensures r.Err? ==> r.error == IndexError(OutOfRange)
  {
    if !InRange(index, length, offset) then Err(IndexError(OutOfRange))
    else if index < 0 then Ok(index + length)
    else Ok(index)
  }

  /** Every position is reached by its own non-negative index and, when it
      names an element, also by the negative index counting from the end. */
  lemma NormaliseReachesEveryPosition(p: nat, length: nat, offset: nat)
    requires p < length + offset
    ensures Normalise(p, length, offset) == Ok(p)
    ensures p < length ==> Normalise(p - length, length, offset) == Ok(p)
  {
  }

  /** An index accepted for element access is accepted for insertion and
      names the same position there. */
  lemma InsertionModeExtendsAccessMode(index: int, length: nat)
    requires Normalise(index, length, 0).Ok?
    ensures Normalise(index, length, 1) == Normalise(index, length, 0)
  {
  }

  /** Insertion mode accepts exactly one index more than access mode: the
      length itself, which names the position after the last element. */
  lemma InsertionModeAddsOnlyLength(index: int, length: nat)
    requires Normalise(index, length, 1).Ok? && Normalise(index, length, 0).Err?
    ensures index == length && Normalise(index, length, 1) == Ok(length)
  {
  }
}
