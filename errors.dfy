/** The exceptions the modelled Python code can raise, as values. */
module Errors {

  datatype Error =
    | OverflowError       // int.to_bytes: a negative value, or one wider than the requested length
    | UnicodeEncodeError  // bytes(s, 'ascii'): a character outside 0 .. 127
    | IndexError          // indexing the first element of an empty list
    | StructError         // struct.pack('>I', a): an address outside 0 .. 2^32 - 1
    | CorruptDictionary   // a dictionary stream that ends inside a record

  /** Either a value or the exception that replaced it; usable with `:-`. */
  datatype Result<T> = Ok(value: T) | Err(error: Error) {
    predicate IsFailure() { Err? }

    function PropagateFailure<U>(): Result<U>
      requires Err?
    {
      Err(error)
    }

    function Extract(): T
      requires Ok?
    {
      value
    }
  }
}
