/** Option and Result, used for absent children and for the exceptions the codec raises. */
module Wrappers {

  datatype Option<+T> = None | Some(value: T)

  datatype Result<+T, +E> = Ok(value: T) | Err(error: E)

  /** The exceptions that the encoder and decoder can raise, one per cause. */
  datatype Failure =
    | NumberFormat    // NumberFormatException from Long.parseLong or Integer.parseInt
    | NotHuffmanFile  // the IOException raised when the first line is not the magic number
    | MissingLine     // readLine ran out of lines before the start-of-data line (a null dereference)
    | MalformedEntry  // a table line without a character or without a count (an index exception)
    | EmptyQueue      // PriorityQueue.remove on an empty queue: the table had no entries
    | NullNode        // the bit walk stepped to, or from, a child that does not exist
    | NoMoreInput     // readChar ran out of characters before the end-of-data mark
}
