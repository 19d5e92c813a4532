/** The `error` values that reach the core, grouped by where they come from.
    Go's `error` is modelled as `Option<Error>`: `None` is a nil error. */
module Errors {

  datatype Error =
    // io (reached through binary.Read and io.ReadFull on a bytes.Buffer)
    | EOF                 // nothing was left to read
    | UnexpectedEOF       // some, but not all, of the requested bytes were read
    // encoding/hex
    | InvalidByte(b: int) // hex.InvalidByteError: a byte outside [0-9a-fA-F]
    | ErrLength           // hex.ErrLength: odd number of hex digits
    // Go runtime panics in UnmarshalBSONValue, modelled as failure values
    | PanicMakeSliceLen   // make([]byte, n) with n < 0
    | PanicSliceBounds    // data[:len(data)-1] with len(data) == 0
    // the document-store driver
    | ErrNoDocuments      // FindOne matched nothing
    | ErrNilDocument      // a nil document or filter was passed
    | ErrNilValue         // a nil id was passed to UpdateByID
    | ErrEmptyUpdate      // an empty update document was passed to UpdateByID
    | TypeMismatch(key: string) // a stored value cannot be decoded into the Go field
    // the store itself
    | DuplicateKey              // the _id is already present in the collection
    | DocumentValidationFailure // the collection's $jsonSchema rejected the document
    | ImmutableField            // an update tried to change _id
    | Unavailable(reason: string) // transport or server failure (timeout, lost connection)
    // the repository
    | UnrecognizedType      // errors.New("unrecognized type returned")
    | ErrMethodUnimplemented // the stop-gap error of the unimplemented operations
}
