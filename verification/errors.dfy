/**
  Failure modes of the codec. Several of them stand for behaviour the source
  leaves undefined (an out-of-bounds access, an endless loop); the model
  reports them instead of continuing.
*/
module Errors {

  datatype Error =
    | ScratchOverrun     // build_tree indexes past its scratch array
    | CodeIndexWraps     // get_code reverses an empty code from index strlen(code) - 1, which wraps
    | MalformedEntry     // a code-table entry does not convert both fields of "%x=%s"
    | MissingSentinel    // the header text ends before a token starting "Uncompressed"
    | TokenTooLong       // a token does not fit the 256-byte line buffer
    | HeaderOverflow     // more code-table lines than the 256 header slots
    | PayloadOutOfRange  // the payload offset lies past the end of the file
    | ReadPastEnd        // a scan starts beyond the terminating NUL of the text
    | EmptyTree          // decoding with a null root
    | Truncated          // the payload ends in the middle of a code
    | Diverges           // a root without two children and payload left: the walk never advances
}
