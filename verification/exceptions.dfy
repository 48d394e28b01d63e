/** The .NET exceptions the configuration library lets escape to its callers. */
module Exceptions {

  datatype Exception =
    | ArgumentNullException    // a required argument was null
    | KeyNotFoundException     // no active value in either snapshot
    | NotSupportedException    // a type tag outside the recognised set
    | FormatException          // a value that does not parse under its tag
    | OverflowException        // an integer literal outside the 32-bit range
}
