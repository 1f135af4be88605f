/**
 * Why RPCClient::net_process of c++/rpcclient.cpp gives up on a response:
 * one constructor per disconnect message, carrying the offending header line
 * where the message quotes it.  The last few stand for cases the source does
 * not survive (an exception it does not catch, a division by zero, a read
 * past the end of the body); the model ends the connection there instead.
 */
module Disconnects {

  datatype Reason =
    // the response header (rpcclient.cpp:38-87)
    | ServerResponseReadFailed
    | HeaderTooLong
    | HttpError(line: string)
    | BadHeaderLine(line: string)
    | BadConnectionHeader(line: string)
    | BadContentLength(line: string)
    | NoContentLength
    | ResponseTooLarge
    // the body (rpcclient.cpp:89-253)
    | ResponseReadFailed
    | NotAnObject
    | StringAsFieldValue
    | ColonInString
    | UnexpectedColon
    | CommaInString
    | BadSize
    | BadFee
    | UnexpectedComma
    | MissingArrayEnd
    | BraceInString
    | UnexpectedObject
    | UnexpectedClose
    | NoSize
    | DuplicateTransaction
    | ClosedBeforeEnd
    | NotClosedAtEnd
    | MissingDependency
    // selection (rpcclient.cpp:255-284)
    | BadHash
    // after a response (rpcclient.cpp:302-303)
    | ConnectionClose
    // cases the source does not survive
    | BodyShorterThanPrefix
    | ZeroSize
    | ReadPastEnd
}
