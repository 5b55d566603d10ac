/** The exceptions the client raises or lets through, as one datatype. */
module Errors {

  datatype Error =
    | Timeout                         // TimeoutError: a request timed out
    | ClientFailure                   // aiohttp could not connect (refused, DNS, reset)
    | HttpStatus(status: int)         // `raise_for_status()` on a 4xx or 5xx reply
    | BadXml                          // the reply body is not well-formed XML
    | Invalid(field: string)          // a record failed validation at `field`
    | NotAMeter                       // ValueError: the device is not an electricity meter
    | UnknownVariable(key: string, address: string)  // KeyError from a variable lookup
    | NotACommand                     // TypeError: a command that is neither a dict nor a str
    | UnexpectedKeyword(name: string) // TypeError: a call passed a keyword the callee does not take
    | NoAttribute(name: string)       // AttributeError: a method the object does not define
    | ConnectionFailed(host: string)  // ConnectionError raised by a refresh cycle
}
