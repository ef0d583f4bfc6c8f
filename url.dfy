/**
 * The WHATWG `URL` constructor is outside this model: it enters as a function parameter that
 * returns the parsed parts, or `None` where `new URL(s)` throws a TypeError.
 */
module Url {
  import opened Wrappers

  datatype UrlParts = UrlParts(hostname: string, origin: string)

  type Parser = string -> Option<UrlParts>

  /** What every conforming parser does with the empty string: `new URL("")` throws. */
  predicate RejectsEmpty(parse: Parser) {
    parse("").None?
  }
}
