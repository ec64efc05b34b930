/** The Python exceptions the scraper can let escape, named by their cause. */
module Errors {

  datatype Fault =
    | MissingKey(key: string)   // KeyError on a dict lookup
    | IndexOutOfRange           // IndexError on a list index
    | NoSuchElement             // the browser found no element for a selector
    | WaitTimedOut              // a WebDriverWait expired
    | UnknownFile(param: string) // load_from_json given a parameter it has no file for
}
