/** The exceptions the analyzer lets escape, one constructor per Python exception. */
module Errors {

  datatype Error =
      /** `IndexError`: asking for the tag of an analysis with fewer than two segments. */
    | MalformedAnalysis(analysis: string)
      /** `ValueError`: `list.index` of a tag that neither candidate carries. */
    | TagNotFound(tag: string)
      /** `KeyError`: the analyzer was built without the `disambiguate` keyword. */
    | MissingFlag(key: string)
}
