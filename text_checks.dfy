/** The blank-string test both the claim annotations and the identity
    framework's role validator apply: string.IsNullOrWhiteSpace, with a
    missing (null) string modelled as the empty one. */
module TextChecks {

  predicate IsWhiteSpace(ch: char) {
    ch == ' ' || ch == '\t' || ch == '\n' || ch == '\r' || ch == '\U{000B}' || ch == '\U{000C}'
  }

  /** Empty, or white space only. */
  predicate IsBlank(s: string) {
    forall i :: 0 <= i < |s| ==> IsWhiteSpace(s[i])
  }
}
