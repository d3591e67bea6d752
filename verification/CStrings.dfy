/** What C takes for a string: the characters before a NUL. */
module CStrings {

  predicate NoNul(s: string) {
    forall k | 0 <= k < |s| :: s[k] != '\0'
  }
}
