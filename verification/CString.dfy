/** C strings. */
module CStrings {

  const EOS: char := '\0'

  /** Characters before the terminator: none of them is the terminator. */
  type CString = s: string | forall k :: 0 <= k < |s| ==> s[k] != EOS

  /** Reading at an index; at the length stands the terminator. */
  function At(s: string, k: nat): char {
    if k < |s| then s[k] else EOS
  }
}
