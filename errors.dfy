/** errors.go: the error a registration gets for a malformed path. */
module Errors {

  const ErrorPrefix: string := "Path is invaild ("

  datatype BadPathError = BadPathError(s: string)
  {
    /** The message: the fixed prefix (with the source's spelling), the stored
        text, and a closing parenthesis. */
    function Error(): (m: string)
      ensures |m| == |s| + 18
      ensures m[..17] == ErrorPrefix && m[|m| - 1] == ')'
      ensures m[17..|m| - 1] == s
    {
      ErrorPrefix + s + ")"
    }
  }

  /** NewBadPathError keeps the text verbatim. */
  function NewBadPathError(text: string): (e: BadPathError)
    ensures e.s == text
  {
    BadPathError(text)
  }

  /** Stripping the prefix and the closing parenthesis from a message gives back the text. */
  lemma MessageRoundTrip(text: string)
    ensures var m := NewBadPathError(text).Error(); m[|ErrorPrefix|..|m| - 1] == text
  {
  }
}
