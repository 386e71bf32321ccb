/** Values shared by the server and the client: optional values, JavaScript
    truthiness of an optional string, the blank test of `trim() === ""`, and
    the whole-seconds clock arithmetic that both the submit route and the
    exam timer use. */
module Common {

  datatype Option<T> = None | Some(value: T)

  /** `if (x)` on a value that is a string or null: null and "" are falsy. */
  predicate IsTruthy(o: Option<string>)
  {
    o.Some? && o.value != ""
  }

  /** `Math.floor(ms / 1000)`: the whole seconds in a span of milliseconds.
      The span may be negative (a clock behind the stored start time); the
      result is then rounded down, as Math.floor does. */
  function FloorSeconds(ms: int): (s: int)
    ensures s * 1000 <= ms < s * 1000 + 1000
  {
    ms / 1000
  }

  /** The characters `String.prototype.trim` removes: the ECMAScript
      WhiteSpace and LineTerminator characters. */
  predicate IsJsWhitespace(c: char)
  {
    || c == '\t' || c == '\n' || c == '\U{000B}' || c == '\U{000C}' || c == '\r'
    || c == ' ' || c == '\U{00A0}' || c == '\U{1680}'
    || ('\U{2000}' <= c <= '\U{200A}')
    || c == '\U{2028}' || c == '\U{2029}' || c == '\U{202F}' || c == '\U{205F}'
    || c == '\U{3000}' || c == '\U{FEFF}'
  }

  /** `s.trim() === ""`: the string holds nothing but whitespace. */
  predicate IsBlank(s: string)
  {
    forall i :: 0 <= i < |s| ==> IsJsWhitespace(s[i])
  }
}
