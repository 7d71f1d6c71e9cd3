/** Shared vocabulary of the model: the optional value, the run-time values an
    argument can hold, and the character classes the .NET runtime provides. */
module Common {

  datatype Option<+T> = None | Some(value: T)

  /** The objects the source stores in an argument's `Value`: `null`, a boxed
      `bool`, a `string`, or a `string[]` (whose elements may be `null`). */
  datatype Value = VNull | VBool(b: bool) | VStr(s: string) | VStrs(items: seq<Option<string>>)

  /** C#'s `value as string`: the string itself, or `null` for anything else. */
  function AsString(v: Value): (r: Option<string>)
    ensures r.Some? <==> v.VStr?
    ensures v.VStr? ==> r == Some(v.s)
  {
    if v.VStr? then Some(v.s) else None
  }

  /** `Char.IsWhiteSpace`: the Unicode space, line and paragraph separators,
      U+0009 to U+000D and U+0085. */
  predicate IsWhiteSpace(c: char)
    ensures (c as int) < 0x80 ==> (IsWhiteSpace(c) <==> c == ' ' || '\t' <= c <= '\r')
  {
    var n := c as int;
    n == 0x20 || (0x09 <= n <= 0x0D) || n == 0x85 || n == 0xA0 || n == 0x1680
    || (0x2000 <= n <= 0x200A) || n == 0x2028 || n == 0x2029 || n == 0x202F
    || n == 0x205F || n == 0x3000
  }

  /** `string.IsNullOrWhiteSpace` on a non-null string: empty or only white space. */
  predicate IsBlank(s: string) {
    forall k :: 0 <= k < |s| ==> IsWhiteSpace(s[k])
  }

  /** `string.IsNullOrWhiteSpace` on a possibly null string. */
  predicate IsNullOrWhiteSpace(s: Option<string>)
    ensures s.None? || s == Some([]) ==> IsNullOrWhiteSpace(s)
    ensures s.Some? && s.value != [] && !IsWhiteSpace(s.value[0]) ==> !IsNullOrWhiteSpace(s)
  {
    s.None? || IsBlank(s.value)
  }
}
