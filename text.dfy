/** The .NET string and character facts the factories rely on, stated over
    Dafny strings (sequences of Unicode scalar values). */
module Text {

  /** `char.IsWhiteSpace`, which is also what the regular-expression class `\s`
      matches: the space, line and paragraph separators (Unicode categories Zs,
      Zl, Zp), the controls U+0009 to U+000D, and U+0085. */
  predicate IsWs(c: char)
  {
    || '\t' <= c <= '\r'
    || c == ' '
    || c == '\U{0085}'
    || c == '\U{00A0}'
    || c == '\U{1680}'
    || '\U{2000}' <= c <= '\U{200A}'
    || c == '\U{2028}'
    || c == '\U{2029}'
    || c == '\U{202F}'
    || c == '\U{205F}'
    || c == '\U{3000}'
  }

  /** `string.IsNullOrEmpty` on a non-null string. */
  predicate IsNullOrEmpty(s: string)
  {
    |s| == 0
  }

  /** `string.IsNullOrWhiteSpace` on a non-null string: empty, or made of
      whitespace only. */
  predicate IsNullOrWhiteSpace(s: string)
  {
    forall k :: 0 <= k < |s| ==> IsWs(s[k])
  }

  /** Whether `c` fits in one UTF-16 code unit. */
  predicate InBmp(c: char)
  {
    c as int < 0x1_0000
  }

  /** The number of UTF-16 code units `c` takes: one inside the Basic
      Multilingual Plane, a surrogate pair outside it. */
  function Utf16Units(c: char): (n: nat)
    ensures 1 <= n <= 2
    ensures n == 1 <==> InBmp(c)
  {
    if InBmp(c) then 1 else 2
  }

  /** `string.Length`, which counts UTF-16 code units rather than characters:
      never less than the number of characters, never more than twice it, and
      equal to it exactly when every character lies in the Basic Multilingual
      Plane. */
  function Utf16Length(s: string): (n: nat)
    ensures |s| <= n <= 2 * |s|
    ensures n == |s| <==> forall k :: 0 <= k < |s| ==> InBmp(s[k])
  {
    if s == [] then 0
    else
      assert forall k :: 0 <= k < |s| - 1 ==> s[1..][k] == s[k + 1];
      Utf16Units(s[0]) + Utf16Length(s[1..])
  }

  /** Every whitespace character is a single UTF-16 code unit, so a
      whitespace-only string is as long in code units as in characters. */
  lemma WhitespaceLengthIsCharCount(s: string)
    requires IsNullOrWhiteSpace(s)
    ensures Utf16Length(s) == |s|
  {
    assert forall k :: 0 <= k < |s| ==> InBmp(s[k]);
  }
}
