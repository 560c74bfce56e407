/** `truncateText(text, maxLength)`: the text itself when it fits, otherwise
    its first `maxLength - 3` characters followed by `"..."`. */
module Truncation {

  /** ECMAScript clamps each `substring` index into `[0, length]`. */
  function Clamp(i: int, len: nat): (k: nat)
    ensures k <= len
    ensures 0 <= i <= len ==> k == i
    ensures i < 0 ==> k == 0
    ensures i > len ==> k == len
  {
    if i < 0 then 0 else if i > len then len else i
  }

  /** `String.prototype.substring(start, end)`: both indices are clamped, and
      the smaller one is taken as the start. */
  function Substring(s: string, start: int, end: int): (r: string)
    ensures |r| <= |s|
    ensures start <= 0 ==> r == s[..Clamp(end, |s|)]
    ensures end <= 0 ==> r == s[..Clamp(start, |s|)]
  {
    var a, b := Clamp(start, |s|), Clamp(end, |s|);
    if a <= b then s[a..b] else s[b..a]
  }

  const Ellipsis: string := "..."

  function TruncateText(text: string, maxLength: int): (r: string)
    // A text that fits is returned as it is.
    ensures |text| <= maxLength ==> r == text
    // A text that does not fit yields maxLength characters when maxLength >= 3, and 3 otherwise:
    ensures |text| > maxLength ==> |r| == (if maxLength >= 3 then maxLength else 3)
    // a prefix of the text followed by the ellipsis,
    ensures |text| > maxLength ==>
              && r[|r| - 3..] == Ellipsis
              && r[..|r| - 3] == text[..|r| - 3]
    // so below 3 the result is the bare ellipsis.
    ensures |text| > maxLength && maxLength < 3 ==> r == Ellipsis
    // The result is never longer than the text, except that it can be the bare ellipsis.
    ensures |r| <= |text| || r == Ellipsis
    // The text comes back unchanged exactly when it fits, or when it is itself
    // "..." and maxLength is below 3.
    ensures r == text <==> |text| <= maxLength || (maxLength < 3 && text == Ellipsis)
  {
    if |text| <= maxLength then text
    else Substring(text, 0, maxLength - 3) + Ellipsis
  }

  /** Truncating twice with the same bound is truncating once. */
  lemma TruncateIdempotent(text: string, maxLength: int)
    ensures TruncateText(TruncateText(text, maxLength), maxLength) == TruncateText(text, maxLength)
  {
  }
}
