/** Well-formed UTF-8, as accepted by Python's strict "utf_8" codec
    (well-formed byte sequences of table 3-7 of the Unicode Standard, chapter 3):
    no overlong forms, no surrogates, nothing above U+10FFFF. */
module Utf8 {
  import opened Bytes

  predicate Continuation(b: uint8) {
    0x80 <= b <= 0xBF
  }

  /** Length of the well-formed sequence that starts s, or 0 when s does not
      start with one. */
  function LeadWidth(s: seq<uint8>): (w: nat)
    ensures w <= |s| && w <= 4
    ensures |s| > 0 && s[0] < 0x80 ==> w == 1
  {
    if |s| == 0 then 0
    else if s[0] < 0x80 then 1
    else if 0xC2 <= s[0] <= 0xDF then
      if |s| >= 2 && Continuation(s[1]) then 2 else 0
    else if s[0] == 0xE0 then
      if |s| >= 3 && 0xA0 <= s[1] <= 0xBF && Continuation(s[2]) then 3 else 0
    else if 0xE1 <= s[0] <= 0xEC || 0xEE <= s[0] <= 0xEF then
      if |s| >= 3 && Continuation(s[1]) && Continuation(s[2]) then 3 else 0
    else if s[0] == 0xED then
      if |s| >= 3 && 0x80 <= s[1] <= 0x9F && Continuation(s[2]) then 3 else 0
    else if s[0] == 0xF0 then
      if |s| >= 4 && 0x90 <= s[1] <= 0xBF && Continuation(s[2]) && Continuation(s[3]) then 4 else 0
    else if 0xF1 <= s[0] <= 0xF3 then
      if |s| >= 4 && Continuation(s[1]) && Continuation(s[2]) && Continuation(s[3]) then 4 else 0
    else if s[0] == 0xF4 then
      if |s| >= 4 && 0x80 <= s[1] <= 0x8F && Continuation(s[2]) && Continuation(s[3]) then 4 else 0
    else 0
  }

  /** s is a concatenation of well-formed UTF-8 sequences. */
  predicate ValidUtf8(s: seq<uint8>)
    decreases |s|
  {
    |s| == 0 || (LeadWidth(s) > 0 && ValidUtf8(s[LeadWidth(s)..]))
  }
}
