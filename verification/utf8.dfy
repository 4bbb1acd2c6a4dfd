/** Well-formed UTF-8, as `String::from_utf8` accepts it (the byte ranges of
    Table 3-7 of the Unicode Standard, section 3.9): no overlong forms, no
    surrogates, nothing above U+10FFFF. */
module Utf8 {
  import opened Bytes

  predicate IsCont(b: byte) {
    0x80 <= b < 0xC0
  }

  /** The length of the well-formed code-unit sequence that starts `s`, or 0 when
      the first bytes of `s` are not one. */
  function SeqLen(s: seq<byte>): (n: nat)
    requires |s| > 0
    ensures n <= |s| && n <= 4
    ensures s[0] < 0x80 <==> n == 1
    ensures n > 1 ==> forall i | 1 <= i < n :: IsCont(s[i])
  {
    var b := s[0];
    if b < 0x80 then 1
    else if 0xC2 <= b < 0xE0 then
      if |s| >= 2 && IsCont(s[1]) then 2 else 0
    else if b == 0xE0 then
      if |s| >= 3 && 0xA0 <= s[1] < 0xC0 && IsCont(s[2]) then 3 else 0
    else if 0xE1 <= b < 0xED || 0xEE <= b < 0xF0 then
      if |s| >= 3 && IsCont(s[1]) && IsCont(s[2]) then 3 else 0
    else if b == 0xED then
      if |s| >= 3 && 0x80 <= s[1] < 0xA0 && IsCont(s[2]) then 3 else 0
    else if b == 0xF0 then
      if |s| >= 4 && 0x90 <= s[1] < 0xC0 && IsCont(s[2]) && IsCont(s[3]) then 4 else 0
    else if 0xF1 <= b < 0xF4 then
      if |s| >= 4 && IsCont(s[1]) && IsCont(s[2]) && IsCont(s[3]) then 4 else 0
    else if b == 0xF4 then
      if |s| >= 4 && 0x80 <= s[1] < 0x90 && IsCont(s[2]) && IsCont(s[3]) then 4 else 0
    else 0
  }

  /** `s` splits into well-formed code-unit sequences. */
  predicate Valid(s: seq<byte>)
    decreases |s|
  {
    |s| == 0 || (SeqLen(s) > 0 && Valid(s[SeqLen(s)..]))
  }

  /** Pure ASCII is well-formed UTF-8. */
  lemma {:induction false} AsciiIsValid(s: seq<byte>)
    requires forall i | 0 <= i < |s| :: s[i] < 0x80
    ensures Valid(s)
  {
    if |s| > 0 {
      AsciiIsValid(s[1..]);
    }
  }
}
