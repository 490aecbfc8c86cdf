module Utf8 {
  /** The UTF-8 form of a code point, by arithmetic (section 3 of RFC 3629). */
  function Encode(uc: int): (s: string)
    requires 0 < uc < 0x110000
    ensures 1 <= |s| <= 4
  {
    if uc < 0x80 then [uc as char]
    else if uc < 0x800 then [(0xC0 + uc / 64) as char, (0x80 + uc % 64) as char]
    else if uc < 0x10000 then
      [(0xE0 + uc / 4096) as char, (0x80 + uc / 64 % 64) as char, (0x80 + uc % 64) as char]
    else
      [(0xF0 + uc / 262144) as char, (0x80 + uc / 4096 % 64) as char, (0x80 + uc / 64 % 64) as char,
       (0x80 + uc % 64) as char]
  }

  /** The examples of section 7 of RFC 3629: U+2262, U+0391, U+D55C and U+233B4. */
  lemma Examples()
    ensures Encode(0x2262) == [0xE2 as char, 0x89 as char, 0xA2 as char]
    ensures Encode(0x0391) == [0xCE as char, 0x91 as char]
    ensures Encode(0xD55C) == [0xED as char, 0x95 as char, 0x9C as char]
    ensures Encode(0x233B4) == [0xF0 as char, 0xA3 as char, 0x8E as char, 0xB4 as char]
  {
  }
}
