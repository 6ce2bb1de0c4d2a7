/**
  The bytes of the UTF-8 writer, for any 32-bit code, whether or not it is a code point.
 */
module Utf8 {
  import opened Common

  /** U+0000..U+FFFF. */
  function Low(ch: nat): (bs: seq<byte>)
    requires ch < 0x1_0000
    ensures 1 <= |bs| <= 3
  {
    if ch < 0x80 then [ch]
    else if ch < 0x800 then [0xC0 + ch / 0x40, 0x80 + ch % 0x40]
    else [0xE0 + ch / 0x1000, 0x80 + ch / 0x40 % 0x40, 0x80 + ch % 0x40]
  }

  /** U+10000 and above; the first byte keeps the low eight bits of `0xF0 | (ch >> 18)`. */
  function High(ch: nat): (bs: seq<byte>)
    ensures |bs| == 4
  {
    [0xF0 + ch / 0x4_0000 % 0x10, 0x80 + ch / 0x1000 % 0x40, 0x80 + ch / 0x40 % 0x40, 0x80 + ch % 0x40]
  }

  function Any(ch: nat): (bs: seq<byte>)
    ensures 1 <= |bs| <= 4
    ensures ch < 0x80 ==> |bs| == 1
    ensures ch < 0x800 ==> |bs| <= 2
    ensures ch < 0x1_0000 ==> |bs| <= 3
  {
    if ch < 0x1_0000 then Low(ch) else High(ch)
  }
}
