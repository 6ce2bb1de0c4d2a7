/**
  UTF decoding blocks and the traits that count or write what they decode. A conversion runs twice over its input,
  once to learn the length of the output and once to write it.
 */
module Transcoding {
  import opened Common
  import opened Utf8

  type u16 = n: nat | n < 0x1_0000
  type u32 = n: nat | n < 0x1_0000_0000

  /** What a decoder hands to its traits. */
  datatype Code = Small(ch: nat) | Big(ch: nat)

  datatype Encoding = Utf8 | Utf16 | Utf32 | Latin1

  // ----- traits -----

  /** The units a writer stores for a code: `low` or `high` of its encoding. */
  function UnitsOf(e: Encoding, c: Code): (us: seq<nat>)
    requires c.Small? ==> c.ch < 0x1_0000
    ensures us != []
  {
    match (e, c)
    case (Utf8, Small(ch)) => Low(ch)
    case (Utf8, Big(ch)) => High(ch)
    case (Utf16, Small(ch)) => [ch]
    case (Utf16, Big(ch)) =>
      var d := (ch as int - 0x1_0000) % 0x1_0000_0000;
      [(0xD800 + d / 0x400) % 0x1_0000, 0xDC00 + d % 0x400]
    case (Utf32, _) => [c.ch]
    case (Latin1, Small(ch)) => [if ch > 255 then '?' as nat else ch]
    case (Latin1, Big(_)) => ['?' as nat]
  }

  /** What a counter adds for a code. */
  function CountOf(e: Encoding, c: Code): nat
  {
    match (e, c)
    case (Utf8, Small(ch)) => if ch < 0x80 then 1 else if ch < 0x800 then 2 else 3
    case (Utf8, Big(_)) => 4
    case (Utf16, Small(_)) => 1
    case (Utf16, Big(_)) => 2
    case (_, _) => 1
  }

  /** The codes that decoders produce. */
  predicate Decodable(cs: seq<Code>)
  {
    forall i | 0 <= i < |cs| :: cs[i].Small? ==> cs[i].ch < 0x1_0000
  }

  function Units(e: Encoding, cs: seq<Code>): seq<nat>
    requires Decodable(cs)
  {
    if cs == [] then [] else UnitsOf(e, cs[0]) + Units(e, cs[1..])
  }

  lemma {:induction false} UnitsConcat(e: Encoding, a: seq<Code>, b: seq<Code>)
    requires Decodable(a) && Decodable(b)
    ensures Decodable(a + b) && Units(e, a + b) == Units(e, a) + Units(e, b)
  {
    hide UnitsOf;
    if a == [] {
      assert a + b == b;
    } else {
      UnitsConcat(e, a[1..], b);
      assert (a + b)[1..] == a[1..] + b && (a + b)[0] == a[0];
      Assoc(UnitsOf(e, a[0]), Units(e, a[1..]), Units(e, b));
    }
  }

  // ----- decoding UTF-8 -----

  predicate Follows(b: byte) { 0x80 <= b < 0xC0 }

  /** The payload of a continuation byte, and of a lead byte without its mark. */
  function Tail(b: byte): nat { b % 0x40 }

  function Lead(b: byte, mark: byte): nat
    requires mark <= b
  {
    b - mark
  }

  /** One round of the loop: the code that is decoded, if any, and the number of bytes consumed. */
  datatype Decoded = Decoded(codes: seq<Code>, size: nat)

  function Next8(s: seq<byte>): (d: Decoded)
    requires s != []
    ensures 1 <= d.size <= |s| && Decodable(d.codes) && |d.codes| <= 1
  {
    var lead := s[0];
    if lead < 0x80 then
      Decoded([Small(lead)], 1)
    else if 0xC0 <= lead < 0xE0 && |s| >= 2 && Follows(s[1]) then
      Decoded([Small(Lead(lead, 0xC0) * 0x40 + Tail(s[1]))], 2)
    else if 0xE0 <= lead < 0xF0 && |s| >= 3 && Follows(s[1]) && Follows(s[2]) then
      Decoded([Small(Lead(lead, 0xE0) * 0x1000 + Tail(s[1]) * 0x40 + Tail(s[2]))], 3)
    else if 0xF0 <= lead < 0xF8 && |s| >= 4 && Follows(s[1]) && Follows(s[2]) && Follows(s[3]) then
      Decoded([Big(Lead(lead, 0xF0) * 0x4_0000 + Tail(s[1]) * 0x1000 + Tail(s[2]) * 0x40 + Tail(s[3]))], 4)
    else
      Decoded([], 1)
  }

  function Codes8(s: seq<byte>): (cs: seq<Code>)
    ensures Decodable(cs)
  {
    if s == [] then [] else Next8(s).codes + Codes8(s[Next8(s).size..])
  }

  // ----- decoding UTF-16 and UTF-32 -----

  function Swap16(v: u16): u16
  {
    v % 0x100 * 0x100 + v / 0x100
  }

  function Swap32(v: u32): u32
  {
    v % 0x100 * 0x100_0000 + v / 0x100 % 0x100 * 0x1_0000 + v / 0x1_0000 % 0x100 * 0x100 + v / 0x100_0000
  }

  function Unit16(v: u16, swap: bool): u16 { if swap then Swap16(v) else v }
  function Unit32(v: u32, swap: bool): u32 { if swap then Swap32(v) else v }

  predicate IsHighSurrogate(v: u16) { 0xD800 <= v < 0xDC00 }
  predicate IsLowSurrogate(v: u16) { 0xDC00 <= v < 0xE000 }

  function PairCode(hi: nat, lo: nat): nat
  {
    0x1_0000 + hi % 0x400 * 0x400 + lo % 0x400
  }

  function Next16(s: seq<u16>, swap: bool): (d: Decoded)
    requires s != []
    ensures 1 <= d.size <= |s| && Decodable(d.codes) && |d.codes| <= 1
  {
    var lead := Unit16(s[0], swap);
    if lead < 0xD800 || lead >= 0xE000 then Decoded([Small(lead)], 1)
    else if IsHighSurrogate(lead) && |s| >= 2 && IsLowSurrogate(Unit16(s[1], swap)) then
      Decoded([Big(PairCode(lead, Unit16(s[1], swap)))], 2)
    else Decoded([], 1)
  }

  function Codes16(s: seq<u16>, swap: bool): (cs: seq<Code>)
    ensures Decodable(cs)
  {
    if s == [] then [] else Next16(s, swap).codes + Codes16(s[Next16(s, swap).size..], swap)
  }

  function Code32(v: u32): (c: Code)
    ensures Decodable([c])
  {
    if v < 0x1_0000 then Small(v) else Big(v)
  }

  function Codes32(s: seq<u32>, swap: bool): (cs: seq<Code>)
    ensures Decodable(cs)
  {
    if s == [] then [] else [Code32(Unit32(s[0], swap))] + Codes32(s[1..], swap)
  }

  // ----- the decoder loops, for counters and for writers -----

  /**
    A `value_type` and the traits that advance it: a counter is a number of units, a writer a position in a
    destination.
   */
  class Traits {
    const encoding: Encoding
    const writes: bool
    const dest: array<nat>
    var result: nat

    constructor (encoding: Encoding, writes: bool, dest: array<nat>, result: nat)
      ensures this.encoding == encoding && this.writes == writes && this.dest == dest && this.result == result
    {
      this.encoding, this.writes, this.dest, this.result := encoding, writes, dest, result;
    }

    /** `low` and `high`. */
    method Put(c: Code)
      requires c.Small? ==> c.ch < 0x1_0000
      requires writes ==> result + |UnitsOf(encoding, c)| <= dest.Length
      modifies this, dest
      ensures result == old(result) + CountOf(encoding, c)
      ensures result == old(result) + |UnitsOf(encoding, c)|
      ensures if writes then dest[old(result)..result] == UnitsOf(encoding, c) else dest[..] == old(dest[..])
      ensures forall i | 0 <= i < dest.Length && (i < old(result) || result <= i) :: dest[i] == old(dest[i])
    {
      CountIsLength(encoding, c);
      if writes {
        Store(dest, result, UnitsOf(encoding, c));
      }
      result := result + CountOf(encoding, c);
    }

    /** What has been written since `from`, with what is still to come, is the conversion of all codes. */
    ghost predicate Progress(from: nat, before: seq<nat>, rest: seq<Code>, all: seq<Code>)
      requires Decodable(rest) && Decodable(all)
      reads this, dest
    {
      && from <= result && |before| == dest.Length
      && (if writes then
            && result + |Units(encoding, rest)| <= dest.Length
            && dest[from..result] + Units(encoding, rest) == Units(encoding, all)
          else
            dest[..] == before)
      && result - from + |Units(encoding, rest)| == |Units(encoding, all)|
      && forall i | 0 <= i < dest.Length && (i < from || result <= i) :: dest[i] == before[i]
    }

    method PutNext(c: Code, ghost from: nat, ghost before: seq<nat>, ghost rest: seq<Code>, ghost all: seq<Code>)
      requires Decodable(rest) && Decodable(all) && rest != [] && c == rest[0] && Progress(from, before, rest, all)
      modifies this, dest
      ensures Progress(from, before, rest[1..], all)
    {
      hide UnitsOf;
      assert Units(encoding, rest) == UnitsOf(encoding, c) + Units(encoding, rest[1..]);
      Put(c);
      if writes {
        assert dest[from..result] == old(dest[from..result]) + UnitsOf(encoding, c) by {
          assert dest[from..old(result)] == old(dest[from..result]);
          assert dest[from..result] == dest[from..old(result)] + dest[old(result)..result];
        }
      }
    }
  }

  method Store(dest: array<nat>, at: nat, us: seq<nat>)
    requires at + |us| <= dest.Length
    modifies dest
    ensures dest[at..at + |us|] == us
    ensures forall i | 0 <= i < dest.Length && (i < at || at + |us| <= i) :: dest[i] == old(dest[i])
  {
    for i := 0 to |us|
      invariant forall k | 0 <= k < i :: dest[at + k] == us[k]
      invariant forall k | 0 <= k < dest.Length && (k < at || at + i <= k) :: dest[k] == old(dest[k])
    {
      dest[at + i] := us[i];
    }
  }

  lemma CountIsLength(e: Encoding, c: Code)
    requires c.Small? ==> c.ch < 0x1_0000
    ensures CountOf(e, c) == |UnitsOf(e, c)|
  {
  }

  /** `decode_utf8_block`; `address` is where the data lies, which decides when blocks of four are tried. */
  method DecodeUtf8Block(data: seq<byte>, address: nat, tr: Traits)
    requires tr.writes ==> tr.result + |Units(tr.encoding, Codes8(data))| <= tr.dest.Length
    modifies tr, tr.dest
    ensures Completed(tr.encoding, tr.writes, Codes8(data), old(tr.dest[..]), tr.dest[..], old(tr.result), tr.result)
  {
    hide Units, Codes8;
    ghost var from, before, all := tr.result, tr.dest[..], Codes8(data);
    var i := 0;
    StartOf(tr, all);
    while i < |data|
      invariant i <= |data| && tr.Progress(from, before, Codes8(data[i..]), all)
    {
      i := OneCode(data, i, tr, from, before, all);
      if data[i - 1] < 0x80 && (address + i) % 4 == 0 {
        while |data| - i >= 4 && data[i] < 0x80 && data[i + 1] < 0x80 && data[i + 2] < 0x80 && data[i + 3] < 0x80
          invariant 0 < i <= |data| && tr.Progress(from, before, Codes8(data[i..]), all)
        {
          i := OneAscii(data, i, tr, from, before, all);
          i := OneAscii(data, i, tr, from, before, all);
          i := OneAscii(data, i, tr, from, before, all);
          i := OneAscii(data, i, tr, from, before, all);
        }
      }
    }
    assert data[|data|..] == [] && Codes8([]) == [] by {
      NoCodes();
    }
    EndOf(tr, from, before, all);
  }

  lemma NoCodes()
    ensures Codes8([]) == [] && forall swap :: Codes16([], swap) == [] && Codes32([], swap) == []
  {
  }

  /** The units of all codes follow what was there; a counter has advanced as far as a writer. */
  ghost predicate Completed(e: Encoding, writes: bool, cs: seq<Code>, before: seq<nat>, after: seq<nat>, from: nat,
                            result: nat)
    requires Decodable(cs)
  {
    && result == from + |Units(e, cs)|
    && |before| == |after|
    && (writes ==> result <= |after| && after[from..result] == Units(e, cs))
    && (!writes ==> after == before)
    && forall i | 0 <= i < |after| && (i < from || result <= i) :: after[i] == before[i]
  }

  lemma StartOf(tr: Traits, all: seq<Code>)
    requires Decodable(all) && (tr.writes ==> tr.result + |Units(tr.encoding, all)| <= tr.dest.Length)
    ensures tr.Progress(tr.result, tr.dest[..], all, all)
  {
    if tr.writes {
      assert tr.dest[tr.result..tr.result] + Units(tr.encoding, all) == Units(tr.encoding, all);
    }
  }

  lemma EndOf(tr: Traits, from: nat, before: seq<nat>, all: seq<Code>)
    requires Decodable(all) && tr.Progress(from, before, [], all)
    ensures Completed(tr.encoding, tr.writes, all, before, tr.dest[..], from, tr.result)
  {
    assert Units(tr.encoding, []) == [];
    if tr.writes {
      assert tr.dest[from..tr.result] + [] == tr.dest[from..tr.result];
    }
  }

  method OneAscii(data: seq<byte>, i: nat, tr: Traits, ghost from: nat, ghost before: seq<nat>, ghost all: seq<Code>)
    returns (next: nat)
    requires i < |data| && data[i] < 0x80 && Decodable(all) && tr.Progress(from, before, Codes8(data[i..]), all)
    modifies tr, tr.dest
    ensures next == i + 1 && tr.Progress(from, before, Codes8(data[next..]), all)
  {
    hide Units;
    NextOf(data, i);
    tr.PutNext(Small(data[i]), from, before, Codes8(data[i..]), all);
    next := i + 1;
  }

  lemma NextOf(data: seq<byte>, i: nat)
    requires i < |data|
    ensures var d := Next8(data[i..]);
            && i + d.size <= |data|
            && Codes8(data[i..]) == d.codes + Codes8(data[i + d.size..])
            && (d.codes != [] ==> d.codes[0] == Codes8(data[i..])[0] && Codes8(data[i..])[1..] == Codes8(data[i + d.size..]))
            && (d.codes == [] ==> Codes8(data[i..]) == Codes8(data[i + d.size..]))
  {
    hide Next8;
    var d := Next8(data[i..]);
    assert data[i..][d.size..] == data[i + d.size..];
  }

  /** One round of the loop: the longest sequence that fits, or one invalid byte that is skipped. */
  method OneCode(data: seq<byte>, i: nat, tr: Traits, ghost from: nat, ghost before: seq<nat>, ghost all: seq<Code>)
    returns (next: nat)
    requires i < |data| && Decodable(all) && tr.Progress(from, before, Codes8(data[i..]), all)
    modifies tr, tr.dest
    ensures i < next <= |data| && tr.Progress(from, before, Codes8(data[next..]), all)
    ensures data[i] < 0x80 ==> next == i + 1
  {
    hide Units;
    NextOf(data, i);
    var d := Next8(data[i..]);
    if d.codes != [] {
      tr.PutNext(d.codes[0], from, before, Codes8(data[i..]), all);
    }
    next := i + d.size;
  }

  /** `decode_utf16_block`. */
  method DecodeUtf16Block(data: seq<u16>, swap: bool, tr: Traits)
    requires tr.writes ==> tr.result + |Units(tr.encoding, Codes16(data, swap))| <= tr.dest.Length
    modifies tr, tr.dest
    ensures Completed(tr.encoding, tr.writes, Codes16(data, swap), old(tr.dest[..]), tr.dest[..], old(tr.result), tr.result)
  {
    hide Units, Codes16;
    ghost var from, before, all := tr.result, tr.dest[..], Codes16(data, swap);
    var i := 0;
    StartOf(tr, all);
    while i < |data|
      invariant i <= |data| && tr.Progress(from, before, Codes16(data[i..], swap), all)
    {
      NextOf16(data, i, swap);
      var d := Next16(data[i..], swap);
      if d.codes != [] {
        tr.PutNext(d.codes[0], from, before, Codes16(data[i..], swap), all);
      }
      i := i + d.size;
    }
    assert data[|data|..] == [] && Codes16([], swap) == [] by {
      NoCodes();
    }
    EndOf(tr, from, before, all);
  }

  lemma NextOf16(data: seq<u16>, i: nat, swap: bool)
    requires i < |data|
    ensures var d := Next16(data[i..], swap);
            && i + d.size <= |data|
            && (d.codes != [] ==>
                  d.codes[0] == Codes16(data[i..], swap)[0]
                  && Codes16(data[i..], swap)[1..] == Codes16(data[i + d.size..], swap))
            && (d.codes != [] ==> Codes16(data[i..], swap) != [])
            && (d.codes == [] ==> Codes16(data[i..], swap) == Codes16(data[i + d.size..], swap))
  {
    hide Next16;
    var d := Next16(data[i..], swap);
    assert data[i..][d.size..] == data[i + d.size..];
  }

  /** `decode_utf32_block`. */
  method DecodeUtf32Block(data: seq<u32>, swap: bool, tr: Traits)
    requires tr.writes ==> tr.result + |Units(tr.encoding, Codes32(data, swap))| <= tr.dest.Length
    modifies tr, tr.dest
    ensures Completed(tr.encoding, tr.writes, Codes32(data, swap), old(tr.dest[..]), tr.dest[..], old(tr.result), tr.result)
  {
    hide Units;
    ghost var from, before, all := tr.result, tr.dest[..], Codes32(data, swap);
    var i := 0;
    StartOf(tr, all);
    while i < |data|
      invariant i <= |data| && tr.Progress(from, before, Codes32(data[i..], swap), all)
    {
      assert data[i..][0] == data[i] && data[i..][1..] == data[i + 1..];
      tr.PutNext(Code32(Unit32(data[i], swap)), from, before, Codes32(data[i..], swap), all);
      i := i + 1;
    }
    assert data[|data|..] == [];
    EndOf(tr, from, before, all);
  }

  // ----- two passes -----

  /** `convert_buffer_utf16`: the assertion that both passes agree never fails. */
  method ConvertBufferUtf16(data: seq<u16>, swap: bool) returns (out: array<nat>, length: nat)
    ensures fresh(out) && length <= out.Length && out[..length] == Units(Utf8, Codes16(data, swap))
    ensures out.Length == if length > 0 then length else 1
  {
    hide Units, Codes16;
    var none := new nat[0];
    var counter := new Traits(Utf8, false, none, 0);
    DecodeUtf16Block(data, swap, counter);
    length := counter.result;
    out := new nat[if length > 0 then length else 1];
    var writer := new Traits(Utf8, true, out, 0);
    DecodeUtf16Block(data, swap, writer);
    assert writer.result == length;
    assert out[..length] == out[0..length];
  }

  /** `convert_buffer_utf32`. */
  method ConvertBufferUtf32(data: seq<u32>, swap: bool) returns (out: array<nat>, length: nat)
    ensures fresh(out) && length <= out.Length && out[..length] == Units(Utf8, Codes32(data, swap))
    ensures out.Length == if length > 0 then length else 1
  {
    hide Units, Codes32;
    var none := new nat[0];
    var counter := new Traits(Utf8, false, none, 0);
    DecodeUtf32Block(data, swap, counter);
    length := counter.result;
    out := new nat[if length > 0 then length else 1];
    var writer := new Traits(Utf8, true, out, 0);
    DecodeUtf32Block(data, swap, writer);
    assert writer.result == length;
    assert out[..length] == out[0..length];
  }

  // ----- round trips -----

  /** A code point that is not a surrogate, section 3 of RFC 3629. */
  predicate Scalar(c: Code)
  {
    match c
    case Small(ch) => ch < 0xD800 || 0xE000 <= ch < 0x1_0000
    case Big(ch) => 0x1_0000 <= ch < 0x11_0000
  }

  predicate Scalars(cs: seq<Code>)
  {
    forall i | 0 <= i < |cs| :: Scalar(cs[i])
  }

  function Bytes(c: Code): (bs: seq<byte>)
    requires c.Small? ==> c.ch < 0x1_0000
    ensures bs == UnitsOf(Utf8, c)
  {
    if c.Small? then Low(c.ch) else High(c.ch)
  }

  function ToUtf8(cs: seq<Code>): (bs: seq<byte>)
    requires Decodable(cs)
    ensures bs == Units(Utf8, cs)
  {
    if cs == [] then [] else Bytes(cs[0]) + ToUtf8(cs[1..])
  }

  function Words(c: Code): (ws: seq<u16>)
    requires c.Small? ==> c.ch < 0x1_0000
    ensures ws == UnitsOf(Utf16, c)
  {
    if c.Small? then [c.ch] else
    var d := (c.ch as int - 0x1_0000) % 0x1_0000_0000;
    [(0xD800 + d / 0x400) % 0x1_0000, 0xDC00 + d % 0x400]
  }

  function ToUtf16(cs: seq<Code>): (ws: seq<u16>)
    requires Decodable(cs)
    ensures ws == Units(Utf16, cs)
  {
    if cs == [] then [] else Words(cs[0]) + ToUtf16(cs[1..])
  }

  lemma Quotient(v: nat, m: nat, q: nat, r: nat)
    requires m in {0x40, 0x400, 0x1000, 0x4_0000} && v == m * q + r && r < m
    ensures v / m == q && v % m == r
  {
    if m == 0x40 {} else if m == 0x400 {} else if m == 0x1000 {}
  }

  /** Groups of six bits. */
  lemma SixBits(w: nat, x: nat, y: nat, z: nat)
    requires x < 0x40 && y < 0x40 && z < 0x40
    ensures var ch := w * 0x4_0000 + x * 0x1000 + y * 0x40 + z;
            ch / 0x4_0000 == w && ch / 0x1000 % 0x40 == x && ch / 0x40 % 0x40 == y && ch % 0x40 == z
            && ch / 0x1000 == w * 0x40 + x
  {
    var ch := w * 0x4_0000 + x * 0x1000 + y * 0x40 + z;
    Quotient(ch, 0x4_0000, w, x * 0x1000 + y * 0x40 + z);
    Quotient(ch, 0x1000, w * 0x40 + x, y * 0x40 + z);
    Quotient(w * 0x40 + x, 0x40, w, x);
    Quotient(ch, 0x40, w * 0x1000 + x * 0x40 + y, z);
    Quotient(w * 0x1000 + x * 0x40 + y, 0x40, w * 0x40 + x, y);
  }

  /** Every number is made of its groups. */
  lemma FromSixBits(ch: nat)
    ensures ch == ch / 0x4_0000 * 0x4_0000 + ch / 0x1000 % 0x40 * 0x1000 + ch / 0x40 % 0x40 * 0x40 + ch % 0x40
    ensures ch == ch / 0x1000 * 0x1000 + ch / 0x40 % 0x40 * 0x40 + ch % 0x40
  {
    var a := ch / 0x40;
    var b := a / 0x40;
    var c := b / 0x40;
    assert ch == c * 0x4_0000 + b % 0x40 * 0x1000 + a % 0x40 * 0x40 + ch % 0x40;
    SixBits(c, b % 0x40, a % 0x40, ch % 0x40);
  }

  lemma OneCodeBack8(c: Code, rest: seq<byte>)
    requires if c.Small? then c.ch < 0x1_0000 else c.ch < 0x20_0000
    ensures Next8(Bytes(c) + rest) == Decoded([c], |Bytes(c)|)
  {
    var ch := c.ch;
    FromSixBits(ch);
    if c.Small? {
      if ch >= 0x800 {
        LeadAndTails3(ch, rest);
      } else if ch >= 0x80 {
        LeadAndTails2(ch, rest);
      }
    } else {
      LeadAndTails4(ch, rest);
    }
  }

  lemma TailOf(d: nat)
    requires d < 0x40
    ensures Tail(0x80 + d) == d && Follows(0x80 + d)
  {
  }

  lemma LeadAndTails2(ch: nat, rest: seq<byte>)
    requires 0x80 <= ch < 0x800
    ensures Next8(Low(ch) + rest) == Decoded([Small(ch)], 2)
  {
    hide Tail;
    TailOf(ch % 0x40);
  }

  lemma LeadAndTails3(ch: nat, rest: seq<byte>)
    requires 0x800 <= ch < 0x1_0000
    requires ch == ch / 0x1000 * 0x1000 + ch / 0x40 % 0x40 * 0x40 + ch % 0x40
    ensures Next8(Low(ch) + rest) == Decoded([Small(ch)], 3)
  {
    hide Tail;
    TailOf(ch / 0x40 % 0x40);
    TailOf(ch % 0x40);
  }

  lemma LeadAndTails4(ch: nat, rest: seq<byte>)
    requires ch < 0x20_0000
    requires ch == ch / 0x4_0000 * 0x4_0000 + ch / 0x1000 % 0x40 * 0x1000 + ch / 0x40 % 0x40 * 0x40 + ch % 0x40
    ensures Next8(High(ch) + rest) == Decoded([Big(ch)], 4)
  {
    hide Tail;
    assert ch / 0x4_0000 < 8;
    TailOf(ch / 0x1000 % 0x40);
    TailOf(ch / 0x40 % 0x40);
    TailOf(ch % 0x40);
    var s := High(ch) + rest;
    assert s[0] == 0xF0 + ch / 0x4_0000;
  }

  /** Decoding UTF-8 gives back every sequence of codes that was written. */
  lemma {:induction false} Utf8Back(cs: seq<Code>)
    requires forall i | 0 <= i < |cs| :: if cs[i].Small? then cs[i].ch < 0x1_0000 else cs[i].ch < 0x20_0000
    ensures Codes8(ToUtf8(cs)) == cs
  {
    hide Next8, Bytes;
    if cs != [] {
      var rest := ToUtf8(cs[1..]);
      OneCodeBack8(cs[0], rest);
      assert (Bytes(cs[0]) + rest)[|Bytes(cs[0])|..] == rest;
      Utf8Back(cs[1..]);
      assert [cs[0]] + cs[1..] == cs;
    }
  }

  /** Latin-1 keeps every code below 256 and has a question mark for each other one; UTF-32 keeps every code. */
  lemma {:induction false} OneUnitEach(cs: seq<Code>, i: nat)
    requires Decodable(cs) && i < |cs|
    ensures |Units(Latin1, cs)| == |Units(Utf32, cs)| == |cs|
    ensures Units(Latin1, cs)[i] == if cs[i].Small? && cs[i].ch < 0x100 then cs[i].ch else '?' as nat
    ensures Units(Utf32, cs)[i] == cs[i].ch
  {
    if |cs| > 1 {
      OneUnitEach(cs[1..], if i > 0 then i - 1 else 0);
    }
  }

  /** Decoding UTF-32 gives back every sequence of scalar values that was written. */
  lemma {:induction false} Utf32Back(cs: seq<Code>)
    requires Scalars(cs)
    ensures forall i | 0 <= i < |Units(Utf32, cs)| :: Units(Utf32, cs)[i] < 0x1_0000_0000
    ensures Codes32(Units(Utf32, cs), false) == cs
  {
    if cs != [] {
      var us := Units(Utf32, cs);
      assert us == [cs[0].ch] + Units(Utf32, cs[1..]);
      Utf32Back(cs[1..]);
      assert us[1..] == Units(Utf32, cs[1..]);
      assert [cs[0]] + cs[1..] == cs;
    }
  }

  /** Characters of every length, section 7 of RFC 3629 and section 2.1 of RFC 2781. */
  lemma Characters()
    ensures Units(Utf8, [Small(0x41), Small(0x2262), Small(0x391), Small(0x2e)])
         == [0x41, 0xe2, 0x89, 0xa2, 0xce, 0x91, 0x2e]
    ensures UnitsOf(Utf8, Big(0x2_33b4)) == [0xf0, 0xa3, 0x8e, 0xb4]
    ensures UnitsOf(Utf16, Big(0x1_2345)) == [0xd808, 0xdf45]
  {
    hide UnitsOf;
    var a, b, c, d := Small(0x41), Small(0x2262), Small(0x391), Small(0x2e);
    CharacterUnits();
    assert [a, b, c, d][1..] == [b, c, d] && [b, c, d][1..] == [c, d] && [c, d][1..] == [d] && |[d][1..]| == 0;
    assert Units(Utf8, [d]) == [0x2e];
    assert Units(Utf8, [c, d]) == [0xce, 0x91] + [0x2e];
    assert Units(Utf8, [b, c, d]) == [0xe2, 0x89, 0xa2] + [0xce, 0x91, 0x2e];
  }

  lemma CharacterUnits()
    ensures UnitsOf(Utf8, Small(0x41)) == [0x41] && UnitsOf(Utf8, Small(0x2e)) == [0x2e]
    ensures UnitsOf(Utf8, Small(0x2262)) == [0xe2, 0x89, 0xa2] && UnitsOf(Utf8, Small(0x391)) == [0xce, 0x91]
    ensures UnitsOf(Utf8, Big(0x2_33b4)) == [0xf0, 0xa3, 0x8e, 0xb4]
    ensures UnitsOf(Utf16, Big(0x1_2345)) == [0xd808, 0xdf45]
  {
  }

  lemma OneCodeBack16(c: Code, rest: seq<u16>)
    requires Scalar(c)
    ensures Next16(Words(c) + rest, false) == Decoded([c], |Words(c)|)
  {
    if c.Big? {
      PairOf(c);
      var s := Words(c) + rest;
      assert s[0] == Words(c)[0] && s[1] == Words(c)[1];
    }
  }

  lemma PairOf(c: Code)
    requires Scalar(c) && c.Big?
    ensures var ws := Words(c);
            |ws| == 2 && IsHighSurrogate(ws[0]) && IsLowSurrogate(ws[1]) && PairCode(ws[0], ws[1]) == c.ch
  {
    hide Words, PairCode;
    var d: nat := c.ch - 0x1_0000;
    var q, r := d / 0x400, d % 0x400;
    WordsOfBig(c.ch, d);
    PairDecodes(q, r);
  }

  lemma WordsOfBig(ch: nat, d: nat)
    requires ch == 0x1_0000 + d && d < 0x10_0000
    ensures d / 0x400 < 0x400 && Words(Big(ch)) == [0xD800 + d / 0x400, 0xDC00 + d % 0x400]
  {
  }

  lemma PairDecodes(q: nat, r: nat)
    requires q < 0x400 && r < 0x400
    ensures PairCode(0xD800 + q, 0xDC00 + r) == 0x1_0000 + q * 0x400 + r
  {
    Quotient(0xD800 + q, 0x400, 54, q);
    Quotient(0xDC00 + r, 0x400, 55, r);
  }

  /** Decoding UTF-16 gives back every sequence of scalars that was written. */
  lemma {:induction false} Utf16Back(cs: seq<Code>)
    requires Scalars(cs)
    ensures Codes16(ToUtf16(cs), false) == cs
  {
    hide Next16, Words;
    if cs != [] {
      var rest := ToUtf16(cs[1..]);
      OneCodeBack16(cs[0], rest);
      assert (Words(cs[0]) + rest)[|Words(cs[0])|..] == rest;
      Utf16Back(cs[1..]);
      assert [cs[0]] + cs[1..] == cs;
    }
  }

  /** Surrogates in pairs only, section 2 of RFC 2781. */
  predicate WellFormed16(s: seq<u16>)
  {
    s == []
    || (!IsHighSurrogate(s[0]) && !IsLowSurrogate(s[0]) && WellFormed16(s[1..]))
    || (|s| >= 2 && IsHighSurrogate(s[0]) && IsLowSurrogate(s[1]) && WellFormed16(s[2..]))
  }

  /** One unit or pair that decodes is written as it was read; anything else is dropped. */
  lemma OneUnitBack(s: seq<u16>)
    requires s != []
    ensures var d := Next16(s, false);
            && Scalars(d.codes)
            && (d.codes != [] ==> Words(d.codes[0]) == s[..d.size])
            && (d.codes == [] ==> !WellFormed16(s))
            && (d.codes != [] ==> (WellFormed16(s) <==> WellFormed16(s[d.size..])))
  {
    hide Words;
    var d := Next16(s, false);
    if d.codes != [] && d.codes[0].Big? {
      PairBack(s[0], s[1]);
      assert s[..2] == [s[0], s[1]];
    } else if d.codes != [] {
      UnitBack(s[0]);
      assert s[..1] == [s[0]];
    }
  }

  lemma UnitBack(v: u16)
    ensures Words(Small(v)) == [v]
  {
  }

  lemma PairBack(a: u16, b: u16)
    requires IsHighSurrogate(a) && IsLowSurrogate(b)
    ensures var c := Big(PairCode(a, b));
            Scalar(c) && Words(c) == [a, b]
  {
    hide Words, PairCode;
    var hi: nat, lo: nat := a - 0xD800, b - 0xDC00;
    PairDecodes(hi, lo);
    Quotient(hi * 0x400 + lo, 0x400, hi, lo);
    WordsOfBig(PairCode(a, b), hi * 0x400 + lo);
  }

  lemma {:induction false} Reencode16(s: seq<u16>)
    ensures Scalars(Codes16(s, false))
    ensures |ToUtf16(Codes16(s, false))| <= |s|
    ensures WellFormed16(s) ==> ToUtf16(Codes16(s, false)) == s
    ensures !WellFormed16(s) ==> |ToUtf16(Codes16(s, false))| < |s|
    decreases |s|
  {
    hide Next16, Words, WellFormed16, Units, UnitsOf, Scalar;
    if s == [] {
      EmptyIsWellFormed();
    } else {
      OneUnitBack(s);
      var d := Next16(s, false);
      Reencode16(s[d.size..]);
      var rest := Codes16(s[d.size..], false);
      if d.codes == [] {
        assert Codes16(s, false) == rest;
      } else {
        assert d.codes == [d.codes[0]];
        ToUtf16OfFirst(d.codes[0], rest);
        assert s == s[..d.size] + s[d.size..];
      }
    }
  }

  lemma ToUtf16OfFirst(c: Code, rest: seq<Code>)
    requires (c.Small? ==> c.ch < 0x1_0000) && Decodable(rest)
    ensures Decodable([c] + rest) && ToUtf16([c] + rest) == Words(c) + ToUtf16(rest)
  {
    hide Words, Units;
    assert ([c] + rest)[0] == c && ([c] + rest)[1..] == rest;
  }

  lemma ToUtf8OfFirst(c: Code, rest: seq<Code>)
    requires (c.Small? ==> c.ch < 0x1_0000) && Decodable(rest)
    ensures Decodable([c] + rest) && ToUtf8([c] + rest) == Bytes(c) + ToUtf8(rest)
  {
    hide Bytes, Units;
    assert ([c] + rest)[0] == c && ([c] + rest)[1..] == rest;
  }

  lemma EmptyIsWellFormed()
    ensures WellFormed16([])
  {
  }

  /** UTF-16 to UTF-8 to UTF-16 is the identity exactly on well-formed UTF-16. */
  lemma RoundTrip16(s: seq<u16>)
    ensures ToUtf16(Codes8(ToUtf8(Codes16(s, false)))) == s <==> WellFormed16(s)
  {
    hide Codes8, WellFormed16, ToUtf8, ToUtf16, Codes16;
    Reencode16(s);
    var cs := Codes16(s, false);
    assert forall i | 0 <= i < |cs| :: Scalar(cs[i]);
    Utf8Back(cs);
  }

  function SwapAll(s: seq<u16>): (t: seq<u16>)
    ensures |t| == |s| && forall i | 0 <= i < |s| :: t[i] == Swap16(s[i])
  {
    seq(|s|, i requires 0 <= i < |s| => Swap16(s[i]))
  }

  /** Reading units of the other byte order with swapping decodes the same codes. */
  lemma {:induction false} SwappedInput(s: seq<u16>)
    ensures Codes16(SwapAll(s), true) == Codes16(s, false)
    decreases |s|
  {
    if s != [] {
      SwapTwice(s[0]);
      if |s| >= 2 {
        SwapTwice(s[1]);
      }
      SameNext(SwapAll(s), s);
      var n := Next16(s, false).size;
      SwappedInput(s[n..]);
      assert SwapAll(s)[n..] == SwapAll(s[n..]);
    }
  }

  lemma SameNext(a: seq<u16>, b: seq<u16>)
    requires |a| == |b| && b != []
    requires Swap16(a[0]) == b[0] && (|b| >= 2 ==> Swap16(a[1]) == b[1])
    ensures Next16(a, true) == Next16(b, false)
  {
    hide Swap16;
  }

  lemma SwapTwice(v: u16)
    ensures Swap16(Swap16(v)) == v
  {
    var lo, hi := v % 0x100, v / 0x100;
    assert (lo * 0x100 + hi) % 0x100 == hi && (lo * 0x100 + hi) / 0x100 == lo;
  }

  /** The UTF-8 syntax of section 4 of RFC 3629: no overlong forms, no surrogates, nothing above U+10FFFF. */
  predicate WellFormed8(s: seq<byte>)
  {
    s == []
    || (s[0] < 0x80 && WellFormed8(s[1..]))
    || (|s| >= 2 && 0xC2 <= s[0] < 0xE0 && Follows(s[1]) && WellFormed8(s[2..]))
    || (|s| >= 3 && 0xE0 <= s[0] < 0xF0 && Follows(s[1]) && Follows(s[2])
        && (s[0] == 0xE0 ==> s[1] >= 0xA0) && (s[0] == 0xED ==> s[1] < 0xA0) && WellFormed8(s[3..]))
    || (|s| >= 4 && 0xF0 <= s[0] < 0xF5 && Follows(s[1]) && Follows(s[2]) && Follows(s[3])
        && (s[0] == 0xF0 ==> s[1] >= 0x90) && (s[0] == 0xF4 ==> s[1] < 0x90) && WellFormed8(s[4..]))
  }

  lemma OneSequenceBack(s: seq<byte>)
    requires WellFormed8(s) && s != []
    ensures var d := Next8(s);
            && d.codes != [] && Scalar(d.codes[0]) && Bytes(d.codes[0]) == s[..d.size] && WellFormed8(s[d.size..])
  {
    if s[0] < 0x80 {
      assert Bytes(Next8(s).codes[0]) == [s[0]];
    } else if s[0] < 0xE0 {
      SequenceOf2(s[0], s[1]);
      assert s[..2] == [s[0], s[1]];
    } else if s[0] < 0xF0 {
      SequenceOf3(s[0], s[1], s[2]);
      assert s[..3] == [s[0], s[1], s[2]];
    } else {
      SequenceOf4(s[0], s[1], s[2], s[3]);
      assert s[..4] == [s[0], s[1], s[2], s[3]];
    }
  }

  lemma SequenceOf2(a: byte, b: byte)
    requires 0xC2 <= a < 0xE0 && Follows(b)
    ensures var ch := Lead(a, 0xC0) * 0x40 + Tail(b);
            0x80 <= ch < 0x800 && Low(ch) == [a, b]
  {
  }

  lemma SequenceOf3(a: byte, b: byte, c: byte)
    requires 0xE0 <= a < 0xF0 && Follows(b) && Follows(c)
    requires (a == 0xE0 ==> b >= 0xA0) && (a == 0xED ==> b < 0xA0)
    ensures var ch := Lead(a, 0xE0) * 0x1000 + Tail(b) * 0x40 + Tail(c);
            0x800 <= ch < 0x1_0000 && !(0xD800 <= ch < 0xE000) && Low(ch) == [a, b, c]
  {
    SixBits(0, Lead(a, 0xE0), Tail(b), Tail(c));
  }

  lemma SequenceOf4(a: byte, b: byte, c: byte, d: byte)
    requires 0xF0 <= a < 0xF5 && Follows(b) && Follows(c) && Follows(d)
    requires (a == 0xF0 ==> b >= 0x90) && (a == 0xF4 ==> b < 0x90)
    ensures var ch := Lead(a, 0xF0) * 0x4_0000 + Tail(b) * 0x1000 + Tail(c) * 0x40 + Tail(d);
            0x1_0000 <= ch < 0x11_0000 && High(ch) == [a, b, c, d]
  {
    SixBits(Lead(a, 0xF0), Tail(b), Tail(c), Tail(d));
  }

  lemma {:induction false} Reencode8(s: seq<byte>)
    requires WellFormed8(s)
    ensures Scalars(Codes8(s)) && ToUtf8(Codes8(s)) == s
    decreases |s|
  {
    hide Next8, Bytes, WellFormed8, Units, UnitsOf, Scalar;
    if s != [] {
      OneSequenceBack(s);
      var d := Next8(s);
      Reencode8(s[d.size..]);
      FirstSequence(s);
    }
  }

  lemma FirstSequence(s: seq<byte>)
    requires s != []
    requires var d := Next8(s); d.codes != [] && Scalar(d.codes[0]) && Bytes(d.codes[0]) == s[..d.size]
    requires var rest := s[Next8(s).size..]; Scalars(Codes8(rest)) && ToUtf8(Codes8(rest)) == rest
    ensures Scalars(Codes8(s)) && ToUtf8(Codes8(s)) == s
  {
    hide Next8, Bytes, Units, UnitsOf, Scalar, ToUtf8, Scalars, Codes8;
    var d := Next8(s);
    var rest := s[d.size..];
    FirstOf(s);
    ToUtf8OfFirst(d.codes[0], Codes8(rest));
    ScalarsOfFirst(d.codes[0], Codes8(rest));
    assert s == s[..d.size] + rest;
  }

  lemma FirstOf(s: seq<byte>)
    requires s != [] && Next8(s).codes != []
    ensures Codes8(s) == [Next8(s).codes[0]] + Codes8(s[Next8(s).size..])
  {
    hide Next8;
    assert Next8(s).codes == [Next8(s).codes[0]];
  }

  lemma ScalarsOfFirst(c: Code, rest: seq<Code>)
    requires Scalar(c) && Scalars(rest)
    ensures Scalars([c] + rest)
  {
    hide Scalar;
  }

  /** The bytes of a scalar value are well-formed. */
  lemma ScalarIsWellFormed(c: Code, rest: seq<byte>)
    requires Scalar(c) && WellFormed8(rest)
    ensures WellFormed8(Bytes(c) + rest)
  {
    var s := Bytes(c) + rest;
    assert s[|Bytes(c)|..] == rest;
    if c.Big? {
      BigIsWellFormed(c.ch);
      assert s[..4] == High(c.ch);
    } else if c.ch >= 0x800 {
      ThreeAreWellFormed(c.ch);
      assert s[..3] == Low(c.ch);
    } else {
      assert s[..|Bytes(c)|] == Low(c.ch);
    }
  }

  lemma ThreeAreWellFormed(ch: nat)
    requires 0x800 <= ch < 0xD800 || 0xE000 <= ch < 0x1_0000
    ensures var bs := Low(ch);
            && |bs| == 3 && 0xE0 <= bs[0] < 0xF0 && Follows(bs[1]) && Follows(bs[2])
            && (bs[0] == 0xE0 ==> bs[1] >= 0xA0) && (bs[0] == 0xED ==> bs[1] < 0xA0)
  {
    FromSixBits(ch);
  }

  lemma BigIsWellFormed(ch: nat)
    requires 0x1_0000 <= ch < 0x11_0000
    ensures var bs := High(ch);
            && |bs| == 4 && 0xF0 <= bs[0] < 0xF5 && Follows(bs[1]) && Follows(bs[2]) && Follows(bs[3])
            && (bs[0] == 0xF0 ==> bs[1] >= 0x90) && (bs[0] == 0xF4 ==> bs[1] < 0x90)
  {
    FromSixBits(ch);
  }

  /** What is written for scalar values is well-formed. */
  lemma {:induction false} ScalarsAreWellFormed(cs: seq<Code>)
    requires Scalars(cs)
    ensures WellFormed8(ToUtf8(cs))
  {
    hide Bytes, UnitsOf, Units, WellFormed8;
    if cs == [] {
      NothingIsWellFormed();
    } else {
      ScalarsAreWellFormed(cs[1..]);
      ScalarIsWellFormed(cs[0], ToUtf8(cs[1..]));
    }
  }

  lemma NothingIsWellFormed()
    ensures WellFormed8([])
  {
  }

  /** UTF-8 to UTF-16 to UTF-8 is the identity exactly on well-formed UTF-8. */
  lemma RoundTrip8(s: seq<byte>)
    ensures ToUtf8(Codes16(ToUtf16(Codes8(s)), false)) == s <==> WellFormed8(s)
  {
    hide Codes8, WellFormed8, ToUtf8, ToUtf16, Codes16;
    if WellFormed8(s) {
      Reencode8(s);
      Utf16Back(Codes8(s));
    }
    Reencode16(ToUtf16(Codes8(s)));
    ScalarsAreWellFormed(Codes16(ToUtf16(Codes8(s)), false));
  }

  /** Converting UTF-16 to UTF-8 gives well-formed UTF-8, whatever the input. */
  lemma FromUtf16IsWellFormed(s: seq<u16>)
    ensures WellFormed8(ToUtf8(Codes16(s, false)))
  {
    hide WellFormed8, ToUtf8, ToUtf16, Codes16;
    Reencode16(s);
    ScalarsAreWellFormed(Codes16(s, false));
  }
}
