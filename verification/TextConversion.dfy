/**
  In-place conversion of PCDATA, CDATA and attribute values: what the text means, as a function of the source,
  and the loops that overwrite the buffer while they collapse the gaps that shorter text leaves.
 */
module TextConversion {
  import opened Common
  import opened Utf8

  // ----- meaning -----

  const TAB: byte := 9
  const LF: byte := 10
  const CR: byte := 13
  const SPACE: byte := 32

  datatype Blanks = Keep | Newlines | Spaces

  /** Which converter: its terminator and what it does with line ends, blanks and escapes. */
  datatype Mode =
    | Pcdata(eol: bool, escape: bool)
    | Attribute(quote: byte, blanks: Blanks, escape: bool)
    | Cdata(endch: byte)

  predicate IsSpace(c: byte) { c == TAB || c == LF || c == CR || c == SPACE }

  /** The characters at which the converter of a mode stops scanning. */
  predicate Special(m: Mode, c: byte)
  {
    match m
    case Pcdata(_, _) => c == 0 || c == '&' as byte || c == CR || c == '<' as byte
    case Attribute(_, blanks, _) =>
      || c == 0 || c == '&' as byte || c == CR || c == '\'' as byte || c == '"' as byte
      || (blanks.Spaces? && (c == LF || c == TAB))
    case Cdata(_) => c == 0 || c == ']' as byte || c == '>' as byte || c == CR
  }

  predicate ValidMode(m: Mode)
  {
    m.Attribute? ==> m.quote == '\'' as byte || m.quote == '"' as byte
  }

  /** A buffer that ends in a NUL. */
  predicate Terminated(src: seq<byte>)
  {
    src != [] && src[|src| - 1] == 0
  }

  /** What becomes of an ampersand: nothing up to `next`, or a character for everything up to `next`. */
  datatype Escape = Literal(next: nat) | Char(bytes: seq<byte>, next: nat)

  /** `*++p == a && *++p == b`, and one more step when both match. */
  function Both(src: seq<byte>, p: nat, a: char, b: char, c: char): (e: Escape)
    requires Terminated(src) && p < |src| && src[p] != 0
    requires 0 as char < a < 128 as char && 0 as char < b < 128 as char && c < 128 as char
    ensures p < e.next < |src|
    ensures e.Char? ==> |e.bytes| == 1 && e.next == p + 3
  {
    if src[p + 1] != a as byte then Literal(p + 1)
    else if src[p + 2] != b as byte then Literal(p + 2)
    else Char([c as byte], p + 3)
  }

  function HexDigit(c: byte): (d: int)
    ensures -1 <= d < 16
  {
    if '0' as byte <= c <= '9' as byte then c as int - '0' as int
    else if 'a' as byte <= c <= 'f' as byte then c as int - 'a' as int + 10
    else if 'A' as byte <= c <= 'F' as byte then c as int - 'A' as int + 10
    else -1
  }

  /** Value of a digit of the base, or -1. */
  function Digit(c: byte, base: nat): (d: int)
    requires base == 10 || base == 16
    ensures -1 <= d < base
  {
    if HexDigit(c) < base then HexDigit(c) else -1
  }

  /** Digits up to a semicolon; the value wraps in 32 bits. Anything else cancels the escape. */
  function Digits(src: seq<byte>, p: nat, base: nat, value: nat): (e: Escape)
    requires Terminated(src) && p < |src| && (base == 10 || base == 16)
    ensures p <= e.next < |src|
    decreases |src| - p
  {
    if Digit(src[p], base) >= 0 then
      Digits(src, p + 1, base, (base * value + Digit(src[p], base)) % 0x1_0000_0000)
    else if src[p] == ';' as byte then Char(Any(value), p + 1)
    else Literal(p)
  }

  /** The escape that starts with the ampersand at `i`. */
  function EscapeAt(src: seq<byte>, i: nat): (e: Escape)
    requires Terminated(src) && i < |src| && src[i] == '&' as byte
    ensures i < e.next < |src|
  {
    var c := src[i + 1];
    if c == '#' as byte then
      if src[i + 2] == 'x' as byte then
        if src[i + 3] == ';' as byte then Literal(i + 3) else Digits(src, i + 3, 16, 0)
      else
        if src[i + 2] == ';' as byte then Literal(i + 2) else Digits(src, i + 2, 10, 0)
    else if c == 'a' as byte then
      if src[i + 2] == 'm' as byte then Both(src, i + 2, 'p', ';', '&')
      else if src[i + 2] == 'p' as byte then
        if src[i + 3] == 'o' as byte then Both(src, i + 3, 's', ';', '\'') else Literal(i + 3)
      else Literal(i + 2)
    else if c == 'g' as byte then Both(src, i + 1, 't', ';', '>')
    else if c == 'l' as byte then Both(src, i + 1, 't', ';', '<')
    else if c == 'q' as byte then
      if src[i + 2] != 'u' as byte then Literal(i + 2)
      else if src[i + 3] != 'o' as byte then Literal(i + 3)
      else Both(src, i + 3, 't', ';', '"')
    else Literal(i + 1)
  }

  /** One step of a converter: the end of the text, the end of the buffer, or output and where to go on. */
  datatype Action = Stop(after: nat) | RunOut | Emit(bytes: seq<byte>, next: nat)

  function LineEnd(src: seq<byte>, i: nat, c: byte): (a: Action)
    requires Terminated(src) && i < |src| && src[i] != 0
    ensures a.Emit? && i < a.next < |src|
  {
    Emit([c], if src[i + 1] == LF then i + 2 else i + 1)
  }

  function Escaped(src: seq<byte>, i: nat): (a: Action)
    requires Terminated(src) && i < |src| && src[i] == '&' as byte
    ensures a.Emit? && i < a.next < |src|
  {
    var e := EscapeAt(src, i);
    if e.Char? then Emit(e.bytes, e.next) else Emit(src[i..e.next], e.next)
  }

  predicate EndsCdata(src: seq<byte>, i: nat, endch: byte)
    requires Terminated(src) && i < |src|
  {
    && src[i] == ']' as byte
    && src[i + 1] == ']' as byte
    && (src[i + 2] == '>' as byte || (src[i + 2] == 0 && endch == '>' as byte))
  }

  function Step(m: Mode, src: seq<byte>, i: nat): (a: Action)
    requires Terminated(src) && i < |src|
    ensures a.Emit? ==> i < a.next < |src|
    ensures a.Stop? ==> i < a.after < |src|
  {
    var c := src[i];
    match m
    case Pcdata(eol, escape) =>
      if c == '<' as byte then Stop(i + 1)
      else if eol && c == CR then LineEnd(src, i, LF)
      else if escape && c == '&' as byte then Escaped(src, i)
      else if c == 0 then RunOut
      else Emit([c], i + 1)
    case Attribute(quote, blanks, escape) =>
      if c == 0 then RunOut
      else if c == quote then Stop(i + 1)
      else if blanks.Newlines? && c == CR then LineEnd(src, i, LF)
      else if blanks.Spaces? && c == CR then LineEnd(src, i, SPACE)
      else if blanks.Spaces? && IsSpace(c) then Emit([SPACE], i + 1)
      else if escape && c == '&' as byte then Escaped(src, i)
      else Emit([c], i + 1)
    case Cdata(endch) =>
      if c == CR then LineEnd(src, i, LF)
      else if EndsCdata(src, i, endch) then Stop(i + 1)
      else if c == 0 then RunOut
      else Emit([c], i + 1)
  }

  /** The converted text from `i` on, and the index behind its terminator. */
  datatype Outcome = Ended(text: seq<byte>, next: nat) | Unended(at: nat)

  function Convert(m: Mode, src: seq<byte>, i: nat): (o: Outcome)
    requires Terminated(src) && i < |src|
    ensures o.Ended? ==> i < o.next < |src|
    ensures o.Unended? ==> i <= o.at < |src| && src[o.at] == 0
    decreases |src| - i
  {
    var a := Step(m, src, i);
    if a.Stop? then Ended([], a.after)
    else if a.RunOut? then Unended(i)
    else
      var rest := Convert(m, src, a.next);
      if rest.Ended? then Ended(a.bytes + rest.text, rest.next) else rest
  }

  // ----- in place -----

  /** A character reference is longer than the bytes that replace it. */
  lemma {:induction false} DigitsShorten(src: seq<byte>, p: nat, base: nat, value: nat, k: nat)
    requires Terminated(src) && p < |src| && (base == 10 || base == 16)
    requires (k == 0 ==> value == 0) && (k == 1 ==> value < 0x10) && (k == 2 ==> value < 0x100)
    ensures var e := Digits(src, p, base, value); e.Char? ==> |e.bytes| <= e.next - p + k
    decreases |src| - p
  {
    if Digit(src[p], base) >= 0 {
      var v := (base * value + Digit(src[p], base)) % 0x1_0000_0000;
      assert k <= 1 ==> v == base * value + Digit(src[p], base);
      DigitsShorten(src, p + 1, base, v, k + 1);
    }
  }

  lemma EscapeShortens(src: seq<byte>, i: nat)
    requires Terminated(src) && i < |src| && src[i] == '&' as byte
    ensures var e := EscapeAt(src, i); e.Char? ==> 1 <= |e.bytes| < e.next - i
  {
    hide Digits;
    if src[i + 1] == '#' as byte {
      if src[i + 2] == 'x' as byte {
        DigitsShorten(src, i + 3, 16, 0, 0);
        DigitsGiveBytes(src, i + 3, 16, 0);
      } else {
        DigitsShorten(src, i + 2, 10, 0, 0);
        DigitsGiveBytes(src, i + 2, 10, 0);
      }
    }
  }

  lemma {:induction false} DigitsGiveBytes(src: seq<byte>, p: nat, base: nat, value: nat)
    requires Terminated(src) && p < |src| && (base == 10 || base == 16)
    ensures var e := Digits(src, p, base, value); e.Char? ==> |e.bytes| >= 1
    decreases |src| - p
  {
    if Digit(src[p], base) >= 0 {
      DigitsGiveBytes(src, p + 1, base, (base * value + Digit(src[p], base)) % 0x1_0000_0000);
    }
  }

  /** `memmove` towards the front. */
  method MoveDown(buf: array<byte>, to: nat, from: nat, count: nat)
    requires to <= from && from + count <= buf.Length
    modifies buf
    ensures buf[to..to + count] == old(buf[from..from + count])
    ensures forall j | 0 <= j < to || to + count <= j < buf.Length :: buf[j] == old(buf[j])
  {
    for i := 0 to count
      invariant forall j | to <= j < to + i :: buf[j] == old(buf[j - to + from])
      invariant forall j | 0 <= j < to || to + i <= j < buf.Length :: buf[j] == old(buf[j])
    {
      buf[to + i] := buf[from + i];
    }
  }

  /**
    The unused stretch between the converted text and the read position. The text so far is what stands before the
    gap and what stands behind it; nothing at or behind the read position has been overwritten.
   */
  class Gap {
    const buf: array<byte>
    ghost const src: seq<byte>
    ghost const start: nat
    var end: nat  // 0 while there is no gap
    var size: nat

    constructor (buf: array<byte>, ghost start: nat)
      requires start <= buf.Length
      ensures this.buf == buf && this.start == start && src == buf[..] && Valid(start) && Text(start) == []
    {
      this.buf, src, this.start := buf, buf[..], start;
      end, size := 0, 0;
    }

    ghost predicate Valid(s: nat)
      reads this, buf
    {
      && start <= s <= buf.Length == |src|
      && (end == 0 <==> size == 0)
      && (end != 0 ==> start + size <= end <= s)
      && (forall j | 0 <= j < start || s <= j < buf.Length :: buf[j] == src[j])
    }

    ghost function Text(s: nat): seq<byte>
      requires Valid(s)
      reads this, buf
    {
      if end == 0 then buf[start..s] else buf[start..end - size] + buf[end..s]
    }

    /** Moves the text behind the gap in front of it. */
    method Collapse(s: nat)
      requires Valid(s) && end != 0
      modifies buf
      ensures buf[start..s - size] == old(Text(s))
      ensures forall j | 0 <= j < start || s <= j < buf.Length :: buf[j] == src[j]
    {
      var to := end - size;
      MoveDown(buf, to, end, s - end);
      assert buf[start..to] == old(buf[start..to]);
      assert buf[start..s - size] == buf[start..to] + buf[to..s - size];
    }

    /** Moves on over `count` characters, which become part of the gap. */
    method Push(s: nat, count: nat) returns (t: nat)
      requires Valid(s) && 0 < count && s + count <= buf.Length
      modifies this, buf
      ensures t == s + count && Valid(t) && Text(t) == old(Text(s))
    {
      if end != 0 {
        Collapse(s);
      }
      t := s + count;
      end := t;
      size := size + count;
      assert buf[end..t] == [];
    }

    /** Collapses the gap; `p` is the end of the text. */
    method Flush(s: nat) returns (p: nat)
      requires Valid(s)
      modifies buf
      ensures start <= p <= s && buf[start..p] == old(Text(s))
      ensures forall j | 0 <= j < start || s <= j < buf.Length :: buf[j] == src[j]
    {
      if end == 0 {
        return s;
      }
      Collapse(s);
      p := s - size;
    }

    /** Leaves the character at the read position in the text. */
    lemma Keep(s: nat)
      requires Valid(s) && s < buf.Length
      ensures Valid(s + 1) && Text(s + 1) == Text(s) + [src[s]]
    {
    }

    /** Overwrites the character at the read position. */
    method Replace(s: nat, c: byte) returns (t: nat)
      requires Valid(s) && s < buf.Length
      modifies buf
      ensures t == s + 1 && Valid(t) && Text(t) == old(Text(s)) + [c]
    {
      buf[s] := c;
      t := s + 1;
    }

    /** Overwrites the text at the read position with bytes and makes a gap of the rest up to `stre`. */
    method ReplaceBy(s: nat, bytes: seq<byte>, stre: nat) returns (t: nat)
      requires Valid(s) && bytes != [] && s + |bytes| < stre <= buf.Length
      modifies this, buf
      ensures t == stre && Valid(t) && Text(t) == old(Text(s)) + bytes
    {
      hide Text;
      var r := s;
      for i := 0 to |bytes|
        invariant r == s + i && Valid(r) && Text(r) == old(Text(s)) + bytes[..i]
        invariant end == old(end) && size == old(size)
      {
        r := Replace(r, bytes[i]);
        assert bytes[..i + 1] == bytes[..i] + [bytes[i]];
      }
      assert bytes[..|bytes|] == bytes;
      t := Push(r, stre - r);
    }

    /** Leaves the characters up to `t` in the text. */
    lemma KeepUpTo(s: nat, t: nat)
      requires Valid(s) && s <= t <= buf.Length
      ensures Valid(t) && Text(t) == Text(s) + src[s..t]
    {
      assert buf[s..t] == src[s..t];
      assert end == 0 ==> buf[start..t] == buf[start..s] + buf[s..t];
      assert end != 0 ==> buf[end..t] == buf[end..s] + buf[s..t];
    }

    /** Reads the digits of a reference; `done` says that a semicolon ended them. */
    method ReadDigits(s: nat, from: nat, base: nat) returns (stre: nat, ucsc: nat, done: bool)
      requires Valid(s) && Terminated(src) && s <= from < buf.Length && (base == 10 || base == 16)
      ensures from <= stre < buf.Length
      ensures Digits(src, from, base, 0) == if done then Char(Any(ucsc), stre + 1) else Literal(stre)
    {
      stre, ucsc := from, 0;
      while Digit(buf[stre], base) >= 0
        invariant from <= stre < buf.Length
        invariant Digits(src, stre, base, ucsc) == Digits(src, from, base, 0)
        decreases buf.Length - stre
      {
        ucsc := (base * ucsc + Digit(buf[stre], base)) % 0x1_0000_0000;
        stre := stre + 1;
      }
      done := buf[stre] == ';' as byte;
    }

    method Numeric(s: nat) returns (t: nat)
      requires Valid(s) && Terminated(src) && s < buf.Length && src[s] == '&' as byte && src[s + 1] == '#' as byte
      modifies this, buf
      ensures t == EscapeAt(src, s).next && Valid(t)
      ensures Text(t) == old(Text(s)) + Escaped(src, s).bytes
    {
      hide Digits, Any, Both;
      EscapeShortens(src, s);
      var hex := buf[s + 2] == 'x' as byte;
      var stre := if hex then s + 3 else s + 2;
      if buf[stre] == ';' as byte {
        KeepUpTo(s, stre);
        return stre;
      }
      var ucsc, done;
      stre, ucsc, done := ReadDigits(s, stre, if hex then 16 else 10);
      if !done {
        KeepUpTo(s, stre);
        return stre;
      }
      t := ReplaceBy(s, Any(ucsc), stre + 1);
    }

    /** `&lt;`, `&gt;`, `&amp;`, `&apos;` and `&quot;`: where the escape differs, or its last two characters. */
    method Recognize(s: nat) returns (stre: nat, last: bool, a: char, b: char, c: char)
      requires Valid(s) && Terminated(src) && s < buf.Length && src[s] == '&' as byte && src[s + 1] != '#' as byte
      ensures s < stre < buf.Length && (last ==> src[stre] != 0)
      ensures 0 as char < a < 128 as char && 0 as char < b < 128 as char && c < 128 as char
      ensures EscapeAt(src, s) == if last then Both(src, stre, a, b, c) else Literal(stre)
    {
      stre, last, a, b, c := s + 1, false, 't', ';', '?';
      if buf[stre] == 'a' as byte {
        stre := stre + 1;
        if buf[stre] == 'm' as byte {
          last, a, c := true, 'p', '&';
        } else if buf[stre] == 'p' as byte {
          stre := stre + 1;
          if buf[stre] == 'o' as byte {
            last, a, c := true, 's', '\'';
          }
        }
      } else if buf[stre] == 'g' as byte {
        last, c := true, '>';
      } else if buf[stre] == 'l' as byte {
        last, c := true, '<';
      } else if buf[stre] == 'q' as byte {
        stre := stre + 1;
        if buf[stre] == 'u' as byte {
          stre := stre + 1;
          if buf[stre] == 'o' as byte {
            last, c := true, '"';
          }
        }
      }
    }

    method Named(s: nat) returns (t: nat)
      requires Valid(s) && Terminated(src) && s < buf.Length && src[s] == '&' as byte && src[s + 1] != '#' as byte
      modifies this, buf
      ensures t == EscapeAt(src, s).next && Valid(t)
      ensures Text(t) == old(Text(s)) + Escaped(src, s).bytes
    {
      hide EscapeAt;
      var stre, last, a, b, c := Recognize(s);
      if last {
        t := Finish(s, stre, a, b, c);
      } else {
        KeepUpTo(s, stre);
        t := stre;
      }
    }

    /** The last two characters of a named escape. */
    method Finish(s: nat, p: nat, a: char, b: char, c: char) returns (t: nat)
      requires Valid(s) && Terminated(src) && s < p < buf.Length && src[p] != 0
      requires 0 as char < a < 128 as char && 0 as char < b < 128 as char && c < 128 as char
      modifies this, buf
      ensures t == Both(src, p, a, b, c).next && Valid(t)
      ensures Text(t) == old(Text(s)) + (if Both(src, p, a, b, c).Char? then [c as byte] else src[s..t])
    {
      var stre := p + 1;
      if buf[stre] == a as byte {
        stre := stre + 1;
        if buf[stre] == b as byte {
          t := ReplaceBy(s, [c as byte], stre + 1);
          return;
        }
      }
      KeepUpTo(s, stre);
      t := stre;
    }

    method StrconvEscape(s: nat) returns (t: nat)
      requires Valid(s) && Terminated(src) && s < buf.Length && src[s] == '&' as byte
      modifies this, buf
      ensures t == Escaped(src, s).next && Valid(t)
      ensures Text(t) == old(Text(s)) + Escaped(src, s).bytes
    {
      hide EscapeAt, Text;
      if buf[s + 1] == '#' as byte {
        t := Numeric(s);
      } else {
        t := Named(s);
      }
    }

    /** A carriage return becomes `c`; a line feed behind it goes away. */
    method StrconvLineEnd(s: nat, c: byte) returns (t: nat)
      requires Valid(s) && Terminated(src) && s < buf.Length && src[s] != 0
      modifies this, buf
      ensures Valid(t) && LineEnd(src, s, c) == Emit([c], t) && Text(t) == old(Text(s)) + [c]
    {
      hide Text;
      t := Replace(s, c);
      if buf[t] == LF {
        t := Push(t, 1);
      }
    }

    /** Collapses the gap and terminates the text. */
    method Finished(s: nat)
      requires Valid(s) && s < buf.Length
      modifies buf
      ensures Left(buf[..], src, start, old(Text(s)), s + 1)
    {
      var p := Flush(s);
      buf[p] := 0;
    }
  }

  /** The text stands at `start`, NUL-terminated before `next`; nothing else has changed. */
  ghost predicate Left(now: seq<byte>, was: seq<byte>, start: nat, text: seq<byte>, next: nat)
  {
    && |now| == |was|
    && start + |text| < next <= |now|
    && now[start..start + |text|] == text
    && now[start + |text|] == 0
    && forall j | 0 <= j < start || next <= j < |now| :: now[j] == was[j]
  }

  /** After `text` has been produced, `s` is where the conversion goes on. */
  predicate Reached(m: Mode, src: seq<byte>, start: nat, text: seq<byte>, s: nat)
  {
    && Terminated(src) && start < |src| && s < |src|
    && var rest := Convert(m, src, s);
       Convert(m, src, start) == if rest.Ended? then Ended(text + rest.text, rest.next) else rest
  }

  lemma ReachedNext(m: Mode, src: seq<byte>, start: nat, text: seq<byte>, s: nat)
    requires Reached(m, src, start, text, s) && Step(m, src, s).Emit?
    ensures Reached(m, src, start, text + Step(m, src, s).bytes, Step(m, src, s).next)
  {
    hide Step;
    var a := Step(m, src, s);
    var rest := Convert(m, src, a.next);
    if rest.Ended? {
      assert text + (a.bytes + rest.text) == text + a.bytes + rest.text;
    }
  }

  /** What a converter promises: the converted text in place, or the position of the NUL that cut it off. */
  ghost predicate Converted(m: Mode, now: seq<byte>, was: seq<byte>, start: nat, next: nat)
    requires Terminated(was) && start < |was|
  {
    match Convert(m, was, start)
    case Ended(text, after) => next == after && Left(now, was, start, text, next)
    case Unended(at) => next == at && |now| == |was| && forall j | 0 <= j < start || at <= j < |was| :: now[j] == was[j]
  }

  lemma PlainStep(m: Mode, src: seq<byte>, s: nat)
    requires Terminated(src) && s < |src| && ValidMode(m) && !Special(m, src[s])
    ensures Step(m, src, s) == Emit([src[s]], s + 1) && s + 1 < |src|
  {
  }

  method SkipPlain(g: Gap, m: Mode, from: nat) returns (s: nat)
    requires g.Valid(from) && ValidMode(m) && Reached(m, g.src, g.start, g.Text(from), from)
    ensures from <= s && g.Valid(s) && Reached(m, g.src, g.start, g.Text(s), s) && Special(m, g.src[s])
  {
    hide Step, Special, Convert, Gap.Text, EscapeAt, ValidMode;
    s := from;
    while !Special(m, g.buf[s])
      invariant from <= s && g.Valid(s) && Reached(m, g.src, g.start, g.Text(s), s)
      decreases g.buf.Length - s
    {
      PlainStep(m, g.src, s);
      ReachedNext(m, g.src, g.start, g.Text(s), s);
      g.Keep(s);
      s := s + 1;
    }
  }

  /** PCDATA up to the next tag. */
  method StrconvPcdata(buf: array<byte>, start: nat, eol: bool, escape: bool) returns (next: nat)
    requires Terminated(buf[..]) && start < buf.Length
    modifies buf
    ensures Converted(Pcdata(eol, escape), buf[..], old(buf[..]), start, next)
  {
    hide EscapeAt, Escaped, LineEnd, Convert, Gap.Text;
    var m := Pcdata(eol, escape);
    var g := new Gap(buf, start);
    var s := start;
    ReachedFirst(m, g.src, start);
    while true
      invariant fresh(g) && g.buf == buf && g.src == old(buf[..]) && g.start == start
      invariant g.Valid(s) && Reached(m, g.src, start, g.Text(s), s)
      decreases buf.Length - s
    {
      s := SkipPlain(g, m, s);
      ReachedNextIf(m, g.src, start, g.Text(s), s);
      if buf[s] == '<' as byte {
        ReachedEnd(m, g.src, start, g.Text(s), s);
        g.Finished(s);
        return s + 1;
      } else if eol && buf[s] == CR {
        s := g.StrconvLineEnd(s, LF);
      } else if escape && buf[s] == '&' as byte {
        s := g.StrconvEscape(s);
      } else if buf[s] == 0 {
        ReachedNul(m, g.src, start, g.Text(s), s);
        return s;
      } else {
        g.Keep(s);
        s := s + 1;
      }
    }
  }

  /** Line ends are normalized; the first bracket of the terminator is where the text ends. */
  method StrconvCdata(buf: array<byte>, start: nat, endch: byte) returns (ok: bool, next: nat)
    requires Terminated(buf[..]) && start < buf.Length
    modifies buf
    ensures Converted(Cdata(endch), buf[..], old(buf[..]), start, next)
    ensures ok <==> Convert(Cdata(endch), old(buf[..]), start).Ended?
  {
    hide EscapeAt, Escaped, LineEnd, Convert, Gap.Text;
    var m := Cdata(endch);
    var g := new Gap(buf, start);
    var s := start;
    ReachedFirst(m, g.src, start);
    while true
      invariant fresh(g) && g.buf == buf && g.src == old(buf[..]) && g.start == start
      invariant g.Valid(s) && Reached(m, g.src, start, g.Text(s), s)
      decreases buf.Length - s
    {
      s := SkipPlain(g, m, s);
      ReachedNextIf(m, g.src, start, g.Text(s), s);
      if buf[s] == CR {
        s := g.StrconvLineEnd(s, LF);
      } else if buf[s] == ']' as byte && buf[s + 1] == ']' as byte
                && (buf[s + 2] == '>' as byte || (buf[s + 2] == 0 && endch == '>' as byte)) {
        ReachedEnd(m, g.src, start, g.Text(s), s);
        g.Finished(s);
        return true, s + 1;
      } else if buf[s] == 0 {
        ReachedNul(m, g.src, start, g.Text(s), s);
        return false, s;
      } else {
        g.Keep(s);
        s := s + 1;
      }
    }
  }

  /** Blanks become spaces, a carriage return with its line feed a single one. */
  method StrconvAttributeWconv(buf: array<byte>, start: nat, quote: byte, escape: bool) returns (ok: bool, next: nat)
    requires Terminated(buf[..]) && start < buf.Length
    requires quote == '\'' as byte || quote == '"' as byte
    modifies buf
    ensures Converted(Attribute(quote, Spaces, escape), buf[..], old(buf[..]), start, next)
    ensures ok <==> Convert(Attribute(quote, Spaces, escape), old(buf[..]), start).Ended?
  {
    hide EscapeAt, Escaped, LineEnd, Convert, Gap.Text, Special, Terminated;
    var m := Attribute(quote, Spaces, escape);
    var g := new Gap(buf, start);
    var s := start;
    ReachedFirst(m, g.src, start);
    while true
      invariant fresh(g) && g.buf == buf && g.src == old(buf[..]) && g.start == start
      invariant g.Valid(s) && Reached(m, g.src, start, g.Text(s), s)
      decreases buf.Length - s
    {
      s := SkipPlain(g, m, s);
      ReachedNextIf(m, g.src, start, g.Text(s), s);
      if buf[s] == quote {
        ReachedEnd(m, g.src, start, g.Text(s), s);
        g.Finished(s);
        return true, s + 1;
      } else if IsSpace(buf[s]) {
        if buf[s] == CR {
          s := g.StrconvLineEnd(s, SPACE);
        } else {
          s := g.Replace(s, SPACE);
        }
      } else if escape && buf[s] == '&' as byte {
        s := g.StrconvEscape(s);
      } else if buf[s] == 0 {
        ReachedNul(m, g.src, start, g.Text(s), s);
        return false, s;
      } else {
        g.Keep(s);
        s := s + 1;
      }
    }
  }

  /** Line ends are normalized. */
  method StrconvAttributeEol(buf: array<byte>, start: nat, quote: byte, escape: bool) returns (ok: bool, next: nat)
    requires Terminated(buf[..]) && start < buf.Length
    requires quote == '\'' as byte || quote == '"' as byte
    modifies buf
    ensures Converted(Attribute(quote, Newlines, escape), buf[..], old(buf[..]), start, next)
    ensures ok <==> Convert(Attribute(quote, Newlines, escape), old(buf[..]), start).Ended?
  {
    hide EscapeAt, Escaped, LineEnd, Convert, Gap.Text, Special, Terminated;
    var m := Attribute(quote, Newlines, escape);
    var g := new Gap(buf, start);
    var s := start;
    ReachedFirst(m, g.src, start);
    while true
      invariant fresh(g) && g.buf == buf && g.src == old(buf[..]) && g.start == start
      invariant g.Valid(s) && Reached(m, g.src, start, g.Text(s), s)
      decreases buf.Length - s
    {
      s := SkipPlain(g, m, s);
      ReachedNextIf(m, g.src, start, g.Text(s), s);
      if buf[s] == quote {
        ReachedEnd(m, g.src, start, g.Text(s), s);
        g.Finished(s);
        return true, s + 1;
      } else if buf[s] == CR {
        s := g.StrconvLineEnd(s, LF);
      } else if escape && buf[s] == '&' as byte {
        s := g.StrconvEscape(s);
      } else if buf[s] == 0 {
        ReachedNul(m, g.src, start, g.Text(s), s);
        return false, s;
      } else {
        g.Keep(s);
        s := s + 1;
      }
    }
  }

  /** Nothing but escapes. */
  method StrconvAttributeSimple(buf: array<byte>, start: nat, quote: byte, escape: bool) returns (ok: bool, next: nat)
    requires Terminated(buf[..]) && start < buf.Length
    requires quote == '\'' as byte || quote == '"' as byte
    modifies buf
    ensures Converted(Attribute(quote, Keep, escape), buf[..], old(buf[..]), start, next)
    ensures ok <==> Convert(Attribute(quote, Keep, escape), old(buf[..]), start).Ended?
  {
    hide EscapeAt, Escaped, LineEnd, Convert, Gap.Text;
    var m := Attribute(quote, Keep, escape);
    var g := new Gap(buf, start);
    var s := start;
    ReachedFirst(m, g.src, start);
    while true
      invariant fresh(g) && g.buf == buf && g.src == old(buf[..]) && g.start == start
      invariant g.Valid(s) && Reached(m, g.src, start, g.Text(s), s)
      decreases buf.Length - s
    {
      s := SkipPlain(g, m, s);
      ReachedNextIf(m, g.src, start, g.Text(s), s);
      if buf[s] == quote {
        ReachedEnd(m, g.src, start, g.Text(s), s);
        g.Finished(s);
        return true, s + 1;
      } else if escape && buf[s] == '&' as byte {
        s := g.StrconvEscape(s);
      } else if buf[s] == 0 {
        ReachedNul(m, g.src, start, g.Text(s), s);
        return false, s;
      } else {
        g.Keep(s);
        s := s + 1;
      }
    }
  }

  lemma ReachedNextIf(m: Mode, src: seq<byte>, start: nat, text: seq<byte>, s: nat)
    requires Reached(m, src, start, text, s)
    ensures Step(m, src, s).Emit? ==> Reached(m, src, start, text + Step(m, src, s).bytes, Step(m, src, s).next)
  {
    if Step(m, src, s).Emit? {
      ReachedNext(m, src, start, text, s);
    }
  }

  lemma ReachedFirst(m: Mode, src: seq<byte>, start: nat)
    requires Terminated(src) && start < |src|
    ensures Reached(m, src, start, [], start)
  {
    var rest := Convert(m, src, start);
    if rest.Ended? {
      assert [] + rest.text == rest.text;
    }
  }

  lemma ReachedEnd(m: Mode, src: seq<byte>, start: nat, text: seq<byte>, s: nat)
    requires Reached(m, src, start, text, s) && Step(m, src, s) == Stop(s + 1)
    ensures Convert(m, src, start) == Ended(text, s + 1)
  {
    assert text + [] == text;
  }

  lemma ReachedNul(m: Mode, src: seq<byte>, start: nat, text: seq<byte>, s: nat)
    requires Reached(m, src, start, text, s) && Step(m, src, s) == RunOut
    ensures Convert(m, src, start) == Unended(s)
  {
  }
}
