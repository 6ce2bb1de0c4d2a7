/**
  What character references and line ends in a text mean: numerals and names instead of the converter's scanning.
 */
module References {
  import opened Common
  import opened Utf8
  import opened TextConversion
  import opened XmlPrinter
  import opened XmlRoundTrip

  // ----- numerals -----

  const LOWER := "0123456789abcdef"
  const UPPER := "0123456789ABCDEF"

  /** The numeral of a number, without leading zeros. */
  function Numeral(n: nat, base: nat, digits: string): (s: string)
    requires (base == 10 || base == 16) && |digits| == 16
    ensures s != []
    decreases n
  {
    if base == 10 then (if n < 10 then "" else Numeral(n / 10, base, digits)) + [digits[n % 10]]
    else (if n < 16 then "" else Numeral(n / 16, base, digits)) + [digits[n % 16]]
  }

  /** The source has the text at `i`. */
  predicate Reads(src: seq<byte>, i: nat, text: string)
  {
    i + |text| < |src| && forall k | 0 <= k < |text| :: src[i + k] == text[k] as nat
  }

  function Base(hexadecimal: bool): nat { if hexadecimal then 16 else 10 }

  /** The numeral of a reference, in upper or lower case. */
  function Written(n: nat, hexadecimal: bool, upper: bool): string
  {
    Numeral(n, Base(hexadecimal), if upper then UPPER else LOWER)
  }

  lemma DigitOf(d: nat, base: nat, upper: bool)
    requires d < base && (base == 10 || base == 16)
    ensures var c := (if upper then UPPER else LOWER)[d] as nat;
            c < 128 && c != ';' as nat && c != 'x' as nat && Digit(c, base) == d
  {
  }

  /** Reading a numeral after `value` has been read: its digits are appended. */
  lemma {:induction false} NumeralRead(src: seq<byte>, p: nat, n: nat, base: nat, upper: bool)
    requires Terminated(src) && (base == 10 || base == 16) && n < 0x1_0000_0000
    requires Reads(src, p, Numeral(n, base, if upper then UPPER else LOWER))
    ensures Digits(src, p, base, 0) == Digits(src, p + |Numeral(n, base, if upper then UPPER else LOWER)|, base, n)
    decreases n
  {
    hide Digits, Reads, Numeral;
    var digits := if upper then UPPER else LOWER;
    Numerals(n, base, digits);
    if n < base {
      ReadsOne(src, p, Numeral(n, base, digits));
      DigitRead(src, p, 0, n, base, upper);
    } else {
      var front := Numeral(n / base, base, digits);
      ReadsBoth(src, p, front, [digits[n % base]]);
      NumeralRead(src, p, n / base, base, upper);
      DigitRead(src, p + |front|, n / base, n % base, base, upper);
    }
  }

  lemma Numerals(n: nat, base: nat, digits: string)
    requires (base == 10 || base == 16) && |digits| == 16
    ensures n % base < base && base * (n / base) + n % base == n
    ensures if n < base then n % base == n && Numeral(n, base, digits) == [digits[n]]
            else n / base < n && Numeral(n, base, digits) == Numeral(n / base, base, digits) + [digits[n % base]]
  {
  }

  lemma ReadsBoth(src: seq<byte>, i: nat, a: string, b: string)
    requires Reads(src, i, a + b)
    ensures Reads(src, i, a) && Reads(src, i + |a|, b)
    ensures b != [] ==> i + |a| < |src| && src[i + |a|] == b[0] as nat
  {
    assert forall k | 0 <= k < |a| :: (a + b)[k] == a[k];
    forall k | 0 <= k < |b| ensures src[i + |a| + k] == b[k] as nat {
      assert (a + b)[|a| + k] == b[k] && src[i + (|a| + k)] == (a + b)[|a| + k] as nat;
    }
    assert b != [] ==> src[i + |a| + 0] == b[0] as nat;
  }

  lemma ReadsOne(src: seq<byte>, i: nat, a: string)
    requires Reads(src, i, a) && a != []
    ensures i < |src| && src[i] == a[0] as nat
  {
    assert src[i + 0] == a[0] as nat;
  }

  lemma DigitRead(src: seq<byte>, p: nat, value: nat, d: nat, base: nat, upper: bool)
    requires Terminated(src) && p < |src| && (base == 10 || base == 16) && d < base
    requires src[p] == (if upper then UPPER else LOWER)[d] as nat && base * value + d < 0x1_0000_0000
    ensures Digits(src, p, base, value) == Digits(src, p + 1, base, base * value + d)
  {
    hide Digit, Any;
    DigitOf(d, base, upper);
    NoWrap(base * value + d);
  }

  lemma NoWrap(n: nat)
    requires n < 0x1_0000_0000
    ensures n % 0x1_0000_0000 == n
  {
  }

  // ----- references -----

  /** A numeric reference. */
  function Reference(n: nat, hexadecimal: bool, upper: bool): string
  {
    (if hexadecimal then "&#x" else "&#") + Written(n, hexadecimal, upper) + ";"
  }

  /** Every number below 2 to the 32 is read from its reference, in either base and case, whatever follows. */
  lemma NumericReference(src: seq<byte>, i: nat, n: nat, hexadecimal: bool, upper: bool)
    requires Terminated(src) && n < 0x1_0000_0000 && Reads(src, i, Reference(n, hexadecimal, upper))
    ensures src[i] == '&' as byte
    ensures Escaped(src, i) == Emit(Any(n), i + |Reference(n, hexadecimal, upper)|)
  {
    hide Digits, Numeral, EscapeAt;
    var w := Written(n, hexadecimal, upper);
    var head := if hexadecimal then "&#x" else "&#";
    var p := i + |head|;
    assert Reads(src, i, head) && Reads(src, p, w) && Reads(src, p + |w|, ";") by {
      hide Reads;
      ReadsBoth(src, i, head + w, ";");
      ReadsBoth(src, i, head, w);
    }
    assert head[0] == '&' && head[1] == '#' && (hexadecimal ==> head[2] == 'x');
    assert src[i + 0] == head[0] as nat && src[i + 1] == head[1] as nat && (hexadecimal ==> src[i + 2] == head[2] as nat);
    ReadsOne(src, p, w);
    ReadsOne(src, p + |w|, ";");
    FirstDigit(n, Base(hexadecimal), upper);
    BeginsNumber(src, i, hexadecimal);
    NumeralRead(src, p, n, Base(hexadecimal), upper);
    EndOfDigits(src, p + |w|, Base(hexadecimal), n);
  }

  lemma BeginsNumber(src: seq<byte>, i: nat, hexadecimal: bool)
    requires Terminated(src) && i + 3 < |src| && src[i] == '&' as byte && src[i + 1] == '#' as byte
    requires if hexadecimal then src[i + 2] == 'x' as byte && src[i + 3] != ';' as byte
             else src[i + 2] != 'x' as byte && src[i + 2] != ';' as byte
    ensures EscapeAt(src, i) == Digits(src, if hexadecimal then i + 3 else i + 2, Base(hexadecimal), 0)
  {
    hide Digits;
  }

  lemma EndOfDigits(src: seq<byte>, p: nat, base: nat, n: nat)
    requires Terminated(src) && (base == 10 || base == 16) && p + 1 < |src| && src[p] == ';' as nat
    ensures Digits(src, p, base, n) == Char(Any(n), p + 1)
  {
  }

  lemma {:induction false} FirstDigit(n: nat, base: nat, upper: bool)
    requires base == 10 || base == 16
    ensures var c := Numeral(n, base, if upper then UPPER else LOWER)[0]; c != ';' && (base == 10 ==> c != 'x')
    decreases n
  {
    DigitOf(n % base, base, upper);
    if n >= base {
      FirstDigit(n / base, base, upper);
    }
  }

  /** The five names, and the character that each stands for. */
  function EntityOf(c: char): string
    requires c in "<>&'\""
  {
    if c == '<' then "&lt;" else if c == '>' then "&gt;" else if c == '&' then "&amp;"
    else if c == '\'' then "&apos;" else "&quot;"
  }

  lemma NamedReference(src: seq<byte>, i: nat, c: char)
    requires Terminated(src) && c in "<>&'\"" && Reads(src, i, EntityOf(c))
    ensures src[i] == '&' as byte
    ensures Escaped(src, i) == Emit([c as byte], i + |EntityOf(c)|)
  {
    var s := EntityOf(c);
    assert src[i + 0] == s[0] as nat && src[i + 1] == s[1] as nat && src[i + 2] == s[2] as nat && src[i + 3] == s[3] as nat;
    if c == '&' || c == '\'' || c == '"' {
      assert src[i + 4] == s[4] as nat;
    }
    if c == '\'' || c == '"' {
      assert src[i + 5] == s[5] as nat;
    }
  }

  /** One of the five names stands here. */
  predicate IsNamed(src: seq<byte>, i: nat, e: Escape)
  {
    exists c | c in "<>&'\"" :: Reads(src, i, EntityOf(c)) && e == Char([c as byte], i + |EntityOf(c)|)
  }

  /** Digits stand here, at least one, and a semicolon. */
  predicate IsNumeric(src: seq<byte>, i: nat, hexadecimal: bool, next: nat)
  {
    var p := if hexadecimal then i + 3 else i + 2;
    && p + 1 < next <= |src| && Reads(src, i, if hexadecimal then "&#x" else "&#") && src[next - 1] == ';' as byte
    && forall k | p <= k < next - 1 :: Digit(src[k], Base(hexadecimal)) >= 0
  }

  /** Nothing else is a reference; what is none stays as it is. */
  lemma OnlyReferences(src: seq<byte>, i: nat)
    requires Terminated(src) && i < |src| && src[i] == '&' as byte
    ensures var e := EscapeAt(src, i);
            if e.Char? then IsNamed(src, i, e) || IsNumeric(src, i, false, e.next) || IsNumeric(src, i, true, e.next)
            else Escaped(src, i) == Emit(src[i..e.next], e.next)
  {
    hide Digits, Digit;
    var e := EscapeAt(src, i);
    if e.Char? {
      if src[i + 1] == '#' as byte {
        var hexadecimal := src[i + 2] == 'x' as byte;
        var p := if hexadecimal then i + 3 else i + 2;
        DigitsAre(src, p, Base(hexadecimal), 0);
        assert IsNumeric(src, i, hexadecimal, e.next);
      } else {
        NamesOnly(src, i);
      }
    }
  }

  lemma NamesOnly(src: seq<byte>, i: nat)
    requires Terminated(src) && i < |src| && src[i] == '&' as byte && src[i + 1] != '#' as byte && EscapeAt(src, i).Char?
    ensures IsNamed(src, i, EscapeAt(src, i))
  {
    var c := src[i + 1];
    var name := if c == 'l' as byte then '<' else if c == 'g' as byte then '>' else if c == 'q' as byte then '"'
                else if src[i + 2] == 'm' as byte then '&' else '\'';
    assert Reads(src, i, EntityOf(name));
    assert name in "<>&'\"";
  }

  lemma NulIsNoDigit(base: nat)
    requires base == 10 || base == 16
    ensures Digit(0, base) < 0
  {
  }

  lemma {:induction false} DigitsAre(src: seq<byte>, p: nat, base: nat, value: nat)
    requires Terminated(src) && p < |src| && (base == 10 || base == 16)
    ensures var e := Digits(src, p, base, value);
            e.Char? ==>
              && p < e.next && src[e.next - 1] == ';' as byte
              && forall k | p <= k < e.next - 1 :: Digit(src[k], base) >= 0
    decreases |src| - p
  {
    hide Digit;
    NulIsNoDigit(base);
    if Digit(src[p], base) >= 0 {
      DigitsAre(src, p + 1, base, (base * value + Digit(src[p], base)) % 0x1_0000_0000);
    }
  }

  // ----- line ends and blanks -----

  /** A space for every blank, as section 3.3.3 has it for attribute values. */
  function Blanked(s: seq<byte>): (t: seq<byte>)
    ensures |t| == |s|
  {
    if s == [] then [] else [if IsSpace(s[0]) then SPACE else s[0]] + Blanked(s[1..])
  }

  /** What a mode makes of a text without references. */
  function Normalized(m: Mode, s: seq<byte>): seq<byte>
  {
    match m
    case Pcdata(eol, _) => if eol then Eol(s) else s
    case Attribute(_, Keep, _) => s
    case Attribute(_, Newlines, _) => Eol(s)
    case Attribute(_, Spaces, _) => Blanked(Eol(s))
    case Cdata(_) => Eol(s)
  }

  /** Characters that stand for themselves or end a line. */
  predicate Plain(m: Mode, c: byte)
  {
    && c != 0
    && match m
       case Pcdata(_, _) => c != '<' as byte && c != '&' as byte
       case Attribute(quote, _, _) => c != quote && c != '&' as byte
       case Cdata(_) => c != ']' as byte
  }

  /** The character that ends a text of the mode. */
  predicate Closes(m: Mode, src: seq<byte>, i: nat)
    requires Terminated(src) && i < |src|
  {
    match m
    case Pcdata(_, _) => src[i] == '<' as byte
    case Attribute(quote, _, _) => src[i] == quote
    case Cdata(endch) => EndsCdata(src, i, endch)
  }

  /** How much of a text the first step takes: a character, or a line end. */
  function FirstTaken(m: Mode, s: seq<byte>): (n: nat)
    requires s != []
    ensures 1 <= n <= |s|
  {
    if s[0] == CR && Reduces(m) && |s| > 1 && s[1] == LF then 2 else 1
  }

  /** What the first step makes of it. */
  function FirstGiven(m: Mode, s: seq<byte>): byte
    requires s != []
  {
    var c := if s[0] == CR && Reduces(m) then LF else s[0];
    if m.Attribute? && m.blanks.Spaces? && IsSpace(c) then SPACE else c
  }

  predicate Stands(src: seq<byte>, i: nat, s: seq<byte>)
  {
    i + |s| < |src| && src[i..i + |s|] == s
  }

  lemma StandsBehind(src: seq<byte>, i: nat, s: seq<byte>, n: nat)
    requires Stands(src, i, s) && n <= |s|
    ensures Stands(src, i + n, s[n..]) && forall k | 0 <= k < |s| :: src[i + k] == s[k]
  {
    assert src[i + n..i + |s|] == src[i..i + |s|][n..];
    var w := src[i..i + |s|];
    forall k | 0 <= k < |s| ensures src[i + k] == s[k] {
      assert w[k] == src[i + k];
    }
  }

  lemma PlainStep(m: Mode, src: seq<byte>, i: nat, s: seq<byte>)
    requires Terminated(src) && ValidMode(m) && s != [] && Plain(m, s[0]) && Stands(src, i, s)
    requires Closes(m, src, i + |s|)
    ensures Step(m, src, i) == Emit([FirstGiven(m, s)], i + FirstTaken(m, s))
  {
    hide EscapeAt, Escaped, Stands;
    StandsBehind(src, i, s, 0);
    assert src[i + 0] == s[0];
    if |s| > 1 {
      assert src[i + 1] == s[1];
    }
  }

  /** A text without references is converted to its normal form, in every mode. */
  lemma {:induction false} PlainTextConverts(m: Mode, src: seq<byte>, i: nat, s: seq<byte>)
    requires Terminated(src) && ValidMode(m) && (forall k | 0 <= k < |s| :: Plain(m, s[k]))
    requires Stands(src, i, s) && Closes(m, src, i + |s|)
    ensures Convert(m, src, i) == Ended(Normalized(m, s), i + |s| + 1)
    decreases |s|
  {
    hide Normalized, Plain, FirstTaken, FirstGiven, Terminated, EscapeAt, Escaped, Reduces;
    if s == [] {
      NothingNormalized(m);
      ClosingStep(m, src, i);
    } else {
      hide Closes, Step;
      var n := FirstTaken(m, s);
      PlainStep(m, src, i, s);
      NormalizedFirst(m, s);
      StandsBehind(src, i, s, n);
      PlainTextConverts(m, src, i + n, s[n..]);
    }
  }

  lemma ClosingStep(m: Mode, src: seq<byte>, i: nat)
    requires Terminated(src) && ValidMode(m) && i < |src| && Closes(m, src, i)
    ensures Step(m, src, i) == Stop(i + 1)
  {
  }

  lemma NothingNormalized(m: Mode)
    ensures Normalized(m, []) == []
  {
  }

  /** The first character or line end of a text, on its own. */
  lemma NormalizedFirst(m: Mode, s: seq<byte>)
    requires s != []
    ensures Normalized(m, s) == [FirstGiven(m, s)] + Normalized(m, s[FirstTaken(m, s)..])
  {
  }

  /** The mode reads a carriage return and a line feed as one line end. */
  predicate Reduces(m: Mode)
  {
    match m
    case Pcdata(eol, _) => eol
    case Attribute(_, blanks, _) => !blanks.Keep?
    case Cdata(_) => true
  }

  // ----- what is printed -----

  /** The text has these characters at `k`. */
  predicate Shows(t: seq<byte>, k: nat, text: string)
  {
    k + |text| <= |t| && forall i | 0 <= i < |text| :: t[k + i] == text[i] as nat
  }

  /** A reference that the printer writes stands here: to a character by name, or to a control character by two digits. */
  predicate BeginsReference(t: seq<byte>, k: nat)
  {
    || Shows(t, k, "&lt;") || Shows(t, k, "&gt;") || Shows(t, k, "&amp;") || Shows(t, k, "&quot;")
    || exists n: nat :: n < 32 && Shows(t, k, "&#" + TwoDigits(n) + ";")
  }

  function TwoDigits(n: nat): (s: string)
    requires n < 100
    ensures |s| == 2 && s[0] < 128 as char && s[1] < 128 as char
  {
    [LOWER[n / 10], LOWER[n % 10]]
  }

  /** What each character is printed as. */
  lemma PrintedCharacter(attr: bool, c: byte)
    ensures c == '<' as byte ==> PrintChar(attr, c) == Bytes("&lt;")
    ensures c == '>' as byte ==> PrintChar(attr, c) == Bytes("&gt;")
    ensures c == '&' as byte ==> PrintChar(attr, c) == Bytes("&amp;")
    ensures c == '"' as byte ==> PrintChar(attr, c) == if attr then Bytes("&quot;") else [c]
    ensures 0 < c < 32 && c != TAB && (attr || (c != LF && c != CR)) ==>
              PrintChar(attr, c) == Bytes("&#" + TwoDigits(c) + ";")
    ensures c in {0, TAB} || (!attr && c in {LF, CR}) ==> PrintChar(attr, c) == [c]
    ensures c >= 32 && c != '<' as byte && c != '>' as byte && c != '&' as byte && c != '"' as byte ==>
              PrintChar(attr, c) == [c]
  {
  }

  /** No markup in printed text. */
  predicate Harmless(attr: bool, t: seq<byte>, k: nat)
    requires k < |t|
  {
    && t[k] != '<' as byte && t[k] != '>' as byte && (attr ==> t[k] != '"' as byte)
    && (t[k] == '&' as byte ==> BeginsReference(t, k))
    && (t[k] < 32 ==> t[k] in {0, TAB} || (!attr && t[k] in {LF, CR}))
  }

  lemma HarmlessCharacter(attr: bool, c: byte, k: nat)
    requires k < |PrintChar(attr, c)|
    ensures Harmless(attr, PrintChar(attr, c), k)
  {
    PrintedCharacter(attr, c);
    var t := PrintChar(attr, c);
    if 0 < c < 32 && c != TAB && (attr || (c != LF && c != CR)) {
      assert Shows(t, 0, "&#" + TwoDigits(c) + ";");
    } else if c == '&' as byte {
      assert Shows(t, 0, "&amp;");
    } else if c == '<' as byte {
      assert Shows(t, 0, "&lt;");
    } else if c == '>' as byte {
      assert Shows(t, 0, "&gt;");
    } else if attr && c == '"' as byte {
      assert Shows(t, 0, "&quot;");
    }
  }

  lemma ShownInFront(a: seq<byte>, b: seq<byte>, k: nat, text: string)
    requires Shows(a, k, text)
    ensures Shows(a + b, k, text)
  {
  }

  lemma ShownBehind(a: seq<byte>, b: seq<byte>, k: nat, text: string)
    requires Shows(b, k, text)
    ensures Shows(a + b, |a| + k, text)
  {
    forall i | 0 <= i < |text| ensures (a + b)[|a| + k + i] == text[i] as nat {
      assert (a + b)[|a| + k + i] == b[k + i];
    }
  }

  lemma ReferenceInFront(a: seq<byte>, b: seq<byte>, k: nat)
    requires BeginsReference(a, k)
    ensures BeginsReference(a + b, k)
  {
    hide Shows;
    if exists n: nat :: n < 32 && Shows(a, k, "&#" + TwoDigits(n) + ";") {
      var n: nat :| n < 32 && Shows(a, k, "&#" + TwoDigits(n) + ";");
      ShownInFront(a, b, k, "&#" + TwoDigits(n) + ";");
    } else {
      var name := if Shows(a, k, "&lt;") then "&lt;" else if Shows(a, k, "&gt;") then "&gt;"
                  else if Shows(a, k, "&amp;") then "&amp;" else "&quot;";
      ShownInFront(a, b, k, name);
    }
  }

  lemma ReferenceBehind(a: seq<byte>, b: seq<byte>, k: nat)
    requires BeginsReference(b, k)
    ensures BeginsReference(a + b, |a| + k)
  {
    hide Shows;
    if exists n: nat :: n < 32 && Shows(b, k, "&#" + TwoDigits(n) + ";") {
      var n: nat :| n < 32 && Shows(b, k, "&#" + TwoDigits(n) + ";");
      ShownBehind(a, b, k, "&#" + TwoDigits(n) + ";");
    } else {
      var name := if Shows(b, k, "&lt;") then "&lt;" else if Shows(b, k, "&gt;") then "&gt;"
                  else if Shows(b, k, "&amp;") then "&amp;" else "&quot;";
      ShownBehind(a, b, k, name);
    }
  }

  /**
    Printed text contains no angle bracket, attribute values contain no double quote, every ampersand begins a reference, and
    control characters are left only where they may stand.
   */
  lemma {:induction false} PrintedText(attr: bool, s: seq<byte>, k: nat)
    requires k < |PrintText(attr, s)|
    ensures Harmless(attr, PrintText(attr, s), k)
  {
    hide PrintChar, BeginsReference;
    var a, b := PrintChar(attr, s[0]), PrintText(attr, s[1..]);
    if k < |a| {
      HarmlessCharacter(attr, s[0], k);
      if a[k] == '&' as byte {
        ReferenceInFront(a, b, k);
      }
    } else {
      PrintedText(attr, s[1..], k - |a|);
      if b[k - |a|] == '&' as byte {
        ReferenceBehind(a, b, k - |a|);
      }
    }
  }

  // ----- a document -----

  lemma BytesOfBoth(a: string, b: string)
    requires (forall i | 0 <= i < |a| :: a[i] < 128 as char) && (forall i | 0 <= i < |b| :: b[i] < 128 as char)
    ensures forall i | 0 <= i < |a + b| :: (a + b)[i] < 128 as char
    ensures Bytes(a + b) == Bytes(a) + Bytes(b)
  {
  }

  lemma OnePrinted(attr: bool, c: byte)
    ensures PrintText(attr, [c]) == PrintChar(attr, c)
  {
    assert [c][1..] == [];
  }

  /** The end of a section inside the text is split between two sections. */
  lemma SplitSection()
    ensures Print(Node.Cdata(Bytes("]]>"))) == Bytes("<![CDATA[]]]]>") + Bytes("<![CDATA[>]]>")
  {
    hide PrintSection, FirstEnd, Bytes;
    TwoPieces();
    var first, rest := Bytes("]]"), Bytes(">");
    var last: seq<seq<byte>> := [rest];
    assert [first, rest][1..] == last && |last[1..]| == 0;
    assert PrintSections(last) == PrintSection(rest);
    FirstSection();
    SecondSection();
  }

  lemma TwoPieces()
    ensures Pieces(Bytes("]]>")) == [Bytes("]]"), Bytes(">")]
  {
    var v := Bytes("]]>");
    assert EndsAt(v, 0) && FirstEnd(v, 0) == 0;
    assert v[..2] == Bytes("]]") && v[2..] == Bytes(">");
    var rest := Bytes(">");
    assert !EndsAt(rest, 0) && FirstEnd(rest, 0) == 1;
    assert Pieces(rest) == [rest];
  }

  lemma FirstSection()
    ensures PrintSection(Bytes("]]")) == Bytes("<![CDATA[]]]]>")
  {
    hide Bytes;
    BytesOfBoth("<![CDATA[", "]]");
    BytesOfBoth("<![CDATA[" + "]]", "]]>");
    assert "<![CDATA[" + "]]" + "]]>" == "<![CDATA[]]]]>";
  }

  lemma SecondSection()
    ensures PrintSection(Bytes(">")) == Bytes("<![CDATA[>]]>")
  {
    hide Bytes;
    BytesOfBoth("<![CDATA[", ">");
    BytesOfBoth("<![CDATA[" + ">", "]]>");
    assert "<![CDATA[" + ">" + "]]>" == "<![CDATA[>]]>";
  }

  lemma LastPrinted(n: Node)
    ensures PrintAll([n]) == Print(n)
  {
    assert |[n][1..]| == 0;
  }

  lemma OneAttrPrinted(a: Attr)
    ensures PrintAttrs([a]) == PrintAttr(a)
  {
    assert |[a][1..]| == 0;
  }

  lemma PrintedAttribute()
    ensures PrintAttr(Attr(Bytes("b"), Bytes("<"))) == Bytes(" b=\"&lt;\"")
  {
    PrintedCharacter(true, '<' as byte);
    OnePrinted(true, '<' as byte);
    assert Bytes("<") == ['<' as byte];
  }

  lemma PrintedChildren()
    ensures PrintAll([Element(Bytes("c"), [], []), Node.Pcdata(Bytes("&"))]) == Bytes("<c />&amp;")
  {
    hide PrintText;
    PrintedCharacter(false, '&' as byte);
    OnePrinted(false, '&' as byte);
    assert Bytes("&") == ['&' as byte];
    var c, t := Element(Bytes("c"), [], []), Node.Pcdata(Bytes("&"));
    assert PrintAttrs([]) == [];
    assert Print(c) == Bytes("<c />");
    assert [c, t][1..] == [t];
    LastPrinted(t);
  }

  /** An element with an attribute, an empty element and text, as they are printed. */
  lemma PrintedDocument()
    ensures Print(Element(Bytes("a"), [Attr(Bytes("b"), Bytes("<"))],
                          [Element(Bytes("c"), [], []), Node.Pcdata(Bytes("&"))]))
         == Bytes("<a b=\"&lt;\"><c />&amp;</a>")
  {
    hide PrintAttr, PrintAll, PrintAttrs, Bytes;
    OneAttrPrinted(Attr(Bytes("b"), Bytes("<")));
    PrintedAttribute();
    PrintedChildren();
    Wrapped();
  }

  lemma Wrapped()
    ensures Bytes("a") != []
    ensures Bytes("<") + Bytes("a") + Bytes(" b=\"&lt;\"")
            + (Bytes(">") + Bytes("<c />&amp;") + Bytes("</") + Bytes("a") + Bytes(">"))
         == Bytes("<a b=\"&lt;\"><c />&amp;</a>")
  {
    hide Bytes;
    var front, back := "<a b=\"&lt;\"", "><c />&amp;</a>";
    FrontPart();
    BackPart();
    BytesOfBoth(front, back);
    assert front + back == "<a b=\"&lt;\"><c />&amp;</a>";
  }

  lemma FrontPart()
    ensures Bytes("<") + Bytes("a") + Bytes(" b=\"&lt;\"") == Bytes("<a b=\"&lt;\"")
  {
  }

  lemma BackPart()
    ensures Bytes(">") + Bytes("<c />&amp;") + Bytes("</") + Bytes("a") + Bytes(">") == Bytes("><c />&amp;</a>")
  {
  }
}
