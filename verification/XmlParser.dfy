/**
  Parsing in place with the default flags: where each step of the loop goes, as a function of the source, and the loop
  itself over the buffer that it overwrites.
 */
module XmlParser {
  import opened Common
  import opened Utf8
  import opened TextConversion
  import opened XmlPrinter

  // ----- scanning -----

  predicate IsStartSymbol(c: byte)
  {
    || 'a' as byte <= c <= 'z' as byte || 'A' as byte <= c <= 'Z' as byte
    || c == '_' as byte || c == ':' as byte || c > 127
  }

  predicate IsSymbol(c: byte)
  {
    IsStartSymbol(c) || '0' as byte <= c <= '9' as byte || c == '-' as byte || c == '.' as byte
  }

  function SkipWs(src: seq<byte>, i: nat): (j: nat)
    requires Terminated(src) && i < |src|
    ensures i <= j < |src| && !IsSpace(src[j]) && forall k | i <= k < j :: IsSpace(src[k])
    decreases |src| - i
  {
    if IsSpace(src[i]) then SkipWs(src, i + 1) else i
  }

  function ScanSymbols(src: seq<byte>, i: nat): (j: nat)
    requires Terminated(src) && i < |src|
    ensures i <= j < |src| && !IsSymbol(src[j]) && forall k | i <= k < j :: IsSymbol(src[k])
    decreases |src| - i
  {
    if IsSymbol(src[i]) then ScanSymbols(src, i + 1) else i
  }

  function ScanFor(src: seq<byte>, i: nat, c: byte): (j: nat)
    requires Terminated(src) && i < |src|
    ensures i <= j < |src| && (src[j] == 0 || src[j] == c) && forall k | i <= k < j :: src[k] != 0 && src[k] != c
    decreases |src| - i
  {
    if src[i] == 0 || src[i] == c then i else ScanFor(src, i + 1, c)
  }

  // ----- the cursor -----

  /** An element whose end has not been seen; the first of a stack is the document. */
  datatype Open = Open(name: seq<byte>, attrs: seq<Attr>, children: seq<Node>)

  function AddChild(stack: seq<Open>, n: Node): (t: seq<Open>)
    requires stack != []
    ensures |t| == |stack|
  {
    var top := stack[|stack| - 1];
    stack[..|stack| - 1] + [top.(children := top.children + [n])]
  }

  function AddAttr(stack: seq<Open>, a: Attr): (t: seq<Open>)
    requires stack != []
    ensures |t| == |stack|
  {
    var top := stack[|stack| - 1];
    stack[..|stack| - 1] + [top.(attrs := top.attrs + [a])]
  }

  function Push(stack: seq<Open>, name: seq<byte>): (t: seq<Open>)
    ensures |t| == |stack| + 1
  {
    stack + [Open(name, [], [])]
  }

  /** The element is complete. */
  function Pop(stack: seq<Open>): (t: seq<Open>)
    requires |stack| >= 2
    ensures |t| == |stack| - 1
  {
    var top := stack[|stack| - 1];
    AddChild(stack[..|stack| - 1], Element(top.name, top.attrs, top.children))
  }

  // ----- steps -----

  datatype Status =
    | UnrecognizedTag | BadStartElement | BadAttribute | BadEndElement | EndElementMismatch | BadCdata | BadComment | BadPi

  /**
    Where the loop goes on, or leaves; an error with its offset; or a tag that is not part of this model (comments,
    processing instructions and document types).
   */
  datatype Next =
    | At(i: nat, stack: seq<Open>)
    | Leave(i: nat, stack: seq<Open>)
    | Failed(status: Status, offset: nat)
    | Other

  /** What a C string shows of a text. */
  function UpToNul(s: seq<byte>): (t: seq<byte>)
    ensures t <= s && 0 !in t && (t == s || s[|t|] == 0)
  {
    if s == [] || s[0] == 0 then [] else [s[0]] + UpToNul(s[1..])
  }

  datatype AttrNext = Got(attr: Attr, next: nat) | Bad(offset: nat)

  predicate IsQuote(c: byte) { c == '"' as byte || c == '\'' as byte }

  /** From the quote on. */
  function AttrValue(src: seq<byte>, name: seq<byte>, s: nat): (r: AttrNext)
    requires Terminated(src) && s < |src|
    ensures r.Got? ==> s < r.next < |src| && r.attr.name == name
  {
    var q := SkipWs(src, s);
    if !IsQuote(src[q]) then Bad(q)
    else
      var o := Convert(Attribute(src[q], Spaces, true), src, q + 1);
      if o.Unended? then Bad(q + 1) else Got(Attr(name, UpToNul(o.text)), o.next)
  }

  /** Behind the equals sign, or the offset of the error. */
  datatype Sign = Sign(next: nat) | NoSign(offset: nat)

  /** The equals sign behind a name that ends at `k`. */
  function FindSign(src: seq<byte>, k: nat): (r: Sign)
    requires Terminated(src) && k < |src|
    ensures r.Sign? ==> k < r.next < |src|
  {
    if src[k] == 0 then NoSign(k)
    else if src[k + 1] == 0 then NoSign(k + 1)
    else
      var m := if IsSpace(src[k]) then SkipWs(src, k + 1) else k;
      if src[m] == 0 then NoSign(m) else if src[m] == '=' as byte then Sign(m + 1) else NoSign(m + 1)
  }

  /** An attribute whose name begins at `i`. */
  function OneAttr(src: seq<byte>, i: nat): (r: AttrNext)
    requires Terminated(src) && i < |src|
    ensures r.Got? ==> i < r.next < |src|
  {
    var k := ScanSymbols(src, i);
    match FindSign(src, k)
    case NoSign(offset) => Bad(offset)
    case Sign(s) => AttrValue(src, src[i..k], s)
  }

  /** `LOC_ATTRIBUTES`: up to the end of the start tag. */
  function Attributes(src: seq<byte>, endch: byte, i: nat, stack: seq<Open>): (n: Next)
    requires Terminated(src) && i < |src| && |stack| >= 2
    ensures n.At? ==> i <= n.i < |src| && n.stack != []
    ensures !n.Leave?
    decreases |src| - i
  {
    var j := SkipWs(src, i);
    if IsStartSymbol(src[j]) then
      var r := OneAttr(src, j);
      if r.Bad? then Failed(BadAttribute, r.offset)
      else if IsStartSymbol(src[r.next]) then Failed(BadAttribute, r.next)
      else Attributes(src, endch, r.next, AddAttr(stack, r.attr))
    else if src[j] == '/' as byte then
      if src[j + 1] == '>' as byte then At(j + 2, Pop(stack))
      else if src[j + 1] == 0 && endch == '>' as byte then At(j + 1, Pop(stack))
      else Failed(BadStartElement, j + 1)
    else if src[j] == '>' as byte then At(j + 1, stack)
    else if src[j] == 0 && endch == '>' as byte then At(j, stack)
    else Failed(BadStartElement, j)
  }

  /** Behind a name, at `k`, that is followed by no blank. */
  function AfterName(src: seq<byte>, endch: byte, k: nat, t: seq<Open>): (n: Next)
    requires Terminated(src) && k < |src| && |t| >= 2
    ensures n.At? ==> k <= n.i < |src| && n.stack != []
    ensures !n.Leave?
  {
    if src[k] == '>' as byte then At(k + 1, t)
    else if src[k] == '/' as byte then
      if src[k + 1] == '>' as byte then At(k + 2, Pop(t))
      else if src[k + 1] == 0 && endch == '>' as byte then At(k + 1, Pop(t))
      else Failed(BadStartElement, k + 1)
    else if src[k] == 0 then
      if endch == '>' as byte then At(k, t) else Failed(BadStartElement, k)
    else Failed(BadStartElement, k + 1)
  }

  /** A tag whose name begins at `i`. */
  function StartTag(src: seq<byte>, endch: byte, i: nat, stack: seq<Open>): (n: Next)
    requires Terminated(src) && i < |src| && stack != []
    ensures n.At? ==> i <= n.i < |src| && n.stack != []
    ensures !n.Leave?
  {
    var k := ScanSymbols(src, i);
    var t := Push(stack, src[i..k]);
    if IsSpace(src[k]) then Attributes(src, endch, k + 1, t) else AfterName(src, endch, k, t)
  }

  /** The first place where two names differ. */
  function FirstDifference(a: seq<byte>, b: seq<byte>): (d: nat)
    ensures d <= |a| && d <= |b| && a[..d] == b[..d] && (d < |a| && d < |b| ==> a[d] != b[d])
  {
    if a == [] || b == [] || a[0] != b[0] then 0 else FirstDifference(a[1..], b[1..]) + 1
  }

  /** Where the name of an end tag ends, when it is the name of the element. */
  datatype Comparison = Same(k: nat) | Differs(status: Status, offset: nat)

  function CompareName(src: seq<byte>, endch: byte, i: nat, name: seq<byte>): (c: Comparison)
    requires Terminated(src) && i < |src|
    ensures c.Same? ==> i <= c.k < |src|
  {
    var k := ScanSymbols(src, i);
    var d := FirstDifference(src[i..k], name);
    if d < k - i then Differs(EndElementMismatch, i + d + 1)
    else if d < |name| then
      Differs(if src[k] == 0 && name[d..] == [endch] then BadEndElement else EndElementMismatch, k)
    else Same(k)
  }

  /** An end tag; `i` is behind the slash. */
  function EndTag(src: seq<byte>, endch: byte, i: nat, stack: seq<Open>): (n: Next)
    requires Terminated(src) && i < |src| && stack != []
    ensures n.At? ==> i <= n.i < |src| && n.stack != []
    ensures !n.Leave?
  {
    if |stack| == 1 then Failed(EndElementMismatch, i)
    else
      match CompareName(src, endch, i, stack[|stack| - 1].name)
      case Differs(status, offset) => Failed(status, offset)
      case Same(k) =>
        var j := SkipWs(src, k);
        if src[j] == 0 then
          if endch == '>' as byte then At(j, Pop(stack)) else Failed(BadEndElement, j)
        else if src[j] == '>' as byte then At(j + 1, Pop(stack))
        else Failed(BadEndElement, j)
  }

  /** `CDATA[`: where it stops to match. */
  function CdataMark(src: seq<byte>, i: nat): (j: nat)
    requires Terminated(src) && i < |src|
    ensures i <= j < |src| && j <= i + 6
    ensures j == i + 6 <==> i + 6 < |src| && src[i..i + 6] == Bytes("CDATA[")
  {
    var mark := Bytes("CDATA[");
    if src[i] != mark[0] then i
    else if src[i + 1] != mark[1] then i + 1
    else if src[i + 2] != mark[2] then i + 2
    else if src[i + 3] != mark[3] then i + 3
    else if src[i + 4] != mark[4] then i + 4
    else if src[i + 5] != mark[5] then i + 5
    else i + 6
  }

  /** A CDATA section; `i` is behind `<![`. */
  function Section(src: seq<byte>, endch: byte, i: nat, stack: seq<Open>): (n: Next)
    requires Terminated(src) && i < |src| && stack != []
    ensures n.At? ==> i <= n.i < |src| && n.stack != []
    ensures !n.Leave?
  {
    var j := CdataMark(src, i);
    if j < i + 6 then Failed(BadCdata, j)
    else
      var o := Convert(Mode.Cdata(endch), src, j);
      if o.Unended? then Failed(BadCdata, j)
      else
        // `o.next` is at the second bracket; the terminator may lack its last character
        CdataEnds(src, j, endch);
        At(if src[o.next + 1] == '>' as byte then o.next + 2 else o.next + 1, AddChild(stack, Node.Cdata(UpToNul(o.text))))
  }

  lemma {:induction false} CdataEnds(src: seq<byte>, i: nat, endch: byte)
    requires Terminated(src) && i < |src|
    ensures var o := Convert(Mode.Cdata(endch), src, i);
            o.Ended? ==> src[o.next] == ']' as byte && o.next + 1 < |src| && EndsCdata(src, o.next - 1, endch)
    decreases |src| - i
  {
    var a := Step(Mode.Cdata(endch), src, i);
    if a.Emit? {
      CdataEnds(src, a.next, endch);
    }
  }

  /** `parse_exclamation`; `i` is behind the exclamation mark. */
  function Exclamation(src: seq<byte>, endch: byte, i: nat, stack: seq<Open>): (n: Next)
    requires Terminated(src) && i < |src| && stack != []
    ensures n.At? ==> i <= n.i < |src| && n.stack != []
    ensures !n.Leave?
  {
    if src[i] == '[' as byte then Section(src, endch, i + 1, stack)
    else if src[i] == '-' as byte || src[i] == 'D' as byte then Other
    else if src[i] == 0 && endch == '-' as byte then Failed(BadComment, i)
    else if src[i] == 0 && endch == '[' as byte then Failed(BadCdata, i)
    else Failed(UnrecognizedTag, i)
  }

  /** `LOC_TAG`; `i` is behind the bracket. */
  function Tag(src: seq<byte>, endch: byte, i: nat, stack: seq<Open>): (n: Next)
    requires Terminated(src) && i < |src| && stack != []
    ensures n.At? ==> i <= n.i < |src| && n.stack != []
    ensures !n.Leave?
  {
    if IsStartSymbol(src[i]) then StartTag(src, endch, i, stack)
    else if src[i] == '/' as byte then EndTag(src, endch, i + 1, stack)
    else if src[i] == '?' as byte then Other
    else if src[i] == '!' as byte then Exclamation(src, endch, i + 1, stack)
    else if src[i] == 0 && endch == '?' as byte then Failed(BadPi, i)
    else Failed(UnrecognizedTag, i)
  }

  /** Text: PCDATA inside an element, otherwise skipped; the tag behind it is parsed at once. */
  function Text(src: seq<byte>, endch: byte, i: nat, stack: seq<Open>): (n: Next)
    requires Terminated(src) && i < |src| && stack != []
    ensures n.At? ==> i < n.i < |src| && n.stack != []
    ensures n.Leave? ==> n.i < |src| && src[n.i] == 0 && n.stack != []
  {
    if |stack| >= 2 then
      var o := Convert(Mode.Pcdata(true, true), src, i);
      // at the end of the buffer the element stays open, so what it holds does not matter
      if o.Unended? then Leave(o.at, stack)
      else if src[o.next] == 0 then Leave(o.next, stack)
      else Tag(src, endch, o.next, AddChild(stack, Node.Pcdata(UpToNul(o.text))))
    else
      var j := ScanFor(src, i, '<' as byte);
      if src[j] == 0 then Leave(j, stack) else Tag(src, endch, j + 1, stack)
  }

  /** One round of the loop. */
  function Round(src: seq<byte>, endch: byte, i: nat, stack: seq<Open>): (n: Next)
    requires Terminated(src) && i < |src| && stack != [] && src[i] != 0
    ensures n.At? ==> i < n.i < |src| && n.stack != []
    ensures n.Leave? ==> n.i < |src| && src[n.i] == 0 && n.stack != []
  {
    if src[i] == '<' as byte then Tag(src, endch, i + 1, stack)
    else
      var j := SkipWs(src, i);
      if src[j] == '<' as byte then At(j, stack) else Text(src, endch, i, stack)
  }

  datatype Result = Parsed(nodes: seq<Node>) | Error(status: Status, offset: nat) | Unmodelled

  function Finish(i: nat, stack: seq<Open>): Result
    requires stack != []
  {
    if |stack| == 1 then Parsed(stack[0].children) else Error(EndElementMismatch, i)
  }

  /** The whole loop, from `i` on. */
  function ParseFrom(src: seq<byte>, endch: byte, i: nat, stack: seq<Open>): Result
    requires Terminated(src) && i < |src| && stack != []
    decreases |src| - i
  {
    if src[i] == 0 then Finish(i, stack)
    else
      match Round(src, endch, i, stack)
      case At(j, t) => ParseFrom(src, endch, j, t)
      case Leave(j, t) => Finish(j, t)
      case Failed(status, offset) => Error(status, offset)
      case Other => Unmodelled
  }

  const DOCUMENT := Open([], [], [])

  /** The source with its last character cut off, which is how the buffer is made to end in a NUL. */
  function Cut(text: seq<byte>): (src: seq<byte>)
    requires text != []
    ensures Terminated(src) && |src| == |text|
  {
    text[..|text| - 1] + [0]
  }

  /** What a document parses to. */
  function ParseDocument(text: seq<byte>): Result
  {
    if text == [] then Parsed([])
    else
      var endch := text[|text| - 1];
      var r := ParseFrom(Cut(text), endch, 0, [DOCUMENT]);
      if r.Parsed? && endch == '<' as byte then Error(UnrecognizedTag, |text|) else r
  }

  // ----- in place -----

  /** What is still to be read is untouched. */
  ghost predicate Ahead(buf: array<byte>, src: seq<byte>, s: nat)
    reads buf
  {
    |src| == buf.Length && s <= buf.Length && buf[s..] == src[s..] && Terminated(src)
  }

  lemma AheadAt(buf: array<byte>, src: seq<byte>, s: nat)
    requires Ahead(buf, src, s)
    ensures forall j | s <= j < |src| :: buf[j] == src[j]
  {
    forall j | s <= j < |src| ensures buf[j] == src[j] {
      assert buf[s..][j - s] == src[s..][j - s];
    }
  }

  lemma AheadFurther(buf: array<byte>, src: seq<byte>, s: nat, t: nat)
    requires Ahead(buf, src, s) && s <= t <= buf.Length
    ensures Ahead(buf, src, t)
  {
    assert buf[t..] == buf[s..][t - s..] && src[t..] == src[s..][t - s..];
  }

  lemma StepSuffix(m: Mode, a: seq<byte>, b: seq<byte>, i: nat)
    requires Terminated(a) && Terminated(b) && |a| == |b| && i < |a| && a[i..] == b[i..]
    ensures Step(m, a, i) == Step(m, b, i)
  {
    hide Digits;
    assert forall k | i <= k < |a| :: a[k] == a[i..][k - i] && b[k] == b[i..][k - i];
    assert a[i] == b[i];
    if a[i] == '&' as byte {
      EscapeSuffix(a, b, i);
      var e := EscapeAt(a, i);
      assert a[i..e.next] == a[i..][..e.next - i] == b[i..][..e.next - i] == b[i..e.next];
    }
  }

  lemma EscapeSuffix(a: seq<byte>, b: seq<byte>, i: nat)
    requires Terminated(a) && Terminated(b) && |a| == |b| && i < |a| && a[i] == b[i] == '&' as byte
    requires forall k | i <= k < |a| :: a[k] == b[k]
    ensures EscapeAt(a, i) == EscapeAt(b, i)
  {
    hide Digits;
    if a[i + 1] == '#' as byte {
      if a[i + 2] == 'x' as byte {
        DigitsSuffix(a, b, i + 3, 16, 0);
      } else {
        DigitsSuffix(a, b, i + 2, 10, 0);
      }
    }
  }

  lemma {:induction false} DigitsSuffix(a: seq<byte>, b: seq<byte>, p: nat, base: nat, value: nat)
    requires Terminated(a) && Terminated(b) && |a| == |b| && p < |a| && (base == 10 || base == 16)
    requires forall k | p <= k < |a| :: a[k] == b[k]
    ensures Digits(a, p, base, value) == Digits(b, p, base, value)
    decreases |a| - p
  {
    if Digit(a[p], base) >= 0 {
      DigitsSuffix(a, b, p + 1, base, (base * value + Digit(a[p], base)) % 0x1_0000_0000);
    }
  }

  /** A converter reads nothing before its start. */
  lemma {:induction false} ConvertSuffix(m: Mode, a: seq<byte>, b: seq<byte>, i: nat)
    requires Terminated(a) && Terminated(b) && |a| == |b| && i < |a| && a[i..] == b[i..]
    ensures Convert(m, a, i) == Convert(m, b, i)
    decreases |a| - i
  {
    hide Step;
    StepSuffix(m, a, b, i);
    var s := Step(m, a, i);
    if s.Emit? {
      assert a[s.next..] == a[i..][s.next - i..] && b[s.next..] == b[i..][s.next - i..];
      ConvertSuffix(m, a, b, s.next);
    }
  }

  /** The text and a NUL behind it. */
  ghost predicate HoldsText(now: seq<byte>, start: nat, text: seq<byte>)
  {
    start + |text| < |now| && now[start..start + |text|] == text && now[start + |text|] == 0
  }

  /** What follows a converted text is untouched, and its text stands where the source had it. */
  lemma AfterConversion(m: Mode, now: seq<byte>, was: seq<byte>, src: seq<byte>, start: nat, next: nat)
    requires Terminated(was) && Terminated(src) && |src| == |was| && start < |was| && was[start..] == src[start..]
    requires Converted(m, now, was, start, next)
    ensures var o := Convert(m, src, start);
            && |now| == |src| && next < |src| && now[next..] == src[next..] && o == Convert(m, was, start)
            && (if o.Ended? then next == o.next && HoldsText(now, start, o.text) else next == o.at)
  {
    hide Convert;
    ConvertSuffix(m, was, src, start);
    assert next <= |was| && now[next..] == was[next..];
    assert was[next..] == was[start..][next - start..] && src[next..] == src[start..][next - start..];
  }

  // ----- the strings of the tree, which stay in the buffer -----

  /** A string of the tree: where it begins, and what it says. */
  datatype Stored = Stored(at: nat, text: seq<byte>)

  /** All strings stand in front of `s`, each with a NUL behind it. */
  ghost predicate Standing(now: seq<byte>, strings: seq<Stored>, s: nat)
  {
    forall k | 0 <= k < |strings| :: StandsAt(now, strings[k], s)
  }

  ghost predicate StandsAt(now: seq<byte>, x: Stored, s: nat)
  {
    x.at + |x.text| < s <= |now| && HoldsText(now, x.at, x.text)
  }

  function Said(strings: seq<Stored>): (ts: seq<seq<byte>>)
    ensures |ts| == |strings|
  {
    seq(|strings|, k requires 0 <= k < |strings| => strings[k].text)
  }

  function AttrTexts(attrs: seq<Attr>): seq<seq<byte>>
  {
    if attrs == [] then []
    else AttrTexts(attrs[..|attrs| - 1]) + [attrs[|attrs| - 1].name, attrs[|attrs| - 1].value]
  }

  /** The strings of a node in document order. */
  function NodeTexts(n: Node): seq<seq<byte>>
    decreases n
  {
    match n
    case Element(name, attrs, children) => [name] + AttrTexts(attrs) + NodesTexts(children)
    case Pcdata(value) => [value]
    case Cdata(value) => [value]
  }

  function NodesTexts(ns: seq<Node>): seq<seq<byte>>
    decreases ns
  {
    if ns == [] then [] else NodesTexts(ns[..|ns| - 1]) + NodeTexts(ns[|ns| - 1])
  }

  /** The strings of a start tag; the document has none. */
  function StartTexts(o: Open, document: bool): seq<seq<byte>>
  {
    if document then [] else [o.name] + AttrTexts(o.attrs)
  }

  /** The strings of all elements that are open. */
  function OpenTexts(stack: seq<Open>): seq<seq<byte>>
  {
    if stack == [] then []
    else
      var top := stack[|stack| - 1];
      OpenTexts(stack[..|stack| - 1]) + StartTexts(top, |stack| == 1) + NodesTexts(top.children)
  }

  lemma {:induction false} PushTexts(stack: seq<Open>, name: seq<byte>)
    requires stack != []
    ensures OpenTexts(Push(stack, name)) == OpenTexts(stack) + [name]
  {
    var t := Push(stack, name);
    assert t[..|t| - 1] == stack;
    assert [name] + [] == [name] && OpenTexts(stack) + [name] + [] == OpenTexts(stack) + [name];
  }

  lemma {:induction false} AddAttrTexts(stack: seq<Open>, a: Attr)
    requires |stack| >= 2 && stack[|stack| - 1].children == []
    ensures OpenTexts(AddAttr(stack, a)) == OpenTexts(stack) + [a.name, a.value]
  {
    var t := AddAttr(stack, a);
    var top := stack[|stack| - 1];
    assert t[..|t| - 1] == stack[..|stack| - 1];
    assert (top.attrs + [a])[..|top.attrs|] == top.attrs;
    Regroup(OpenTexts(stack[..|stack| - 1]), [top.name], AttrTexts(top.attrs), [a.name, a.value]);
    assert [top.name] + (AttrTexts(top.attrs) + [a.name, a.value]) == [top.name] + AttrTexts(top.attrs) + [a.name, a.value];
    assert OpenTexts(stack) == OpenTexts(stack[..|stack| - 1]) + StartTexts(top, false);
    assert OpenTexts(t) == OpenTexts(stack[..|stack| - 1]) + StartTexts(t[|t| - 1], false);
  }

  lemma {:induction false} AddChildTexts(stack: seq<Open>, n: Node)
    requires stack != []
    ensures OpenTexts(AddChild(stack, n)) == OpenTexts(stack) + NodeTexts(n)
  {
    hide NodeTexts, StartTexts;
    var t := AddChild(stack, n);
    var top := stack[|stack| - 1];
    assert t[..|t| - 1] == stack[..|stack| - 1];
    assert (top.children + [n])[..|top.children|] == top.children;
    SameStart(top, t[|t| - 1], |stack| == 1);
    var front := OpenTexts(stack[..|stack| - 1]) + StartTexts(top, |stack| == 1);
    assert front + (NodesTexts(top.children) + NodeTexts(n)) == front + NodesTexts(top.children) + NodeTexts(n);
  }

  lemma SameStart(a: Open, b: Open, document: bool)
    requires a.name == b.name && a.attrs == b.attrs
    ensures StartTexts(a, document) == StartTexts(b, document)
  {
  }

  lemma {:induction false} PopTexts(stack: seq<Open>)
    requires |stack| >= 2
    ensures OpenTexts(Pop(stack)) == OpenTexts(stack)
  {
    var top := stack[|stack| - 1];
    var rest := stack[..|stack| - 1];
    TopTexts(stack);
    hide OpenTexts, AttrTexts, NodesTexts;
    AddChildTexts(rest, Element(top.name, top.attrs, top.children));
    Regroup(OpenTexts(rest), [top.name], AttrTexts(top.attrs), NodesTexts(top.children));
  }

  lemma {:induction false} TopTexts(stack: seq<Open>)
    requires |stack| >= 2
    ensures var top := stack[|stack| - 1];
            OpenTexts(stack) == OpenTexts(stack[..|stack| - 1]) + [top.name] + AttrTexts(top.attrs)
                + NodesTexts(top.children)
  {
    hide AttrTexts, NodesTexts;
    var top := stack[|stack| - 1];
    var front := OpenTexts(stack[..|stack| - 1]);
    assert front + ([top.name] + AttrTexts(top.attrs)) == front + [top.name] + AttrTexts(top.attrs);
  }

  lemma Regroup<T>(a: seq<T>, b: seq<T>, c: seq<T>, d: seq<T>)
    ensures a + b + c + d == a + (b + c + d)
  {
  }

  /** The strings that have been stored are those of the tree so far. */
  ghost predicate Kept(now: seq<byte>, strings: seq<Stored>, s: nat, stack: seq<Open>)
  {
    Standing(now, strings, s) && Said(strings) == OpenTexts(stack)
  }

  lemma {:induction false} StandingLater(was: seq<byte>, now: seq<byte>, strings: seq<Stored>, s: nat, t: nat)
    requires Standing(was, strings, s) && s <= t <= |now| == |was| && now[..s] == was[..s]
    ensures Standing(now, strings, t)
  {
    forall k | 0 <= k < |strings| ensures StandsAt(now, strings[k], t) {
      var x := strings[k];
      assert StandsAt(was, x, s);
      var end := x.at + |x.text|;
      assert end < s;
      assert now[x.at..end] == now[..s][x.at..end];
      assert was[x.at..end] == was[..s][x.at..end];
      assert now[end] == now[..s][end] && was[end] == was[..s][end];
    }
  }

  lemma {:induction false} StandingMore(now: seq<byte>, strings: seq<Stored>, x: Stored, s: nat)
    requires Standing(now, strings, s) && StandsAt(now, x, s)
    ensures Standing(now, strings + [x], s) && Said(strings + [x]) == Said(strings) + [x.text]
  {
    var more := strings + [x];
    forall k | 0 <= k < |more| ensures StandsAt(now, more[k], s) {
      if k < |strings| {
        assert StandsAt(now, strings[k], s);
      }
    }
  }

  // ----- the loops -----

  method SkipBlanks(buf: array<byte>, s: nat, ghost src: seq<byte>) returns (j: nat)
    requires Ahead(buf, src, s) && s < buf.Length
    ensures j == SkipWs(src, s) && Ahead(buf, src, j)
  {
    AheadAt(buf, src, s);
    j := s;
    while IsSpace(buf[j])
      invariant s <= j < buf.Length && SkipWs(src, j) == SkipWs(src, s)
      decreases buf.Length - j
    {
      j := j + 1;
    }
    AheadFurther(buf, src, s, j);
  }

  /** `PUGI__SCANWHILE` over symbols and `PUGI__ENDSEG`: the name is copied before the buffer goes on being read. */
  method ReadName(buf: array<byte>, s: nat, ghost src: seq<byte>) returns (k: nat, name: seq<byte>, ch: byte)
    requires Ahead(buf, src, s) && s < buf.Length
    modifies buf
    ensures k == ScanSymbols(src, s) && name == src[s..k] && ch == src[k] && Ahead(buf, src, k + 1)
    ensures ch == 0 ==> Ahead(buf, src, k)
    ensures buf[..s] == old(buf[..s]) && StandsAt(buf[..], Stored(s, name), k + 1)
  {
    AheadAt(buf, src, s);
    k := s;
    while IsSymbol(buf[k])
      invariant s <= k < buf.Length && ScanSymbols(src, k) == ScanSymbols(src, s)
      decreases buf.Length - k
    {
      k := k + 1;
    }
    name := buf[s..k];
    ch := buf[k];
    buf[k] := 0;
    assert buf[..][s..k] == name;
    assert buf[k + 1..] == src[k + 1..];
  }

  /** The C string at `start`. */
  method ReadString(buf: array<byte>, start: nat, ghost text: seq<byte>) returns (s: seq<byte>)
    requires HoldsText(buf[..], start, text)
    ensures s == UpToNul(text)
  {
    var i := start;
    while buf[i] != 0
      invariant start <= i <= start + |text| && 0 !in buf[start..i]
      decreases buf.Length - i
    {
      i := i + 1;
    }
    s := buf[start..i];
    assert forall j | start <= j < start + |text| :: buf[j] == text[j - start] by {
      assert forall j | start <= j < start + |text| :: buf[..][start..start + |text|][j - start] == buf[j];
    }
    assert s == text[..i - start];
    UpToNulIs(text, i - start);
  }

  lemma {:induction false} UpToNulIs(text: seq<byte>, n: nat)
    requires n <= |text| && 0 !in text[..n] && (n < |text| ==> text[n] == 0)
    ensures UpToNul(text) == text[..n]
  {
    if n > 0 {
      assert text[..n][0] == text[0];
      assert text[1..][..n - 1] == text[..n][1..];
      UpToNulIs(text[1..], n - 1);
      assert text[..n] == [text[0]] + text[1..][..n - 1];
    }
  }

  /** The value behind the equals sign; it stands at `v`. */
  method ReadAttrValue(buf: array<byte>, name: seq<byte>, s: nat, ghost src: seq<byte>) returns (r: AttrNext, ghost v: nat)
    requires Ahead(buf, src, s) && s < buf.Length
    modifies buf
    ensures r == AttrValue(src, name, s) && (r.Got? ==> Ahead(buf, src, r.next)) && buf[..s] == old(buf[..s])
    ensures r.Got? ==> StandsAt(buf[..], Stored(v, r.attr.value), r.next)
  {
    hide Convert, UpToNul;
    var q := SkipBlanks(buf, s, src);
    AheadAt(buf, src, q);
    v := q + 1;
    if !IsQuote(buf[q]) { return Bad(q), v; }
    var m := Attribute(buf[q], Spaces, true);
    ghost var was := buf[..];
    assert was[q + 1..] == src[q + 1..];
    var ok, next := StrconvAttributeWconv(buf, q + 1, buf[q], true);
    ghost var o := Convert(m, src, q + 1);
    AfterConversion(m, buf[..], was, src, q + 1, next);
    BeforeConversion(m, buf[..], was, q + 1, next, s);
    if ok {
      var value := ReadString(buf, q + 1, o.text);
      ValueStands(m, buf[..], was, q + 1, next, o.text);
      r := Got(Attr(name, value), next);
    } else {
      r := Bad(q + 1);
    }
  }

  lemma BeforeConversion(m: Mode, now: seq<byte>, was: seq<byte>, start: nat, next: nat, s: nat)
    requires Terminated(was) && s <= start < |was| && Converted(m, now, was, start, next)
    ensures |now| == |was| && now[..s] == was[..s]
  {
    hide Convert;
  }

  /** The part of a converted text that a C string shows. */
  lemma ValueStands(m: Mode, now: seq<byte>, was: seq<byte>, start: nat, next: nat, text: seq<byte>)
    requires Terminated(was) && start < |was| && Converted(m, now, was, start, next)
    requires Convert(m, was, start).Ended? && Convert(m, was, start).text == text
    ensures StandsAt(now, Stored(start, UpToNul(text)), next)
  {
    hide Convert;
    var value := UpToNul(text);
    assert now[start..start + |value|] == now[start..start + |text|][..|value|] == value;
    if |value| < |text| {
      assert now[start + |value|] == now[start..start + |text|][|value|];
    }
  }

  method ReadSign(buf: array<byte>, k: nat, ch: byte, ghost src: seq<byte>) returns (r: Sign)
    requires k < buf.Length && Ahead(buf, src, k + 1) && ch == src[k]
    ensures r == FindSign(src, k) && (r.Sign? ==> Ahead(buf, src, r.next))
  {
    if ch == 0 { return NoSign(k); }
    AheadAt(buf, src, k + 1);
    if buf[k + 1] == 0 { return NoSign(k + 1); }
    var m, c := k, ch;
    if IsSpace(ch) {
      m := SkipBlanks(buf, k + 1, src);
      if buf[m] == 0 { return NoSign(m); }
      c := buf[m];
    }
    AheadFurther(buf, src, k + 1, m + 1);
    return if c == '=' as byte then Sign(m + 1) else NoSign(m + 1);
  }

  method ReadOneAttr(buf: array<byte>, s: nat, ghost src: seq<byte>) returns (r: AttrNext, ghost v: nat)
    requires Ahead(buf, src, s) && s < buf.Length
    modifies buf
    ensures r == OneAttr(src, s) && (r.Got? ==> Ahead(buf, src, r.next)) && buf[..s] == old(buf[..s])
    ensures r.Got? ==> StandsAt(buf[..], Stored(s, r.attr.name), r.next)
                       && StandsAt(buf[..], Stored(v, r.attr.value), r.next)
  {
    hide AttrValue, HoldsText, FindSign, StandsAt;
    var k, name, ch := ReadName(buf, s, src);
    ghost var named := buf[..];
    var sign := ReadSign(buf, k, ch, src);
    if sign.NoSign? { return Bad(sign.offset), 0; }
    r, v := ReadAttrValue(buf, name, sign.next, src);
    assert buf[..][..sign.next] == named[..sign.next];
    if r.Got? {
      StandsLater(named, buf[..], Stored(s, name), k + 1, sign.next, r.next);
    }
    assert buf[..s] == buf[..][..sign.next][..s];
    assert named[..s] == named[..sign.next][..s];
  }

  lemma {:induction false} StandsLater(was: seq<byte>, now: seq<byte>, x: Stored, s: nat, u: nat, t: nat)
    requires StandsAt(was, x, s) && s <= u <= t <= |now| == |was| && now[..u] == was[..u]
    ensures StandsAt(now, x, t)
  {
    var end := x.at + |x.text|;
    assert now[x.at..end] == now[..u][x.at..end];
    assert was[x.at..end] == was[..u][x.at..end];
    assert now[end] == now[..u][end] && was[end] == was[..u][end];
  }

  /** `LOC_ATTRIBUTES`; `strings` are the strings so far, `kept` those behind the start tag. */
  method ReadAttributes(buf: array<byte>, endch: byte, s: nat, stack: seq<Open>, ghost src: seq<byte>,
                        ghost strings: seq<Stored>)
    returns (n: Next, ghost kept: seq<Stored>)
    requires Ahead(buf, src, s) && s < buf.Length && |stack| >= 2 && stack[|stack| - 1].children == []
    requires Kept(buf[..], strings, s, stack)
    modifies buf
    ensures n == Attributes(src, endch, s, stack)
    ensures n.At? ==> Ahead(buf, src, n.i) && Kept(buf[..], kept, n.i, n.stack)
  {
    hide OneAttr, Kept, Attributes, StandsAt;
    var at, open := s, stack;
    kept := strings;
    while true
      invariant s <= at < buf.Length && Ahead(buf, src, at)
      invariant |open| >= 2 && open[|open| - 1].children == [] && Kept(buf[..], kept, at, open)
      invariant Attributes(src, endch, at, open) == Attributes(src, endch, s, stack)
      decreases buf.Length - at
    {
      var j := SkipBlanks(buf, at, src);
      AheadAt(buf, src, j);
      AttributesRound(src, endch, at, open);
      if !IsStartSymbol(buf[j]) {
        n := StartTagEnd(buf, endch, j, open, src);
        if n.At? {
          TagEndStack(src, endch, j, open);
          KeptAfterTag(buf[..], kept, at, open, n);
        }
        return;
      }
      ghost var was := buf[..];
      var r, v := ReadOneAttr(buf, j, src);
      if r.Bad? {
        return Failed(BadAttribute, r.offset), kept;
      }
      AheadAt(buf, src, r.next);
      if IsStartSymbol(buf[r.next]) {
        return Failed(BadAttribute, r.next), kept;
      }
      FrontKept(was, buf[..], j, at);
      kept := KeptAttr(was, buf[..], kept, at, open, r, j, v);
      open := AddAttr(open, r.attr);
      at := r.next;
    }
  }

  lemma FrontKept(was: seq<byte>, now: seq<byte>, j: nat, s: nat)
    requires s <= j <= |now| == |was| && now[..j] == was[..j]
    ensures now[..s] == was[..s]
  {
    assert now[..s] == now[..j][..s] && was[..s] == was[..j][..s];
  }

  /** One round of the loop over the attributes. */
  lemma AttributesRound(src: seq<byte>, endch: byte, at: nat, open: seq<Open>)
    requires Terminated(src) && at < |src| && |open| >= 2
    ensures var j := SkipWs(src, at);
            if !IsStartSymbol(src[j]) then Attributes(src, endch, at, open) == Attributes(src, endch, j, open)
            else
              var r := OneAttr(src, j);
              Attributes(src, endch, at, open)
              == if r.Bad? then Failed(BadAttribute, r.offset)
                 else if IsStartSymbol(src[r.next]) then Failed(BadAttribute, r.next)
                 else Attributes(src, endch, r.next, AddAttr(open, r.attr))
  {
    hide OneAttr;
  }

  lemma TagEndStack(src: seq<byte>, endch: byte, j: nat, open: seq<Open>)
    requires Terminated(src) && j < |src| && |open| >= 2 && !IsSpace(src[j]) && !IsStartSymbol(src[j])
    ensures var n := Attributes(src, endch, j, open); n.At? ==> n.stack == open || n.stack == Pop(open)
  {
  }

  lemma {:induction false} KeptAttr(was: seq<byte>, now: seq<byte>, strings: seq<Stored>, s: nat, stack: seq<Open>,
                                    r: AttrNext, j: nat, v: nat)
    returns (more: seq<Stored>)
    requires Kept(was, strings, s, stack) && s <= |now| == |was| && now[..s] == was[..s]
    requires r.Got? && s <= r.next <= |now| && |stack| >= 2 && stack[|stack| - 1].children == []
    requires StandsAt(now, Stored(j, r.attr.name), r.next) && StandsAt(now, Stored(v, r.attr.value), r.next)
    ensures Kept(now, more, r.next, AddAttr(stack, r.attr))
  {
    hide StandsAt, OpenTexts, Said, AddAttr;
    var a, b := Stored(j, r.attr.name), Stored(v, r.attr.value);
    StandingLater(was, now, strings, s, r.next);
    StandingMore(now, strings, a, r.next);
    StandingMore(now, strings + [a], b, r.next);
    AddAttrTexts(stack, r.attr);
    assert Said(strings) + [a.text] + [b.text] == Said(strings) + [r.attr.name, r.attr.value];
    more := strings + [a] + [b];
  }

  /** Behind the last attribute. */
  method StartTagEnd(buf: array<byte>, endch: byte, j: nat, stack: seq<Open>, ghost src: seq<byte>) returns (n: Next)
    requires Ahead(buf, src, j) && j < buf.Length && |stack| >= 2
    requires !IsSpace(src[j]) && !IsStartSymbol(src[j])
    ensures n == Attributes(src, endch, j, stack) && (n.At? ==> Ahead(buf, src, n.i))
  {
    AheadAt(buf, src, j);
    if buf[j] == '/' as byte {
      if buf[j + 1] == '>' as byte {
        n := At(j + 2, Pop(stack));
      } else if buf[j + 1] == 0 && endch == '>' as byte {
        n := At(j + 1, Pop(stack));
      } else {
        n := Failed(BadStartElement, j + 1);
      }
    } else if buf[j] == '>' as byte {
      n := At(j + 1, stack);
    } else if buf[j] == 0 && endch == '>' as byte {
      n := At(j, stack);
    } else {
      n := Failed(BadStartElement, j);
    }
    if n.At? {
      AheadFurther(buf, src, j, n.i);
    }
  }

  lemma {:induction false} KeptAfterTag(now: seq<byte>, strings: seq<Stored>, s: nat, stack: seq<Open>, n: Next)
    requires Kept(now, strings, s, stack) && n.At? && s <= n.i <= |now| && stack != []
    requires n.stack == stack || (|stack| >= 2 && n.stack == Pop(stack))
    ensures Kept(now, strings, n.i, n.stack)
  {
    hide StandsAt, OpenTexts, Said, Pop;
    StandingLater(now, now, strings, s, n.i);
    if n.stack != stack {
      PopTexts(stack);
    }
  }

  /** An unfinished element at the end of the buffer is an error, and its strings do not matter. */
  ghost predicate KeptIf(now: seq<byte>, strings: seq<Stored>, i: nat, stack: seq<Open>, src: seq<byte>)
  {
    i < |src| && (src[i] != 0 || |stack| == 1) ==> Kept(now, strings, i, stack)
  }

  /** A tag with a name. */
  method ReadStartTag(buf: array<byte>, endch: byte, s: nat, stack: seq<Open>, ghost src: seq<byte>,
                      ghost strings: seq<Stored>)
    returns (n: Next, ghost kept: seq<Stored>)
    requires Ahead(buf, src, s) && s < buf.Length && stack != [] && Kept(buf[..], strings, s, stack)
    modifies buf
    ensures n == StartTag(src, endch, s, stack)
    ensures n.At? ==> Ahead(buf, src, n.i) && KeptIf(buf[..], kept, n.i, n.stack, src)
  {
    hide Kept, Attributes, StandsAt;
    ghost var was := buf[..];
    var k, name, ch := ReadName(buf, s, src);
    kept := KeptName(was, buf[..], strings, s, stack, name, k + 1);
    var open := Push(stack, name);
    if IsSpace(ch) {
      n, kept := ReadAttributes(buf, endch, k + 1, open, src, kept);
    } else {
      n := NameEnd(buf, endch, k, ch, open, src);
      if n.At? && n.i > k {
        KeptAfterTag(buf[..], kept, k + 1, open, n);
      }
    }
  }

  /** Behind a name without attributes. */
  method NameEnd(buf: array<byte>, endch: byte, k: nat, ch: byte, open: seq<Open>, ghost src: seq<byte>) returns (n: Next)
    requires k < buf.Length && Ahead(buf, src, k + 1) && ch == src[k] && (ch == 0 ==> Ahead(buf, src, k))
    requires |open| >= 2 && !IsSpace(ch)
    ensures n == AfterName(src, endch, k, open)
    ensures n.At? ==> Ahead(buf, src, n.i)
  {
    if ch == '>' as byte {
      n := At(k + 1, open);
    } else if ch == '/' as byte {
      AheadAt(buf, src, k + 1);
      if buf[k + 1] == '>' as byte {
        n := At(k + 2, Pop(open));
      } else if buf[k + 1] == 0 && endch == '>' as byte {
        n := At(k + 1, Pop(open));
      } else {
        n := Failed(BadStartElement, k + 1);
      }
    } else if ch == 0 {
      n := if endch == '>' as byte then At(k, open) else Failed(BadStartElement, k);
    } else {
      n := Failed(BadStartElement, k + 1);
    }
    if n.At? && n.i > k {
      AheadFurther(buf, src, k + 1, n.i);
    }
  }

  lemma {:induction false} KeptName(was: seq<byte>, now: seq<byte>, strings: seq<Stored>, s: nat, stack: seq<Open>,
                                    name: seq<byte>, t: nat)
    returns (more: seq<Stored>)
    requires Kept(was, strings, s, stack) && s <= t <= |now| == |was| && now[..s] == was[..s] && stack != []
    requires StandsAt(now, Stored(s, name), t)
    ensures Kept(now, more, t, Push(stack, name))
  {
    hide StandsAt, OpenTexts, Said, Push;
    StandingLater(was, now, strings, s, t);
    StandingMore(now, strings, Stored(s, name), t);
    PushTexts(stack, name);
    more := strings + [Stored(s, name)];
  }

  /** The name of an end tag is compared with that of the element. */
  method ReadEndName(buf: array<byte>, endch: byte, s: nat, name: seq<byte>, ghost src: seq<byte>) returns (c: Comparison)
    requires Ahead(buf, src, s) && s < buf.Length
    ensures c == CompareName(src, endch, s, name) && (c.Same? ==> Ahead(buf, src, c.k))
  {
    AheadAt(buf, src, s);
    var k, d := s, 0;
    while IsSymbol(buf[k])
      invariant s <= k < buf.Length && d == k - s && d <= |name| && src[s..k] == name[..d]
      invariant ScanSymbols(src, k) == ScanSymbols(src, s)
      decreases buf.Length - k
    {
      if d == |name| || buf[k] != name[d] {
        assert src[s..ScanSymbols(src, s)][..d] == src[s..k];
        DifferenceIs(src[s..ScanSymbols(src, s)], name, d);
        return Differs(EndElementMismatch, k + 1);
      }
      assert src[s..k + 1] == src[s..k] + [src[k]] && name[..d + 1] == name[..d] + [name[d]];
      k, d := k + 1, d + 1;
    }
    DifferenceIs(src[s..k], name, d);
    if d < |name| {
      return Differs(if buf[k] == 0 && name[d..] == [endch] then BadEndElement else EndElementMismatch, k);
    }
    AheadFurther(buf, src, s, k);
    return Same(k);
  }

  method ReadEndTag(buf: array<byte>, endch: byte, s: nat, stack: seq<Open>, ghost src: seq<byte>) returns (n: Next)
    requires Ahead(buf, src, s) && s < buf.Length && stack != []
    ensures n == EndTag(src, endch, s, stack)
    ensures n.At? ==> Ahead(buf, src, n.i) && |stack| >= 2 && n.stack == Pop(stack)
  {
    hide Pop, CompareName;
    if |stack| == 1 { return Failed(EndElementMismatch, s); }
    var c := ReadEndName(buf, endch, s, stack[|stack| - 1].name, src);
    if c.Differs? { return Failed(c.status, c.offset); }
    var j := SkipBlanks(buf, c.k, src);
    AheadAt(buf, src, j);
    if buf[j] == 0 {
      n := if endch == '>' as byte then At(j, Pop(stack)) else Failed(BadEndElement, j);
    } else if buf[j] == '>' as byte {
      n := At(j + 1, Pop(stack));
    } else {
      n := Failed(BadEndElement, j);
    }
    if n.At? {
      AheadFurther(buf, src, j, n.i);
    }
  }

  lemma {:induction false} DifferenceIs(a: seq<byte>, b: seq<byte>, d: nat)
    requires d <= |a| && d <= |b| && a[..d] == b[..d] && (d < |a| && d < |b| ==> a[d] != b[d])
    ensures FirstDifference(a, b) == d
  {
    if d > 0 {
      assert a[..d][0] == b[..d][0];
      assert a[1..][..d - 1] == a[..d][1..] && b[1..][..d - 1] == b[..d][1..];
      DifferenceIs(a[1..], b[1..], d - 1);
    }
  }

  method ReadMark(buf: array<byte>, s: nat, ghost src: seq<byte>) returns (j: nat)
    requires Ahead(buf, src, s) && s < buf.Length
    ensures j == CdataMark(src, s) && Ahead(buf, src, j)
  {
    AheadAt(buf, src, s);
    var mark := Bytes("CDATA[");
    var d := 0;
    while d < 6 && buf[s + d] == mark[d]
      invariant d <= 6 && s + d < buf.Length && forall i | 0 <= i < d :: buf[s + i] == mark[i]
      decreases 6 - d
    {
      d := d + 1;
    }
    j := s + d;
    AheadFurther(buf, src, s, j);
    MarkIs(src, s, d);
  }

  lemma MarkIs(src: seq<byte>, s: nat, d: nat)
    requires Terminated(src) && d <= 6 && s + d < |src|
    requires forall i | 0 <= i < d :: src[s + i] == Bytes("CDATA[")[i]
    requires d < 6 ==> src[s + d] != Bytes("CDATA[")[d]
    ensures CdataMark(src, s) == s + d
  {
    if d > 0 { assert src[s + 0] == Bytes("CDATA[")[0]; }
    if d > 1 { assert src[s + 1] == Bytes("CDATA[")[1]; }
    if d > 2 { assert src[s + 2] == Bytes("CDATA[")[2]; }
    if d > 3 { assert src[s + 3] == Bytes("CDATA[")[3]; }
    if d > 4 { assert src[s + 4] == Bytes("CDATA[")[4]; }
    if d > 5 { assert src[s + 5] == Bytes("CDATA[")[5]; }
  }

  /** A CDATA section. */
  method ReadSection(buf: array<byte>, endch: byte, s: nat, stack: seq<Open>, ghost src: seq<byte>,
                     ghost strings: seq<Stored>)
    returns (n: Next, ghost kept: seq<Stored>)
    requires Ahead(buf, src, s) && s < buf.Length && stack != [] && Kept(buf[..], strings, s, stack)
    modifies buf
    ensures n == Section(src, endch, s, stack)
    ensures n.At? ==> Ahead(buf, src, n.i) && Kept(buf[..], kept, n.i, n.stack)
  {
    hide Convert, UpToNul, CdataMark, Kept;
    kept := strings;
    var j := ReadMark(buf, s, src);
    if j < s + 6 { return Failed(BadCdata, j), kept; }
    ghost var was := buf[..];
    assert was[j..] == src[j..];
    var m := Mode.Cdata(endch);
    var ok, next := StrconvCdata(buf, j, endch);
    ghost var o := Convert(m, src, j);
    AfterConversion(m, buf[..], was, src, j, next);
    BeforeConversion(m, buf[..], was, j, next, s);
    if !ok { return Failed(BadCdata, j), kept; }
    var value := ReadString(buf, j, o.text);
    ValueStands(m, buf[..], was, j, next, o.text);
    CdataEnds(src, j, endch);
    assert Ahead(buf, src, next);
    AheadAt(buf, src, next);
    var i := if buf[next + 1] == '>' as byte then next + 2 else next + 1;
    AheadFurther(buf, src, next, i);
    kept := KeptChild(was, buf[..], strings, s, stack, Node.Cdata(value), j, next, i);
    n := At(i, AddChild(stack, Node.Cdata(value)));
  }

  lemma {:induction false} KeptChild(was: seq<byte>, now: seq<byte>, strings: seq<Stored>, s: nat, stack: seq<Open>,
                                     n: Node, j: nat, next: nat, t: nat)
    returns (more: seq<Stored>)
    requires Kept(was, strings, s, stack) && s <= next <= t <= |now| == |was| && now[..s] == was[..s] && stack != []
    requires !n.Element? && StandsAt(now, Stored(j, n.value), next)
    ensures Kept(now, more, t, AddChild(stack, n))
  {
    hide OpenTexts, Said, AddChild, HoldsText;
    var x := Stored(j, n.value);
    StandingLater(was, now, strings, s, t);
    StandingMore(now, strings, x, t);
    AddChildTexts(stack, n);
    more := strings + [x];
  }

  /** `LOC_TAG` */
  method ReadTag(buf: array<byte>, endch: byte, s: nat, stack: seq<Open>, ghost src: seq<byte>, ghost strings: seq<Stored>)
    returns (n: Next, ghost kept: seq<Stored>)
    requires Ahead(buf, src, s) && s < buf.Length && stack != [] && Kept(buf[..], strings, s, stack)
    modifies buf
    ensures n == Tag(src, endch, s, stack)
    ensures n.At? ==> Ahead(buf, src, n.i) && KeptIf(buf[..], kept, n.i, n.stack, src)
  {
    hide StartTag, EndTag, Section, Kept;
    kept := strings;
    AheadAt(buf, src, s);
    var c := buf[s];
    if IsStartSymbol(c) {
      n, kept := ReadStartTag(buf, endch, s, stack, src, strings);
    } else if c == '/' as byte {
      AheadFurther(buf, src, s, s + 1);
      n := ReadEndTag(buf, endch, s + 1, stack, src);
      if n.At? {
        KeptAfterTag(buf[..], kept, s, stack, n);
      }
    } else if c == '?' as byte {
      n := Other;
    } else if c == '!' as byte {
      AheadFurther(buf, src, s, s + 1);
      n, kept := ReadExclamation(buf, endch, s + 1, stack, src, strings, s);
    } else if c == 0 && endch == '?' as byte {
      n := Failed(BadPi, s);
    } else {
      n := Failed(UnrecognizedTag, s);
    }
  }

  /** `parse_exclamation` */
  method ReadExclamation(buf: array<byte>, endch: byte, s: nat, stack: seq<Open>, ghost src: seq<byte>,
                         ghost strings: seq<Stored>, ghost from: nat)
    returns (n: Next, ghost kept: seq<Stored>)
    requires Ahead(buf, src, s) && from <= s < buf.Length && stack != [] && Kept(buf[..], strings, from, stack)
    modifies buf
    ensures n == Exclamation(src, endch, s, stack)
    ensures n.At? ==> Ahead(buf, src, n.i) && Kept(buf[..], kept, n.i, n.stack)
  {
    hide Section, Kept, Standing, Said, OpenTexts;
    kept := strings;
    AheadAt(buf, src, s);
    var c := buf[s];
    if c == '[' as byte {
      AheadFurther(buf, src, s, s + 1);
      KeptFurther(buf[..], strings, from, s + 1, stack);
      n, kept := ReadSection(buf, endch, s + 1, stack, src, strings);
    } else if c == '-' as byte || c == 'D' as byte {
      n := Other;
    } else if c == 0 && endch == '-' as byte {
      n := Failed(BadComment, s);
    } else if c == 0 && endch == '[' as byte {
      n := Failed(BadCdata, s);
    } else {
      n := Failed(UnrecognizedTag, s);
    }
  }

  lemma {:induction false} KeptFurther(now: seq<byte>, strings: seq<Stored>, s: nat, t: nat, stack: seq<Open>)
    requires Kept(now, strings, s, stack) && s <= t <= |now|
    ensures Kept(now, strings, t, stack)
  {
    hide OpenTexts, Said;
    StandingLater(now, now, strings, s, t);
  }

  /** PCDATA, with the tag behind it. */
  method ReadText(buf: array<byte>, endch: byte, s: nat, stack: seq<Open>, ghost src: seq<byte>, ghost strings: seq<Stored>)
    returns (n: Next, ghost kept: seq<Stored>)
    requires Ahead(buf, src, s) && s < buf.Length && |stack| >= 2 && Kept(buf[..], strings, s, stack)
    modifies buf
    ensures n == Text(src, endch, s, stack) && (n.Leave? ==> |n.stack| >= 2)
    ensures n.At? ==> Ahead(buf, src, n.i) && KeptIf(buf[..], kept, n.i, n.stack, src)
  {
    hide Convert, UpToNul, Tag, Kept;
    kept := strings;
    ghost var was := buf[..];
    assert was[s..] == src[s..];
    var m := Mode.Pcdata(true, true);
    var next := StrconvPcdata(buf, s, true, true);
    ghost var o := Convert(m, src, s);
    AfterConversion(m, buf[..], was, src, s, next);
    BeforeConversion(m, buf[..], was, s, next, s);
    assert Ahead(buf, src, next);
    AheadAt(buf, src, next);
    PcdataEnds(src, s);
    if buf[next] == 0 {
      n := Leave(next, stack);
    } else {
      var value := ReadString(buf, s, o.text);
      ValueStands(m, buf[..], was, s, next, o.text);
      kept := KeptChild(was, buf[..], strings, s, stack, Node.Pcdata(value), s, next, next);
      n, kept := ReadTag(buf, endch, next, AddChild(stack, Node.Pcdata(value)), src, kept);
    }
  }

  lemma {:induction false} PcdataEnds(src: seq<byte>, i: nat)
    requires Terminated(src) && i < |src|
    ensures var o := Convert(Mode.Pcdata(true, true), src, i); o.Unended? ==> src[o.at] == 0
  {
  }

  /** Text outside all elements is skipped. */
  method SkipText(buf: array<byte>, endch: byte, s: nat, stack: seq<Open>, ghost src: seq<byte>, ghost strings: seq<Stored>)
    returns (n: Next, ghost kept: seq<Stored>)
    requires Ahead(buf, src, s) && s < buf.Length && |stack| == 1 && Kept(buf[..], strings, s, stack)
    modifies buf
    ensures n == Text(src, endch, s, stack)
    ensures n.At? ==> Ahead(buf, src, n.i) && KeptIf(buf[..], kept, n.i, n.stack, src)
    ensures n.Leave? ==> n.stack == stack && Kept(buf[..], kept, n.i, stack)
  {
    hide Tag, Kept;
    kept := strings;
    AheadAt(buf, src, s);
    var j := s;
    while buf[j] != 0 && buf[j] != '<' as byte
      invariant s <= j < buf.Length && ScanFor(src, j, '<' as byte) == ScanFor(src, s, '<' as byte)
      decreases buf.Length - j
    {
      j := j + 1;
    }
    KeptFurther(buf[..], strings, s, j, stack);
    if buf[j] == 0 {
      n := Leave(j, stack);
    } else {
      AheadFurther(buf, src, s, j + 1);
      KeptFurther(buf[..], strings, s, j + 1, stack);
      n, kept := ReadTag(buf, endch, j + 1, stack, src, kept);
    }
  }

  /** One round of the loop. */
  method ReadRound(buf: array<byte>, endch: byte, s: nat, stack: seq<Open>, ghost src: seq<byte>, ghost strings: seq<Stored>)
    returns (n: Next, ghost kept: seq<Stored>)
    requires Ahead(buf, src, s) && s < buf.Length && src[s] != 0 && stack != [] && Kept(buf[..], strings, s, stack)
    modifies buf
    ensures n == Round(src, endch, s, stack)
    ensures n.At? ==> Ahead(buf, src, n.i) && KeptIf(buf[..], kept, n.i, n.stack, src)
    ensures n.Leave? && |n.stack| == 1 ==> Kept(buf[..], kept, n.i, n.stack)
  {
    hide Tag, Text, Kept;
    kept := strings;
    AheadAt(buf, src, s);
    if buf[s] == '<' as byte {
      AheadFurther(buf, src, s, s + 1);
      KeptFurther(buf[..], strings, s, s + 1, stack);
      n, kept := ReadTag(buf, endch, s + 1, stack, src, strings);
    } else {
      var j := SkipBlanks(buf, s, src);
      if buf[j] == '<' as byte {
        KeptFurther(buf[..], strings, s, j, stack);
        n := At(j, stack);
      } else if |stack| >= 2 {
        n, kept := ReadText(buf, endch, s, stack, src, strings);
      } else {
        n, kept := SkipText(buf, endch, s, stack, src, strings);
      }
    }
  }

  /** `xml_parser::parse(s, xmldoc, optmsk, endch)` */
  method ParseLoop(buf: array<byte>, endch: byte) returns (r: Result, ghost strings: seq<Stored>)
    requires Terminated(buf[..])
    modifies buf
    ensures r == ParseFrom(old(buf[..]), endch, 0, [DOCUMENT])
    ensures r.Parsed? ==> Standing(buf[..], strings, buf.Length) && Said(strings) == NodesTexts(r.nodes)
  {
    hide Round, Kept;
    ghost var src := buf[..];
    var s, stack := 0, [DOCUMENT];
    strings := [];
    NothingKept(src);
    while buf[s] != 0
      invariant s < buf.Length && Ahead(buf, src, s) && stack != [] && KeptIf(buf[..], strings, s, stack, src)
      invariant ParseFrom(src, endch, s, stack) == ParseFrom(src, endch, 0, [DOCUMENT])
      decreases buf.Length - s
    {
      AheadAt(buf, src, s);
      var n;
      n, strings := ReadRound(buf, endch, s, stack, src, strings);
      match n {
        case At(i, t) => s, stack := i, t;
        case Leave(i, t) =>
          s, stack := i, t;
          break;
        case Failed(status, offset) => return Error(status, offset), [];
        case Other => return Unmodelled, [];
      }
    }
    r := Finish(s, stack);
    if |stack| == 1 {
      AllKept(buf[..], strings, s, stack);
    }
  }

  lemma {:induction false} NothingKept(now: seq<byte>)
    ensures Kept(now, [], 0, [DOCUMENT])
  {
    var stack := [DOCUMENT];
    assert stack[..0] == [];
  }

  lemma {:induction false} AllKept(now: seq<byte>, strings: seq<Stored>, s: nat, stack: seq<Open>)
    requires Kept(now, strings, s, stack) && s <= |now| && |stack| == 1
    ensures Standing(now, strings, |now|) && Said(strings) == NodesTexts(stack[0].children)
  {
    StandingLater(now, now, strings, s, |now|);
    assert stack[..0] == [];
    assert OpenTexts(stack) == [] + [] + NodesTexts(stack[0].children);
    assert [] + [] + NodesTexts(stack[0].children) == NodesTexts(stack[0].children);
  }

  /** `xml_parser::parse(buffer, length, root, optmsk)`: the strings of the tree stand in the buffer. */
  method ParseBuffer(buf: array<byte>) returns (r: Result, ghost strings: seq<Stored>)
    modifies buf
    ensures r == ParseDocument(old(buf[..]))
    ensures r.Parsed? ==> Standing(buf[..], strings, buf.Length) && Said(strings) == NodesTexts(r.nodes)
  {
    if buf.Length == 0 {
      return Parsed([]), [];
    }
    ghost var text := buf[..];
    var endch := buf[buf.Length - 1];
    buf[buf.Length - 1] := 0;
    assert buf[..] == Cut(text);
    r, strings := ParseLoop(buf, endch);
    if r.Parsed? && endch == '<' as byte {
      r := Error(UnrecognizedTag, buf.Length);
    }
  }
}
