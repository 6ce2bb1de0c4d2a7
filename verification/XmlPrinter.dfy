/**
  Raw output of an element tree: what is printed, as a function of the tree, and the methods that write it to the
  buffered writer.
 */
module XmlPrinter {
  import opened Common
  import opened Utf8
  import opened TextConversion
  import opened BufferedWriter

  datatype Attr = Attr(name: seq<byte>, value: seq<byte>)

  datatype Node =
    | Element(name: seq<byte>, attrs: seq<Attr>, children: seq<Node>)
    | Pcdata(value: seq<byte>)
    | Cdata(value: seq<byte>)

  function Bytes(s: string): (b: seq<byte>)
    requires forall i | 0 <= i < |s| :: s[i] < 128 as char
    ensures |b| == |s| && forall i | 0 <= i < |s| :: b[i] == s[i] as byte
  {
    seq(|s|, i requires 0 <= i < |s| => s[i] as byte)
  }

  // ----- escaping -----

  /** `ctx_special_pcdata` and `ctx_special_attr`, without the NUL that ends the string. */
  predicate MustEscape(attr: bool, c: byte)
  {
    || (0 < c < 32 && c != TAB && (attr || (c != LF && c != CR)))
    || c == '&' as byte || c == '<' as byte || c == '>' as byte || (attr && c == '"' as byte)
  }

  function EscapeOf(c: byte): (bs: seq<byte>)
    ensures |bs| >= 4 && bs[0] == '&' as byte
  {
    if c == '&' as byte then ['&' as byte, 'a' as byte, 'm' as byte, 'p' as byte, ';' as byte]
    else if c == '<' as byte then ['&' as byte, 'l' as byte, 't' as byte, ';' as byte]
    else if c == '>' as byte then ['&' as byte, 'g' as byte, 't' as byte, ';' as byte]
    else if c == '"' as byte then ['&' as byte, 'q' as byte, 'u' as byte, 'o' as byte, 't' as byte, ';' as byte]
    else ['&' as byte, '#' as byte, '0' as byte + c / 10 % 10, '0' as byte + c % 10, ';' as byte]
  }

  function PrintChar(attr: bool, c: byte): (bs: seq<byte>)
    ensures |bs| >= 1
  {
    if MustEscape(attr, c) then EscapeOf(c) else [c]
  }

  function PrintText(attr: bool, s: seq<byte>): seq<byte>
  {
    if s == [] then [] else PrintChar(attr, s[0]) + PrintText(attr, s[1..])
  }

  lemma {:induction false} PrintTextConcat(attr: bool, a: seq<byte>, b: seq<byte>)
    ensures PrintText(attr, a + b) == PrintText(attr, a) + PrintText(attr, b)
  {
    hide PrintChar;
    if a == [] {
      assert a + b == b;
    } else {
      PrintTextConcat(attr, a[1..], b);
      assert (a + b)[1..] == a[1..] + b && (a + b)[0] == a[0];
      Assoc(PrintChar(attr, a[0]), PrintText(attr, a[1..]), PrintText(attr, b));
    }
  }

  /** Characters that are not escaped are printed as they are. */
  lemma {:induction false} PlainText(attr: bool, s: seq<byte>)
    requires forall i | 0 <= i < |s| :: !MustEscape(attr, s[i])
    ensures PrintText(attr, s) == s
  {
    if s != [] {
      PlainText(attr, s[1..]);
      assert [s[0]] + s[1..] == s;
    }
  }

  // ----- CDATA -----

  predicate EndsAt(s: seq<byte>, k: nat)
  {
    k + 2 < |s| && s[k] == ']' as byte && s[k + 1] == ']' as byte && s[k + 2] == '>' as byte
  }

  /** The first terminator, or the end. */
  function FirstEnd(s: seq<byte>, from: nat): (k: nat)
    requires from <= |s|
    ensures from <= k <= |s| && (k < |s| ==> EndsAt(s, k)) && forall j | from <= j < k :: !EndsAt(s, j)
    decreases |s| - from
  {
    if from == |s| || EndsAt(s, from) then from else FirstEnd(s, from + 1)
  }

  /** A terminator in the text is split between two sections. */
  function Pieces(s: seq<byte>): (ps: seq<seq<byte>>)
    ensures ps != []
  {
    var k := FirstEnd(s, 0);
    if k == |s| then [s] else [s[..k + 2]] + Pieces(s[k + 2..])
  }

  function PrintSection(piece: seq<byte>): seq<byte>
  {
    Bytes("<![CDATA[") + piece + Bytes("]]>")
  }

  function PrintSections(ps: seq<seq<byte>>): seq<byte>
  {
    if ps == [] then [] else PrintSection(ps[0]) + PrintSections(ps[1..])
  }

  // ----- nodes -----

  function NameOf(name: seq<byte>): (n: seq<byte>)
    ensures n != []
  {
    if name == [] then Bytes(":anonymous") else name
  }

  function PrintAttr(a: Attr): seq<byte>
  {
    Bytes(" ") + NameOf(a.name) + Bytes("=\"") + PrintText(true, a.value) + Bytes("\"")
  }

  function PrintAttrs(attrs: seq<Attr>): seq<byte>
  {
    if attrs == [] then [] else PrintAttr(attrs[0]) + PrintAttrs(attrs[1..])
  }

  function Print(n: Node): seq<byte>
    decreases n
  {
    match n
    case Element(name, attrs, children) =>
      Bytes("<") + NameOf(name) + PrintAttrs(attrs)
      + (if children == [] then Bytes(" />") else Bytes(">") + PrintAll(children) + Bytes("</") + NameOf(name) + Bytes(">"))
    case Pcdata(value) => PrintText(false, value)
    case Cdata(value) => PrintSections(Pieces(value))
  }

  function PrintAll(ns: seq<Node>): seq<byte>
    decreases ns
  {
    if ns == [] then [] else Print(ns[0]) + PrintAll(ns[1..])
  }

  // ----- output -----

  /** C strings: they end at the first NUL. */
  predicate IsText(s: seq<byte>)
  {
    0 !in s
  }

  ghost predicate IsTree(n: Node)
    decreases n
  {
    match n
    case Element(name, attrs, children) =>
      && IsText(name) && (forall i | 0 <= i < |attrs| :: IsText(attrs[i].name) && IsText(attrs[i].value))
      && forall i | 0 <= i < |children| :: IsTree(children[i])
    case Pcdata(value) => IsText(value)
    case Cdata(value) => IsText(value)
  }

  /** `text_output_escaped` */
  method TextOutputEscaped(w: XmlBufferedWriter, s: seq<byte>, attr: bool)
    requires w.Valid() && IsText(s)
    modifies w`bufsize, w`log, w.writer, w.buffer, w.scratch
    ensures w.Valid() && w.log.history == old(w.log.history) + PrintText(attr, s)
  {
    hide PrintChar, EscapeOf, XmlBufferedWriter.Valid, Consistent, Flatten;
    var i := 0;
    ghost var before := w.log.history;
    assert s[0..] == s && before + PrintText(attr, s) == before + PrintText(attr, s[0..]);
    while i < |s|
      invariant i <= |s| && w.Valid()
      invariant w.log.history + PrintText(attr, s[i..]) == before + PrintText(attr, s)
    {
      var prev := i;
      while i < |s| && !MustEscape(attr, s[i])
        invariant prev <= i <= |s| && forall j | prev <= j < i :: !MustEscape(attr, s[j])
      {
        i := i + 1;
      }
      PlainPart(attr, s, prev, i);
      ghost var h := w.log.history;
      w.Write(s[prev..i]);
      Assoc(h, s[prev..i], PrintText(attr, s[i..]));
      if i < |s| {
        h := w.log.history;
        var bs := EscapeOf(s[i]);
        FirstChar(attr, s, i);
        w.WriteCharacters(bs);
        Assoc(h, bs, PrintText(attr, s[i + 1..]));
        i := i + 1;
      }
    }
    assert s[|s|..] == [];
    assert w.log.history + [] == w.log.history;
  }

  lemma PlainPart(attr: bool, s: seq<byte>, i: nat, j: nat)
    requires i <= j <= |s| && forall k | i <= k < j :: !MustEscape(attr, s[k])
    ensures PrintText(attr, s[i..]) == s[i..j] + PrintText(attr, s[j..])
  {
    assert s[i..] == s[i..j] + s[j..];
    PrintTextConcat(attr, s[i..j], s[j..]);
    PlainText(attr, s[i..j]);
  }

  lemma FirstChar(attr: bool, s: seq<byte>, i: nat)
    requires i < |s| && MustEscape(attr, s[i])
    ensures PrintText(attr, s[i..]) == EscapeOf(s[i]) + PrintText(attr, s[i + 1..]) && 1 <= |EscapeOf(s[i])| <= 6
  {
    assert s[i..][0] == s[i] && s[i..][1..] == s[i + 1..];
  }

  /** Characters that are written one to six at a time; `printed` is what has come since `before`. */
  method Put(w: XmlBufferedWriter, s: string, ghost before: seq<byte>, ghost printed: seq<byte>)
    requires w.Valid() && w.log.history == before + printed
    requires 1 <= |s| <= 6 && forall i | 0 <= i < |s| :: s[i] < 128 as char
    modifies w`bufsize, w`log, w.writer, w.buffer, w.scratch
    ensures w.Valid() && w.log.history == before + (printed + Bytes(s))
  {
    hide XmlBufferedWriter.Valid, Consistent, Bytes;
    w.WriteCharacters(Bytes(s));
    Assoc(before, printed, Bytes(s));
  }

  method PutName(w: XmlBufferedWriter, name: seq<byte>, ghost before: seq<byte>, ghost printed: seq<byte>)
    requires w.Valid() && w.log.history == before + printed
    modifies w`bufsize, w`log, w.writer, w.buffer, w.scratch
    ensures w.Valid() && w.log.history == before + (printed + NameOf(name))
  {
    hide XmlBufferedWriter.Valid, Consistent, NameOf;
    w.Write(NameOf(name));
    Assoc(before, printed, NameOf(name));
  }

  method PutText(w: XmlBufferedWriter, attr: bool, s: seq<byte>, ghost before: seq<byte>, ghost printed: seq<byte>)
    requires w.Valid() && w.log.history == before + printed && IsText(s)
    modifies w`bufsize, w`log, w.writer, w.buffer, w.scratch
    ensures w.Valid() && w.log.history == before + (printed + PrintText(attr, s))
  {
    hide XmlBufferedWriter.Valid, Consistent, PrintText;
    TextOutputEscaped(w, s, attr);
    Assoc(before, printed, PrintText(attr, s));
  }

  /** `node_output_attributes` */
  method NodeOutputAttributes(w: XmlBufferedWriter, attrs: seq<Attr>, ghost before: seq<byte>, ghost printed: seq<byte>)
    requires w.Valid() && w.log.history == before + printed
    requires forall i | 0 <= i < |attrs| :: IsText(attrs[i].name) && IsText(attrs[i].value)
    modifies w`bufsize, w`log, w.writer, w.buffer, w.scratch
    ensures w.Valid() && w.log.history == before + (printed + PrintAttrs(attrs))
  {
    hide XmlBufferedWriter.Valid, Consistent, PrintText, NameOf, Bytes, PrintAttr, IsText;
    ghost var p := printed;
    assert attrs[0..] == attrs;
    for i := 0 to |attrs|
      invariant w.Valid() && w.log.history == before + p && p + PrintAttrs(attrs[i..]) == printed + PrintAttrs(attrs)
    {
      AttrOutput(w, attrs[i], before, p);
      assert attrs[i..][0] == attrs[i] && attrs[i..][1..] == attrs[i + 1..];
      Assoc(p, PrintAttr(attrs[i]), PrintAttrs(attrs[i + 1..]));
      p := p + PrintAttr(attrs[i]);
    }
    assert attrs[|attrs|..] == [] && p + [] == p;
  }

  method AttrOutput(w: XmlBufferedWriter, a: Attr, ghost before: seq<byte>, ghost printed: seq<byte>)
    requires w.Valid() && w.log.history == before + printed && IsText(a.value)
    modifies w`bufsize, w`log, w.writer, w.buffer, w.scratch
    ensures w.Valid() && w.log.history == before + (printed + PrintAttr(a))
  {
    hide XmlBufferedWriter.Valid, Consistent, PrintText, NameOf, Bytes, IsText;
    Put(w, " ", before, printed);
    PutName(w, a.name, before, printed + Bytes(" "));
    Put(w, "=\"", before, printed + Bytes(" ") + NameOf(a.name));
    PutText(w, true, a.value, before, printed + Bytes(" ") + NameOf(a.name) + Bytes("=\""));
    Put(w, "\"", before, printed + Bytes(" ") + NameOf(a.name) + Bytes("=\"") + PrintText(true, a.value));
    Regroup5(printed, Bytes(" "), NameOf(a.name), Bytes("=\""), PrintText(true, a.value), Bytes("\""));
  }

  lemma Regroup5(p: seq<byte>, a: seq<byte>, b: seq<byte>, c: seq<byte>, d: seq<byte>, e: seq<byte>)
    ensures p + a + b + c + d + e == p + (a + b + c + d + e)
  {
  }

  /** `text_output_cdata` */
  method TextOutputCdata(w: XmlBufferedWriter, s: seq<byte>, ghost before: seq<byte>, ghost printed: seq<byte>)
    requires w.Valid() && w.log.history == before + printed && IsText(s)
    modifies w`bufsize, w`log, w.writer, w.buffer, w.scratch
    ensures w.Valid() && w.log.history == before + (printed + PrintSections(Pieces(s)))
  {
    hide XmlBufferedWriter.Valid, Consistent, PrintSection, IsText;
    ghost var p := printed;
    var i := 0;
    assert s[0..] == s;
    while true
      invariant i <= |s| && w.Valid() && w.log.history == before + p
      invariant p + PrintSections(Pieces(s[i..])) == printed + PrintSections(Pieces(s))
      decreases |s| - i
    {
      var prev := i;
      while i < |s| && !EndsAt(s, i)
        invariant prev <= i <= |s| && FirstEnd(s, prev) == FirstEnd(s, i)
      {
        i := i + 1;
      }
      FirstPiece(s, prev, i);
      if i < |s| {
        i := i + 2;
      }
      SectionOutput(w, s[prev..i], before, p);
      if i == |s| {
        break;
      }
      Assoc(p, PrintSection(s[prev..i]), PrintSections(Pieces(s[i..])));
      p := p + PrintSection(s[prev..i]);
    }
  }

  method SectionOutput(w: XmlBufferedWriter, piece: seq<byte>, ghost before: seq<byte>, ghost printed: seq<byte>)
    requires w.Valid() && w.log.history == before + printed
    modifies w`bufsize, w`log, w.writer, w.buffer, w.scratch
    ensures w.Valid() && w.log.history == before + (printed + PrintSection(piece))
  {
    hide XmlBufferedWriter.Valid, Consistent;
    hide PrintSection, Bytes;
    Put(w, "<![CD", before, printed);
    Put(w, "ATA[", before, printed + Bytes("<![CD"));
    w.Write(piece);
    Assoc(before, printed + Bytes("<![CD") + Bytes("ATA["), piece);
    Put(w, "]]>", before, printed + Bytes("<![CD") + Bytes("ATA[") + piece);
    Regroup3(printed, Bytes("<![CD"), Bytes("ATA["), piece, Bytes("]]>"));
    SectionStart(piece);
  }

  lemma SectionStart(piece: seq<byte>)
    ensures PrintSection(piece) == Bytes("<![CD") + Bytes("ATA[") + piece + Bytes("]]>")
  {
    assert Bytes("<![CD") + Bytes("ATA[") == Bytes("<![CDATA[");
  }

  /** The loop of `text_output_cdata` finds the first piece of what is left. */
  lemma FirstPiece(s: seq<byte>, from: nat, k: nat)
    requires from <= k <= |s| && FirstEnd(s, from) == k
    ensures k == |s| ==> PrintSections(Pieces(s[from..])) == PrintSection(s[from..k])
    ensures k < |s| ==> k + 2 < |s|
                        && PrintSections(Pieces(s[from..]))
                           == PrintSection(s[from..k + 2]) + PrintSections(Pieces(s[k + 2..]))
  {
    hide PrintSection;
    FirstEndOf(s, from, from);
    var rest := s[from..];
    if k == |s| {
      assert Pieces(rest) == [rest];
      assert s[from..k] == rest;
      OnlySection(rest);
    } else {
      assert rest[..k - from + 2] == s[from..k + 2] && rest[k - from + 2..] == s[k + 2..];
      var ps := Pieces(rest);
      assert ps[0] == s[from..k + 2] && ps[1..] == Pieces(s[k + 2..]);
    }
  }

  lemma OnlySection(piece: seq<byte>)
    ensures PrintSections([piece]) == PrintSection(piece)
  {
    hide PrintSection;
    var ps := [piece];
    assert ps[1..] == [] && PrintSections(ps[1..]) == [];
    assert PrintSection(piece) + [] == PrintSection(piece);
  }

  lemma {:induction false} FirstEndOf(s: seq<byte>, from: nat, at: nat)
    requires from <= at <= |s|
    ensures FirstEnd(s[from..], at - from) == FirstEnd(s, at) - from
    decreases |s| - at
  {
    if at < |s| {
      assert EndsAt(s[from..], at - from) <==> EndsAt(s, at);
      if !EndsAt(s, at) {
        FirstEndOf(s, from, at + 1);
      }
    }
  }

  /** `node_output` with `format_raw`. */
  method NodeOutput(w: XmlBufferedWriter, n: Node, ghost before: seq<byte>, ghost printed: seq<byte>)
    requires w.Valid() && w.log.history == before + printed && IsTree(n)
    modifies w`bufsize, w`log, w.writer, w.buffer, w.scratch
    ensures w.Valid() && w.log.history == before + (printed + Print(n))
    decreases n
  {
    hide XmlBufferedWriter.Valid, Consistent, PrintText, NameOf, Bytes, PrintAttrs, PrintSections, Pieces, IsText, PrintAll;
    match n
    case Pcdata(value) => PutText(w, false, value, before, printed);
    case Cdata(value) => TextOutputCdata(w, value, before, printed);
    case Element(name, attrs, children) =>
      Put(w, "<", before, printed);
      PutName(w, name, before, printed + Bytes("<"));
      NodeOutputAttributes(w, attrs, before, printed + Bytes("<") + NameOf(name));
      ghost var p := printed + Bytes("<") + NameOf(name) + PrintAttrs(attrs);
      if children == [] {
        Put(w, " />", before, p);
        Regroup3(printed, Bytes("<"), NameOf(name), PrintAttrs(attrs), Bytes(" />"));
      } else {
        Put(w, ">", before, p);
        NodesOutput(w, children, before, p + Bytes(">"));
        Put(w, "</", before, p + Bytes(">") + PrintAll(children));
        PutName(w, name, before, p + Bytes(">") + PrintAll(children) + Bytes("</"));
        Put(w, ">", before, p + Bytes(">") + PrintAll(children) + Bytes("</") + NameOf(name));
        Regroup5(p, Bytes(">"), PrintAll(children), Bytes("</"), NameOf(name), Bytes(">"));
        Regroup3(printed, Bytes("<"), NameOf(name), PrintAttrs(attrs),
                 Bytes(">") + PrintAll(children) + Bytes("</") + NameOf(name) + Bytes(">"));
      }
  }

  lemma Regroup3(p: seq<byte>, a: seq<byte>, b: seq<byte>, c: seq<byte>, d: seq<byte>)
    ensures p + a + b + c + d == p + (a + b + c + d)
  {
  }

  /** The loop over the children, and the one over the nodes of a document. */
  method NodesOutput(w: XmlBufferedWriter, ns: seq<Node>, ghost before: seq<byte>, ghost printed: seq<byte>)
    requires w.Valid() && w.log.history == before + printed && forall i | 0 <= i < |ns| :: IsTree(ns[i])
    modifies w`bufsize, w`log, w.writer, w.buffer, w.scratch
    ensures w.Valid() && w.log.history == before + (printed + PrintAll(ns))
    decreases ns
  {
    hide XmlBufferedWriter.Valid, Consistent, Print, IsTree;
    ghost var p := printed;
    assert ns[0..] == ns;
    for i := 0 to |ns|
      invariant w.Valid() && w.log.history == before + p && p + PrintAll(ns[i..]) == printed + PrintAll(ns)
    {
      NodeOutput(w, ns[i], before, p);
      assert ns[i..][0] == ns[i] && ns[i..][1..] == ns[i + 1..];
      Assoc(p, Print(ns[i]), PrintAll(ns[i + 1..]));
      p := p + Print(ns[i]);
    }
    assert ns[|ns|..] == [] && p + [] == p;
  }
}
