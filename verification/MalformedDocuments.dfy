/**
  Texts that are not documents, and the error with its offset that the parser reports for each.
 */
module MalformedDocuments {
  import opened Common
  import opened TextConversion
  import opened XmlPrinter
  import opened XmlParser

  /** The tag at the beginning of a text decides. */
  lemma FirstTagFails(text: seq<byte>, status: Status, offset: nat)
    requires |text| >= 2 && text[0] == '<' as byte
    requires Tag(Cut(text), text[|text| - 1], 1, [DOCUMENT]) == Failed(status, offset)
    ensures ParseDocument(text) == Error(status, offset)
  {
  }

  /** `<1>` */
  lemma NoName()
    ensures ParseDocument(Bytes("<1>")) == Error(UnrecognizedTag, 1)
  {
    FirstTagFails(Bytes("<1>"), UnrecognizedTag, 1);
  }

  /** `<a/b>` */
  lemma NoEndOfTag()
    ensures ParseDocument(Bytes("<a/b>")) == Error(BadStartElement, 3)
  {
    hide ParseDocument;
    var src := Cut(Bytes("<a/b>"));
    assert ScanSymbols(src, 1) == 2;
    FirstTagFails(Bytes("<a/b>"), BadStartElement, 3);
  }

  /** `<a b>`: an attribute without a value. */
  lemma NoValue()
    ensures ParseDocument(Bytes("<a b>")) == Error(BadAttribute, 4)
  {
    hide ParseDocument;
    var src := Cut(Bytes("<a b>"));
    assert ScanSymbols(src, 1) == 2 && SkipWs(src, 3) == 3 && ScanSymbols(src, 3) == 4;
    FirstTagFails(Bytes("<a b>"), BadAttribute, 4);
  }

  /** `</a>`: an end tag without an element. */
  lemma NoElement()
    ensures ParseDocument(Bytes("</a>")) == Error(EndElementMismatch, 2)
  {
    hide ParseDocument;
    FirstTagFails(Bytes("</a>"), EndElementMismatch, 2);
  }

  /** `<a>`: an element without an end. */
  lemma NoEnd()
    ensures ParseDocument(Bytes("<a>")) == Error(EndElementMismatch, 2)
  {
    var src := Cut(Bytes("<a>"));
    assert ScanSymbols(src, 1) == 2;
    var stack := Push([DOCUMENT], src[1..2]);
    assert Tag(src, '>' as byte, 1, [DOCUMENT]) == At(2, stack);
    assert ParseFrom(src, '>' as byte, 2, stack) == Error(EndElementMismatch, 2);
  }

  /** `<a></b>`: the end tag of another element. */
  lemma OtherEnd()
    ensures ParseDocument(Bytes("<a></b>")) == Error(EndElementMismatch, 6)
  {
    var src := Cut(Bytes("<a></b>"));
    assert ScanSymbols(src, 1) == 2 && ScanSymbols(src, 5) == 6;
    var stack := Push([DOCUMENT], src[1..2]);
    assert Tag(src, '>' as byte, 1, [DOCUMENT]) == At(3, stack);
    assert src[5..6] == Bytes("b") && stack[1].name == Bytes("a");
    assert FirstDifference(Bytes("b"), Bytes("a")) == 0;
    assert Tag(src, '>' as byte, 4, stack) == Failed(EndElementMismatch, 6);
    assert ParseFrom(src, '>' as byte, 3, stack) == Error(EndElementMismatch, 6);
  }

  /** Blanks around the equals sign and single quotes, on the other hand, are right: `<a b = 'c'/>`. */
  lemma SingleQuotes()
    ensures ParseDocument(Bytes("<a b = 'c'/>"))
         == Parsed([Element(Bytes("a"), [Attr(Bytes("b"), Bytes("c"))], [])])
  {
    hide Tag;
    var src := Cut(Bytes("<a b = 'c'/>"));
    var a := Attr(Bytes("b"), Bytes("c"));
    QuotedTag(src, a);
    QuotedStack(a);
    assert ParseFrom(src, '>' as byte, 11, QuotedEnd(a)) == Finish(11, QuotedEnd(a));
  }

  function QuotedEnd(a: Attr): seq<Open>
  {
    Pop(AddAttr(Push([DOCUMENT], Bytes("a")), a))
  }

  lemma QuotedStack(a: Attr)
    ensures |QuotedEnd(a)| == 1 && QuotedEnd(a)[0].children == [Element(Bytes("a"), [a], [])]
  {
    var p := Push([DOCUMENT], Bytes("a"));
    assert p[..1] == [DOCUMENT] && [] + [a] == [a];
    var q := AddAttr(p, a);
    assert q[..1] == [DOCUMENT] && q[1] == Open(Bytes("a"), [a], []);
  }

  lemma QuotedTag(src: seq<byte>, a: Attr)
    requires src == Cut(Bytes("<a b = 'c'/>")) && a == Attr(Bytes("b"), Bytes("c"))
    ensures Tag(src, '>' as byte, 1, [DOCUMENT]) == At(11, QuotedEnd(a))
  {
    hide OneAttr, Push, Pop, AddAttr;
    assert ScanSymbols(src, 1) == 2 && SkipWs(src, 3) == 3;
    QuotedAttr(src);
    assert src[1..2] == Bytes("a");
    var t := AddAttr(Push([DOCUMENT], Bytes("a")), a);
    assert SkipWs(src, 10) == 10;
    assert Attributes(src, '>' as byte, 10, t) == At(11, Pop(t));
    assert Attributes(src, '>' as byte, 3, Push([DOCUMENT], Bytes("a"))) == At(11, Pop(t));
  }

  lemma QuotedAttr(src: seq<byte>)
    requires src == Cut(Bytes("<a b = 'c'/>"))
    ensures OneAttr(src, 3) == Got(Attr(Bytes("b"), Bytes("c")), 10)
  {
    hide Convert, UpToNul;
    assert ScanSymbols(src, 3) == 4;
    assert SkipWs(src, 5) == 5 && SkipWs(src, 6) == 7;
    assert src[3..4] == Bytes("b");
    QuotedC(src);
  }

  lemma QuotedC(src: seq<byte>)
    requires Terminated(src) && |src| > 10 && src[8] == 'c' as byte && src[9] == '\'' as byte
    ensures Convert(Attribute('\'' as byte, Spaces, true), src, 8) == Ended(Bytes("c"), 10)
    ensures UpToNul(Bytes("c")) == Bytes("c")
  {
    var m := Attribute('\'' as byte, Spaces, true);
    assert Step(m, src, 9) == Stop(10) && Convert(m, src, 9) == Ended([], 10);
    assert Bytes("c")[1..] == [];
  }
}
