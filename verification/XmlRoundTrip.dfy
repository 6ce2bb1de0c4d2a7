/**
  Printing a document and parsing what was printed: the tree that comes back is the normal form of the tree that was
  printed, so that documents in normal form, and no others, come back unchanged.
 */
module XmlRoundTrip {
  import opened Common
  import opened Utf8
  import opened TextConversion
  import opened BufferedWriter
  import opened XmlPrinter
  import opened XmlParser

  // ----- normal form -----

  /** Line ends, section 2.11 of XML 1.0. */
  function Eol(s: seq<byte>): (t: seq<byte>)
  {
    if s == [] then []
    else if s[0] == CR then [LF] + Eol(if |s| >= 2 && s[1] == LF then s[2..] else s[1..])
    else [s[0]] + Eol(s[1..])
  }

  /** A blank that is not escaped becomes a space, section 3.3.3 of XML 1.0; only tabs are not escaped. */
  function Spaced(s: seq<byte>): (t: seq<byte>)
  {
    if s == [] then [] else [if s[0] == TAB then SPACE else s[0]] + Spaced(s[1..])
  }

  predicate AllBlank(s: seq<byte>)
  {
    forall i | 0 <= i < |s| :: IsSpace(s[i])
  }

  /** What a run of PCDATA nodes comes back as. */
  function FromText(s: seq<byte>): seq<Node>
  {
    if AllBlank(s) then [] else [Node.Pcdata(Eol(s))]
  }

  function FromPieces(ps: seq<seq<byte>>): seq<Node>
  {
    if ps == [] then [] else [Node.Cdata(Eol(ps[0]))] + FromPieces(ps[1..])
  }

  function FromAttr(a: Attr): Attr { Attr(NameOf(a.name), Spaced(a.value)) }

  function FromAttrs(attrs: seq<Attr>): seq<Attr>
  {
    if attrs == [] then [] else [FromAttr(attrs[0])] + FromAttrs(attrs[1..])
  }

  /** What an element or a CDATA section comes back as. */
  function FromNode(n: Node): seq<Node>
    requires !n.Pcdata?
    decreases n, 0
  {
    match n
    case Element(name, attrs, children) => [Element(NameOf(name), FromAttrs(attrs), FromNodes([], children))]
    case Cdata(value) => FromPieces(Pieces(value))
  }

  /** What children come back as, when they follow the text `run`. */
  function FromNodes(run: seq<byte>, ns: seq<Node>): seq<Node>
    decreases ns, 1
  {
    if ns == [] then FromText(run)
    else if ns[0].Pcdata? then FromNodes(run + ns[0].value, ns[1..])
    else FromText(run) + FromNode(ns[0]) + FromNodes([], ns[1..])
  }

  // ----- which trees -----

  /** Names of section 2.3 of XML 1.0, with every character above 127 taken for a letter. */
  predicate IsName(s: seq<byte>)
  {
    s != [] && IsStartSymbol(s[0]) && forall i | 0 <= i < |s| :: IsSymbol(s[i])
  }

  predicate IsLegalAttr(a: Attr)
  {
    IsName(NameOf(a.name)) && IsText(a.value)
  }

  predicate IsLegal(n: Node)
    decreases n
  {
    match n
    case Element(name, attrs, children) =>
      && IsName(NameOf(name)) && (forall i | 0 <= i < |attrs| :: IsLegalAttr(attrs[i]))
      && AllLegal(children)
    case Pcdata(value) => IsText(value)
    case Cdata(value) => IsText(value)
  }

  predicate AllLegal(ns: seq<Node>)
    decreases ns
  {
    ns == [] || (IsLegal(ns[0]) && AllLegal(ns[1..]))
  }

  /** Text is not kept outside elements. */
  predicate IsDocument(ns: seq<Node>)
  {
    AllLegal(ns) && forall i | 0 <= i < |ns| :: !ns[i].Pcdata?
  }

  // ----- reading what was printed -----

  /** The printed document, whose last character the parser cuts off. */
  predicate IsPrinted(p: seq<byte>)
  {
    p != [] && p[|p| - 1] == '>' as byte
  }

  ghost predicate Has(p: seq<byte>, i: nat, text: seq<byte>)
  {
    i + |text| <= |p| && p[i..i + |text|] == text
  }

  /** Behind `k` characters the parser stands at `k`, or at the NUL when all have been read. */
  function Pos(p: seq<byte>, k: nat): (i: nat)
    requires p != [] && k <= |p|
    ensures i < |p|
  {
    if k == |p| then |p| - 1 else k
  }

  lemma CutAt(p: seq<byte>, j: nat)
    requires p != [] && j < |p|
    ensures Cut(p)[j] == if j == |p| - 1 then 0 else p[j]
  {
  }

  lemma HasAt(p: seq<byte>, i: nat, text: seq<byte>, k: nat)
    requires Has(p, i, text) && k < |text|
    ensures p[i + k] == text[k]
    ensures i + k < |p| - 1 ==> Cut(p)[i + k] == text[k]
  {
    assert p[i..i + |text|][k] == p[i + k];
  }

  lemma HasParts(p: seq<byte>, i: nat, a: seq<byte>, b: seq<byte>)
    requires Has(p, i, a + b)
    ensures Has(p, i, a) && Has(p, i + |a|, b) && i + |a| + |b| <= |p|
  {
    assert p[i..i + |a|] == (a + b)[..|a|] == a;
    assert p[i + |a|..i + |a| + |b|] == (a + b)[|a|..] == b;
  }

  lemma {:induction false} ScanName(p: seq<byte>, i: nat, name: seq<byte>, k: nat)
    requires IsPrinted(p) && Has(p, i, name) && (forall j | 0 <= j < |name| :: IsSymbol(name[j]))
    requires i + |name| < |p| && !IsSymbol(p[i + |name|]) && k <= |name|
    ensures ScanSymbols(Cut(p), i + k) == i + |name|
    decreases |name| - k
  {
    if k < |name| {
      HasAt(p, i, name, k);
      ScanName(p, i, name, k + 1);
    } else {
      CutAt(p, i + |name|);
    }
  }

  // ----- escapes -----

  lemma EscapeReads(src: seq<byte>, i: nat, attr: bool, c: byte)
    requires Terminated(src) && MustEscape(attr, c) && i + |EscapeOf(c)| < |src|
    requires forall k | 0 <= k < |EscapeOf(c)| :: src[i + k] == EscapeOf(c)[k]
    ensures src[i] == '&' as byte && Escaped(src, i) == Emit([c], i + |EscapeOf(c)|)
  {
    var e := EscapeOf(c);
    assert src[i] == e[0] && src[i + 1] == e[1] && src[i + 2] == e[2] && src[i + 3] == e[3];
    if c == '&' as byte || c == '<' as byte || c == '>' as byte || c == '"' as byte {
      if |e| >= 5 { assert src[i + 4] == e[4]; }
      if |e| >= 6 { assert src[i + 5] == e[5]; }
    } else {
      assert src[i + 4] == e[4];
      TwoDigits(src, i + 2, c);
    }
  }

  lemma DigitIs(d: nat)
    requires d < 10
    ensures '0' as byte + d < 256 && Digit('0' as byte + d, 10) == d && '0' as byte + d != ';' as byte
        && '0' as byte + d != 'x' as byte
  {
  }

  lemma OneDigit(src: seq<byte>, p: nat, value: nat, d: nat)
    requires Terminated(src) && p < |src| && d < 10 && value < 1000 && '0' as byte + d < 256 && src[p] == '0' as byte + d
    ensures p + 1 < |src| && Digits(src, p, 10, value) == Digits(src, p + 1, 10, 10 * value + d)
  {
    DigitIs(d);
    hide Digit;
  }

  lemma TwoDigits(src: seq<byte>, p: nat, c: byte)
    requires Terminated(src) && p + 2 < |src| && c < 32
    requires src[p] == '0' as byte + c / 10 % 10 && src[p + 1] == '0' as byte + c % 10 && src[p + 2] == ';' as byte
    ensures Digits(src, p, 10, 0) == Char([c], p + 3) && src[p] != ';' as byte && src[p] != 'x' as byte
  {
    var a: nat, b: nat := c / 10, c % 10;
    DigitIs(a);
    OneDigit(src, p, 0, a);
    OneDigit(src, p + 1, a, b);
    assert 10 * a + b == c;
    assert Digits(src, p + 2, 10, c) == Char(Any(c), p + 3);
  }

  // ----- text -----

  /** The first character of printed text. */
  lemma TextParts(p: seq<byte>, i: nat, attr: bool, v: seq<byte>)
    requires v != [] && Has(p, i, PrintText(attr, v))
    ensures var c := PrintChar(attr, v[0]);
            Has(p, i, c) && Has(p, i + |c|, PrintText(attr, v[1..]))
                && |PrintText(attr, v)| == |c| + |PrintText(attr, v[1..])|
  {
    hide PrintChar;
    HasParts(p, i, PrintChar(attr, v[0]), PrintText(attr, v[1..]));
  }

  lemma CharAt(p: seq<byte>, i: nat, attr: bool, c: byte)
    requires Has(p, i, PrintChar(attr, c)) && i + |PrintChar(attr, c)| < |p| && c != 0
    ensures Terminated(Cut(p)) && i < |p|
    ensures MustEscape(attr, c) ==> Cut(p)[i] == '&' as byte && Escaped(Cut(p), i) == Emit([c], i + |EscapeOf(c)|)
    ensures !MustEscape(attr, c) ==> Cut(p)[i] == c
  {
    hide EscapeOf, Escaped;
    var t := PrintChar(attr, c);
    forall k | 0 <= k < |t| ensures Cut(p)[i + k] == t[k] {
      HasAt(p, i, t, k);
    }
    if MustEscape(attr, c) {
      EscapeReads(Cut(p), i, attr, c);
    } else {
      assert Cut(p)[i + 0] == t[0];
    }
  }

  /** A line feed is printed for a line feed only. */
  lemma NextIsLineFeed(p: seq<byte>, i: nat, v: seq<byte>)
    requires IsPrinted(p) && Has(p, i, PrintText(false, v)) && i + |PrintText(false, v)| < |p| - 1
    requires p[i + |PrintText(false, v)|] == '<' as byte
    ensures i < |p| - 1 && (Cut(p)[i] == LF <==> v != [] && v[0] == LF)
  {
    if v == [] {
      CutAt(p, i);
    } else {
      TextParts(p, i, false, v);
      HasAt(p, i, PrintChar(false, v[0]), 0);
    }
  }

  lemma Converts(m: Mode, src: seq<byte>, i: nat, bytes: seq<byte>, next: nat, text: seq<byte>, after: nat)
    requires Terminated(src) && i < next < |src|
    requires Step(m, src, i) == Emit(bytes, next) && Convert(m, src, next) == Ended(text, after)
    ensures Convert(m, src, i) == Ended(bytes + text, after)
  {
    hide Step;
  }

  /** How much of a text the first step of the converter takes. */
  function Taken(v: seq<byte>): (n: nat)
    requires v != []
    ensures 1 <= n <= |v|
  {
    if v[0] == CR && |v| >= 2 && v[1] == LF then 2 else 1
  }

  lemma EolTaken(v: seq<byte>)
    requires v != []
    ensures Eol(v) == [if v[0] == CR then LF else v[0]] + Eol(v[Taken(v)..])
  {
  }

  /** A character that is no carriage return. */
  lemma PlainStepReads(p: seq<byte>, i: nat, v: seq<byte>)
    requires IsPrinted(p) && IsText(v) && v != [] && v[0] != CR && Has(p, i, PrintText(false, v))
    requires i + |PrintText(false, v)| < |p| - 1
    ensures var next := i + |PrintText(false, v)| - |PrintText(false, v[1..])|;
            && i < next < |p| && Has(p, next, PrintText(false, v[1..]))
            && Step(Mode.Pcdata(true, true), Cut(p), i) == Emit([v[0]], next)
  {
    hide PrintChar, Escaped, PrintText, Has, Cut;
    TextParts(p, i, false, v);
    CharAt(p, i, false, v[0]);
    PlainChar(false, v[0]);
  }

  /** A carriage return, with the line feed behind it. */
  lemma ReturnReads(p: seq<byte>, i: nat, v: seq<byte>)
    requires IsPrinted(p) && IsText(v) && v != [] && v[0] == CR && Has(p, i, PrintText(false, v))
    requires var j := i + |PrintText(false, v)|; j < |p| - 1 && p[j] == '<' as byte
    ensures var n := Taken(v);
            && i + n == i + |PrintText(false, v)| - |PrintText(false, v[n..])| < |p|
                && Has(p, i + n, PrintText(false, v[n..]))
            && Step(Mode.Pcdata(true, true), Cut(p), i) == Emit([LF], i + n)
  {
    hide PrintChar, PrintText, Has, Cut;
    TextParts(p, i, false, v);
    CharAt(p, i, false, CR);
    PlainChar(false, CR);
    NextIsLineFeed(p, i + 1, v[1..]);
    if |v| >= 2 && v[1] == LF {
      TextParts(p, i + 1, false, v[1..]);
      PlainChar(false, LF);
      assert v[1..][1..] == v[2..];
    }
  }

  lemma TextStep(p: seq<byte>, i: nat, v: seq<byte>)
    requires IsPrinted(p) && IsText(v) && v != [] && Has(p, i, PrintText(false, v))
    requires var j := i + |PrintText(false, v)|; j < |p| - 1 && p[j] == '<' as byte
    ensures var rest := v[Taken(v)..];
            var next := i + |PrintText(false, v)| - |PrintText(false, rest)|;
            && i < next < |p| && IsText(rest) && Has(p, next, PrintText(false, rest))
            && Step(Mode.Pcdata(true, true), Cut(p), i) == Emit([if v[0] == CR then LF else v[0]], next)
  {
    hide Step, PrintText, Has, Cut;
    if v[0] == CR {
      ReturnReads(p, i, v);
    } else {
      PlainStepReads(p, i, v);
    }
  }

  lemma {:induction false} TextConverts(p: seq<byte>, i: nat, v: seq<byte>)
    requires IsPrinted(p) && IsText(v) && Has(p, i, PrintText(false, v))
    requires var j := i + |PrintText(false, v)|; j < |p| - 1 && p[j] == '<' as byte
    ensures Convert(Mode.Pcdata(true, true), Cut(p), i) == Ended(Eol(v), i + |PrintText(false, v)| + 1)
    decreases |v|
  {
    hide PrintText, Step, Eol, Taken;
    var m := Mode.Pcdata(true, true);
    if v == [] {
      NothingToConvert(p, i);
    } else {
      TextStep(p, i, v);
      EolTaken(v);
      var rest := v[Taken(v)..];
      var next := i + |PrintText(false, v)| - |PrintText(false, rest)|;
      TextConverts(p, next, rest);
      Converts(m, Cut(p), i, [if v[0] == CR then LF else v[0]], next, Eol(rest), i + |PrintText(false, v)| + 1);
    }
  }

  lemma NothingToConvert(p: seq<byte>, i: nat)
    requires IsPrinted(p) && i < |p| - 1
    ensures PrintText(false, []) == [] && PrintText(true, []) == [] && Eol([]) == [] && Spaced([]) == []
    ensures p[i] == '<' as byte ==> Convert(Mode.Pcdata(true, true), Cut(p), i) == Ended([], i + 1)
    ensures p[i] == '"' as byte ==> Convert(Attribute('"' as byte, Spaces, true), Cut(p), i) == Ended([], i + 1)
  {
    CutAt(p, i);
  }

  lemma PlainChar(attr: bool, c: byte)
    ensures PrintChar(attr, c) == if MustEscape(attr, c) then EscapeOf(c) else [c]
    ensures c == CR || c == LF ==> !MustEscape(false, c)
  {
  }

  lemma ValueStep(p: seq<byte>, i: nat, v: seq<byte>)
    requires IsPrinted(p) && IsText(v) && v != [] && Has(p, i, PrintText(true, v))
    requires var j := i + |PrintText(true, v)|; j < |p| - 1 && p[j] == '"' as byte
    ensures var n := |PrintText(true, v)| - |PrintText(true, v[1..])|;
            && 0 < n && i + n < |p| && IsText(v[1..]) && Has(p, i + n, PrintText(true, v[1..]))
            && Step(Attribute('"' as byte, Spaces, true), Cut(p), i) == Emit([if v[0] == TAB then SPACE else v[0]], i + n)
  {
    hide PrintChar, Escaped, PrintText;
    TextParts(p, i, true, v);
    CharAt(p, i, true, v[0]);
    PlainChar(true, v[0]);
  }

  lemma {:induction false} ValueConverts(p: seq<byte>, i: nat, v: seq<byte>)
    requires IsPrinted(p) && IsText(v) && Has(p, i, PrintText(true, v))
    requires var j := i + |PrintText(true, v)|; j < |p| - 1 && p[j] == '"' as byte
    ensures Convert(Attribute('"' as byte, Spaces, true), Cut(p), i) == Ended(Spaced(v), i + |PrintText(true, v)| + 1)
    decreases |v|
  {
    hide PrintText, Step;
    if v == [] {
      NothingToConvert(p, i);
    } else {
      ValueStep(p, i, v);
      var n := |PrintText(true, v)| - |PrintText(true, v[1..])|;
      ValueConverts(p, i + n, v[1..]);
      Converts(Attribute('"' as byte, Spaces, true), Cut(p), i, [if v[0] == TAB then SPACE else v[0]], i + n, Spaced(v[1..]),
               i + |PrintText(true, v)| + 1);
    }
  }

  // ----- CDATA -----

  predicate NoEnd(s: seq<byte>)
  {
    forall k | 0 <= k < |s| :: !EndsAt(s, k)
  }

  lemma SectionStep(p: seq<byte>, i: nat, piece: seq<byte>)
    requires IsPrinted(p) && IsText(piece) && NoEnd(piece) && piece != [] && Has(p, i, piece + Bytes("]]>"))
    ensures var n := Taken(piece);
            && i + n < |p| && IsText(piece[n..]) && NoEnd(piece[n..]) && Has(p, i + n, piece[n..] + Bytes("]]>"))
            && Step(Mode.Cdata('>' as byte), Cut(p), i) == Emit([if piece[0] == CR then LF else piece[0]], i + n)
  {
    hide NoEnd, EndsCdata;
    var n := Taken(piece);
    NotEnded(p, i, piece);
    Shorter(piece, n);
    assert piece[..n] + (piece[n..] + Bytes("]]>")) == piece + Bytes("]]>");
    HasParts(p, i, piece[..n], piece[n..] + Bytes("]]>"));
  }

  lemma EmptySection(p: seq<byte>, i: nat)
    requires IsPrinted(p) && Has(p, i, Bytes("]]>"))
    ensures Convert(Mode.Cdata('>' as byte), Cut(p), i) == Ended([], i + 1)
  {
    var t := Bytes("]]>");
    HasAt(p, i, t, 0);
    HasAt(p, i, t, 1);
    HasAt(p, i, t, 2);
    CutAt(p, i + 2);
    assert Step(Mode.Cdata('>' as byte), Cut(p), i) == Stop(i + 1);
  }

  lemma {:induction false} SectionConverts(p: seq<byte>, i: nat, piece: seq<byte>)
    requires IsPrinted(p) && IsText(piece) && NoEnd(piece) && Has(p, i, piece + Bytes("]]>"))
    ensures Convert(Mode.Cdata('>' as byte), Cut(p), i) == Ended(Eol(piece), i + |piece| + 1)
    decreases |piece|
  {
    hide NoEnd, Step, Bytes, Taken, IsText, Convert, Has;
    if piece == [] {
      assert piece + Bytes("]]>") == Bytes("]]>");
      EmptySection(p, i);
    } else {
      SectionStep(p, i, piece);
      EolTaken(piece);
      var n := Taken(piece);
      SectionConverts(p, i + n, piece[n..]);
      Converts(Mode.Cdata('>' as byte), Cut(p), i, [if piece[0] == CR then LF else piece[0]], i + n, Eol(piece[n..]),
               i + |piece| + 1);
    }
  }

  lemma NotEnded(p: seq<byte>, i: nat, piece: seq<byte>)
    requires IsPrinted(p) && IsText(piece) && NoEnd(piece) && piece != [] && Has(p, i, piece + Bytes("]]>"))
    ensures !EndsCdata(Cut(p), i, '>' as byte)
    ensures Cut(p)[i] == piece[0] && (Cut(p)[i + 1] == LF <==> |piece| >= 2 && piece[1] == LF)
  {
    var t := piece + Bytes("]]>");
    HasAt(p, i, t, 0);
    HasAt(p, i, t, 1);
    HasAt(p, i, t, 2);
    assert !EndsAt(piece, 0);
    if |piece| >= 3 {
      assert t[2] == piece[2] != 0;
    } else {
      assert t[2] == ']' as byte;
    }
  }

  lemma Shorter(piece: seq<byte>, n: nat)
    requires IsText(piece) && NoEnd(piece) && n <= |piece|
    ensures IsText(piece[n..]) && NoEnd(piece[n..])
  {
    forall k | 0 <= k < |piece| - n ensures !EndsAt(piece[n..], k) {
      assert !EndsAt(piece, n + k);
    }
  }

  /** No piece contains a terminator. */
  lemma {:induction false} PiecesClean(s: seq<byte>)
    requires IsText(s)
    ensures forall k | 0 <= k < |Pieces(s)| :: IsText(Pieces(s)[k]) && NoEnd(Pieces(s)[k])
  {
    var k := FirstEnd(s, 0);
    if k < |s| {
      PiecesClean(s[k + 2..]);
      FrontClean(s, k);
    }
  }

  lemma FrontClean(s: seq<byte>, k: nat)
    requires FirstEnd(s, 0) == k < |s|
    ensures NoEnd(s[..k + 2])
  {
    var piece := s[..k + 2];
    forall j | 0 <= j < |piece| ensures !EndsAt(piece, j) {
      assert EndsAt(piece, j) ==> EndsAt(s, j) && j < k;
    }
  }

  // ----- tags -----

  lemma SymbolKinds(c: byte)
    ensures IsSymbol(c) ==> !IsSpace(c) && c != 0 && c != '/' as byte && c != '>' as byte && c != '=' as byte
                            && c != '<' as byte
  {
  }

  lemma {:induction false} NulFreeValue(v: seq<byte>)
    requires IsText(v)
    ensures UpToNul(Spaced(v)) == Spaced(v)
  {
    if v != [] {
      assert IsText(v[1..]);
      NulFreeValue(v[1..]);
    }
  }

  lemma {:induction false} NulFreeText(v: seq<byte>)
    requires IsText(v)
    ensures UpToNul(Eol(v)) == Eol(v)
    decreases |v|
  {
    hide Taken;
    if v != [] {
      EolTaken(v);
      assert IsText(v[Taken(v)..]);
      NulFreeText(v[Taken(v)..]);
    }
  }

  lemma ValueReads(p: seq<byte>, i: nat, name: seq<byte>, v: seq<byte>)
    requires IsPrinted(p) && IsText(v) && Has(p, i, Bytes("\"")) && Has(p, i + 1, PrintText(true, v))
    requires var j := i + 1 + |PrintText(true, v)|; j < |p| - 1 && p[j] == '"' as byte
    ensures AttrValue(Cut(p), name, i) == Got(Attr(name, Spaced(v)), i + 1 + |PrintText(true, v)| + 1)
  {
    hide PrintText, Convert, Spaced, UpToNul;
    HasAt(p, i, Bytes("\""), 0);
    ValueConverts(p, i + 1, v);
    NulFreeValue(v);
  }

  lemma QuoteOfSign(p: seq<byte>, k: nat)
    requires Has(p, k, Bytes("=\""))
    ensures Has(p, k + 1, Bytes("\""))
  {
    assert Bytes("=\"") == Bytes("=") + Bytes("\"");
    HasParts(p, k, Bytes("="), Bytes("\""));
  }

  lemma SignFound(src: seq<byte>, k: nat)
    requires Terminated(src) && k + 1 < |src| && src[k] == '=' as byte && src[k + 1] != 0
    ensures FindSign(src, k) == Sign(k + 1)
  {
  }

  /** An attribute from its name on. */
  lemma OneAttrReads(p: seq<byte>, i: nat, a: Attr)
    requires IsPrinted(p) && IsLegalAttr(a) && i + |PrintAttr(a)| - 1 < |p| - 1
    requires Has(p, i, NameOf(a.name) + Bytes("=\"") + PrintText(true, a.value) + Bytes("\""))
    ensures OneAttr(Cut(p), i) == Got(FromAttr(a), i + |PrintAttr(a)| - 1)
    ensures IsStartSymbol(Cut(p)[i])
  {
    hide PrintText, NameOf, Convert, Spaced, UpToNul, IsName, AttrValue, Has, Cut, ScanSymbols, SkipWs, FindSign;
    var name, text := NameOf(a.name), PrintText(true, a.value);
    var k := i + |name|;
    HasParts(p, i, name + Bytes("=\"") + text, Bytes("\""));
    HasParts(p, i, name + Bytes("=\""), text);
    HasParts(p, i, name, Bytes("=\""));
    HasAt(p, k, Bytes("=\""), 0);
    HasAt(p, k, Bytes("=\""), 1);
    HasAt(p, k + 2 + |text|, Bytes("\""), 0);
    QuoteOfSign(p, k);
    NameReads(p, i, name);
    ValueReads(p, k + 1, name, a.value);
    SignFound(Cut(p), k);
  }

  lemma NameReads(p: seq<byte>, i: nat, name: seq<byte>)
    requires IsPrinted(p) && IsName(name) && Has(p, i, name) && i + |name| < |p| && !IsSymbol(p[i + |name|])
    ensures ScanSymbols(Cut(p), i) == i + |name| && Cut(p)[i..i + |name|] == name && IsStartSymbol(Cut(p)[i])
  {
    ScanName(p, i, name, 0);
    HasAt(p, i, name, 0);
    assert Cut(p)[i..i + |name|] == p[i..i + |name|];
  }

  lemma WithAttr(base: seq<Open>, o: Open, a: Attr)
    ensures AddAttr(base + [o], a) == base + [Open(o.name, o.attrs + [a], o.children)]
  {
    var stack := base + [o];
    assert stack[..|stack| - 1] == base;
  }

  /** All attributes, and then what follows them. */
  lemma {:induction false} AttrsRead(p: seq<byte>, i: nat, attrs: seq<Attr>, base: seq<Open>, o: Open)
    requires IsPrinted(p) && (forall k | 0 <= k < |attrs| :: IsLegalAttr(attrs[k])) && Has(p, i, PrintAttrs(attrs))
    requires base != []
    requires var e := i + |PrintAttrs(attrs)|; e < |p| - 1 && (p[e] == ' ' as byte || p[e] == '>' as byte)
    ensures Attributes(Cut(p), '>' as byte, i, base + [o])
            == Attributes(Cut(p), '>' as byte, i + |PrintAttrs(attrs)|,
                          base + [Open(o.name, o.attrs + FromAttrs(attrs), o.children)])
    decreases |attrs|
  {
    hide PrintAttr, Attributes, OneAttr, IsLegalAttr, FromAttr, Has, Cut;
    if attrs == [] {
      assert o.attrs + [] == o.attrs;
    } else {
      var a, rest := attrs[0], attrs[1..];
      HasParts(p, i, PrintAttr(a), PrintAttrs(rest));
      var next := i + |PrintAttr(a)|;
      NextIsBlank(p, next, rest);
      AttrReads(p, i, a, base, o);
      AttrsRead(p, next, rest, base, Open(o.name, o.attrs + [FromAttr(a)], o.children));
      assert o.attrs + [FromAttr(a)] + FromAttrs(rest) == o.attrs + FromAttrs(attrs);
    }
  }

  lemma NextIsBlank(p: seq<byte>, i: nat, attrs: seq<Attr>)
    requires IsPrinted(p) && Has(p, i, PrintAttrs(attrs))
    requires var e := i + |PrintAttrs(attrs)|; e < |p| - 1 && (p[e] == ' ' as byte || p[e] == '>' as byte)
    ensures i < |p| - 1 && (p[i] == ' ' as byte || p[i] == '>' as byte)
  {
    if attrs != [] {
      HasParts(p, i, PrintAttr(attrs[0]), PrintAttrs(attrs[1..]));
      AttrStarts(p, i, attrs[0]);
    }
  }

  lemma AttrStarts(p: seq<byte>, i: nat, a: Attr)
    requires Has(p, i, PrintAttr(a))
    ensures i < |p| && p[i] == ' ' as byte && |PrintAttr(a)| >= 1
    ensures Has(p, i + 1, NameOf(a.name) + Bytes("=\"") + PrintText(true, a.value) + Bytes("\""))
  {
    hide PrintText, NameOf;
    var t := NameOf(a.name) + Bytes("=\"") + PrintText(true, a.value) + Bytes("\"");
    assert PrintAttr(a) == Bytes(" ") + t;
    HasParts(p, i, Bytes(" "), t);
    HasAt(p, i, Bytes(" "), 0);
  }

  lemma AttrReads(p: seq<byte>, i: nat, a: Attr, base: seq<Open>, o: Open)
    requires IsPrinted(p) && IsLegalAttr(a) && Has(p, i, PrintAttr(a)) && base != []
    requires var e := i + |PrintAttr(a)|; e < |p| - 1 && (p[e] == ' ' as byte || p[e] == '>' as byte)
    ensures Attributes(Cut(p), '>' as byte, i, base + [o])
            == Attributes(Cut(p), '>' as byte, i + |PrintAttr(a)|,
                          base + [Open(o.name, o.attrs + [FromAttr(a)], o.children)])
  {
    hide PrintAttr, Attributes, OneAttr, IsLegalAttr, FromAttr, PrintText, NameOf;
    var src := Cut(p);
    AttrStarts(p, i, a);
    OneAttrReads(p, i + 1, a);
    CutAt(p, i);
    CutAt(p, i + |PrintAttr(a)|);
    SymbolKinds(src[i + 1]);
    assert SkipWs(src, i) == i + 1;
    AttributesRound(src, '>' as byte, i, base + [o]);
    WithAttr(base, o, FromAttr(a));
  }

  /** A tag is parsed in one round. */
  lemma ParsedTag(p: seq<byte>, i: nat, stack: seq<Open>, j: nat, t: seq<Open>)
    requires IsPrinted(p) && i < |p| - 1 && p[i] == '<' as byte && stack != [] && t != [] && i < j < |p|
    requires Tag(Cut(p), '>' as byte, i + 1, stack) == At(j, t)
    ensures ParseFrom(Cut(p), '>' as byte, i, stack) == ParseFrom(Cut(p), '>' as byte, j, t)
  {
    hide Tag;
    CutAt(p, i);
  }

  /** A name behind a bracket, up to `k`. */
  lemma TagNameReads(p: seq<byte>, i: nat, n: seq<byte>, stack: seq<Open>)
    requires IsPrinted(p) && IsName(n) && stack != [] && Has(p, i, Bytes("<") + n)
    requires var k := i + 1 + |n|; k < |p| - 1 && (p[k] == ' ' as byte || p[k] == '>' as byte)
    ensures var k := i + 1 + |n|;
            && p[i] == '<' as byte
            && Tag(Cut(p), '>' as byte, i + 1, stack)
               == if p[k] == ' ' as byte then Attributes(Cut(p), '>' as byte, k, Push(stack, n))
                  else At(k + 1, Push(stack, n))
  {
    hide IsName, Has, Cut, ScanSymbols, Tag, Push, Attributes;
    var src := Cut(p);
    var k := i + 1 + |n|;
    HasParts(p, i, Bytes("<"), n);
    HasAt(p, i, Bytes("<"), 0);
    CutAt(p, k);
    NameReads(p, i + 1, n);
    TagOfName(src, i + 1, k, stack);
    if p[k] == ' ' as byte {
      BlankSkipped(src, k, Push(stack, n));
    }
  }

  /** A name and attributes behind a bracket, up to `e`. */
  lemma TagStarts(p: seq<byte>, i: nat, name: seq<byte>, attrs: seq<Attr>, stack: seq<Open>)
    requires IsPrinted(p) && IsName(NameOf(name)) && (forall k | 0 <= k < |attrs| :: IsLegalAttr(attrs[k])) && stack != []
    requires Has(p, i, Bytes("<") + NameOf(name) + PrintAttrs(attrs))
    requires var e := i + 1 + |NameOf(name)| + |PrintAttrs(attrs)|;
             e < |p| - 1 && (p[e] == ' ' as byte || p[e] == '>' as byte)
    ensures var e := i + 1 + |NameOf(name)| + |PrintAttrs(attrs)|;
            && p[i] == '<' as byte
            && Tag(Cut(p), '>' as byte, i + 1, stack)
               == if attrs == [] && p[e] == '>' as byte then At(e + 1, Push(stack, NameOf(name)))
                  else Attributes(Cut(p), '>' as byte, e, stack + [Open(NameOf(name), FromAttrs(attrs), [])])
  {
    hide PrintAttrs, NameOf, IsLegalAttr, FromAttrs, IsName, Has, Cut, Tag, Attributes;
    var n := NameOf(name);
    var k := i + 1 + |n|;
    HasParts(p, i, Bytes("<") + n, PrintAttrs(attrs));
    NextIsBlank(p, k, attrs);
    FirstIsBlank(p, k, attrs);
    TagNameReads(p, i, n, stack);
    AttrsRead(p, k, attrs, stack, Open(n, [], []));
    assert [] + FromAttrs(attrs) == FromAttrs(attrs);
  }

  lemma FirstIsBlank(p: seq<byte>, i: nat, attrs: seq<Attr>)
    requires Has(p, i, PrintAttrs(attrs))
    ensures attrs != [] ==> i < |p| && p[i] == ' ' as byte
    ensures attrs == [] ==> PrintAttrs(attrs) == []
  {
    if attrs != [] {
      HasParts(p, i, PrintAttr(attrs[0]), PrintAttrs(attrs[1..]));
      AttrStarts(p, i, attrs[0]);
    }
  }

  lemma TagOfName(src: seq<byte>, i: nat, k: nat, stack: seq<Open>)
    requires Terminated(src) && i < |src| && IsStartSymbol(src[i]) && k == ScanSymbols(src, i) && stack != []
    ensures var t := Push(stack, src[i..k]);
            Tag(src, '>' as byte, i, stack)
            == if IsSpace(src[k]) then Attributes(src, '>' as byte, k + 1, t) else AfterName(src, '>' as byte, k, t)
  {
    hide Attributes, AfterName;
  }

  lemma BlankSkipped(src: seq<byte>, k: nat, t: seq<Open>)
    requires Terminated(src) && k + 1 < |src| && IsSpace(src[k]) && |t| >= 2
    ensures Attributes(src, '>' as byte, k, t) == Attributes(src, '>' as byte, k + 1, t)
  {
    AttributesRound(src, '>' as byte, k, t);
    AttributesRound(src, '>' as byte, k + 1, t);
    assert SkipWs(src, k) == SkipWs(src, k + 1);
    hide OneAttr;
    AttributesOnward(src, k, t);
    AttributesOnward(src, k + 1, t);
  }

  lemma AttributesOnward(src: seq<byte>, k: nat, t: seq<Open>)
    requires Terminated(src) && k < |src| && |t| >= 2
    ensures Attributes(src, '>' as byte, k, t) == Attributes(src, '>' as byte, SkipWs(src, k), t)
  {
    hide OneAttr;
    var j := SkipWs(src, k);
    assert SkipWs(src, j) == j;
    AttributesRound(src, '>' as byte, k, t);
    AttributesRound(src, '>' as byte, j, t);
  }

  /** A start tag of an element with children. */
  lemma OpenTag(p: seq<byte>, i: nat, name: seq<byte>, attrs: seq<Attr>, stack: seq<Open>)
    requires IsPrinted(p) && IsName(NameOf(name)) && (forall k | 0 <= k < |attrs| :: IsLegalAttr(attrs[k])) && stack != []
    requires var t := Bytes("<") + NameOf(name) + PrintAttrs(attrs) + Bytes(">"); Has(p, i, t) && i + |t| < |p|
    ensures var t := Bytes("<") + NameOf(name) + PrintAttrs(attrs) + Bytes(">");
            ParseFrom(Cut(p), '>' as byte, i, stack)
            == ParseFrom(Cut(p), '>' as byte, i + |t|, stack + [Open(NameOf(name), FromAttrs(attrs), [])])
  {
    hide PrintAttrs, NameOf, IsLegalAttr, FromAttrs, IsName, Tag, ParseFrom, Has;
    var front := Bytes("<") + NameOf(name) + PrintAttrs(attrs);
    var e := i + |front|;
    HasParts(p, i, front, Bytes(">"));
    HasAt(p, e, Bytes(">"), 0);
    TagStarts(p, i, name, attrs, stack);
    var t := stack + [Open(NameOf(name), FromAttrs(attrs), [])];
    if attrs == [] {
      NoAttrs();
      ParsedTag(p, i, stack, e + 1, t);
    } else {
      CutAt(p, e);
      assert Attributes(Cut(p), '>' as byte, e, t) == At(e + 1, t);
      ParsedTag(p, i, stack, e + 1, t);
    }
  }

  lemma NoAttrs()
    ensures PrintAttrs([]) == [] && FromAttrs([]) == []
  {
  }

  lemma Closed(base: seq<Open>, o: Open)
    requires base != []
    ensures Pop(base + [o]) == AddChild(base, Element(o.name, o.attrs, o.children))
  {
    var stack := base + [o];
    assert stack[..|stack| - 1] == base;
  }

  /** An element without children. */
  lemma EmptyTag(p: seq<byte>, i: nat, name: seq<byte>, attrs: seq<Attr>, stack: seq<Open>)
    requires IsPrinted(p) && IsName(NameOf(name)) && (forall k | 0 <= k < |attrs| :: IsLegalAttr(attrs[k])) && stack != []
    requires Has(p, i, Bytes("<") + NameOf(name) + PrintAttrs(attrs) + Bytes(" />"))
    ensures var t := Bytes("<") + NameOf(name) + PrintAttrs(attrs) + Bytes(" />");
            ParseFrom(Cut(p), '>' as byte, i, stack)
            == ParseFrom(Cut(p), '>' as byte, Pos(p, i + |t|), AddChild(stack, Element(NameOf(name), FromAttrs(attrs), [])))
  {
    hide PrintAttrs, NameOf, IsLegalAttr, FromAttrs, IsName, Tag, ParseFrom, AddChild, Pop, Has, Cut, Attributes;
    var front := Bytes("<") + NameOf(name) + PrintAttrs(attrs);
    var e := i + |front|;
    HasParts(p, i, front, Bytes(" />"));
    HasAt(p, e, Bytes(" />"), 0);
    HasAt(p, e, Bytes(" />"), 1);
    HasAt(p, e, Bytes(" />"), 2);
    CutAt(p, e + 2);
    TagStarts(p, i, name, attrs, stack);
    var o := Open(NameOf(name), FromAttrs(attrs), []);
    assert SkipWs(Cut(p), e) == e + 1;
    EndOfEmpty(p, e, stack, o);
    Closed(stack, o);
    ParsedTag(p, i, stack, Pos(p, e + 3), Pop(stack + [o]));
  }

  lemma EndOfEmpty(p: seq<byte>, e: nat, base: seq<Open>, o: Open)
    requires IsPrinted(p) && base != [] && e + 3 <= |p|
    requires Cut(p)[e] == ' ' as byte && Cut(p)[e + 1] == '/' as byte
        && Cut(p)[e + 2] == (if e + 3 == |p| then 0 else '>' as byte)
    ensures Attributes(Cut(p), '>' as byte, e, base + [o]) == At(Pos(p, e + 3), Pop(base + [o]))
  {
    hide Pop;
    assert SkipWs(Cut(p), e) == e + 1;
  }

  /** An end tag. */
  lemma CloseTag(p: seq<byte>, i: nat, base: seq<Open>, o: Open)
    requires IsPrinted(p) && IsName(o.name) && base != []
    requires Has(p, i, Bytes("</") + o.name + Bytes(">"))
    ensures ParseFrom(Cut(p), '>' as byte, i, base + [o])
            == ParseFrom(Cut(p), '>' as byte, Pos(p, i + |o.name| + 3), AddChild(base, Element(o.name, o.attrs, o.children)))
  {
    hide IsName, ParseFrom, AddChild, Pop, Has, Cut, EndTag;
    var k := i + 2 + |o.name|;
    HasParts(p, i, Bytes("</") + o.name, Bytes(">"));
    HasParts(p, i, Bytes("</"), o.name);
    HasAt(p, i, Bytes("</"), 0);
    HasAt(p, i, Bytes("</"), 1);
    HasAt(p, k, Bytes(">"), 0);
    EndNameReads(p, i + 2, o.name, base + [o]);
    Closed(base, o);
    ParsedTag(p, i, base + [o], Pos(p, k + 1), Pop(base + [o]));
  }

  lemma EndNameReads(p: seq<byte>, i: nat, name: seq<byte>, stack: seq<Open>)
    requires IsPrinted(p) && IsName(name) && |stack| >= 2 && stack[|stack| - 1].name == name
    requires Has(p, i, name) && i + |name| < |p| && p[i + |name|] == '>' as byte
    ensures EndTag(Cut(p), '>' as byte, i, stack) == At(Pos(p, i + |name| + 1), Pop(stack))
  {
    hide IsName, Has, Cut, ScanSymbols, CompareName, Pop;
    var k := i + |name|;
    CutAt(p, k);
    NameReads(p, i, name);
    SameName(Cut(p), i, name);
    assert SkipWs(Cut(p), k) == k;
  }

  lemma SameName(src: seq<byte>, i: nat, name: seq<byte>)
    requires Terminated(src) && i + |name| < |src| && ScanSymbols(src, i) == i + |name| && src[i..i + |name|] == name
    ensures CompareName(src, '>' as byte, i, name) == Same(i + |name|)
  {
    DifferenceIs(name, name, |name|);
  }

  /** A CDATA section. */
  lemma SectionTag(p: seq<byte>, i: nat, piece: seq<byte>, stack: seq<Open>)
    requires IsPrinted(p) && IsText(piece) && NoEnd(piece) && stack != [] && Has(p, i, PrintSection(piece))
    ensures ParseFrom(Cut(p), '>' as byte, i, stack)
            == ParseFrom(Cut(p), '>' as byte, Pos(p, i + |PrintSection(piece)|), AddChild(stack, Node.Cdata(Eol(piece))))
  {
    hide NoEnd, ParseFrom, AddChild, Convert, UpToNul, IsText, Eol, EndsCdata;
    var src := Cut(p);
    var end := piece + Bytes("]]>");
    assert PrintSection(piece) == Bytes("<![CDATA[") + end;
    HasParts(p, i, Bytes("<![CDATA["), end);
    HasParts(p, i + 9, piece, Bytes("]]>"));
    var j := i + 9 + |piece|;
    SectionMark(p, i);
    HasAt(p, j, Bytes("]]>"), 2);
    CutAt(p, j + 2);
    SectionConverts(p, i + 9, piece);
    NulFreeText(piece);
    assert Section(src, '>' as byte, i + 3, stack) == At(Pos(p, j + 3), AddChild(stack, Node.Cdata(Eol(piece))));
    ParsedTag(p, i, stack, Pos(p, j + 3), AddChild(stack, Node.Cdata(Eol(piece))));
  }

  lemma SectionMark(p: seq<byte>, i: nat)
    requires IsPrinted(p) && Has(p, i, Bytes("<![CDATA[")) && i + 9 < |p|
    ensures p[i] == '<' as byte && Cut(p)[i + 1] == '!' as byte && Cut(p)[i + 2] == '[' as byte
    ensures CdataMark(Cut(p), i + 3) == i + 9
  {
    var t := Bytes("<![CDATA[");
    HasAt(p, i, t, 0);
    HasAt(p, i, t, 1);
    HasAt(p, i, t, 2);
    HasAt(p, i, t, 3);
    HasAt(p, i, t, 4);
    HasAt(p, i, t, 5);
    HasAt(p, i, t, 6);
    HasAt(p, i, t, 7);
    HasAt(p, i, t, 8);
  }

  // ----- runs of text -----

  lemma OneBlank(p: seq<byte>, i: nat, v: seq<byte>)
    requires IsPrinted(p) && v != [] && IsSpace(v[0]) && Has(p, i, PrintText(false, v))
    requires i + |PrintText(false, v)| < |p| - 1
    ensures i + 1 < |p| && Cut(p)[i] == v[0] && Has(p, i + 1, PrintText(false, v[1..]))
    ensures |PrintText(false, v)| == 1 + |PrintText(false, v[1..])|
  {
    hide PrintText;
    TextParts(p, i, false, v);
    HasAt(p, i, PrintChar(false, v[0]), 0);
  }

  lemma {:induction false} BlanksRead(p: seq<byte>, i: nat, v: seq<byte>, m: nat)
    requires IsPrinted(p) && m <= |v| && AllBlank(v[..m]) && Has(p, i, PrintText(false, v))
    requires i + |PrintText(false, v)| < |p| - 1
    ensures i + m < |p| - 1 && SkipWs(Cut(p), i) == SkipWs(Cut(p), i + m) && Has(p, i + m, PrintText(false, v[m..]))
    ensures |PrintText(false, v)| == m + |PrintText(false, v[m..])|
    decreases m
  {
    hide PrintText, Has, Cut;
    if m == 0 {
      assert v[0..] == v;
    } else {
      assert v[..m][0] == v[0];
      OneBlank(p, i, v);
      assert v[1..][..m - 1] == v[..m][1..] && v[1..][m - 1..] == v[m..];
      BlanksRead(p, i + 1, v[1..], m - 1);
    }
  }

  /** The first character that is no blank. */
  function FirstInk(v: seq<byte>): (m: nat)
    ensures m <= |v| && AllBlank(v[..m]) && (m < |v| ==> !IsSpace(v[m])) && (m == |v| <==> AllBlank(v))
  {
    if v == [] || !IsSpace(v[0]) then 0
    else
      var m := FirstInk(v[1..]) + 1;
      assert v[..m] == [v[0]] + v[1..][..m - 1];
      assert v == [v[0]] + v[1..];
      m
  }

  lemma InkReads(p: seq<byte>, i: nat, v: seq<byte>)
    requires IsPrinted(p) && IsText(v) && v != [] && Has(p, i, PrintText(false, v))
    requires i + |PrintText(false, v)| < |p| - 1
    ensures i < |p| - 1 && Cut(p)[i] != '<' as byte && Cut(p)[i] != 0
    ensures !IsSpace(v[0]) ==> SkipWs(Cut(p), i) == i
  {
    TextParts(p, i, false, v);
    HasAt(p, i, PrintChar(false, v[0]), 0);
    assert v[0] != 0;
  }

  lemma SameRound(src: seq<byte>, i: nat, s: seq<Open>, j: nat, t: seq<Open>)
    requires Terminated(src) && i < |src| && j < |src| && s != [] && t != [] && src[i] != 0 && src[j] != 0
    requires Round(src, '>' as byte, i, s) == Round(src, '>' as byte, j, t)
    ensures ParseFrom(src, '>' as byte, i, s) == ParseFrom(src, '>' as byte, j, t)
  {
    hide Round;
  }

  lemma OneRoundTo(src: seq<byte>, i: nat, s: seq<Open>, j: nat)
    requires Terminated(src) && i < j < |src| && s != [] && src[i] != 0 && Round(src, '>' as byte, i, s) == At(j, s)
    ensures ParseFrom(src, '>' as byte, i, s) == ParseFrom(src, '>' as byte, j, s)
  {
    hide Round;
  }

  function Grown(o: Open, ns: seq<Node>): Open
  {
    Open(o.name, o.attrs, o.children + ns)
  }

  lemma GrownTwice(o: Open, a: seq<Node>, b: seq<Node>)
    ensures Grown(Grown(o, a), b) == Grown(o, a + b) && Grown(o, []) == o
  {
    assert o.children + a + b == o.children + (a + b) && o.children + [] == o.children;
  }

  lemma WithChild(base: seq<Open>, o: Open, n: Node)
    ensures AddChild(base + [o], n) == base + [Grown(o, [n])]
  {
    var stack := base + [o];
    assert stack[..|stack| - 1] == base;
  }

  lemma BlankRun(p: seq<byte>, i: nat, run: seq<byte>, stack: seq<Open>)
    requires IsPrinted(p) && IsText(run) && run != [] && AllBlank(run) && stack != [] && Has(p, i, PrintText(false, run))
    requires var j := i + |PrintText(false, run)|; j + 1 < |p| - 1 && p[j] == '<' as byte
    ensures ParseFrom(Cut(p), '>' as byte, i, stack) == ParseFrom(Cut(p), '>' as byte, i + |PrintText(false, run)|, stack)
  {
    hide ParseFrom, AllBlank, Has, Text, PrintText;
    var j := i + |PrintText(false, run)|;
    CutAt(p, j);
    InkReads(p, i, run);
    assert run[..|run|] == run && run[|run|..] == [];
    BlanksRead(p, i, run, |run|);
    NoText();
    assert SkipWs(Cut(p), j) == j;
    OneRoundTo(Cut(p), i, stack, j);
  }

  lemma InkRun(p: seq<byte>, i: nat, run: seq<byte>, stack: seq<Open>)
    requires IsPrinted(p) && IsText(run) && !AllBlank(run) && |stack| >= 2 && Has(p, i, PrintText(false, run))
    requires var j := i + |PrintText(false, run)|; j + 1 < |p| - 1 && p[j] == '<' as byte && p[j + 1] != 0
    ensures ParseFrom(Cut(p), '>' as byte, i, stack)
            == ParseFrom(Cut(p), '>' as byte, i + |PrintText(false, run)|, AddChild(stack, Node.Pcdata(Eol(run))))
  {
    hide ParseFrom, Convert, Eol, UpToNul, AllBlank, Has, Tag, AddChild, PrintText;
    var src := Cut(p);
    var j := i + |PrintText(false, run)|;
    CutAt(p, j);
    CutAt(p, j + 1);
    var m := FirstInk(run);
    BlanksRead(p, i, run, m);
    InkReads(p, i, run);
    InkReads(p, i + m, run[m..]);
    TextConverts(p, i, run);
    NulFreeText(run);
    assert Round(src, '>' as byte, i, stack) == Text(src, '>' as byte, i, stack);
    SameRound(src, i, stack, j, AddChild(stack, Node.Pcdata(Eol(run))));
  }

  /** The text between two tags of an element. */
  lemma TextRun(p: seq<byte>, i: nat, run: seq<byte>, base: seq<Open>, o: Open)
    requires IsPrinted(p) && IsText(run) && base != [] && Has(p, i, PrintText(false, run))
    requires var j := i + |PrintText(false, run)|; j + 1 < |p| - 1 && p[j] == '<' as byte && p[j + 1] != 0
    ensures ParseFrom(Cut(p), '>' as byte, i, base + [o])
            == ParseFrom(Cut(p), '>' as byte, i + |PrintText(false, run)|, base + [Grown(o, FromText(run))])
  {
    hide ParseFrom, Eol, AllBlank, Has, PrintText, AddChild;
    GrownTwice(o, [], []);
    NoText();
    if AllBlank(run) {
      if run != [] {
        BlankRun(p, i, run, base + [o]);
      }
    } else {
      InkRun(p, i, run, base + [o]);
      WithChild(base, o, Node.Pcdata(Eol(run)));
    }
  }

  lemma NoText()
    ensures PrintText(false, []) == [] && FromText([]) == [] && AllBlank([]) && FromNodes([], []) == []
  {
  }

  // ----- trees -----

  /** What a node that is not text begins with. */
  lemma NodeStarts(p: seq<byte>, i: nat, n: Node)
    requires IsPrinted(p) && !n.Pcdata? && IsLegal(n) && Has(p, i, Print(n))
    ensures i + 2 < |p| && p[i] == '<' as byte && p[i + 1] != 0
  {
    hide PrintAll, PrintAttrs, PrintSection, Pieces;
    match n
    case Element(name, attrs, children) =>
      var tail := if children == [] then Bytes(" />")
                  else Bytes(">") + PrintAll(children) + Bytes("</") + NameOf(name) + Bytes(">");
      HasParts(p, i, Bytes("<") + NameOf(name) + PrintAttrs(attrs), tail);
      HasParts(p, i, Bytes("<") + NameOf(name), PrintAttrs(attrs));
      HasAt(p, i, Bytes("<") + NameOf(name), 0);
      HasAt(p, i, Bytes("<") + NameOf(name), 1);
    case Cdata(value) =>
      var ps := Pieces(value);
      HasParts(p, i, PrintSection(ps[0]), PrintSections(ps[1..]));
      SectionStarts(p, i, ps[0]);
  }

  lemma SectionStarts(p: seq<byte>, i: nat, piece: seq<byte>)
    requires Has(p, i, PrintSection(piece))
    ensures i + 2 < |p| && p[i] == '<' as byte && p[i + 1] != 0
  {
    HasParts(p, i, Bytes("<![CDATA[") + piece, Bytes("]]>"));
    HasParts(p, i, Bytes("<![CDATA["), piece);
    HasAt(p, i, Bytes("<![CDATA["), 0);
    HasAt(p, i, Bytes("<![CDATA["), 1);
  }

  lemma {:induction false} SectionsRead(p: seq<byte>, i: nat, ps: seq<seq<byte>>, base: seq<Open>, o: Open)
    requires IsPrinted(p) && ps != [] && Has(p, i, PrintSections(ps))
    requires forall k | 0 <= k < |ps| :: IsText(ps[k]) && NoEnd(ps[k])
    ensures ParseFrom(Cut(p), '>' as byte, i, base + [o])
            == ParseFrom(Cut(p), '>' as byte, Pos(p, i + |PrintSections(ps)|), base + [Grown(o, FromPieces(ps))])
    decreases |ps|
  {
    hide PrintSection, Has, Cut, ParseFrom, NoEnd, Eol;
    var n := |PrintSection(ps[0])|;
    HasParts(p, i, PrintSection(ps[0]), PrintSections(ps[1..]));
    SectionTag(p, i, ps[0], base + [o]);
    var o1 := Grown(o, [Node.Cdata(Eol(ps[0]))]);
    WithChild(base, o, Node.Cdata(Eol(ps[0])));
    if |ps| == 1 {
      assert ps[1..] == [];
      GrownTwice(o, [Node.Cdata(Eol(ps[0]))], []);
      assert [Node.Cdata(Eol(ps[0]))] + [] == [Node.Cdata(Eol(ps[0]))];
    } else {
      SectionsStart(p, i + n, ps[1..]);
      SectionsRead(p, i + n, ps[1..], base, o1);
      GrownTwice(o, [Node.Cdata(Eol(ps[0]))], FromPieces(ps[1..]));
    }
  }

  lemma SectionsStart(p: seq<byte>, i: nat, ps: seq<seq<byte>>)
    requires Has(p, i, PrintSections(ps)) && ps != []
    ensures i + 2 < |p|
  {
    hide PrintSection;
    HasParts(p, i, PrintSection(ps[0]), PrintSections(ps[1..]));
    SectionStarts(p, i, ps[0]);
  }

  /** An element or a CDATA section is parsed to its normal form. */
  lemma {:induction false} NodeRead(p: seq<byte>, i: nat, n: Node, base: seq<Open>, o: Open)
    requires IsPrinted(p) && !n.Pcdata? && IsLegal(n) && Has(p, i, Print(n))
    ensures ParseFrom(Cut(p), '>' as byte, i, base + [o])
            == ParseFrom(Cut(p), '>' as byte, Pos(p, i + |Print(n)|), base + [Grown(o, FromNode(n))])
    decreases n, 1
  {
    hide Has, Cut, ParseFrom, PrintAll, PrintAttrs, NameOf, IsName, FromAttrs, FromNodes, AllLegal, Pieces,
         PrintSections, FromPieces;
    match n
    case Cdata(value) =>
      PiecesClean(value);
      SectionsRead(p, i, Pieces(value), base, o);
    case Element(name, attrs, children) =>
      var stack := base + [o];
      if children == [] {
        NoText();
        EmptyTag(p, i, name, attrs, stack);
        WithChild(base, o, Element(NameOf(name), FromAttrs(attrs), []));
      } else {
        ElementRead(p, i, n, base, o);
      }
  }

  lemma {:induction false} ElementRead(p: seq<byte>, i: nat, n: Node, base: seq<Open>, o: Open)
    requires IsPrinted(p) && n.Element? && n.children != [] && IsLegal(n) && Has(p, i, Print(n))
    ensures ParseFrom(Cut(p), '>' as byte, i, base + [o])
            == ParseFrom(Cut(p), '>' as byte, Pos(p, i + |Print(n)|), base + [Grown(o, FromNode(n))])
    decreases n, 0
  {
    hide Has, Cut, ParseFrom, PrintAll, PrintAttrs, NameOf, IsName, FromAttrs, FromNodes, AllLegal, Bytes;
    var stack, name := base + [o], NameOf(n.name);
    var front := Bytes("<") + name + PrintAttrs(n.attrs) + Bytes(">");
    var back := Bytes("</") + name + Bytes(">");
    PrintedParts(n);
    HasParts(p, i, front, PrintAll(n.children) + back);
    HasParts(p, i + |front|, PrintAll(n.children), back);
    var e := i + |front| + |PrintAll(n.children)|;
    BackStarts(p, e, name);
    OpenTag(p, i, n.name, n.attrs, stack);
    NoText();
    assert PrintText(false, []) + PrintAll(n.children) == PrintAll(n.children);
    var top := Open(name, FromAttrs(n.attrs), []);
    NodesRead(p, i + |front|, [], n.children, stack, top);
    var kids := FromNodes([], n.children);
    assert [] + kids == kids;
    CloseTag(p, e, stack, Grown(top, kids));
    WithChild(base, o, Element(name, FromAttrs(n.attrs), kids));
  }

  lemma PrintedParts(n: Node)
    requires n.Element? && n.children != []
    ensures Print(n) == Bytes("<") + NameOf(n.name) + PrintAttrs(n.attrs) + Bytes(">")
                        + (PrintAll(n.children) + (Bytes("</") + NameOf(n.name) + Bytes(">")))
    ensures |Bytes("</") + NameOf(n.name) + Bytes(">")| == |NameOf(n.name)| + 3
  {
    hide PrintAll, PrintAttrs, NameOf;
  }

  lemma BackStarts(p: seq<byte>, i: nat, name: seq<byte>)
    requires Has(p, i, Bytes("</") + name + Bytes(">")) && name != []
    ensures i + 3 < |p| && p[i] == '<' as byte && p[i + 1] == '/' as byte
  {
    HasParts(p, i, Bytes("</") + name, Bytes(">"));
    HasParts(p, i, Bytes("</"), name);
    HasAt(p, i, Bytes("</"), 0);
    HasAt(p, i, Bytes("</"), 1);
  }

  /** Children, with the text in front of them, are parsed to their normal form. */
  lemma {:induction false} NodesRead(p: seq<byte>, i: nat, run: seq<byte>, ns: seq<Node>, base: seq<Open>, o: Open)
    requires IsPrinted(p) && IsText(run) && AllLegal(ns) && base != [] && Has(p, i, PrintText(false, run) + PrintAll(ns))
    requires var e := i + |PrintText(false, run) + PrintAll(ns)|; e + 1 < |p| - 1 && p[e] == '<' as byte && p[e + 1] != 0
    ensures ParseFrom(Cut(p), '>' as byte, i, base + [o])
            == ParseFrom(Cut(p), '>' as byte, i + |PrintText(false, run) + PrintAll(ns)|,
                         base + [Grown(o, FromNodes(run, ns))])
    decreases ns, 0
  {
    hide Has, Cut, ParseFrom, PrintText, FromText, FromNode, Print, IsLegal, FromNodes, PrintAll, AllLegal, Grown, IsPrinted;
    var text := PrintText(false, run);
    NodesParts(run, ns);
    if ns == [] {
      TextRun(p, i, run, base, o);
    } else if ns[0].Pcdata? {
      TextJoins(run, ns);
      NodesRead(p, i, run + ns[0].value, ns[1..], base, o);
    } else {
      var n, rest, head := ns[0], ns[1..], FromText(run) + FromNode(ns[0]);
      var j := i + |text + Print(n)|;
      Assoc(text, Print(n), PrintAll(rest));
      HasParts(p, i, text + Print(n), PrintAll(rest));
      TextNodeRead(p, i, run, n, base, o);
      NoText();
      assert PrintText(false, []) + PrintAll(rest) == PrintAll(rest);
      NodesRead(p, j, [], rest, base, Grown(o, head));
      GrownTwice(o, head, FromNodes([], rest));
    }
  }

  /** A run of text and the element or section behind it. */
  lemma {:induction false} TextNodeRead(p: seq<byte>, i: nat, run: seq<byte>, n: Node, base: seq<Open>, o: Open)
    requires IsPrinted(p) && IsText(run) && !n.Pcdata? && IsLegal(n) && base != []
    requires var s := PrintText(false, run) + Print(n); Has(p, i, s) && i + |s| < |p|
    ensures ParseFrom(Cut(p), '>' as byte, i, base + [o])
            == ParseFrom(Cut(p), '>' as byte, i + |PrintText(false, run) + Print(n)|,
                         base + [Grown(o, FromText(run) + FromNode(n))])
    decreases n, 2
  {
    hide Has, Cut, ParseFrom, PrintText, FromText, FromNode, Print, IsLegal, Grown, IsPrinted;
    var text := PrintText(false, run);
    var j := i + |text|;
    HasParts(p, i, text, Print(n));
    NodeStarts(p, j, n);
    TextRun(p, i, run, base, o);
    NodeRead(p, j, n, base, Grown(o, FromText(run)));
    GrownTwice(o, FromText(run), FromNode(n));
  }

  lemma NodesParts(run: seq<byte>, ns: seq<Node>)
    requires AllLegal(ns)
    ensures ns == [] ==> PrintText(false, run) + PrintAll(ns) == PrintText(false, run) && FromNodes(run, ns) == FromText(run)
    ensures ns != [] ==> IsLegal(ns[0]) && AllLegal(ns[1..]) && PrintAll(ns) == Print(ns[0]) + PrintAll(ns[1..])
    ensures ns != [] ==> FromNodes(run, ns) == if ns[0].Pcdata? then FromNodes(run + ns[0].value, ns[1..])
                                               else FromText(run) + FromNode(ns[0]) + FromNodes([], ns[1..])
  {
    hide PrintText, FromText, FromNode, Print, IsLegal;
  }

  lemma TextJoins(run: seq<byte>, ns: seq<Node>)
    requires ns != [] && ns[0].Pcdata? && IsLegal(ns[0]) && IsText(run)
    ensures PrintText(false, run) + PrintAll(ns) == PrintText(false, run + ns[0].value) + PrintAll(ns[1..])
    ensures IsText(run + ns[0].value)
  {
    hide PrintText;
    PrintTextConcat(false, run, ns[0].value);
    var a, b, c := PrintText(false, run), PrintText(false, ns[0].value), PrintAll(ns[1..]);
    assert a + (b + c) == a + b + c;
  }

  // ----- documents -----

  /** What a document comes back as. */
  function FromDocument(ns: seq<Node>): seq<Node>
    requires forall i | 0 <= i < |ns| :: !ns[i].Pcdata?
  {
    if ns == [] then [] else FromNode(ns[0]) + FromDocument(ns[1..])
  }

  lemma AtEnd(p: seq<byte>, o: Open)
    requires IsPrinted(p)
    ensures ParseFrom(Cut(p), '>' as byte, |p| - 1, [o]) == Parsed(o.children)
  {
  }

  lemma DocumentParts(ns: seq<Node>)
    requires IsDocument(ns) && ns != []
    ensures IsLegal(ns[0]) && !ns[0].Pcdata? && IsDocument(ns[1..])
    ensures PrintAll(ns) == Print(ns[0]) + PrintAll(ns[1..]) && FromDocument(ns) == FromNode(ns[0]) + FromDocument(ns[1..])
    ensures ns[1..] == [] ==> PrintAll(ns[1..]) == [] && FromDocument(ns[1..]) == []
  {
    hide Print, FromNode, IsLegal;
  }

  lemma {:induction false} DocumentRead(p: seq<byte>, i: nat, ns: seq<Node>, o: Open)
    requires IsPrinted(p) && IsDocument(ns) && ns != [] && i < |p| && Has(p, i, PrintAll(ns)) && i + |PrintAll(ns)| == |p|
    ensures ParseFrom(Cut(p), '>' as byte, i, [o]) == Parsed(o.children + FromDocument(ns))
    decreases |ns|
  {
    hide Has, Cut, FromNode, Print, IsLegal, AllLegal, PrintAll, FromDocument, ParseFrom;
    DocumentParts(ns);
    var n, rest := ns[0], ns[1..];
    HasParts(p, i, Print(n), PrintAll(rest));
    NodeRead(p, i, n, [], o);
    assert [] + [o] == [o] && [] + [Grown(o, FromNode(n))] == [Grown(o, FromNode(n))];
    if rest == [] {
      AtEnd(p, Grown(o, FromNode(n)));
      assert FromNode(n) + [] == FromNode(n);
    } else {
      var j := i + |Print(n)|;
      DocumentParts(rest);
      HasParts(p, j, Print(rest[0]), PrintAll(rest[1..]));
      NodeStarts(p, j, rest[0]);
      DocumentRead(p, j, rest, Grown(o, FromNode(n)));
      assert o.children + FromNode(n) + FromDocument(rest) == o.children + (FromNode(n) + FromDocument(rest));
    }
  }

  lemma {:induction false} PrintEnds(n: Node)
    requires !n.Pcdata?
    ensures IsPrinted(Print(n))
  {
    hide PrintAll, PrintAttrs, NameOf, Pieces;
    if n.Cdata? {
      SectionsEnd(Pieces(n.value));
    }
  }

  lemma {:induction false} SectionsEnd(ps: seq<seq<byte>>)
    requires ps != []
    ensures IsPrinted(PrintSections(ps))
  {
    if |ps| > 1 {
      SectionsEnd(ps[1..]);
    } else {
      assert ps[1..] == [];
    }
  }

  lemma {:induction false} DocumentEnds(ns: seq<Node>)
    requires ns != [] && forall i | 0 <= i < |ns| :: !ns[i].Pcdata?
    ensures IsPrinted(PrintAll(ns))
  {
    hide Print;
    PrintEnds(ns[0]);
    if |ns| > 1 {
      DocumentEnds(ns[1..]);
    } else {
      assert ns[1..] == [];
    }
  }

  /** Parsing what was printed gives the normal form of the document. */
  lemma PrintThenParse(doc: seq<Node>)
    requires IsDocument(doc)
    ensures ParseDocument(PrintAll(doc)) == Parsed(FromDocument(doc))
  {
    hide ParseFrom, PrintAll, FromDocument, Cut;
    if doc == [] {
      NothingPrinted();
    } else {
      var p := PrintAll(doc);
      DocumentEnds(doc);
      assert p[0..0 + |p|] == p;
      DocumentRead(p, 0, doc, DOCUMENT);
      assert DOCUMENT.children + FromDocument(doc) == FromDocument(doc);
    }
  }

  lemma NothingPrinted()
    ensures PrintAll([]) == [] && FromDocument([]) == []
  {
  }

  // ----- normal form -----

  predicate IsNormalAttr(a: Attr)
  {
    a.name != [] && TAB !in a.value
  }

  /** Nodes that come back unchanged. */
  predicate IsNormal(n: Node)
    decreases n, 0
  {
    match n
    case Element(name, attrs, children) =>
      name != [] && (forall i | 0 <= i < |attrs| :: IsNormalAttr(attrs[i])) && AllNormal(children)
    case Pcdata(value) => CR !in value && !AllBlank(value)
    case Cdata(value) => CR !in value && NoEnd(value)
  }

  /** ... among their siblings: text is not next to text. */
  predicate AllNormal(ns: seq<Node>)
    decreases ns, 1
  {
    ns == [] || (IsNormal(ns[0]) && AllNormal(ns[1..]) && !(ns[0].Pcdata? && |ns| >= 2 && ns[1].Pcdata?))
  }

  lemma {:induction false} EolNormal(v: seq<byte>)
    ensures CR !in Eol(v) && (CR !in v ==> Eol(v) == v) && (AllBlank(Eol(v)) <==> AllBlank(v))
    decreases |v|
  {
    hide Eol, Taken;
    if v == [] {
      NoEol();
    } else {
      var n := Taken(v);
      EolTaken(v);
      EolNormal(v[n..]);
      var c := if v[0] == CR then LF else v[0];
      assert v == v[..n] + v[n..];
      TakenBlank(v);
      BlankParts([c], Eol(v[n..]));
      BlankParts(v[..n], v[n..]);
      if CR !in v {
        assert v[0] in v && v[..n] == [v[0]];
      }
    }
  }

  lemma NoEol()
    ensures Eol([]) == []
  {
  }

  lemma TakenBlank(v: seq<byte>)
    requires v != []
    ensures AllBlank(v[..Taken(v)]) <==> IsSpace(v[0])
    ensures AllBlank([if v[0] == CR then LF else v[0]]) <==> IsSpace(v[0])
    ensures v[0] != CR ==> Taken(v) == 1
  {
    assert v[..Taken(v)][0] == v[0];
    assert [if v[0] == CR then LF else v[0]][0] == if v[0] == CR then LF else v[0];
  }

  lemma BlankParts(a: seq<byte>, b: seq<byte>)
    ensures AllBlank(a + b) <==> AllBlank(a) && AllBlank(b)
  {
    if AllBlank(a + b) {
      assert forall i | 0 <= i < |a| :: a[i] == (a + b)[i];
      assert forall i | 0 <= i < |b| :: b[i] == (a + b)[|a| + i];
    }
  }

  /** Normalising line ends makes no terminator. */
  lemma {:induction false} EolNoEnd(v: seq<byte>)
    requires NoEnd(v)
    ensures NoEnd(Eol(v))
    decreases |v|
  {
    hide NoEnd;
    if v == [] {
      NoEol();
      NoEndOfEmpty();
    } else {
      var n := Taken(v);
      EolTaken(v);
      NoEndLater(v, n);
      EolNoEnd(v[n..]);
      NoEndFirst(v);
    }
  }

  lemma NoEndOfEmpty()
    ensures NoEnd([])
  {
  }

  lemma NoEndLater(v: seq<byte>, n: nat)
    requires NoEnd(v) && n <= |v|
    ensures NoEnd(v[n..])
  {
    forall k | 0 <= k < |v| - n ensures !EndsAt(v[n..], k) {
      assert !EndsAt(v, n + k);
    }
  }

  lemma NoEndFirst(v: seq<byte>)
    requires v != [] && NoEnd(v) && NoEnd(Eol(v[Taken(v)..]))
    requires Eol(v) == [if v[0] == CR then LF else v[0]] + Eol(v[Taken(v)..])
    ensures NoEnd(Eol(v))
  {
    var t, rest := Eol(v), Eol(v[Taken(v)..]);
    forall k | 0 <= k < |t| ensures !EndsAt(t, k) {
      if k > 0 {
        assert !EndsAt(rest, k - 1);
      } else if EndsAt(t, 0) {
        ThreePlain(v);
        assert EndsAt(v, 0);
        assert false;
      }
    }
  }

  /** Characters that are no line ends come from themselves. */
  lemma ThreePlain(v: seq<byte>)
    requires |Eol(v)| >= 3 && Eol(v)[0] != LF && Eol(v)[1] != LF && Eol(v)[2] != LF
    ensures |v| >= 3 && v[..3] == Eol(v)[..3]
  {
    assert v[0] != CR;
    var a := v[1..];
    assert Eol(v) == [v[0]] + Eol(a);
    assert a[0] != CR;
    var b := a[1..];
    assert Eol(a) == [a[0]] + Eol(b);
    assert b[0] != CR;
    assert Eol(b) == [b[0]] + Eol(b[1..]);
  }

  lemma {:induction false} SpacedNormal(v: seq<byte>)
    ensures TAB !in Spaced(v) && (TAB !in v ==> Spaced(v) == v)
  {
    if v != [] {
      SpacedNormal(v[1..]);
    }
  }

  lemma {:induction false} AttrsNormal(attrs: seq<Attr>)
    ensures forall i | 0 <= i < |FromAttrs(attrs)| :: IsNormalAttr(FromAttrs(attrs)[i])
    ensures (forall i | 0 <= i < |attrs| :: IsNormalAttr(attrs[i])) ==> FromAttrs(attrs) == attrs
  {
    hide NameOf, Spaced;
    if attrs != [] {
      AttrsNormal(attrs[1..]);
      SpacedNormal(attrs[0].value);
      NamesStay(attrs[0].name);
    }
  }

  lemma NamesStay(name: seq<byte>)
    ensures NameOf(name) != [] && (name != [] ==> NameOf(name) == name)
  {
  }

  lemma {:induction false} PiecesNormal(ps: seq<seq<byte>>)
    requires forall k | 0 <= k < |ps| :: NoEnd(ps[k])
    ensures AllNormal(FromPieces(ps)) && (ps != [] ==> FromPieces(ps) != [])
        && forall k | 0 <= k < |FromPieces(ps)| :: FromPieces(ps)[k].Cdata?
  {
    hide NoEnd, Eol;
    if ps != [] {
      EolNormal(ps[0]);
      EolNoEnd(ps[0]);
      PiecesNormal(ps[1..]);
      assert FromPieces(ps)[1..] == FromPieces(ps[1..]);
    }
  }

  /** One piece: the text itself. */
  lemma OnePiece(v: seq<byte>)
    requires NoEnd(v) && CR !in v
    ensures FromPieces(Pieces(v)) == [Node.Cdata(v)]
  {
    EolNormal(v);
    assert FirstEnd(v, 0) == |v|;
    var ps := [v];
    assert Pieces(v) == ps && ps[1..] == [];
    assert FromPieces(ps) == [Node.Cdata(Eol(ps[0]))] + FromPieces(ps[1..]);
  }

  predicate NoTextAt(ns: seq<Node>, last: bool)
  {
    ns != [] && !(if last then ns[|ns| - 1] else ns[0]).Pcdata?
  }

  lemma {:induction false} NormalJoin(a: seq<Node>, b: seq<Node>)
    requires AllNormal(a) && AllNormal(b) && (a == [] || b == [] || NoTextAt(a, true) || NoTextAt(b, false))
    ensures AllNormal(a + b)
    decreases |a|
  {
    if a == [] {
      assert a + b == b;
    } else {
      NormalJoin(a[1..], b);
      assert (a + b)[1..] == a[1..] + b;
    }
  }

  /** What comes back is in normal form. */
  lemma {:induction false} NodeNormal(n: Node)
    requires !n.Pcdata? && IsLegal(n)
    ensures AllNormal(FromNode(n)) && NoTextAt(FromNode(n), true) && NoTextAt(FromNode(n), false)
    ensures IsNormal(n) ==> FromNode(n) == [n]
    decreases n, 0
  {
    hide NameOf, NoEnd, Eol, Pieces, FromPieces, FromAttrs, AllLegal, IsName;
    match n
    case Cdata(value) =>
      PiecesClean(value);
      PiecesNormal(Pieces(value));
      if IsNormal(n) {
        OnePiece(value);
      }
    case Element(name, attrs, children) =>
      NamesStay(name);
      AttrsNormal(attrs);
      NodesNormal([], children);
  }

  /** Text that comes back unchanged. */
  predicate IsKeptText(run: seq<byte>)
  {
    CR !in run && !AllBlank(run)
  }

  lemma TextNormal(run: seq<byte>)
    ensures AllNormal(FromText(run)) && (IsKeptText(run) ==> FromText(run) == [Node.Pcdata(run)])
    ensures run == [] ==> FromText(run) == []
  {
    hide Eol;
    EolNormal(run);
    var t := FromText(run);
    assert t != [] ==> t[1..] == [];
  }

  lemma KeptNode(n: Node)
    requires n.Pcdata? && IsNormal(n)
    ensures IsKeptText(n.value)
  {
  }

  lemma {:induction false} NodesNormal(run: seq<byte>, ns: seq<Node>)
    requires AllLegal(ns)
    ensures AllNormal(FromNodes(run, ns))
    ensures AllNormal(ns) && run == [] ==> FromNodes(run, ns) == ns
    ensures AllNormal(ns) && IsKeptText(run) && (ns == [] || !ns[0].Pcdata?) ==>
        FromNodes(run, ns) == [Node.Pcdata(run)] + ns
    decreases ns, 1
  {
    hide FromText, FromNode, AllBlank, Eol, IsLegal, IsNormal, IsKeptText, NoTextAt;
    TextNormal(run);
    if ns == [] {
      assert [Node.Pcdata(run)] + [] == [Node.Pcdata(run)];
    } else if ns[0].Pcdata? {
      NodesNormal(run + ns[0].value, ns[1..]);
      if AllNormal(ns) && run == [] {
        KeptNode(ns[0]);
        assert run + ns[0].value == ns[0].value;
        assert ns[1..] == [] || !ns[1..][0].Pcdata?;
        assert ns[0] == Node.Pcdata(ns[0].value) && [ns[0]] + ns[1..] == ns;
      }
    } else {
      NodeNormal(ns[0]);
      NodesNormal([], ns[1..]);
      JoinedNormal(FromText(run), FromNode(ns[0]), FromNodes([], ns[1..]));
      NodeInFront(run, ns);
    }
  }

  lemma JoinedNormal(a: seq<Node>, b: seq<Node>, c: seq<Node>)
    requires AllNormal(a) && AllNormal(b) && AllNormal(c) && NoTextAt(b, true) && NoTextAt(b, false)
    ensures AllNormal(a + b + c)
  {
    hide AllNormal;
    NormalJoin(a, b);
    assert (a + b)[|a + b| - 1] == b[|b| - 1];
    NormalJoin(a + b, c);
  }

  lemma NodeInFront(run: seq<byte>, ns: seq<Node>)
    requires ns != []
    ensures var n, rest := ns[0], ns[1..];
            [] + [n] + rest == ns && [Node.Pcdata(run)] + [n] + rest == [Node.Pcdata(run)] + ns
  {
    var n, rest := ns[0], ns[1..];
    assert [n] + rest == ns && [] + [n] + rest == [n] + rest;
    assert [Node.Pcdata(run)] + [n] + rest == [Node.Pcdata(run)] + ([n] + rest);
  }

  lemma {:induction false} DocumentNormal(ns: seq<Node>)
    requires IsDocument(ns)
    ensures AllNormal(FromDocument(ns)) && (AllNormal(ns) ==> FromDocument(ns) == ns)
    decreases |ns|
  {
    hide FromNode, IsLegal, IsNormal;
    if ns != [] {
      DocumentParts(ns);
      NodeNormal(ns[0]);
      DocumentNormal(ns[1..]);
      NormalJoin(FromNode(ns[0]), FromDocument(ns[1..]));
      if AllNormal(ns) {
        assert [ns[0]] + ns[1..] == ns;
      }
    }
  }

  /** A document comes back unchanged exactly when it is in normal form. */
  lemma RoundTrip(doc: seq<Node>)
    requires IsDocument(doc)
    ensures ParseDocument(PrintAll(doc)) == Parsed(doc) <==> AllNormal(doc)
  {
    hide FromDocument, ParseDocument, PrintAll, IsDocument, AllNormal;
    PrintThenParse(doc);
    DocumentNormal(doc);
  }

  /** Documents that do not come back: a tab in an attribute value, no name, a carriage return, blank text. */
  lemma ChangedDocuments()
    ensures var doc := [Element(Bytes("a"), [Attr(Bytes("b"), [TAB])], [])];
            ParseDocument(PrintAll(doc)) == Parsed([Element(Bytes("a"), [Attr(Bytes("b"), [SPACE])], [])])
    ensures ParseDocument(PrintAll([Element([], [], [])])) == Parsed([Element(Bytes(":anonymous"), [], [])])
    ensures var doc := [Element(Bytes("a"), [], [Node.Pcdata([120, CR])])];
            ParseDocument(PrintAll(doc)) == Parsed([Element(Bytes("a"), [], [Node.Pcdata([120, LF])])])
    ensures var doc := [Element(Bytes("a"), [], [Node.Pcdata([SPACE])])];
            ParseDocument(PrintAll(doc)) == Parsed([Element(Bytes("a"), [], [])])
  {
    hide ParseDocument, PrintAll, IsName, FromNodes, Bytes;
    NamesAreNames();
    assert FromNodes([], []) == [] by {
      NoText();
    }
    OneElement(Bytes("a"), [Attr(Bytes("b"), [TAB])], []);
    assert Spaced([TAB]) == [SPACE];
    assert FromAttrs([Attr(Bytes("b"), [TAB])]) == [Attr(Bytes("b"), [SPACE])];
    OneElement([], [], []);
    OneText([120, CR]);
    OneElement(Bytes("a"), [], [Node.Pcdata([120, CR])]);
    XReturn();
    OneText([SPACE]);
    OneElement(Bytes("a"), [], [Node.Pcdata([SPACE])]);
  }

  lemma NamesAreNames()
    ensures IsName(Bytes("a")) && IsName(Bytes("b")) && IsName(Bytes(":anonymous"))
  {
  }

  /** A document that is one element. */
  lemma OneElement(name: seq<byte>, attrs: seq<Attr>, kids: seq<Node>)
    requires IsName(NameOf(name)) && (forall i | 0 <= i < |attrs| :: IsLegalAttr(attrs[i])) && AllLegal(kids)
    ensures ParseDocument(PrintAll([Element(name, attrs, kids)]))
         == Parsed([Element(NameOf(name), FromAttrs(attrs), FromNodes([], kids))])
  {
    hide *;
    var doc := [Element(name, attrs, kids)];
    OneIsDocument(name, attrs, kids);
    OneComesBack(name, attrs, kids);
    PrintThenParse(doc);
  }

  lemma OneIsDocument(name: seq<byte>, attrs: seq<Attr>, kids: seq<Node>)
    requires IsName(NameOf(name)) && (forall i | 0 <= i < |attrs| :: IsLegalAttr(attrs[i])) && AllLegal(kids)
    ensures IsDocument([Element(name, attrs, kids)])
  {
    hide IsLegalAttr, IsName, NameOf;
    var doc := [Element(name, attrs, kids)];
    assert IsLegal(doc[0]);
    assert doc[1..] == [];
    assert AllLegal([]);
    assert AllLegal(doc);
  }

  lemma OneComesBack(name: seq<byte>, attrs: seq<Attr>, kids: seq<Node>)
    ensures FromDocument([Element(name, attrs, kids)]) == [Element(NameOf(name), FromAttrs(attrs), FromNodes([], kids))]
  {
    hide FromNodes, FromAttrs, NameOf;
    var doc := [Element(name, attrs, kids)];
    assert doc[1..] == [];
    assert FromDocument(doc) == FromNode(doc[0]) + [];
  }

  lemma XReturn()
    ensures FromText([120, CR]) == [Node.Pcdata([120, LF])]
  {
    var s: seq<byte> := [120, CR];
    assert !IsSpace(s[0]);
    assert s[1..] == [CR] && s[1..][1..] == [];
    assert Eol(s[1..]) == [LF] + Eol([]);
    assert Eol(s) == [120] + [LF] == [120, LF];
    assert !AllBlank(s);
  }

  lemma OneText(text: seq<byte>)
    requires IsText(text)
    ensures AllLegal([Node.Pcdata(text)]) && FromNodes([], [Node.Pcdata(text)]) == FromText(text)
  {
    var kids := [Node.Pcdata(text)];
    assert [] + text == text;
    assert kids[1..] == [];
    assert IsLegal(kids[0]);
  }

  lemma {:induction false} LegalIsTree(n: Node)
    requires IsLegal(n)
    ensures IsTree(n)
    decreases n, 0
  {
    match n
    case Element(name, attrs, children) =>
      NameIsText(name);
      forall i | 0 <= i < |attrs| ensures IsText(attrs[i].name) && IsText(attrs[i].value) {
        NameIsText(attrs[i].name);
      }
      LegalAreTrees(children);
    case _ =>
  }

  lemma {:induction false} LegalAreTrees(ns: seq<Node>)
    requires AllLegal(ns)
    ensures forall i | 0 <= i < |ns| :: IsTree(ns[i])
    decreases ns, 1
  {
    hide IsTree, IsLegal;
    if ns != [] {
      LegalIsTree(ns[0]);
      LegalAreTrees(ns[1..]);
      assert forall i | 1 <= i < |ns| :: ns[i] == ns[1..][i - 1];
    }
  }

  lemma NameIsText(name: seq<byte>)
    requires IsName(NameOf(name))
    ensures IsText(name)
  {
    forall i | 0 <= i < |name| ensures name[i] != 0 {
      assert NameOf(name)[i] == name[i];
      SymbolKinds(name[i]);
    }
  }

  /**
    `xml_node::print` of a document in raw mode to a writer, and parsing all that the writer was given: the tree that is
    read from the buffer is the normal form of the tree that was printed.
   */
  method PrintAndParse(doc: seq<Node>, capacity: nat) returns (r: Result)
    requires IsDocument(doc) && capacity >= 8
    ensures r == Parsed(FromDocument(doc))
    ensures r == Parsed(doc) <==> AllNormal(doc)
  {
    hide *;
    var text := PrintToMemory(doc, capacity);
    var buf := new byte[|text|](i requires 0 <= i < |text| => text[i]);
    assert buf[..] == text;
    ghost var strings;
    r, strings := ParseBuffer(buf);
    PrintThenParse(doc);
    RoundTrip(doc);
  }

  method PrintToMemory(doc: seq<Node>, capacity: nat) returns (text: seq<byte>)
    requires IsDocument(doc) && capacity >= 8
    ensures text == PrintAll(doc)
  {
    hide AllLegal, IsTree, PrintAll, XmlBufferedWriter.Valid, Flatten;
    LegalAreTrees(doc);
    var sink := new XmlWriter();
    var writer := new XmlBufferedWriter(sink, ToUtf8, capacity);
    NodesOutput(writer, doc, [], []);
    writer.Flush();
    text := Flatten(sink.calls);
    assert sink.calls[0..] == sink.calls;
    assert [] + ([] + PrintAll(doc)) == PrintAll(doc);
  }
}
