/**
  The two character tables of the parser and the printer, and that the predicates of the model are what their bits say.
 */
module CharacterTables {
  import opened Common
  import opened TextConversion
  import opened XmlPrinter
  import opened XmlParser

  /** `chartype_table` */
  function Chartype(c: byte): nat
  {
    if c < 64 then ChartypeLow(c) else if c < 128 then ChartypeHigh(c) else 192
  }

  function ChartypeLow(c: byte): nat
    requires 0 <= c < 64
  {
    if c < 16 then [55, 0, 0, 0, 0, 0, 0, 0, 0, 12, 12, 0, 0, 63, 0, 0][c]
    else if c < 32 then [0, 0, 0, 0, 0, 0, 0, 0, 0, 0, 0, 0, 0, 0, 0, 0][c - 16]
    else if c < 48 then [8, 0, 6, 0, 0, 0, 7, 6, 0, 0, 0, 0, 0, 96, 64, 0][c - 32]
    else [64, 64, 64, 64, 64, 64, 64, 64, 64, 64, 192, 0, 1, 0, 48, 0][c - 48]
  }

  function ChartypeHigh(c: byte): nat
    requires 64 <= c < 128
  {
    if c < 80 then [0, 192, 192, 192, 192, 192, 192, 192, 192, 192, 192, 192, 192, 192, 192, 192][c - 64]
    else if c < 96 then [192, 192, 192, 192, 192, 192, 192, 192, 192, 192, 192, 0, 0, 16, 0, 192][c - 80]
    else if c < 112 then [0, 192, 192, 192, 192, 192, 192, 192, 192, 192, 192, 192, 192, 192, 192, 192][c - 96]
    else [192, 192, 192, 192, 192, 192, 192, 192, 192, 192, 192, 0, 0, 0, 0, 0][c - 112]
  }

  /** `chartypex_table` */
  function ChartypeX(c: byte): nat
  {
    if c < 64 then ChartypeXLow(c) else if c < 128 then ChartypeXHigh(c) else 20
  }

  function ChartypeXLow(c: byte): nat
    requires 0 <= c < 64
  {
    if c < 16 then [3, 3, 3, 3, 3, 3, 3, 3, 3, 0, 2, 3, 3, 2, 3, 3][c]
    else if c < 32 then [3, 3, 3, 3, 3, 3, 3, 3, 3, 3, 3, 3, 3, 3, 3, 3][c - 16]
    else if c < 48 then [0, 0, 2, 0, 0, 0, 3, 0, 0, 0, 0, 0, 0, 16, 16, 0][c - 32]
    else [24, 24, 24, 24, 24, 24, 24, 24, 24, 24, 0, 0, 3, 0, 3, 0][c - 48]
  }

  function ChartypeXHigh(c: byte): nat
    requires 64 <= c < 128
  {
    if c < 80 then [0, 20, 20, 20, 20, 20, 20, 20, 20, 20, 20, 20, 20, 20, 20, 20][c - 64]
    else if c < 96 then [20, 20, 20, 20, 20, 20, 20, 20, 20, 20, 20, 0, 0, 0, 0, 20][c - 80]
    else if c < 112 then [0, 20, 20, 20, 20, 20, 20, 20, 20, 20, 20, 20, 20, 20, 20, 20][c - 96]
    else [20, 20, 20, 20, 20, 20, 20, 20, 20, 20, 20, 0, 0, 0, 0, 0][c - 112]
  }

  /** The bit that stands for a character type is set. */
  predicate Has(types: nat, ct: nat)
    requires ct > 0
  {
    types / ct % 2 == 1
  }

  predicate ParserAgrees(c: byte)
  {
    && (Special(Mode.Pcdata(true, true), c) <==> Has(Chartype(c), 1))
    && (Special(Attribute('"' as byte, Newlines, true), c) <==> Has(Chartype(c), 2))
    && (Special(Attribute('"' as byte, Spaces, true), c) <==> Has(Chartype(c), 4))
    && (IsSpace(c) <==> Has(Chartype(c), 8))
    && (Special(Mode.Cdata('>' as byte), c) <==> Has(Chartype(c), 16))
    && (IsSymbol(c) <==> Has(Chartype(c), 64))
    && (IsStartSymbol(c) <==> Has(Chartype(c), 128))
  }

  predicate PrinterAgrees(c: byte)
  {
    && (MustEscape(false, c) <==> c != 0 && Has(ChartypeX(c), 1))
    && (MustEscape(true, c) <==> c != 0 && Has(ChartypeX(c), 2))
  }

  /** Names, blanks and the characters at which the converters stop are those of the parser's table. */
  lemma ParserTable(c: byte)
    ensures ParserAgrees(c)
  {
    if c < 64 {
      ParserTableLow(c);
    } else if c < 128 {
      ParserTableHigh(c);
    }
  }

  lemma ParserTableLow(c: byte)
    requires c < 64
    ensures ParserAgrees(c)
  {
    if c < 32 {
      ControlCharacters(c);
    } else {
      Punctuation(c);
    }
  }

  lemma ControlCharacters(c: byte)
    requires c < 32
    ensures ParserAgrees(c)
  {
    if c < 16 {}
  }

  lemma Punctuation(c: byte)
    requires 32 <= c < 64
    ensures ParserAgrees(c)
  {
    if c < 48 {}
  }

  lemma ParserTableHigh(c: byte)
    requires 64 <= c < 128
    ensures ParserAgrees(c)
  {
    if c < 80 {} else if c < 96 {} else if c < 112 {}
  }

  /** The characters that are escaped are those of the printer's table; the NUL in it ends the string. */
  lemma PrinterTable(c: byte)
    ensures PrinterAgrees(c)
  {
  }
}
