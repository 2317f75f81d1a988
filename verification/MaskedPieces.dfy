/** Text spelled as literals and what stands between them, and what masking leaves of it. */
module MaskedPieces {
  import opened Bytes
  import opened MaskLiterals
  import opened SpelledCode

  /** Text without a double quote, and a literal with both its quotes behind it. */
  datatype Piece = Piece(text: Text, literal: seq<StringPart>)

  function SpelledPieces(pieces: seq<Piece>, tail: Text): Text {
    if pieces == [] then tail
    else pieces[0].text + (['"'] + SpelledParts(pieces[0].literal) + ['"'] + SpelledPieces(pieces[1..], tail))
  }

  /** The same with a blank for every byte of a literal and of its quotes. */
  function BlankedPieces(pieces: seq<Piece>, tail: Text): Text {
    if pieces == [] then tail
    else pieces[0].text + (Blanks(|SpelledParts(pieces[0].literal)| + 2) + BlankedPieces(pieces[1..], tail))
  }

  ghost predicate PlainParts(parts: seq<StringPart>) {
    forall p :: p in parts && p.Char? ==> p.c != '"' && p.c != '\\'
  }

  ghost predicate ProperPieces(pieces: seq<Piece>) {
    forall p :: p in pieces ==> '"' !in p.text && PlainParts(p.literal)
  }

  lemma {:induction false} MaskedInTwo(a: Text, b: Text, s: State)
    ensures Masked(a + b, s) == Masked(a, s) + Masked(b, StateAfter(a, s))
    ensures StateAfter(a + b, s) == StateAfter(b, StateAfter(a, s))
  {
    if a == [] {
      assert a + b == b;
    } else {
      assert (a + b)[1..] == a[1..] + b;
      MaskedInTwo(a[1..], b, After(s, a[0]));
    }
  }

  lemma {:induction false} PlainTextStays(text: Text)
    requires '"' !in text
    ensures Masked(text, Plain) == text && StateAfter(text, Plain) == Plain
  {
    if text != [] {
      PlainTextStays(text[1..]);
    }
  }

  lemma {:induction false} PartsAreBlanked(parts: seq<StringPart>)
    requires PlainParts(parts)
    ensures Masked(SpelledParts(parts), Literal) == Blanks(|SpelledParts(parts)|)
    ensures StateAfter(SpelledParts(parts), Literal) == Literal
  {
    if parts != [] {
      var first: Text := match parts[0] case Char(c) => [c] case Escape(c) => ['\\', c];
      assert parts[0] in parts && forall p :: p in parts[1..] ==> p in parts;
      OnePartBlanked(parts[0], first);
      PartsAreBlanked(parts[1..]);
      MaskedInTwo(first, SpelledParts(parts[1..]), Literal);
      assert Blanks(|first|) + Blanks(|SpelledParts(parts[1..])|) == Blanks(|SpelledParts(parts)|);
    }
  }

  lemma OnePartBlanked(p: StringPart, first: Text)
    requires p.Char? ==> p.c != '"' && p.c != '\\'
    requires first == match p case Char(c) => [c] case Escape(c) => ['\\', c]
    ensures Masked(first, Literal) == Blanks(|first|) && StateAfter(first, Literal) == Literal
  {
    if p.Escape? {
      assert first[1..] == [p.c] && first[1..][1..] == [];
      assert Masked([p.c], LiteralEscape) == [' '] + Masked([], Literal);
      assert StateAfter(first, Literal) == StateAfter([p.c], LiteralEscape);
      assert [p.c][1..] == [] && StateAfter([p.c], LiteralEscape) == StateAfter([], Literal);
    } else {
      assert first[1..] == [];
    }
  }

  lemma QuotesBlanked()
    ensures Masked(['"'], Plain) == [' '] && StateAfter(['"'], Plain) == Literal
    ensures Masked(['"'], Literal) == [' '] && StateAfter(['"'], Literal) == Plain
  {
    var quote: Text := ['"'];
    assert quote[1..] == [];
    assert Masked(quote, Plain) == [' '] + Masked([], Literal);
    assert Masked(quote, Literal) == [' '] + Masked([], Plain);
    assert StateAfter(quote, Plain) == StateAfter([], Literal);
    assert StateAfter(quote, Literal) == StateAfter([], Plain);
  }

  lemma LiteralBlanked(parts: seq<StringPart>)
    requires PlainParts(parts)
    ensures Masked(['"'] + SpelledParts(parts) + ['"'], Plain) == Blanks(|SpelledParts(parts)| + 2)
    ensures StateAfter(['"'] + SpelledParts(parts) + ['"'], Plain) == Plain
  {
    var body := SpelledParts(parts);
    QuotesBlanked();
    PartsAreBlanked(parts);
    MaskedInTwo(['"'], body, Plain);
    MaskedInTwo(['"'] + body, ['"'], Plain);
    assert [' '] + Blanks(|body|) + [' '] == Blanks(|body| + 2);
  }

  /** Masking blanks the literals with their quotes and keeps every other byte. */
  lemma {:induction false} PiecesAreMasked(pieces: seq<Piece>, tail: Text)
    requires ProperPieces(pieces) && '"' !in tail
    ensures Masked(SpelledPieces(pieces, tail), Plain) == BlankedPieces(pieces, tail)
    decreases |pieces|
  {
    if pieces == [] {
      PlainTextStays(tail);
    } else {
      var p, rest := pieces[0], SpelledPieces(pieces[1..], tail);
      assert p in pieces && forall q :: q in pieces[1..] ==> q in pieces;
      PiecesAreMasked(pieces[1..], tail);
      PlainTextStays(p.text);
      LiteralBlanked(p.literal);
      var literal: Text := ['"'] + SpelledParts(p.literal) + ['"'];
      MaskedInTwo(literal, rest, Plain);
      MaskedInTwo(p.text, literal + rest, Plain);
    }
  }

  /** A literal that does not end on the line is blanked to its end. */
  lemma OpenLiteralIsMasked(pieces: seq<Piece>, text: Text, parts: seq<StringPart>)
    requires ProperPieces(pieces) && '"' !in text && PlainParts(parts)
    ensures Masked(text + (['"'] + SpelledParts(parts)), Plain) == text + Blanks(1 + |SpelledParts(parts)|)
  {
    var body := SpelledParts(parts);
    QuotesBlanked();
    PartsAreBlanked(parts);
    PlainTextStays(text);
    MaskedInTwo(['"'], body, Plain);
    MaskedInTwo(text, ['"'] + body, Plain);
    assert [' '] + Blanks(|body|) == Blanks(1 + |body|);
  }
}
