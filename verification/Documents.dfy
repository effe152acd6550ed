/** A JDL document as the lossless syntax tree presents it: a run of pieces
    whose texts, put end to end, are the source. */
module Documents {
  import opened Text
  import opened SpanEdits

  /** What the parser says a piece is: a direct member of an entity block, a
      top-level declaration, or anything between. */
  datatype Role = Member(owner: string, kind: string) | Declaration(kind: string) | Trivia

  datatype Piece = Piece(role: Role, text: string)

  function Source(doc: seq<Piece>): string {
    if doc == [] then [] else doc[0].text + Source(doc[1..])
  }

  lemma {:induction false} SourceAppend(a: seq<Piece>, b: seq<Piece>)
    ensures Source(a + b) == Source(a) + Source(b)
  {
    if a == [] {
      assert a + b == b;
    } else {
      SourceAppend(a[1..], b);
      assert (a + b)[1..] == a[1..] + b;
      Assoc(a[0].text, Source(a[1..]), Source(b));
    }
  }

  /** Where the text of piece `i` lies in the source. */
  function SpanOf(doc: seq<Piece>, i: nat): (span: Span)
    requires i < |doc|
    ensures span.start <= span.end <= |Source(doc)|
    ensures Source(doc)[span.start..span.end] == doc[i].text
  {
    var start := |Source(doc[..i])|;
    SourceAround(doc, i);
    Span(start, start + |doc[i].text|)
  }

  lemma {:induction false} SourceAround(doc: seq<Piece>, i: nat)
    requires i < |doc|
    ensures Source(doc) == Source(doc[..i]) + doc[i].text + Source(doc[i + 1..])
  {
    assert doc == doc[..i] + doc[i..];
    SourceAppend(doc[..i], doc[i..]);
    assert doc[i..][1..] == doc[i + 1..];
    Assoc(Source(doc[..i]), doc[i].text, Source(doc[i + 1..]));
  }

  /** Replacing one span of the source replaces one piece's text and leaves
      every other piece where it was. */
  lemma {:induction false} ReplaceSpanIsReplacePiece(doc: seq<Piece>, i: nat, piece: Piece)
    requires i < |doc|
    ensures Splice(Source(doc), SpanOf(doc, i), piece.text) == Source(doc[i := piece])
  {
    var before, after, span := Source(doc[..i]), Source(doc[i + 1..]), SpanOf(doc, i);
    SourceAround(doc, i);
    SourceAround(doc[i := piece], i);
    assert doc[i := piece][..i] == doc[..i] && doc[i := piece][i + 1..] == doc[i + 1..];
    assert span.start == |before| && span.end == |before + doc[i].text|;
    Mid(before, doc[i].text, after);
  }
}
