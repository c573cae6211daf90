/**
 What the benchmark clients take for the length of a response and for a response
 without a body, told from the text of its header block, and where a response
 ends when its length does not fit the arithmetic.
 */
module ResponseSyntax {
  import opened Bytes
  import opened Numerals
  import opened Pipelining
  import opened ResponseReceiver

  /** A length is its leading digits; without any, or from 2^64 on, it counts as 0. */
  function LengthOf(text: bytes): nat {
    if Denoted(text).Some? && Denoted(text).value < TWO64 then Denoted(text).value else 0
  }

  lemma FieldText()
    ensures CONTENT_LENGTH == Ascii("Content-Length: ")
    ensures NOT_MODIFIED == Ascii("HTTP/1.1 304") && NO_CONTENT == Ascii("HTTP/1.1 204")
  {
  }

  /** The text of the first such field, up to the end of its line, is the declared length. */
  lemma DeclaredRead(pre: bytes, text: bytes, post: bytes)
    requires NoLineEndIn(text)
    requires var head := pre + Ascii("Content-Length: ") + text + CRLF + post;
             forall j :: 0 <= j < |pre| ==> !OccursAt(head, Ascii("Content-Length: "), j)
    ensures Declared(pre + Ascii("Content-Length: ") + text + CRLF + post) == LengthOf(text)
  {
    hide Find, FromChars, Denoted, NoLineEndIn, Ascii;
    FieldText();
    var field := Ascii("Content-Length: ");
    var head, from := pre + field + text + CRLF + post, |pre + field|;
    assert head[|pre|..from] == field;
    FindIs(head, field, 0, |pre|);
    var rest := text + CRLF + post;
    LineEndFound(text, post);
    assert head[from..] == rest;
    FindInSuffix(head, CRLF, from);
    assert head[from..from + |text|] == text;
    FromCharsReads(text);
  }

  /** A header block without the field declares nothing. */
  lemma DeclaredNone(head: bytes)
    requires forall j :: 0 <= j < |head| ==> !OccursAt(head, Ascii("Content-Length: "), j)
    ensures Declared(head) == 0
  {
    hide Ascii;
    FieldText();
  }

  /** The responses that have no body whatever they declare: by their status line, in any reason phrase. */
  lemma BodilessIs(head: bytes)
    ensures Bodiless(head) <==> Ascii("HTTP/1.1 204") <= head || Ascii("HTTP/1.1 304") <= head
  {
    hide Ascii;
    FieldText();
  }

  /** A response that declares so much that the sum wraps is counted as soon as its header block is
      there, and the search goes on from inside that block. */
  lemma WrappedEnd(head: bytes, w: bytes)
    requires IsHead(head) && |head| + Declared(head) >= TWO64 && |head| < TWO64
    ensures NextEnd(head + w, 0) == Some(|head| + Declared(head) - TWO64)
    ensures |head| + Declared(head) - TWO64 < |head|
  {
    hide Declared, FrameOf, IsHead;
    DeclaredFits(head);
    assert (head + w)[0..] == head + w;
    FrameWith(head, w);
  }

  lemma FrameWith(head: bytes, w: bytes)
    requires IsHead(head)
    ensures FrameOf(head + w) == Frame(|head|, Declared(head))
  {
    hide Find;
    FieldInOneLine();
    FrameByHead(head, w, CONTENT_LENGTH);
  }
}
