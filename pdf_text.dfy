/** Text extraction as both PDF-reading routes do it: the reader calls back once
    per item, then once with no item at the end or once with an error; the
    routes collect every item's non-empty text and join the pieces with single
    spaces. */
module PdfText {
  import opened JsValues
  import opened Strings

  /** One callback item; only its `text` is read. */
  datatype PdfItem = PdfItem(text: Option<string>)

  /** How the reader's callback sequence ends. */
  datatype Ending = EndOfDocument | ParseError

  /** Everything the reader reports for one buffer. */
  datatype PdfStream = PdfStream(items: seq<PdfItem>, ending: Ending)

  /** The texts pushed onto `resumeTextChunks`, in callback order. */
  function Chunks(items: seq<PdfItem>): seq<string>
    decreases |items|
  {
    if items == [] then []
    else
      var last := items[|items| - 1];
      Chunks(items[..|items| - 1]) + (if Truthy(last.text) then [last.text.value] else [])
  }

  /** A string is collected exactly when some item carries it as a non-empty text. */
  lemma {:induction false} ChunksIff(items: seq<PdfItem>, c: string)
    ensures c in Chunks(items) <==> c != "" && exists k :: 0 <= k < |items| && items[k].text == Some(c)
    decreases |items|
  {
    if items != [] {
      var init := items[..|items| - 1];
      ChunksIff(init, c);
      assert forall k :: 0 <= k < |init| ==> init[k] == items[k];
      if c != "" && items[|items| - 1].text == Some(c) {
        assert c in Chunks(items);
      }
    }
  }

  /** No more pieces than items, and none of them empty. */
  lemma {:induction false} ChunksBounds(items: seq<PdfItem>)
    ensures |Chunks(items)| <= |items|
    ensures forall k :: 0 <= k < |Chunks(items)| ==> Chunks(items)[k] != ""
    decreases |items|
  {
    if items != [] {
      ChunksBounds(items[..|items| - 1]);
    }
  }

  /** The promise's value: the joined text on a clean end; `None` when the reader reports an error. */
  function ExtractedText(stream: PdfStream): Option<string> {
    if stream.ending == ParseError then None else Some(Join(Chunks(stream.items), " "))
  }

  /** Every collected piece appears verbatim in the joined text. */
  lemma {:induction false} JoinContainsPart(parts: seq<string>, sep: string, k: nat)
    requires k < |parts|
    ensures Contains(Join(parts, sep), parts[k])
    decreases |parts|
  {
    var whole := Join(parts, sep);
    if |parts| == 1 {
      assert OccursAt(whole, parts[k], 0);
    } else if k == 0 {
      assert whole[0..|parts[0]|] == parts[0];
      assert OccursAt(whole, parts[k], 0);
    } else {
      var rest := Join(parts[1..], sep);
      JoinContainsPart(parts[1..], sep, k - 1);
      var i :| 0 <= i <= |rest| - |parts[k]| && OccursAt(rest, parts[k], i);
      var off := |parts[0]| + |sep|;
      assert whole == parts[0] + sep + rest;
      assert whole[off + i..off + i + |parts[k]|] == rest[i..i + |parts[k]|];
      assert OccursAt(whole, parts[k], off + i);
    }
  }

  /** The text of every item with a non-empty text appears in the extracted text. */
  lemma ExtractedTextContainsItems(stream: PdfStream, k: nat)
    requires stream.ending == EndOfDocument && k < |stream.items| && Truthy(stream.items[k].text)
    ensures Contains(ExtractedText(stream).value, stream.items[k].text.value)
  {
    var c := stream.items[k].text.value;
    ChunksIff(stream.items, c);
    var j :| 0 <= j < |Chunks(stream.items)| && Chunks(stream.items)[j] == c;
    JoinContainsPart(Chunks(stream.items), " ", j);
  }

  /** The extracted text is the pieces plus one space between neighbours, so a
      document without text items yields the empty string. */
  lemma ExtractedTextLength(stream: PdfStream)
    requires stream.ending == EndOfDocument
    ensures |Chunks(stream.items)| > 0 ==>
      |ExtractedText(stream).value| == TotalLength(Chunks(stream.items)) + |Chunks(stream.items)| - 1
    ensures |Chunks(stream.items)| == 0 ==> ExtractedText(stream) == Some("")
  {
    JoinLength(Chunks(stream.items), " ");
  }

  /** The callback loop: push each non-empty text, resolve with the join at the
      end, reject on an error. */
  method Parse(stream: PdfStream) returns (text: Option<string>)
    ensures text == ExtractedText(stream)
  {
    var resumeTextChunks: seq<string> := [];
    var i := 0;
    while i < |stream.items|
      invariant 0 <= i <= |stream.items|
      invariant resumeTextChunks == Chunks(stream.items[..i])
    {
      var item := stream.items[i];
      assert stream.items[..i + 1][..i] == stream.items[..i];
      if item.text.Some? && item.text.value != "" {
        resumeTextChunks := resumeTextChunks + [item.text.value];
      }
      i := i + 1;
    }
    assert stream.items[..i] == stream.items;
    if stream.ending == ParseError {
      return None;
    }
    text := Some(Join(resumeTextChunks, " "));
  }
}
