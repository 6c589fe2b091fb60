/** The two byte conventions the repository uses to store a document's page texts:
    the processors join the UTF-8 encoded pages with one 0x0C byte and decode the
    result (`b"\f".join(page.get_text().encode("utf-8") ...)` then `.decode("utf-8")`),
    while the PyMuPDF converter writes every page followed by a 0x0C byte. */
module PageText {
  import opened Outcomes
  import Seqs
  import Utf8

  /** The bytes of `b"\f".join(...)` over the encoded pages. */
  function SeparatedBytes(pages: seq<string>): seq<Utf8.byte>
  {
    Seqs.Join(Utf8.EncodeAll(pages), [Utf8.FormFeedByte])
  }

  /** The bytes written by the converter: every encoded page, then 0x0C. */
  function TerminatedBytes(pages: seq<string>): seq<Utf8.byte>
  {
    Seqs.Terminated(Utf8.EncodeAll(pages), [Utf8.FormFeedByte])
  }

  /** Encoding commutes with the separator join, because U+000C encodes as 0x0C. */
  lemma {:induction false} EncodeSeparated(pages: seq<string>)
    ensures Utf8.Encode(Seqs.Join(pages, [Utf8.FormFeed])) == SeparatedBytes(pages)
  {
    if |pages| > 1 {
      EncodeSeparated(pages[1..]);
      var tail := Seqs.Join(pages[1..], [Utf8.FormFeed]);
      Utf8.EncodeAppend(pages[0], [Utf8.FormFeed] + tail);
      Utf8.EncodeAppend([Utf8.FormFeed], tail);
      assert Seqs.Join(pages, [Utf8.FormFeed]) == pages[0] + ([Utf8.FormFeed] + tail);
      assert Utf8.EncodeAll(pages)[1..] == Utf8.EncodeAll(pages[1..]);
    }
  }

  /** Encoding commutes with the terminator convention too. */
  lemma {:induction false} EncodeTerminated(pages: seq<string>)
    ensures Utf8.Encode(Seqs.Terminated(pages, [Utf8.FormFeed])) == TerminatedBytes(pages)
  {
    if |pages| > 0 {
      EncodeTerminated(pages[1..]);
      var head := pages[0] + [Utf8.FormFeed];
      var tail := Seqs.Terminated(pages[1..], [Utf8.FormFeed]);
      assert Seqs.Terminated(pages, [Utf8.FormFeed]) == head + tail;
      Utf8.EncodeAppend(head, tail);
      Utf8.EncodeAppend(pages[0], [Utf8.FormFeed]);
      Utf8.FormFeedEncoding();
      assert Utf8.EncodeAll(pages)[0] == Utf8.Encode(pages[0]);
      assert Utf8.EncodeAll(pages)[1..] == Utf8.EncodeAll(pages[1..]);
      assert TerminatedBytes(pages) == Utf8.Encode(head) + TerminatedBytes(pages[1..]);
    }
  }

  /** The text `upload_report` stores: decoding the joined bytes always succeeds and
      gives the pages joined with "\f", with no trailing form feed. */
  function ReportText(pages: seq<string>): (r: string)
    ensures Utf8.Decode(SeparatedBytes(pages)) == Some(r)
    ensures r == Seqs.Join(pages, [Utf8.FormFeed])
  {
    EncodeSeparated(pages);
    Utf8.DecodeEncode(Seqs.Join(pages, [Utf8.FormFeed]));
    Utf8.Decode(SeparatedBytes(pages)).value
  }

  /** Reading back a converter file as UTF-8 gives every page followed by "\f"; for a
      non-empty document that is the separator join plus one final form feed. */
  lemma DecodeTerminated(pages: seq<string>)
    ensures Utf8.Decode(TerminatedBytes(pages)) == Some(Seqs.Terminated(pages, [Utf8.FormFeed]))
    ensures |pages| > 0 ==>
      Utf8.Decode(TerminatedBytes(pages)) == Some(ReportText(pages) + [Utf8.FormFeed])
  {
    EncodeTerminated(pages);
    Utf8.DecodeEncode(Seqs.Terminated(pages, [Utf8.FormFeed]));
    if |pages| > 0 {
      Seqs.TerminatedIsJoinThenTerm(pages, [Utf8.FormFeed]);
    }
  }

  /** When no page contains a form feed, the stored report text splits back into the pages. */
  lemma ReportTextSplits(pages: seq<string>)
    requires |pages| > 0 && Seqs.FreeOf(pages, Utf8.FormFeed)
    ensures Seqs.Split(ReportText(pages), Utf8.FormFeed) == pages
  {
    Seqs.SplitJoin(pages, Utf8.FormFeed);
  }

  /** The converter file holds one 0x0C per page plus one per form feed inside the pages. */
  lemma {:induction false} TerminatorCount(pages: seq<string>)
    ensures Seqs.Count(TerminatedBytes(pages), Utf8.FormFeedByte)
         == |pages| + Seqs.CountAll(pages, Utf8.FormFeed)
  {
    Seqs.CountTerminated(Utf8.EncodeAll(pages), Utf8.FormFeedByte);
    CountAllEncoded(pages);
  }

  lemma {:induction false} CountAllEncoded(pages: seq<string>)
    ensures Seqs.CountAll(Utf8.EncodeAll(pages), Utf8.FormFeedByte) == Seqs.CountAll(pages, Utf8.FormFeed)
  {
    if |pages| > 0 {
      Utf8.CountFormFeedBytes(pages[0]);
      CountAllEncoded(pages[1..]);
      assert Utf8.EncodeAll(pages)[1..] == Utf8.EncodeAll(pages[1..]);
    }
  }

  /** The stored text is empty, so that a later question is refused, exactly for a
      document with no pages or with one page of no text: two blank pages already give
      "\f". */
  lemma ReportTextEmpty(pages: seq<string>)
    ensures ReportText(pages) == [] <==> |pages| == 0 || (|pages| == 1 && pages[0] == [])
  {
    if |pages| > 1 {
      assert |Seqs.Join(pages, [Utf8.FormFeed])| >= 1;
    }
  }
}
