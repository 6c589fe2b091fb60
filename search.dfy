/** What the processors see of a LanceDB search: `table.search(q).limit(k).to_polars()`
    gives the rows ranked by the library; the code reads only their "text" column. The
    ranking itself is the library's and is an input here. */
module Search {
  import opened Outcomes
  import Seqs

  /** The reply to one search: the "text" column of the ranked rows (`None` when the
      result has no such column), or a search that raised (`open_table`, `search` and
      `to_polars` alike). */
  datatype SearchReply = Hits(textColumn: Option<seq<string>>) | SearchRaised

  /** Whether the code gets a text list out of the reply. */
  predicate HasTexts(s: SearchReply)
  {
    s.Hits? && s.textColumn.Some?
  }

  /** `.limit(k)`: the first `k` ranked rows, or all of them when there are fewer. */
  function Limit(texts: seq<string>, k: nat): (r: seq<string>)
    ensures |r| <= k && |r| <= |texts|
    ensures r == texts[..|r|]
    ensures |r| == k || r == texts
  {
    if |texts| <= k then texts else texts[..k]
  }

  /** `"\n".join(texts)`. */
  function RelevantTexts(texts: seq<string>): string
  {
    Seqs.Join(texts, ['\n'])
  }

  /** A limit no smaller than the ranking keeps every row. */
  lemma LimitAll(texts: seq<string>, k: nat)
    requires |texts| <= k
    ensures Limit(texts, k) == texts
  {
  }

  /** The joined context splits back into the retrieved texts, in order, when none of
      them contains a newline. */
  lemma RelevantTextsSplit(texts: seq<string>)
    requires |texts| > 0 && Seqs.FreeOf(texts, '\n')
    ensures Seqs.Split(RelevantTexts(texts), '\n') == texts
  {
    Seqs.SplitJoin(texts, '\n');
  }

  /** Joining adds one newline between consecutive texts and none after the last. */
  lemma RelevantTextsNewlines(texts: seq<string>)
    requires |texts| > 0
    ensures Seqs.Count(RelevantTexts(texts), '\n') == |texts| - 1 + Seqs.CountAll(texts, '\n')
  {
    Seqs.CountJoin(texts, '\n');
  }
}
