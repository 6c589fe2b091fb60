/** The parts of `pathlib` the directory scans use, on the final path component
    (`Path.name`): `suffix`, `stem` and the `.pdf` filter `suffix.lower() == ".pdf"`.
    `suffix` and `stem` follow CPython 3.12: with `i = name.rfind(".")`, the suffix is
    `name[i:]` when `0 < i < len(name) - 1` and empty otherwise. */
module Paths {

  /** `name.rfind(".")`: the index of the last dot, or -1. */
  function LastDot(name: string): (r: int)
    ensures -1 <= r < |name|
    ensures r >= 0 ==> name[r] == '.'
    ensures forall k :: r < k < |name| ==> name[k] != '.'
  {
    if |name| == 0 then -1
    else if name[|name| - 1] == '.' then |name| - 1
    else LastDot(name[..|name| - 1])
  }

  predicate HasSuffix(name: string)
  {
    0 < LastDot(name) < |name| - 1
  }

  /** `Path.suffix`. */
  function Suffix(name: string): string
  {
    if HasSuffix(name) then name[LastDot(name)..] else ""
  }

  /** `Path.stem`. */
  function Stem(name: string): string
  {
    if HasSuffix(name) then name[..LastDot(name)] else name
  }

  /** `str.lower()` on ASCII letters; every other character is kept. No other
      character lower-cases to '.', 'p', 'd' or 'f', so the `.pdf` test is exact. */
  function AsciiLower(s: string): (r: string)
    ensures |r| == |s|
    ensures forall i :: 0 <= i < |s| ==> r[i] == LowerChar(s[i])
  {
    if |s| == 0 then [] else [LowerChar(s[0])] + AsciiLower(s[1..])
  }

  function LowerChar(c: char): char
  {
    if 'A' <= c <= 'Z' then (c as int - 'A' as int + 'a' as int) as char else c
  }

  /** The scan's filter `pdf_path.suffix.lower() == ".pdf"`, written on the last four
      characters; `IsPdfLower` states that it is that comparison. */
  predicate IsPdf(name: string)
  {
    var n := |name|;
    && n >= 5 && name[n - 4] == '.'
    && LowerChar(name[n - 3]) == 'p' && LowerChar(name[n - 2]) == 'd' && LowerChar(name[n - 1]) == 'f'
  }

  const PdfSuffix: string := ".pdf"

  /** A name that passes the filter ends in its suffix, the dot four characters from
      the end. */
  lemma PdfLastDot(name: string)
    requires IsPdf(name)
    ensures LastDot(name) == |name| - 4 && HasSuffix(name)
  {
    var n := |name|;
    assert LastDot(name) == LastDot(name[..n - 1]);
    assert name[..n - 1][..n - 2] == name[..n - 2];
    assert name[..n - 2][..n - 3] == name[..n - 3];
  }

  /** The filter is the comparison of the lower-cased suffix with ".pdf". */
  lemma IsPdfLower(name: string)
    ensures IsPdf(name) <==> AsciiLower(Suffix(name)) == PdfSuffix
  {
    var s := Suffix(name);
    var n := |name|;
    if AsciiLower(s) == PdfSuffix {
      assert |s| == 4;
      assert HasSuffix(name) && LastDot(name) == n - 4;
      assert s == name[n - 4..];
      assert LowerChar(s[0]) == AsciiLower(s)[0] == '.';
      assert AsciiLower(s)[1] == 'p' && AsciiLower(s)[2] == 'd' && AsciiLower(s)[3] == 'f';
      assert s[1] == name[n - 3] && s[2] == name[n - 2] && s[3] == name[n - 1];
    }
    if IsPdf(name) {
      PdfLastDot(name);
      assert s == name[n - 4..];
      assert AsciiLower(s) == [LowerChar(s[0]), LowerChar(s[1]), LowerChar(s[2]), LowerChar(s[3])];
    }
  }

  /** The number of directory entries the `.pdf` filter lets through. */
  function PdfCount(entries: seq<string>): (n: nat)
    ensures n <= |entries|
  {
    if |entries| == 0 then 0
    else PdfCount(entries[..|entries| - 1]) + (if IsPdf(entries[|entries| - 1]) then 1 else 0)
  }

  /** The stem and the suffix together are the whole name. */
  lemma StemSuffix(name: string)
    ensures Stem(name) + Suffix(name) == name
  {
  }

  /** A name passes the filter exactly when it has at least one character before a final
      four characters that lower-case to ".pdf" (so ".pdf" alone does not pass). */
  lemma IsPdfIff(name: string)
    ensures IsPdf(name) <==> |name| >= 5 && AsciiLower(name[|name| - 4..]) == ".pdf"
  {
    var n := |name|;
    if IsPdf(name) {
      assert |Suffix(name)| == 4;
    }
    if n >= 5 && AsciiLower(name[n - 4..]) == ".pdf" {
      var tail := name[n - 4..];
      assert LowerChar(tail[0]) == '.' && tail[0] == name[n - 4];
      assert forall k :: n - 4 < k < n ==> LowerChar(name[k]) == AsciiLower(tail)[k - (n - 4)];
      assert LastDot(name) == n - 4;
    }
  }

  /** For a name that passes the filter the stem drops exactly the four-character suffix. */
  lemma PdfStem(name: string)
    requires IsPdf(name)
    ensures |name| >= 5 && Stem(name) == name[..|name| - 4]
  {
    IsPdfIff(name);
    assert |Suffix(name)| == 4;
  }

  const TxtSuffix: string := ".txt"

  /** The text file named after an entry's stem: `f"{path.stem}.txt"`. */
  function TxtName(name: string): string
  {
    Stem(name) + TxtSuffix
  }

  /** The file name is the stem followed by ".txt", so the stem can be read back from it. */
  lemma StemOfTxtName(name: string)
    ensures |TxtName(name)| == |Stem(name)| + 4
    ensures TxtName(name)[..|TxtName(name)| - 4] == Stem(name)
    ensures TxtName(name)[|TxtName(name)| - 4..] == ".txt"
  {
  }

  /** Distinct stems give distinct file names. */
  lemma TxtNameInjective(a: string, b: string)
    requires Stem(a) != Stem(b)
    ensures TxtName(a) != TxtName(b)
  {
    StemOfTxtName(a);
    StemOfTxtName(b);
  }

  /** A `.pdf` entry's text file replaces its last four characters by ".txt". */
  lemma PdfTxtName(name: string)
    requires IsPdf(name)
    ensures TxtName(name) == name[..|name| - 4] + ".txt"
  {
    PdfStem(name);
  }
}
