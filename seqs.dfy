/** Sequence shaping shared by the text and byte code paths: Python's
    `sep.join(parts)`, a terminator after every part, `str.split(sep)` for a
    one-element separator, and counting. */
module Seqs {

  /** `sep.join(parts)`: the parts with `sep` between consecutive ones. */
  function Join<T>(parts: seq<seq<T>>, sep: seq<T>): seq<T>
  {
    if |parts| == 0 then []
    else if |parts| == 1 then parts[0]
    else parts[0] + sep + Join(parts[1..], sep)
  }

  /** Every part followed by `term`, the last part included. */
  function Terminated<T>(parts: seq<seq<T>>, term: seq<T>): seq<T>
  {
    if |parts| == 0 then [] else parts[0] + term + Terminated(parts[1..], term)
  }

  /** Python's `s.split(c)` for a one-element separator: the maximal runs free of `c`. */
  function Split<T(==)>(s: seq<T>, c: T): (r: seq<seq<T>>)
    ensures |r| >= 1
  {
    if |s| == 0 then [[]]
    else
      var rest := Split(s[1..], c);
      if s[0] == c then [[]] + rest else [[s[0]] + rest[0]] + rest[1..]
  }

  /** The number of occurrences of `x` in `s`. */
  function Count<T(==)>(s: seq<T>, x: T): nat
  {
    if |s| == 0 then 0 else (if s[0] == x then 1 else 0) + Count(s[1..], x)
  }

  /** No part contains `c`. */
  predicate FreeOf<T(==)>(parts: seq<seq<T>>, c: T)
  {
    forall i :: 0 <= i < |parts| ==> c !in parts[i]
  }

  /** The middle part of a three-part concatenation is the slice after the first part. */
  lemma MiddleOf<T>(x: seq<T>, y: seq<T>, z: seq<T>)
    ensures (x + (y + z))[|x|..|x| + |y|] == y
  {
    assert (x + (y + z))[|x|..] == y + z;
  }

  /** In `a + (b + (c + (d + (e + (f + g)))))` the parts b, d and f sit at the offsets
      their predecessors' lengths add up to. */
  lemma AlternateParts<T>(a: seq<T>, b: seq<T>, c: seq<T>, d: seq<T>, e: seq<T>, f: seq<T>, g: seq<T>)
    ensures var s := a + (b + (c + (d + (e + (f + g)))));
      var i := |a|;
      var j := i + |b| + |c|;
      var k := j + |d| + |e|;
      && s[i..i + |b|] == b && s[j..j + |d|] == d && s[k..k + |f|] == f
  {
    var s := a + (b + (c + (d + (e + (f + g)))));
    MiddleOf(a, b, c + (d + (e + (f + g))));
    assert s[|a| + |b| + |c|..] == d + (e + (f + g));
    MiddleOf([], d, e + (f + g));
    assert s[|a| + |b| + |c| + |d| + |e|..] == f + g;
  }

  /** Joining one part adds no separator; joining none gives the empty sequence. */
  lemma JoinSmall<T>(parts: seq<seq<T>>, sep: seq<T>)
    ensures |parts| == 0 ==> Join(parts, sep) == []
    ensures |parts| == 1 ==> Join(parts, sep) == parts[0]
  {
  }

  /** Appending a part to a non-empty list appends the separator and the part. */
  lemma {:induction false} JoinSnoc<T>(parts: seq<seq<T>>, p: seq<T>, sep: seq<T>)
    requires |parts| > 0
    ensures Join(parts + [p], sep) == Join(parts, sep) + sep + p
  {
    if |parts| == 1 {
      assert parts + [p] == [parts[0], p];
    } else {
      assert (parts + [p])[1..] == parts[1..] + [p];
      JoinSnoc(parts[1..], p, sep);
    }
  }

  /** Appending a part appends it and its terminator. */
  lemma {:induction false} TerminatedSnoc<T>(parts: seq<seq<T>>, p: seq<T>, term: seq<T>)
    ensures Terminated(parts + [p], term) == Terminated(parts, term) + p + term
  {
    if |parts| == 0 {
      assert parts + [p] == [p];
      assert Terminated([p], term) == p + term + Terminated([p][1..], term);
    } else {
      assert (parts + [p])[1..] == parts[1..] + [p];
      TerminatedSnoc(parts[1..], p, term);
    }
  }

  /** The terminator convention is the separator convention plus one final terminator. */
  lemma {:induction false} TerminatedIsJoinThenTerm<T>(parts: seq<seq<T>>, term: seq<T>)
    requires |parts| > 0
    ensures Terminated(parts, term) == Join(parts, term) + term
  {
    if |parts| > 1 {
      TerminatedIsJoinThenTerm(parts[1..], term);
    }
  }

  lemma {:induction false} CountAppend<T>(a: seq<T>, b: seq<T>, x: T)
    ensures Count(a + b, x) == Count(a, x) + Count(b, x)
  {
    if |a| > 0 {
      assert (a + b)[1..] == a[1..] + b;
      CountAppend(a[1..], b, x);
    } else {
      assert a + b == b;
    }
  }

  /** The number of terminators written: one per part, plus those inside the parts. */
  lemma {:induction false} CountTerminated<T>(parts: seq<seq<T>>, x: T)
    ensures Count(Terminated(parts, [x]), x) == |parts| + CountAll(parts, x)
  {
    if |parts| > 0 {
      CountTerminated(parts[1..], x);
      CountAppend(parts[0] + [x], Terminated(parts[1..], [x]), x);
      CountAppend(parts[0], [x], x);
    }
  }

  /** The number of separators in a join: one between consecutive parts, plus those
      inside the parts. */
  lemma CountJoin<T>(parts: seq<seq<T>>, x: T)
    requires |parts| > 0
    ensures Count(Join(parts, [x]), x) == |parts| - 1 + CountAll(parts, x)
  {
    TerminatedIsJoinThenTerm(parts, [x]);
    CountTerminated(parts, x);
    CountAppend(Join(parts, [x]), [x], x);
  }

  /** The total number of occurrences of `x` over all parts. */
  function CountAll<T(==)>(parts: seq<seq<T>>, x: T): nat
  {
    if |parts| == 0 then 0 else Count(parts[0], x) + CountAll(parts[1..], x)
  }

  /** Splitting on `c` and joining with `c` gives the text back, whatever it holds. */
  lemma {:induction false} JoinSplit<T>(s: seq<T>, c: T)
    ensures Join(Split(s, c), [c]) == s
  {
    if |s| > 0 {
      var rest := Split(s[1..], c);
      JoinSplit(s[1..], c);
      if s[0] == c {
        assert ([[]] + rest)[1..] == rest;
      } else if |rest| > 1 {
        assert ([[s[0]] + rest[0]] + rest[1..])[1..] == rest[1..];
        assert s == [s[0]] + s[1..];
      }
    }
  }

  /** A prefix free of `c` is glued onto the first piece of the split of what follows. */
  lemma {:induction false} SplitFreePrefix<T>(p: seq<T>, t: seq<T>, c: T)
    requires c !in p
    ensures Split(p + t, c) == [p + Split(t, c)[0]] + Split(t, c)[1..]
  {
    if |p| > 0 {
      assert (p + t)[0] == p[0] != c;
      assert (p + t)[1..] == p[1..] + t;
      assert c !in p[1..];
      SplitFreePrefix(p[1..], t, c);
      var r := Split(t, c);
      assert Split(p + t, c) == [[p[0]] + (p[1..] + r[0])] + r[1..];
      assert [p[0]] + (p[1..] + r[0]) == p + r[0];
    } else {
      var r := Split(t, c);
      assert p + t == t && p + r[0] == r[0];
      assert r == [r[0]] + r[1..];
    }
  }

  /** Joining parts that do not contain `c` with `c` and splitting on `c` gives the parts back. */
  lemma {:induction false} SplitJoin<T>(parts: seq<seq<T>>, c: T)
    requires |parts| > 0 && FreeOf(parts, c)
    ensures Split(Join(parts, [c]), c) == parts
  {
    if |parts| == 1 {
      SplitFreePrefix(parts[0], [], c);
      assert parts[0] + [] == parts[0];
    } else {
      var tail := Join(parts[1..], [c]);
      assert FreeOf(parts[1..], c) by {
        forall i | 0 <= i < |parts[1..]| ensures c !in parts[1..][i] {
          assert parts[1..][i] == parts[i + 1];
        }
      }
      SplitJoin(parts[1..], c);
      assert Join(parts, [c]) == parts[0] + ([c] + tail);
      SplitFreePrefix(parts[0], [c] + tail, c);
      assert ([c] + tail)[1..] == tail;
      assert Split([c] + tail, c) == [[]] + parts[1..];
      assert parts[0] + [] == parts[0];
      assert parts == [parts[0]] + parts[1..];
    }
  }
}
