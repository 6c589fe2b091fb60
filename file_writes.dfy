/** The effect of a directory scan on the output directory: each entry either writes
    one file (a name and its contents) or nothing, and a later write to the same name
    replaces the earlier one, as `Path.write_text`/`open(..., "wb")` do. The output
    directory is a map from file name to contents. */
module FileWrites {
  import opened Outcomes

  /** The directory `dir` after the writes `ws`, performed in order. */
  function Apply<V>(dir: map<string, V>, ws: seq<Option<(string, V)>>): map<string, V>
  {
    if |ws| == 0 then dir
    else
      var before := Apply(dir, ws[..|ws| - 1]);
      match ws[|ws| - 1]
      case None => before
      case Some((name, contents)) => before[name := contents]
  }

  /** A file written and not overwritten afterwards holds what was written. */
  lemma {:induction false} LastWriteWins<V>(dir: map<string, V>, ws: seq<Option<(string, V)>>, i: nat)
    requires i < |ws| && ws[i].Some?
    requires forall j :: i < j < |ws| && ws[j].Some? ==> ws[j].value.0 != ws[i].value.0
    ensures ws[i].value.0 in Apply(dir, ws)
    ensures Apply(dir, ws)[ws[i].value.0] == ws[i].value.1
  {
    var n := |ws| - 1;
    if i < n {
      var init := ws[..n];
      assert init[i] == ws[i];
      forall j | i < j < |init| && init[j].Some? ensures init[j].value.0 != init[i].value.0 {
        assert init[j] == ws[j];
      }
      LastWriteWins(dir, init, i);
    }
  }

  /** A name no write touches keeps its old state, present or absent. */
  lemma {:induction false} Untouched<V>(dir: map<string, V>, ws: seq<Option<(string, V)>>, name: string)
    requires forall j :: 0 <= j < |ws| && ws[j].Some? ==> ws[j].value.0 != name
    ensures name in Apply(dir, ws) <==> name in dir
    ensures name in dir ==> Apply(dir, ws)[name] == dir[name]
  {
    if |ws| > 0 {
      var init := ws[..|ws| - 1];
      forall j | 0 <= j < |init| && init[j].Some? ensures init[j].value.0 != name {
        assert init[j] == ws[j];
      }
      Untouched(dir, init, name);
    }
  }

  /** Every new or changed file was written by some entry, with the contents it holds. */
  lemma {:induction false} OnlyWritten<V>(dir: map<string, V>, ws: seq<Option<(string, V)>>, name: string)
    requires name in Apply(dir, ws)
    requires name !in dir || Apply(dir, ws)[name] != dir[name]
    ensures exists j :: 0 <= j < |ws| && ws[j] == Some((name, Apply(dir, ws)[name]))
  {
    var n := |ws| - 1;
    var init := ws[..n];
    if ws[n].Some? && ws[n].value.0 == name {
      assert ws[n] == Some((name, Apply(dir, ws)[name]));
    } else {
      OnlyWritten(dir, init, name);
      var j :| 0 <= j < |init| && init[j] == Some((name, Apply(dir, init)[name]));
      assert ws[j] == init[j];
    }
  }

  /** The writes of a directory scan, one per entry in listing order: `write` says what
      an entry writes given its input (how its job ended, its document). */
  function Writes<E, D, V>(entries: seq<E>, inputs: seq<D>, write: (E, D) -> Option<(string, V)>)
    : (ws: seq<Option<(string, V)>>)
    requires |inputs| == |entries|
    ensures |ws| == |entries|
    ensures forall i :: 0 <= i < |entries| ==> ws[i] == write(entries[i], inputs[i])
  {
    if |entries| == 0 then []
    else Writes(entries[..|entries| - 1], inputs[..|entries| - 1], write)
           + [write(entries[|entries| - 1], inputs[|entries| - 1])]
  }

  /** One more entry of the listing is one more write of the scan. */
  lemma WritesStep<E, D, V>(dir: map<string, V>, entries: seq<E>, inputs: seq<D>,
                            write: (E, D) -> Option<(string, V)>, i: nat)
    requires |inputs| == |entries| && i < |entries|
    ensures Apply(dir, Writes(entries[..i + 1], inputs[..i + 1], write))
         == var before := Apply(dir, Writes(entries[..i], inputs[..i], write));
            var w := write(entries[i], inputs[i]);
            if w.Some? then before[w.value.0 := w.value.1] else before
  {
    assert entries[..i + 1][..i] == entries[..i] && inputs[..i + 1][..i] == inputs[..i];
    var ws := Writes(entries[..i], inputs[..i], write);
    assert Writes(entries[..i + 1], inputs[..i + 1], write) == ws + [write(entries[i], inputs[i])];
    ApplySnoc(dir, ws, write(entries[i], inputs[i]));
  }

  /** Appending one write is one more step of the scan. */
  lemma ApplySnoc<V>(dir: map<string, V>, ws: seq<Option<(string, V)>>, w: Option<(string, V)>)
    ensures Apply(dir, ws + [w]) == if w.Some? then Apply(dir, ws)[w.value.0 := w.value.1] else Apply(dir, ws)
  {
    assert (ws + [w])[..|ws|] == ws;
  }
}
