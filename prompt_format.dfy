/** Python's `template.format(**kwargs)` on the repository's prompt templates: a
    template is a sequence of literal runs and named replacement fields (the templates
    use no braces other than `{name}` fields, no conversions and no format specs). A
    field whose name is not among the keyword arguments raises KeyError; a substituted
    value is inserted as it is and never scanned for fields itself. */
module PromptFormat {
  import opened Outcomes

  datatype Segment = Lit(text: string) | Field(name: string)

  type Template = seq<Segment>

  /** The names of the fields a template uses. */
  function Fields(t: Template): set<string>
  {
    if |t| == 0 then {}
    else (if t[0].Field? then {t[0].name} else {}) + Fields(t[1..])
  }

  /** `t.format(**args)`: succeeds exactly when every field has an argument, and a
      missing one raises KeyError. */
  function Format(t: Template, args: map<string, string>): (r: Outcome<string>)
    ensures r.Ok? <==> Fields(t) <= args.Keys
    ensures r.Raised? ==> r.exception == KeyError
  {
    if |t| == 0 then Ok("")
    else
      var rest := Format(t[1..], args);
      match t[0]
      case Lit(s) => if rest.Ok? then Ok(s + rest.value) else rest
      case Field(n) =>
        if n !in args then Raised(KeyError)
        else if rest.Ok? then Ok(args[n] + rest.value) else rest
  }

  /** Formatting works segment by segment: a template made of two parts formats to the
      two results one after the other. */
  lemma {:induction false} FormatAppend(t1: Template, t2: Template, args: map<string, string>)
    requires Fields(t1) <= args.Keys && Fields(t2) <= args.Keys
    ensures Fields(t1 + t2) == Fields(t1) + Fields(t2)
    ensures Format(t1 + t2, args) == Ok(Format(t1, args).value + Format(t2, args).value)
  {
    if |t1| == 0 {
      assert t1 + t2 == t2;
      assert [] + Format(t2, args).value == Format(t2, args).value;
    } else {
      assert (t1 + t2)[1..] == t1[1..] + t2;
      assert Fields(t1[1..]) <= Fields(t1);
      FormatAppend(t1[1..], t2, args);
      var r1, r2 := Format(t1[1..], args).value, Format(t2, args).value;
      var head := if t1[0].Lit? then t1[0].text else args[t1[0].name];
      assert head + (r1 + r2) == (head + r1) + r2;
    }
  }

  /** One segment in front of a template: its text, or its argument, in front of the
      template's result. */
  lemma FormatCons(seg: Segment, t: Template, args: map<string, string>)
    requires seg.Field? ==> seg.name in args
    requires Fields(t) <= args.Keys
    ensures Fields([seg] + t) == (if seg.Field? then {seg.name} else {}) + Fields(t)
    ensures Format([seg] + t, args) == Ok((if seg.Lit? then seg.text else args[seg.name]) + Format(t, args).value)
  {
    assert ([seg] + t)[1..] == t;
  }

  /** A literal run and a field in front of a template: the run, then the argument. */
  lemma FormatLitField(text: string, name: string, t: Template, args: map<string, string>)
    requires name in args && Fields(t) <= args.Keys
    ensures Fields([Lit(text), Field(name)] + t) == {name} + Fields(t)
    ensures Format([Lit(text), Field(name)] + t, args) == Ok(text + (args[name] + Format(t, args).value))
  {
    FormatCons(Field(name), t, args);
    assert [Lit(text), Field(name)] + t == [Lit(text)] + ([Field(name)] + t);
    FormatCons(Lit(text), [Field(name)] + t, args);
  }

  /** A template of one literal run formats to that run and names no field. */
  lemma FormatLit(text: string, args: map<string, string>)
    ensures Fields([Lit(text)]) == {}
    ensures Format([Lit(text)], args) == Ok(text)
  {
    assert [Lit(text)][1..] == [];
    assert text + "" == text;
  }

  /** Only the arguments a template names matter: arguments that agree on its fields
      give the same result, whatever else they hold. */
  lemma {:induction false} FormatIgnoresOtherArgs(t: Template, a1: map<string, string>, a2: map<string, string>)
    requires forall n :: n in Fields(t) ==> (n in a1 <==> n in a2) && (n in a1 ==> a1[n] == a2[n])
    ensures Format(t, a1) == Format(t, a2)
  {
    if |t| > 0 {
      assert Fields(t[1..]) <= Fields(t);
      FormatIgnoresOtherArgs(t[1..], a1, a2);
    }
  }

  /** The literal text of a template, for templates without fields. */
  function Literal(t: Template): string
  {
    if |t| == 0 then [] else (if t[0].Lit? then t[0].text else []) + Literal(t[1..])
  }

  /** A template without fields formats to its literal text whatever the arguments. */
  lemma {:induction false} FormatNoFields(t: Template, args: map<string, string>)
    requires Fields(t) == {}
    ensures Format(t, args) == Ok(Literal(t))
  {
    if |t| > 0 {
      assert Fields(t[1..]) <= Fields(t);
      FormatNoFields(t[1..], args);
    }
  }
}
