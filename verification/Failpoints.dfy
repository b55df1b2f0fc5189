/**
 Failpoint activations as text, and the failpoints they switch (node/src/failpoints.rs).
 */
module Failpoints {
  import opened Bytes
  import opened Texts

  /** A 32-bit float, as far as clamping and equality go. */
  datatype Float = NaN | Number(value: real)

  datatype Activation<J> = Activation(
    key: string, subkey: Option<string>, value: Option<J>, probability: Option<Float>, once: bool)

  datatype ParseError = InvalidJson | InvalidProbability | InvalidMeta(meta: string)

  datatype Parsed<J> = Ok(activation: Activation<J>) | Err(error: ParseError)

  /** How JSON values and floats are printed and parsed. */
  datatype Literals<!J> = Literals(
    parseJson: string -> Option<J>, printJson: J -> string,
    parseFloat: string -> Option<Float>, printFloat: Float -> string)

  function Clamp(p: Float): Float {
    if p.NaN? then NaN
    else if p.value < 0.0 then Number(0.0)
    else if p.value > 1.0 then Number(1.0)
    else p
  }

  /** What parses prints to something that parses to the same; floats print without separators. */
  ghost predicate Lawful<J(!new)>(l: Literals<J>) {
    && (forall j :: l.parseJson(l.printJson(j)) == Some(j))
    && (forall s :: l.parseFloat(s).Some? ==> FloatPrints(l, Clamp(l.parseFloat(s).value)))
  }

  ghost predicate FloatPrints<J>(l: Literals<J>, p: Float) {
    var s := l.printFloat(p);
    l.parseFloat(s) == Some(p) && Clamp(p) == p && Free(s, ',') && Free(s, '=')
  }

  // ---- printing ----

  function Fragments<J>(l: Literals<J>, a: Activation<J>): seq<string> {
    (if a.subkey.Some? then ["sub:" + a.subkey.value] else []) +
    (if a.probability.Some? then ["p:" + l.printFloat(a.probability.value)] else []) +
    (if a.once then ["once"] else [])
  }

  function Printed<J>(l: Literals<J>, a: Activation<J>): string {
    var meta := Join(a.key, Fragments(l, a), ',');
    if a.value.Some? then meta + "=" + l.printJson(a.value.value) else meta
  }

  /** Writes the activation piece by piece. */
  method Print<J>(l: Literals<J>, a: Activation<J>) returns (text: string)
    ensures text == Printed(l, a)
    ensures var sub := if a.subkey.Some? then a.key + ",sub:" + a.subkey.value else a.key;
            var p := if a.probability.Some? then sub + ",p:" + l.printFloat(a.probability.value) else sub;
            var once := if a.once then p + ",once" else p;
            text == if a.value.Some? then once + "=" + l.printJson(a.value.value) else once
  {
    text := PrintMeta(l, a);
    if a.value.Some? {
      text := text + "=" + l.printJson(a.value.value);
    }
  }

  method PrintMeta<J>(l: Literals<J>, a: Activation<J>) returns (text: string)
    ensures text == Join(a.key, Fragments(l, a), ',')
    ensures var sub := if a.subkey.Some? then a.key + ",sub:" + a.subkey.value else a.key;
            var p := if a.probability.Some? then sub + ",p:" + l.printFloat(a.probability.value) else sub;
            text == if a.once then p + ",once" else p
  {
    text := a.key;
    var rest: seq<string> := [];
    if a.subkey.Some? {
      text := text + ",sub:" + a.subkey.value;
      rest := rest + ["sub:" + a.subkey.value];
    }
    JoinOne(a.key, rest);
    assert text == Join(a.key, rest, ',');
    hide Join;
    if a.probability.Some? {
      var f := "p:" + l.printFloat(a.probability.value);
      JoinSnoc(a.key, rest, f);
      text := text + ",p:" + l.printFloat(a.probability.value);
      rest := rest + [f];
    }
    assert text == Join(a.key, rest, ',');
    if a.once {
      JoinSnoc(a.key, rest, "once");
      text := text + ",once";
      rest := rest + ["once"];
    }
    assert rest == Fragments(l, a);
  }

  lemma {:induction false} JoinSnoc(first: string, rest: seq<string>, last: string)
    ensures Join(first, rest + [last], ',') == Join(first, rest, ',') + "," + last
    decreases |rest|
  {
    var all := rest + [last];
    if rest == [] {
      assert all[1..] == [];
    } else {
      JoinSnoc(rest[0], rest[1..], last);
      assert all[1..] == rest[1..] + [last];
      Assoc(first + ",", Join(rest[0], rest[1..], ','), "," + last);
      Assoc(first + ",", Join(rest[0], rest[1..], ',') + ",", last);
    }
  }

  lemma JoinOne(first: string, rest: seq<string>)
    requires |rest| <= 1
    ensures rest != [] ==> Join(first, rest, ',') == first + "," + rest[0]
  {
    if rest != [] {
      assert rest[1..] == [];
    }
  }

  // ---- parsing ----

  function Meta<J>(l: Literals<J>, a: Activation<J>, fragment: string): Parsed<J> {
    var (meta, arg) := match SplitOnce(fragment, ':')
                       case Some((left, right)) => (left, Some(right))
                       case None => (fragment, None);
    if meta == "sub" && arg.Some? then Ok(a.(subkey := arg))
    else if meta == "p" && arg.Some? then
      var p := l.parseFloat(arg.value);
      if p.None? then Err(InvalidProbability) else Ok(a.(probability := Some(Clamp(p.value))))
    else if meta == "once" && arg.None? then Ok(a.(once := true))
    else Err(InvalidMeta(meta))
  }

  /** A fragment with an unknown name, or with an argument where none belongs or the reverse, is named in the error. */
  lemma BadFragment<J>(l: Literals<J>, a: Activation<J>, text: string)
    requires text != "once" && !("sub:" <= text) && !("p:" <= text)
    ensures var cut := SplitOnce(text, ':');
            Meta(l, a, text) == Err(InvalidMeta(if cut.Some? then cut.value.0 else text))
  {
    var cut := SplitOnce(text, ':');
    if cut.Some? {
      assert "sub" + [':'] == "sub:" && "p" + [':'] == "p:";
      assert cut.value.0 + [':'] <= text;
    }
  }

  function MetaAll<J>(l: Literals<J>, a: Activation<J>, fragments: seq<string>): Parsed<J> {
    if fragments == [] then Ok(a)
    else
      match MetaAll(l, a, fragments[..|fragments| - 1])
      case Err(e) => Err(e)
      case Ok(b) => Meta(l, b, fragments[|fragments| - 1])
  }

  function ParseMeta<J>(l: Literals<J>, meta: string, value: Option<J>): Parsed<J> {
    var parts := Split(meta, ',');
    match MetaAll(l, Activation(parts[0], None, None, None, false), parts[1..])
    case Err(e) => Err(e)
    case Ok(a) => Ok(if value.Some? then a.(value := value) else a)
  }

  function Parse<J>(l: Literals<J>, raw: string): Parsed<J> {
    match SplitOnce(raw, '=')
    case Some((left, right)) =>
      var value := l.parseJson(right);
      if value.None? then Err(InvalidJson) else ParseMeta(l, left, value)
    case None => ParseMeta(l, raw, None)
  }

  /** The loop over the fragments, which stops at the first bad one. */
  method FromStr<J>(l: Literals<J>, raw: string) returns (r: Parsed<J>)
    ensures r == Parse(l, raw)
  {
    var split := SplitOnce(raw, '=');
    var meta, value: Option<J> := raw, None;
    if split.Some? {
      meta, value := split.value.0, l.parseJson(split.value.1);
      if value.None? {
        return Err(InvalidJson);
      }
    }
    var parts := Split(meta, ',');
    var a: Activation<J> := Activation(parts[0], None, None, None, false);
    ghost var bare := a;
    var rest := parts[1..];
    for i := 0 to |rest|
      invariant MetaAll(l, bare, rest[..i]) == Ok(a)
    {
      assert rest[..i + 1][..i] == rest[..i];
      var next := Meta(l, a, rest[i]);
      if next.Err? {
        MetaAllFails(l, bare, rest, i + 1);
        return next;
      }
      a := next.activation;
    }
    assert rest[..|rest|] == rest;
    r := Ok(if value.Some? then a.(value := value) else a);
  }

  lemma {:induction false} MetaAllFails<J>(l: Literals<J>, a: Activation<J>, fragments: seq<string>, i: nat)
    requires i <= |fragments| && MetaAll(l, a, fragments[..i]).Err?
    ensures MetaAll(l, a, fragments) == MetaAll(l, a, fragments[..i])
    decreases |fragments|
  {
    if i < |fragments| {
      var front := fragments[..|fragments| - 1];
      assert front[..i] == fragments[..i];
      MetaAllFails(l, a, front, i);
    } else {
      assert fragments[..i] == fragments;
    }
  }

  // ---- what parsing yields ----

  /** Neither key nor subkey has a separator in it. */
  ghost predicate Clean<J>(a: Activation<J>) {
    && Free(a.key, ',') && Free(a.key, '=')
    && (a.subkey.Some? ==> Free(a.subkey.value, ',') && Free(a.subkey.value, '='))
  }

  ghost predicate PrintableProbability<J>(l: Literals<J>, a: Activation<J>) {
    a.probability.Some? ==> FloatPrints(l, a.probability.value)
  }

  lemma MetaYields<J(!new)>(l: Literals<J>, a: Activation<J>, f: string)
    requires Lawful(l) && Clean(a) && PrintableProbability(l, a) && Free(f, ',') && Free(f, '=')
    ensures var r := Meta(l, a, f);
            r.Ok? ==> Clean(r.activation) && PrintableProbability(l, r.activation) && r.activation.key == a.key &&
                      r.activation.value == a.value
  {
    var split := SplitOnce(f, ':');
    assert split.Some? ==> forall c :: c in split.value.1 ==> c in f;
  }

  lemma {:induction false} MetaAllYields<J(!new)>(l: Literals<J>, a: Activation<J>, fragments: seq<string>)
    requires Lawful(l) && Clean(a) && PrintableProbability(l, a)
    requires forall f | f in fragments :: Free(f, ',') && Free(f, '=')
    ensures var r := MetaAll(l, a, fragments);
            r.Ok? ==> Clean(r.activation) && PrintableProbability(l, r.activation) && r.activation.key == a.key &&
                      r.activation.value == a.value
  {
    if fragments != [] {
      var front, last := fragments[..|fragments| - 1], fragments[|fragments| - 1];
      hide Meta, Lawful, Clean, PrintableProbability;
      MetaAllYields(l, a, front);
      assert last in fragments;
      if MetaAll(l, a, front).Ok? {
        MetaYields(l, MetaAll(l, a, front).activation, last);
      }
    }
  }

  /** Whatever parses is clean, and its probability is one that prints. */
  lemma ParseYields<J(!new)>(l: Literals<J>, raw: string)
    requires Lawful(l) && Parse(l, raw).Ok?
    ensures Clean(Parse(l, raw).activation) && PrintableProbability(l, Parse(l, raw).activation)
  {
    var split := SplitOnce(raw, '=');
    var meta := if split.Some? then split.value.0 else raw;
    var parts := Split(meta, ',');
    assert Free(meta, '=');
    assert parts[0] in parts;
    forall f | f in parts[1..] ensures Free(f, ',') && Free(f, '=') { assert f in parts; }
    var bare: Activation<J> := Activation(parts[0], None, None, None, false);
    MetaAllYields(l, bare, parts[1..]);
  }

  // ---- the round trip ----

  lemma {:induction false} MetaAllConcat<J>(l: Literals<J>, a: Activation<J>, xs: seq<string>, y: string)
    requires MetaAll(l, a, xs).Ok?
    ensures MetaAll(l, a, xs + [y]) == Meta(l, MetaAll(l, a, xs).activation, y)
  {
    assert (xs + [y])[..|xs|] == xs;
  }

  lemma SubRebuilds<J>(l: Literals<J>, a: Activation<J>, sub: string)
    ensures Meta(l, a, "sub:" + sub) == Ok(a.(subkey := Some(sub)))
  {
    SplitOnceAt("sub", ':', sub);
    assert "sub" + [':'] + sub == "sub:" + sub;
  }

  lemma ProbabilityRebuilds<J>(l: Literals<J>, a: Activation<J>, p: Float)
    requires FloatPrints(l, p)
    ensures Meta(l, a, "p:" + l.printFloat(p)) == Ok(a.(probability := Some(p)))
  {
    SplitOnceAt("p", ':', l.printFloat(p));
    assert "p" + [':'] + l.printFloat(p) == "p:" + l.printFloat(p);
  }

  lemma OnceRebuilds<J>(l: Literals<J>, a: Activation<J>)
    ensures Meta(l, a, "once") == Ok(a.(once := true)) && MetaAll(l, a, []) == Ok(a)
  {
  }

  lemma FragmentsRebuild<J>(l: Literals<J>, a: Activation<J>)
    requires PrintableProbability(l, a)
    ensures MetaAll(l, Activation(a.key, None, None, None, false), Fragments(l, a)) == Ok(a.(value := None))
  {
    hide Meta, MetaAll;
    var bare: Activation<J> := Activation(a.key, None, None, None, false);
    var xs: seq<string> := [];
    OnceRebuilds(l, bare);
    OnceRebuilds(l, bare.(subkey := a.subkey, probability := a.probability));
    if a.subkey.Some? {
      SubRebuilds(l, bare, a.subkey.value);
      MetaAllConcat(l, bare, xs, "sub:" + a.subkey.value);
      xs := xs + ["sub:" + a.subkey.value];
    }
    assert MetaAll(l, bare, xs) == Ok(bare.(subkey := a.subkey));
    if a.probability.Some? {
      var f := "p:" + l.printFloat(a.probability.value);
      ProbabilityRebuilds(l, bare.(subkey := a.subkey), a.probability.value);
      MetaAllConcat(l, bare, xs, f);
      xs := xs + [f];
    }
    assert MetaAll(l, bare, xs) == Ok(bare.(subkey := a.subkey, probability := a.probability));
    if a.once {
      MetaAllConcat(l, bare, xs, "once");
      xs := xs + ["once"];
    }
    assert xs == Fragments(l, a);
  }

  lemma FragmentsFree<J>(l: Literals<J>, a: Activation<J>)
    requires Clean(a) && PrintableProbability(l, a)
    ensures forall f | f in Fragments(l, a) :: Free(f, ',') && Free(f, '=')
  {
  }

  /**
   Printing and parsing again gives the same activation exactly when key and subkey are
   free of separators.
   */
  lemma RoundTrip<J(!new)>(l: Literals<J>, a: Activation<J>)
    requires Lawful(l) && PrintableProbability(l, a)
    ensures Parse(l, Printed(l, a)) == Ok(a) <==> Clean(a)
  {
    if Clean(a) {
      var meta := Join(a.key, Fragments(l, a), ',');
      FragmentsFree(l, a);
      SplitJoin(a.key, Fragments(l, a), ',');
      JoinFree(a.key, Fragments(l, a), ',', '=');
      FragmentsRebuild(l, a);
      if a.value.Some? {
        SplitOnceAt(meta, '=', l.printJson(a.value.value));
        assert meta + ['='] + l.printJson(a.value.value) == Printed(l, a);
      }
    } else if Parse(l, Printed(l, a)).Ok? {
      ParseYields(l, Printed(l, a));
    }
  }

  /** So whatever parses survives printing and parsing, for any order or repetition of its fragments. */
  lemma ParsedSurvives<J(!new)>(l: Literals<J>, raw: string)
    requires Lawful(l) && Parse(l, raw).Ok?
    ensures Parse(l, Printed(l, Parse(l, raw).activation)) == Parse(l, raw)
  {
    ParseYields(l, raw);
    RoundTrip(l, Parse(l, raw).activation);
  }

  /** Equality as the type has it: no float that is not a number equals itself. */
  ghost predicate Equal<J>(a: Activation<J>, b: Activation<J>) {
    a == b && a.probability != Some(NaN)
  }

  /** Under that equality the round trip holds unless the probability is not a number. */
  lemma RoundTripEquality<J(!new)>(l: Literals<J>, raw: string)
    requires Lawful(l) && Parse(l, raw).Ok?
    ensures var a := Parse(l, raw).activation;
            Parse(l, Printed(l, a)).Ok? &&
            (Equal(Parse(l, Printed(l, a)).activation, a) <==> a.probability != Some(NaN))
  {
    ParsedSurvives(l, raw);
  }

  /** What the documentation says becomes of a probability: into [0, 1], and zero if it is not a number. */
  function Documented(p: Float): Float {
    if p.NaN? then Number(0.0) else if p.value < 0.0 then Number(0.0) else if p.value > 1.0 then Number(1.0) else p
  }

  /**
   A failpoint passes the draws it is documented to pass exactly when its probability is a
   number; one that is not, documented never to let a positive draw pass, lets every draw pass.
   */
  lemma FiresAsDocumented(p: Float)
    ensures (forall sample | 0.0 <= sample <= 1.0 :: Passes(Some(Clamp(p)), sample) <==> Passes(Some(Documented(p)), sample)) <==> !p.NaN?
    ensures p.NaN? ==> forall sample | 0.0 < sample <= 1.0 :: Passes(Some(Clamp(p)), sample) && !Passes(Some(Documented(p)), sample)
  {
    assert 0.0 < 1.0 <= 1.0 && (p.NaN? ==> Passes(Some(Clamp(p)), 1.0) && !Passes(Some(Documented(p)), 1.0));
  }

  // ---- the failpoint ----

  class Failpoint<J(!new, ==), T(==)> {
    const key: string
    const subkey: Option<string>
    const decode: J -> Option<T>
    var value: Option<T>
    var probability: Option<Float>
    var once: bool
    var fired: bool

    constructor (key: string, subkey: Option<string>, decode: J -> Option<T>)
      ensures this.key == key && this.subkey == subkey && this.decode == decode
      ensures value.None? && probability.None? && !once && !fired
    {
      this.key, this.subkey, this.decode := key, subkey, decode;
      value, probability, once, fired := None, None, false, false;
    }

    /** Only a matching activation changes anything; a value that does not decode leaves the old one. */
    method UpdateFrom(a: Activation<J>)
      modifies this
      ensures a.key != key || a.subkey != subkey ==> unchanged(this)
      ensures a.key == key && a.subkey == subkey ==>
                probability == a.probability && once == a.once && !fired &&
                value == if a.value.None? then None
                         else if decode(a.value.value).Some? then decode(a.value.value) else old(value)
    {
      if a.key != key || a.subkey != subkey {
        return;
      }
      if a.value.Some? {
        var decoded := decode(a.value.value);
        if decoded.Some? {
          value := decoded;
        }
      } else {
        value := None;
      }
      probability, once, fired := a.probability, a.once, false;
    }

    /** `sample` is what the generator draws from [0, 1]. */
    method Fire(sample: real) returns (r: Option<T>)
      modifies `fired
      ensures r == if probability.Some? && probability.value.Number? && sample > probability.value.value then None
                   else if once && old(fired) then None else value
      ensures fired == (old(fired) || r.Some?)
      ensures probability == Some(NaN) ==> r == if once && old(fired) then None else value
    {
      if value.None? {
        return None;
      }
      if probability.Some? && probability.value.Number? && sample > probability.value.value {
        return None;
      }
      if once && fired {
        return None;
      }
      fired := true;
      return value;
    }

    /** Between two updates, a once-only failpoint fires exactly once if any draw passes, and never otherwise. */
    method FireOften(samples: seq<real>) returns (results: seq<Option<T>>)
      requires once && !fired
      modifies `fired
      ensures |results| == |samples|
      ensures forall i | 0 <= i < |samples| ::
                results[i].Some? <==> value.Some? && Passes(probability, samples[i]) &&
                                      forall j | 0 <= j < i :: !Passes(probability, samples[j])
    {
      results := [];
      for i := 0 to |samples|
        invariant |results| == i
        invariant fired <==> value.Some? && exists j :: 0 <= j < i && Passes(probability, samples[j])
        invariant forall k | 0 <= k < i ::
                    results[k].Some? <==> value.Some? && Passes(probability, samples[k]) &&
                                          forall j | 0 <= j < k :: !Passes(probability, samples[j])
      {
        var r := Fire(samples[i]);
        results := results + [r];
      }
    }
  }

  /** Nothing is greater than a probability that is not a number, so such a one always passes. */
  predicate Passes(p: Option<Float>, sample: real) {
    !(p.Some? && p.value.Number? && sample > p.value.value)
  }
}
