/** Applying `.env` layers to an environment without overriding what is already there. */
module EnvLoader {
  import opened Wrappers
  import opened EnvParser

  type Variables = map<string, string>

  /** A layer's text, unless the file is absent. */
  type Layer = Option<string>

  function ValueOf(value: Option<string>): string {
    value.GetOr("")
  }

  /** What a layer may refer to: earlier layers, overridden by the environment. */
  function Context(merged: map<string, Option<string>>, environ: Variables): Variables {
    (map key | key in merged :: ValueOf(merged[key])) + environ
  }

  function ReadLayer(layer: Layer, context: Variables): Result<EnvValues, EnvError> {
    match layer
    case None => Ok(NO_VALUES)
    case Some(text) => Parse(text, context)
  }

  /** The values of the first `n` layers, later ones winning. */
  function Merged(layers: seq<Layer>, n: nat, environ: Variables): Result<map<string, Option<string>>, EnvError>
    requires n <= |layers|
  {
    if n == 0 then Ok(map[])
    else
      match Merged(layers, n - 1, environ)
      case Err(error) => Err(error)
      case Ok(merged) =>
        match ReadLayer(layers[n - 1], Context(merged, environ))
        case Err(error) => Err(error)
        case Ok(values) => Ok(merged + values.values)
  }

  /** The variables a load sets: those merged from the layers that the environment lacks. */
  function Applied(merged: map<string, Option<string>>, environ: Variables): Variables {
    map key | key in merged && key !in environ :: ValueOf(merged[key])
  }

  class Environment {
    var variables: Variables

    constructor (variables: Variables)
      ensures this.variables == variables
    {
      this.variables := variables;
    }

    /** Apply `.env` layers in order; refuses without any change when one of them does not parse. */
    method LoadEnvFiles(layers: seq<Layer>) returns (result: Result<Variables, EnvError>)
      modifies this
      ensures var merged := Merged(layers, |layers|, old(variables));
        match merged
        case Err(error) => result == Err(error) && variables == old(variables)
        case Ok(values) =>
          result == Ok(Applied(values, old(variables))) && variables == old(variables) + Applied(values, old(variables))
    {
      hide *;
      var merged: map<string, Option<string>> := map[];
      MergedNothing(layers, variables);
      for i := 0 to |layers|
        invariant variables == old(variables)
        invariant Merged(layers, i, variables) == Ok(merged)
      {
        MergedLayer(layers, i, variables);
        var context := Context(merged, variables);
        if layers[i].Some? {
          var parsed := ParseEnvText(layers[i].value, context);
          if parsed.Err? {
            MergeFails(layers, i + 1, |layers|, variables);
            return Err(parsed.error);
          }
          merged := merged + parsed.value.values;
        }
      }
      var applied := ApplyMissing(merged);
      return Ok(applied);
    }

    /** Set every merged variable the environment lacks. */
    method ApplyMissing(merged: map<string, Option<string>>) returns (applied: Variables)
      modifies this
      ensures applied == Applied(merged, old(variables))
      ensures variables == old(variables) + applied
    {
      hide *;
      ghost var before := variables;
      applied := map[];
      var left := merged.Keys;
      AppliedFirst(merged, before);
      while left != {}
        invariant left <= merged.Keys
        invariant applied == AppliedOf(merged, merged.Keys - left, before)
        invariant variables == before + applied
        decreases |left|
      {
        var key :| key in left;
        AppliedStep(merged, left, key, before);
        if key !in variables {
          applied := applied[key := ValueOf(merged[key])];
          variables := variables[key := ValueOf(merged[key])];
        }
        left := left - {key};
      }
      AppliedLast(merged, before);
    }
  }

  /** The variables set once the keys `done` have been visited. */
  function AppliedOf(merged: map<string, Option<string>>, done: set<string>, environ: Variables): Variables {
    map key | key in done && key in merged && key !in environ :: ValueOf(merged[key])
  }

  lemma AppliedFirst(merged: map<string, Option<string>>, environ: Variables)
    ensures AppliedOf(merged, merged.Keys - merged.Keys, environ) == map[]
    ensures environ + map[] == environ
  {
  }

  lemma AppliedLast(merged: map<string, Option<string>>, environ: Variables)
    ensures AppliedOf(merged, merged.Keys - {}, environ) == Applied(merged, environ)
  {
  }

  lemma AppliedStep(merged: map<string, Option<string>>, left: set<string>, key: string, environ: Variables)
    requires left <= merged.Keys && key in left
    ensures var before := AppliedOf(merged, merged.Keys - left, environ);
      var after := AppliedOf(merged, merged.Keys - (left - {key}), environ);
      && key !in before
      && (key in environ ==> after == before)
      && (key !in environ ==>
        after == before[key := ValueOf(merged[key])] && environ + after == (environ + before)[key := ValueOf(merged[key])])
  {
    hide ValueOf;
  }

  lemma MergedNothing(layers: seq<Layer>, environ: Variables)
    ensures Merged(layers, 0, environ) == Ok(map[])
  {
  }

  /** What one more layer adds; an absent one adds nothing. */
  lemma MergedLayer(layers: seq<Layer>, i: nat, environ: Variables)
    requires i < |layers| && Merged(layers, i, environ).Ok?
    ensures var merged := Merged(layers, i, environ).value;
      Merged(layers, i + 1, environ) ==
        match layers[i]
        case None => Ok(merged)
        case Some(text) =>
          match Parse(text, Context(merged, environ))
          case Err(error) => Err(error)
          case Ok(values) => Ok(merged + values.values)
  {
    hide Parse, Context;
    var merged := Merged(layers, i, environ).value;
    assert merged + NO_VALUES.values == merged;
  }

  lemma {:induction false} MergeFails(layers: seq<Layer>, n: nat, m: nat, environ: Variables)
    requires n <= m <= |layers| && Merged(layers, n, environ).Err?
    ensures Merged(layers, m, environ) == Merged(layers, n, environ)
  {
    hide Parse;
    if n < m {
      MergeFails(layers, n, m - 1, environ);
    }
  }

  // ---------------------------------------------------------------- which layer decides

  /** The values layer `i` contributes. */
  function LayerValues(layers: seq<Layer>, i: nat, environ: Variables): map<string, Option<string>>
    requires i < |layers| && Merged(layers, i + 1, environ).Ok?
  {
    ReadLayer(layers[i], Context(Merged(layers, i, environ).value, environ)).value.values
  }

  lemma {:induction false} MergedEarlier(layers: seq<Layer>, n: nat, m: nat, environ: Variables)
    requires n <= m <= |layers| && Merged(layers, m, environ).Ok?
    ensures Merged(layers, n, environ).Ok?
  {
    hide Parse;
    if n < m {
      MergedEarlier(layers, n, m - 1, environ);
    }
  }

  /** Layer `i` is the last of the first `n` that mentions the key. */
  ghost predicate Decides(layers: seq<Layer>, n: nat, environ: Variables, key: string, i: nat)
    requires n <= |layers| && Merged(layers, n, environ).Ok?
  {
    && i < n
    && (MergedEarlier(layers, i + 1, n, environ); key in LayerValues(layers, i, environ))
    && forall j :: i < j < n ==> (MergedEarlier(layers, j + 1, n, environ); key !in LayerValues(layers, j, environ))
  }

  /** A merged key has the value of the last layer that mentions it. */
  lemma {:induction false} LastLayerWins(layers: seq<Layer>, n: nat, environ: Variables, key: string) returns (i: nat)
    requires n <= |layers| && Merged(layers, n, environ).Ok? && key in Merged(layers, n, environ).value
    ensures Decides(layers, n, environ, key, i)
    ensures Merged(layers, i + 1, environ).Ok?
    ensures Merged(layers, n, environ).value[key] == LayerValues(layers, i, environ)[key]
  {
    hide ReadLayer, Context;
    MergedEarlier(layers, n - 1, n, environ);
    if key in LayerValues(layers, n - 1, environ) {
      i := n - 1;
    } else {
      i := LastLayerWins(layers, n - 1, environ, key);
    }
  }

  // ---------------------------------------------------------------- the load as a whole

  /** The environment after a load. */
  function Loaded(layers: seq<Layer>, environ: Variables): Variables {
    match Merged(layers, |layers|, environ)
    case Err(_) => environ
    case Ok(merged) => environ + Applied(merged, environ)
  }

  function Reported(layers: seq<Layer>, environ: Variables): Result<Variables, EnvError> {
    match Merged(layers, |layers|, environ)
    case Err(error) => Err(error)
    case Ok(merged) => Ok(Applied(merged, environ))
  }

  /**
   A successful load keeps every variable already present, adds exactly the variables it reports, and
   gives each of them the value from the last layer that mentions it, a bare key as "".
   */
  lemma LoadMeans(layers: seq<Layer>, environ: Variables, key: string) returns (i: nat)
    requires Merged(layers, |layers|, environ).Ok?
    ensures var after, applied := Loaded(layers, environ), Reported(layers, environ).value;
      && after.Keys == environ.Keys + applied.Keys && environ.Keys !! applied.Keys
      && (key in environ ==> after[key] == environ[key])
      && (key in applied ==> after[key] == applied[key])
      && (key in applied <==> key !in environ && key in Merged(layers, |layers|, environ).value)
    ensures var applied := Reported(layers, environ).value;
      key in applied ==>
        && Decides(layers, |layers|, environ, key, i) && Merged(layers, i + 1, environ).Ok?
        && applied[key] == ValueOf(LayerValues(layers, i, environ)[key])
  {
    hide ReadLayer, Context;
    i := 0;
    if key in Merged(layers, |layers|, environ).value {
      i := LastLayerWins(layers, |layers|, environ, key);
    }
  }

  // ---------------------------------------------------------------- a second load

  /** Two values of one file that differ at most in what was expanded. */
  ghost predicate SameKeys(a: EnvValues, b: EnvValues) {
    a.order == b.order && a.values.Keys == b.values.Keys
  }

  ghost predicate SameOutcome(a: Result<EnvValues, EnvError>, b: Result<EnvValues, EnvError>) {
    match (a, b)
    case (Ok(x), Ok(y)) => SameKeys(x, y)
    case (Err(x), Err(y)) => x == y
    case _ => false
  }

  /** Whether a text parses, and which keys it yields, does not depend on the environment. */
  lemma {:induction false} KeysIgnoreEnvironment(text: string, i: nat, a: EnvValues, b: EnvValues, first: Variables, second: Variables)
    requires i <= |text| && SameKeys(a, b)
    ensures SameOutcome(ParseFrom(text, i, a, first), ParseFrom(text, i, b, second))
    decreases |text| - i
  {
    hide ItemAt, ValueAt, Expand, RestOfLine;
    if i < |text| {
      match ItemAt(text, i)
      case Nothing =>
        KeysIgnoreEnvironment(text, RestOfLine(text, i), a, b, first, second);
      case Bare(key) =>
        KeysIgnoreEnvironment(text, RestOfLine(text, i), a.Put(key, None), b.Put(key, None), first, second);
      case Assignment(key, start) =>
        var scanned := ValueAt(text, start);
        if scanned.Ok? {
          var x, y := Step(text, i, a, first).value.values, Step(text, i, b, second).value.values;
          KeysIgnoreEnvironment(text, scanned.value.after, x, y, first, second);
        }
    }
  }

  lemma {:induction false} MergedKeysIgnoreEnvironment(layers: seq<Layer>, n: nat, first: Variables, second: Variables)
    requires n <= |layers|
    ensures match (Merged(layers, n, first), Merged(layers, n, second))
      case (Ok(x), Ok(y)) => x.Keys == y.Keys
      case (Err(x), Err(y)) => x == y
      case _ => false
  {
    hide ParseFrom, Context;
    if n > 0 {
      MergedKeysIgnoreEnvironment(layers, n - 1, first, second);
      if Merged(layers, n - 1, first).Ok? && layers[n - 1].Some? {
        KeysIgnoreEnvironment(layers[n - 1].value, 0, NO_VALUES, NO_VALUES,
                              Context(Merged(layers, n - 1, first).value, first),
                              Context(Merged(layers, n - 1, second).value, second));
      }
    }
  }

  /** Loading the same layers again applies nothing and changes nothing. */
  lemma SecondLoadAppliesNothing(layers: seq<Layer>, environ: Variables)
    requires Merged(layers, |layers|, environ).Ok?
    ensures var after := Loaded(layers, environ);
      Reported(layers, after) == Ok(map[]) && Loaded(layers, after) == after
  {
    hide Merged;
    var after := Loaded(layers, environ);
    MergedKeysIgnoreEnvironment(layers, |layers|, environ, after);
    var merged := Merged(layers, |layers|, after).value;
    assert merged.Keys <= after.Keys;
    assert Applied(merged, after) == map[];
    assert after + map[] == after;
  }
}
