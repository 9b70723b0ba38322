/**
 * `compose` (src/lib/compose.ts): checks the variables dotenv read against the
 * template, fills every template variable with its converted value or its
 * default, and optionally renames the variables into nested objects.
 */
module Compose {
  import opened Wrappers
  import opened Text
  import opened Seqs
  import opened Dicts
  import opened Values
  import opened Convert
  import opened Template
  import opened Lodash

  /** The `rename` group of the options; None stands for an option not given (or given as null). */
  datatype RenameOptions = RenameOptions(enabled: Option<bool>, caseStyle: Option<string>, nestingDelimiter: Option<string>)

  /** The options of compose; None stands for an option not given. */
  datatype ComposeOptions = ComposeOptions(unknownVariables: Option<string>, rename: Option<RenameOptions>)

  /** What compose returns: the variables under their own names, and the renamed ones. */
  datatype ComposeOutput = ComposeOutput(rawEnv: Dict<Value>, env: Dict<Value>)

  const UnknownMessage := "Unknown variables are not allowed: "
  const MissingMessage := "Some required variables are missing: "

  /** What compose does with variables the template does not name: "keep" unless told otherwise. */
  function UnknownMode(o: ComposeOptions): string {
    o.unknownVariables.GetOr("keep")
  }

  /** Renaming is on when asked for, and otherwise whenever a rename group is given. */
  function RenameEnabled(o: ComposeOptions): bool {
    match o.rename
    case None => false
    case Some(r) => r.enabled.GetOr(true)
  }

  function CaseStyle(o: ComposeOptions): string {
    match o.rename
    case None => "camelCase"
    case Some(r) => r.caseStyle.GetOr("camelCase")
  }

  function Delimiter(o: ComposeOptions): string {
    match o.rename
    case None => "__"
    case Some(r) => r.nestingDelimiter.GetOr("__")
  }

  /** `toCase`: camelCase or snake_case as named, any other style leaves the text as it is. */
  function ToCase(s: string, caseStyle: string): string {
    if caseStyle == "camelCase" then CamelCase(s)
    else if caseStyle == "snake_case" then SnakeCase(s)
    else s
  }

  /** `val == null || val === ''`: a variable dotenv did not read, or read as empty. */
  predicate Absent(v: Option<string>) {
    v.None? || v == Some("")
  }

  // ---------------------------------------------------------------- checkVariables

  /** The variables dotenv read that the template does not name, in dotenv's order. */
  function Unknowns(dotenv: Dict<string>, tmpl: Dict<Annotation>): seq<string> {
    Filter(dotenv.keys, k => k !in tmpl.vals)
  }

  /** The variables the template requires that dotenv did not read or read as empty, in the template's order. */
  function Missings(dotenv: Dict<string>, tmpl: Dict<Annotation>): seq<string> {
    Filter(tmpl.keys, k => k in tmpl.vals && tmpl.vals[k].required == Some(true) && Absent(Get(dotenv, k)))
  }

  /** Every required variable is present. */
  predicate NoneMissing(dotenv: Dict<string>, tmpl: Dict<Annotation>) {
    forall k :: k in tmpl.vals && tmpl.vals[k].required == Some(true) ==> !Absent(Get(dotenv, k))
  }

  /** `checkVariables`: unknown variables first (only in "error" mode), then missing ones; the names listed with commas. */
  function CheckVariables(dotenv: Dict<string>, tmpl: Dict<Annotation>, unknownVariables: string): Result<(), Exception> {
    var unknowns := Unknowns(dotenv, tmpl);
    var missings := Missings(dotenv, tmpl);
    if unknownVariables == "error" && |unknowns| > 0 then Err(OtherError(UnknownMessage + Join(unknowns, ",")))
    else if |missings| > 0 then Err(OtherError(MissingMessage + Join(missings, ",")))
    else Ok(())
  }

  /** The check passes exactly when, in "error" mode, the template names every variable dotenv read, and every required variable is present. */
  lemma CheckVariablesOk(dotenv: Dict<string>, tmpl: Dict<Annotation>, unknownVariables: string)
    ensures CheckVariables(dotenv, tmpl, unknownVariables).Ok? <==>
              (unknownVariables == "error" ==> forall k :: k in dotenv.vals ==> k in tmpl.vals)
              && NoneMissing(dotenv, tmpl)
  {
    var unknowns := Unknowns(dotenv, tmpl);
    var missings := Missings(dotenv, tmpl);
    assert |unknowns| == 0 <==> forall k :: k in dotenv.vals ==> k in tmpl.vals by {
      if |unknowns| > 0 {
        assert unknowns[0] in dotenv.keys;
      }
      forall k | k in dotenv.vals && k !in tmpl.vals
        ensures |unknowns| > 0
      {
        var i :| 0 <= i < |dotenv.keys| && dotenv.keys[i] == k;
      }
    }
    assert |missings| == 0 <==> NoneMissing(dotenv, tmpl) by {
      if |missings| > 0 {
        assert missings[0] in tmpl.keys;
      }
      forall k | k in tmpl.vals && tmpl.vals[k].required == Some(true) && Absent(Get(dotenv, k))
        ensures |missings| > 0
      {
        var i :| 0 <= i < |tmpl.keys| && tmpl.keys[i] == k;
      }
    }
  }

  // ---------------------------------------------------------------- filling in

  /**
   * The value compose gives one template variable: its default (null when it has
   * none) when it is not required and absent; otherwise the variable converted to
   * its types, or the string itself when the template gives no types.
   */
  function FillValue(host: Host, a: Annotation, v: Option<string>): Result<Value, Exception>
    requires a.required == Some(true) ==> !Absent(v)
  {
    if a.required != Some(true) && Absent(v) then Ok(a.defaultValue.GetOr(Null))
    else match a.types
      case Some(types) => Converted(host, v.value, types)
      case None => Ok(Str(v.value))
  }

  /** A variable that is present keeps its text when the template gives no types, and is converted otherwise. */
  lemma FillValuePresent(host: Host, a: Annotation, v: string)
    requires v != ""
    ensures a.types.None? ==> FillValue(host, a, Some(v)) == Ok(Str(v))
    ensures a.types.Some? ==> FillValue(host, a, Some(v)) == Converted(host, v, a.types.value)
  {
  }

  /** An optional variable that is absent takes its default, or null; it is never converted. */
  lemma FillValueAbsent(host: Host, a: Annotation, v: Option<string>)
    requires a.required != Some(true) && Absent(v)
    ensures FillValue(host, a, v) == Ok(if a.defaultValue.Some? then a.defaultValue.value else Null)
  {
  }

  /** The variables before the template's variables are filled in: none when unknown ones are removed, otherwise all of dotenv's as strings. */
  function RawStart(dotenv: Dict<string>, remove: bool): (r: Dict<Value>)
    ensures remove ==> r.keys == []
    ensures !remove ==> r.keys == dotenv.keys && forall k :: k in dotenv.vals ==> k in r.vals && r.vals[k] == Str(dotenv.vals[k])
  {
    if remove then Empty() else MapValues(dotenv, (s: string) => Str(s))
  }

  /** The value the fill loop gives a variable, from its name. */
  type Filler = string --> Result<Value, Exception>

  /** What compose fills each template variable with (once the check has passed). */
  function FillerOf(host: Host, dotenv: Dict<string>, tmpl: Dict<Annotation>): Filler
    requires NoneMissing(dotenv, tmpl)
  {
    (key: string) requires key in tmpl.vals && NoneMissing(dotenv, tmpl) => FillValue(host, tmpl.vals[key], Get(dotenv, key))
  }

  /** `fill` can be asked about every name of `keys` from `i` on. */
  ghost predicate Fillable(fill: Filler, keys: seq<string>, i: nat) {
    forall j :: i <= j < |keys| ==> fill.requires(keys[j])
  }

  /** The fill loop from the `i`-th variable of `keys` on, with `raw` filled so far; the first error ends it. */
  function FillFrom(fill: Filler, keys: seq<string>, i: nat, raw: Dict<Value>): Result<Dict<Value>, Exception>
    requires i <= |keys| && Fillable(fill, keys, i)
    decreases |keys| - i
  {
    if i == |keys| then Ok(raw)
    else
      match fill(keys[i])
      case Err(e) => Err(e)
      case Ok(v) => FillFrom(fill, keys, i + 1, Put(raw, keys[i], v))
  }

  /** The variables of `keys` from `i` on fill in without error. */
  ghost predicate FillsFrom(fill: Filler, keys: seq<string>, i: nat)
    requires Fillable(fill, keys, i)
  {
    forall j :: i <= j < |keys| ==> fill(keys[j]).Ok?
  }

  /** The fill loop succeeds exactly when every remaining variable fills in; otherwise it stops at the first that fails, with its error. */
  lemma {:induction false} FillFromOutcome(fill: Filler, keys: seq<string>, i: nat, raw: Dict<Value>)
    requires i <= |keys| && Fillable(fill, keys, i)
    ensures FillFrom(fill, keys, i, raw).Ok? <==> FillsFrom(fill, keys, i)
    ensures FillFrom(fill, keys, i, raw).Err? ==>
              exists j :: i <= j < |keys| && fill(keys[j]) == Err(FillFrom(fill, keys, i, raw).error)
                && forall l :: i <= l < j ==> fill(keys[l]).Ok?
    decreases |keys| - i
  {
    if i < |keys| {
      var v := fill(keys[i]);
      FillFromStep(fill, keys, i, raw);
      if v.Ok? {
        var raw' := Put(raw, keys[i], v.value);
        FillFromOutcome(fill, keys, i + 1, raw');
        assert FillsFrom(fill, keys, i) <==> FillsFrom(fill, keys, i + 1);
        if FillFrom(fill, keys, i + 1, raw').Err? {
          var j :| i + 1 <= j < |keys| && fill(keys[j]) == Err(FillFrom(fill, keys, i + 1, raw').error)
                   && forall l :: i + 1 <= l < j ==> fill(keys[l]).Ok?;
          assert forall l :: i <= l < j ==> fill(keys[l]).Ok?;
        }
      } else {
        assert !FillsFrom(fill, keys, i);
      }
    }
  }

  /** The names that `raw` does not hold yet. */
  function Unseen(raw: Dict<Value>): string -> bool {
    k => k !in raw.vals
  }

  /** The fill loop adds the variables not yet in `raw` behind its keys, in the order of `keys`. */
  lemma {:induction false} FillFromKeys(fill: Filler, keys: seq<string>, i: nat, raw: Dict<Value>)
    requires i <= |keys| && Fillable(fill, keys, i) && Distinct(keys)
    requires FillFrom(fill, keys, i, raw).Ok?
    ensures FillFrom(fill, keys, i, raw).value.keys == raw.keys + Filter(keys[i..], Unseen(raw))
    decreases |keys| - i
  {
    if i < |keys| {
      var key := keys[i];
      FillFromStep(fill, keys, i, raw);
      var raw' := Put(raw, key, fill(key).value);
      FillFromKeys(fill, keys, i + 1, raw');
      var rest := keys[i + 1..];
      var opt := if key !in raw.vals then [key] else [];
      var f := Filter(rest, Unseen(raw));
      assert Filter(rest, Unseen(raw')) == f by {
        DistinctAfter(keys, i);
        FilterSame(rest, Unseen(raw), Unseen(raw'));
      }
      assert raw'.keys == raw.keys + opt;
      assert Filter(keys[i..], Unseen(raw)) == opt + f by {
        assert keys[i..][1..] == rest;
      }
      AppendAssoc(raw.keys, opt, f);
    } else {
      assert keys[i..] == [];
    }
  }

  /** The fill loop leaves alone a variable of `raw` it does not come to. */
  lemma {:induction false} FillFromKeeps(fill: Filler, keys: seq<string>, i: nat, raw: Dict<Value>, k: string)
    requires i <= |keys| && Fillable(fill, keys, i)
    requires FillFrom(fill, keys, i, raw).Ok?
    requires k in raw.vals && k !in keys[i..]
    ensures k in FillFrom(fill, keys, i, raw).value.vals && FillFrom(fill, keys, i, raw).value.vals[k] == raw.vals[k]
    decreases |keys| - i
  {
    if i < |keys| {
      FillFromStep(fill, keys, i, raw);
      var raw' := Put(raw, keys[i], fill(keys[i]).value);
      assert keys[i..][0] == keys[i];
      assert keys[i + 1..] == keys[i..][1..];
      FillFromKeeps(fill, keys, i + 1, raw', k);
    }
  }

  /** After the fill loop, the `j`-th variable holds its filled-in value. */
  lemma {:induction false} FillFromFilled(fill: Filler, keys: seq<string>, i: nat, raw: Dict<Value>, j: nat)
    requires i <= j < |keys| && Fillable(fill, keys, i) && Distinct(keys)
    requires FillFrom(fill, keys, i, raw).Ok?
    ensures keys[j] in FillFrom(fill, keys, i, raw).value.vals
    ensures Ok(FillFrom(fill, keys, i, raw).value.vals[keys[j]]) == fill(keys[j])
    decreases |keys| - i
  {
    var raw' := Put(raw, keys[i], fill(keys[i]).value);
    assert FillFrom(fill, keys, i, raw) == FillFrom(fill, keys, i + 1, raw');
    if j == i {
      DistinctAfter(keys, i);
      FillFromKeeps(fill, keys, i + 1, raw', keys[i]);
    } else {
      FillFromFilled(fill, keys, i + 1, raw', j);
    }
  }

  /** Every template variable can be filled in once no required one is missing. */
  lemma FillerOfFillable(host: Host, dotenv: Dict<string>, tmpl: Dict<Annotation>)
    requires NoneMissing(dotenv, tmpl)
    ensures Fillable(FillerOf(host, dotenv, tmpl), tmpl.keys, 0)
  {
    forall j | 0 <= j < |tmpl.keys|
      ensures tmpl.keys[j] in tmpl.vals
    {
      assert tmpl.keys[j] in tmpl.keys;
    }
  }

  // ---------------------------------------------------------------- renaming

  /** How the rename loop finds a variable's path, given the renamed variables so far and the variable's name. */
  type PathOf = (Dict<Value>, string) -> seq<string>

  /** The renamed variables after the first `n` variables of `raw` have been set at their paths. */
  function RenameTo(raw: Dict<Value>, pathOf: PathOf, n: nat): Dict<Value>
    requires n <= |raw.keys|
  {
    if n == 0 then Empty()
    else
      var env := RenameTo(raw, pathOf, n - 1);
      SetIn(env, pathOf(env, raw.keys[n - 1]), raw.vals[raw.keys[n - 1]])
  }

  /** The path the `j`-th variable is set at. */
  function PathAt(raw: Dict<Value>, pathOf: PathOf, j: nat): seq<string>
    requires j < |raw.keys|
  {
    pathOf(RenameTo(raw, pathOf, j), raw.keys[j])
  }

  /** Path `p` leaves path `q` at some name: they agree before it and differ at it. */
  ghost predicate Diverge(p: seq<string>, q: seq<string>) {
    exists m :: 0 <= m < |p| && m < |q| && p[..m] == q[..m] && p[m] != q[m]
  }

  /**
   * A variable set at a path no reserved name blocks can be read back from the
   * renamed variables when every variable set after it leaves its path.
   */
  lemma {:induction false} RenameFinds(raw: Dict<Value>, pathOf: PathOf, j: nat, n: nat)
    requires j < n <= |raw.keys|
    requires |PathAt(raw, pathOf, j)| > 0 && Writable(PathAt(raw, pathOf, j))
    requires forall l :: j < l < n ==> Diverge(PathAt(raw, pathOf, l), PathAt(raw, pathOf, j))
    ensures GetIn(RenameTo(raw, pathOf, n), PathAt(raw, pathOf, j)) == Some(raw.vals[raw.keys[j]])
    decreases n
  {
    var q := PathAt(raw, pathOf, j);
    var x := raw.vals[raw.keys[j]];
    if n == j + 1 {
      RenameToStep(raw, pathOf, j);
      GetAfterSet(RenameTo(raw, pathOf, j), q, x);
    } else {
      RenameFinds(raw, pathOf, j, n - 1);
      RenameToStep(raw, pathOf, n - 1);
      FoundAfterOtherSet(RenameTo(raw, pathOf, n - 1), PathAt(raw, pathOf, n - 1), raw.vals[raw.keys[n - 1]], q, x);
    }
  }

  /** A value found at `q` is still found there after a write at a path that leaves `q`. */
  lemma FoundAfterOtherSet(env: Dict<Value>, p: seq<string>, v: Value, q: seq<string>, x: Value)
    requires |q| > 0 && GetIn(env, q) == Some(x) && Diverge(p, q)
    ensures GetIn(SetIn(env, p, v), q) == Some(x)
  {
    var m :| 0 <= m < |p| && m < |q| && p[..m] == q[..m] && p[m] != q[m];
    SetLeavesOtherPaths(env, p, v, q, m);
  }

  /** One turn of the rename loop: the `m`-th variable set at its path. */
  lemma RenameToStep(raw: Dict<Value>, pathOf: PathOf, m: nat)
    requires m < |raw.keys|
    ensures RenameTo(raw, pathOf, m + 1) == SetIn(RenameTo(raw, pathOf, m), PathAt(raw, pathOf, m), raw.vals[raw.keys[m]])
  {
  }

  /**
   * The path compose sets a variable at: the name the template gives it, read as a
   * dotted path; otherwise its own name cut at the nesting delimiter (when there is
   * one), with empty parts dropped and each part put in the case style.
   */
  function KeyPath(tmpl: Dict<Annotation>, o: ComposeOptions, env: Dict<Value>, key: string): seq<string> {
    var a: Option<Annotation> := Get(tmpl, key);
    var name := if a.Some? then a.value.name else None;
    if name.Some? && name.value != "" then NamePath(env, name.value)
    else
      var d := Delimiter(o);
      var parts := if d != "" then Filter(SplitOn(key, d), (p: string) => p != "") else [key];
      seq(|parts|, k requires 0 <= k < |parts| => ToCase(parts[k], CaseStyle(o)))
  }

  function PathOfFor(tmpl: Dict<Annotation>, o: ComposeOptions): PathOf {
    (env: Dict<Value>, key: string) => KeyPath(tmpl, o, env, key)
  }

  // ---------------------------------------------------------------- compose

  /** `compose`: the check, the fill loop, and the rename loop when renaming is on. */
  function Composed(host: Host, dotenv: Dict<string>, tmpl: Dict<Annotation>, o: ComposeOptions): Result<ComposeOutput, Exception> {
    var mode := UnknownMode(o);
    match CheckVariables(dotenv, tmpl, mode)
    case Err(e) => Err(e)
    case Ok(_) =>
      CheckVariablesOk(dotenv, tmpl, mode);
      FillerOfFillable(host, dotenv, tmpl);
      match FillFrom(FillerOf(host, dotenv, tmpl), tmpl.keys, 0, RawStart(dotenv, mode == "remove"))
      case Err(e) => Err(e)
      case Ok(raw) =>
        var env := if RenameEnabled(o) then RenameTo(raw, PathOfFor(tmpl, o), |raw.keys|) else raw;
        Ok(ComposeOutput(raw, env))
  }

  /** The body of the fill loop for one variable: its default when optional and absent, else its conversion or its text. */
  method FillOne(host: Host, annotation: Annotation, val: Option<string>) returns (r: Result<Value, Exception>)
    requires annotation.required == Some(true) ==> !Absent(val)
    ensures r == FillValue(host, annotation, val)
  {
    if annotation.required != Some(true) && Absent(val) {
      r := Ok(annotation.defaultValue.GetOr(Null));
    } else if annotation.types.Some? {
      r := Convert.Convert(host, val.value, annotation.types.value);
    } else {
      r := Ok(Str(val.value));
    }
  }

  /** One turn of the fill loop. */
  lemma FillFromStep(fill: Filler, keys: seq<string>, i: nat, raw: Dict<Value>)
    requires i < |keys| && Fillable(fill, keys, i)
    ensures fill(keys[i]).Err? ==> FillFrom(fill, keys, i, raw) == Err(fill(keys[i]).error)
    ensures fill(keys[i]).Ok? ==> FillFrom(fill, keys, i, raw) == FillFrom(fill, keys, i + 1, Put(raw, keys[i], fill(keys[i]).value))
  {
  }

  /** The fill loop of compose: each template variable gets its default or its converted value. */
  method FillIn(host: Host, dotenv: Dict<string>, tmpl: Dict<Annotation>, start: Dict<Value>) returns (r: Result<Dict<Value>, Exception>)
    requires NoneMissing(dotenv, tmpl)
    ensures Fillable(FillerOf(host, dotenv, tmpl), tmpl.keys, 0)
    ensures r == FillFrom(FillerOf(host, dotenv, tmpl), tmpl.keys, 0, start)
  {
    FillerOfFillable(host, dotenv, tmpl);
    ghost var fill := FillerOf(host, dotenv, tmpl);
    var rawEnv := start;
    var i := 0;
    while i < |tmpl.keys|
      invariant i <= |tmpl.keys|
      invariant FillFrom(fill, tmpl.keys, i, rawEnv) == FillFrom(fill, tmpl.keys, 0, start)
    {
      var key := tmpl.keys[i];
      var value := FillOne(host, tmpl.vals[key], Get(dotenv, key));
      FillFromStep(fill, tmpl.keys, i, rawEnv);
      if value.Err? {
        return Err(value.error);
      }
      rawEnv := Put(rawEnv, key, value.value);
      i := i + 1;
    }
    return Ok(rawEnv);
  }

  /** The rename loop: every variable, in the order of `rawEnv`, set at its path in a new object. */
  method Rename(rawEnv: Dict<Value>, pathOf: PathOf) returns (env: Dict<Value>)
    ensures env == RenameTo(rawEnv, pathOf, |rawEnv.keys|)
  {
    env := Empty();
    var j := 0;
    while j < |rawEnv.keys|
      invariant j <= |rawEnv.keys|
      invariant env == RenameTo(rawEnv, pathOf, j)
    {
      var key := rawEnv.keys[j];
      var keyPath := pathOf(env, key);
      env := SetIn(env, keyPath, rawEnv.vals[key]);
      j := j + 1;
    }
  }

  /** compose, with its two loops; proved to compute Composed. */
  method Compose(host: Host, dotenv: Dict<string>, tmpl: Dict<Annotation>, o: ComposeOptions) returns (r: Result<ComposeOutput, Exception>)
    ensures r == Composed(host, dotenv, tmpl, o)
  {
    var mode := UnknownMode(o);
    var checked := CheckVariables(dotenv, tmpl, mode);
    if checked.Err? {
      return Err(checked.error);
    }
    CheckVariablesOk(dotenv, tmpl, mode);
    var filled := FillIn(host, dotenv, tmpl, RawStart(dotenv, mode == "remove"));
    if filled.Err? {
      return Err(filled.error);
    }
    var rawEnv := filled.value;
    var env := rawEnv;
    if RenameEnabled(o) {
      env := Rename(rawEnv, PathOfFor(tmpl, o));
    }
    return Ok(ComposeOutput(rawEnv, env));
  }

  // ---------------------------------------------------------------- properties

  /** The variables of the template all fill in, in terms of the filler. */
  lemma FillsAll(host: Host, dotenv: Dict<string>, tmpl: Dict<Annotation>)
    requires NoneMissing(dotenv, tmpl)
    ensures Fillable(FillerOf(host, dotenv, tmpl), tmpl.keys, 0)
    ensures FillsFrom(FillerOf(host, dotenv, tmpl), tmpl.keys, 0) <==>
              forall k :: k in tmpl.vals ==> FillValue(host, tmpl.vals[k], Get(dotenv, k)).Ok?
  {
    FillerOfFillable(host, dotenv, tmpl);
    forall k | k in tmpl.vals
      ensures exists j :: 0 <= j < |tmpl.keys| && tmpl.keys[j] == k
    {
      assert k in tmpl.keys;
    }
  }

  /** Compose succeeds exactly when the check passes and every template variable fills in. */
  lemma ComposedOk(host: Host, dotenv: Dict<string>, tmpl: Dict<Annotation>, o: ComposeOptions)
    ensures Composed(host, dotenv, tmpl, o).Ok? <==>
              && CheckVariables(dotenv, tmpl, UnknownMode(o)).Ok?
              && NoneMissing(dotenv, tmpl)
              && forall k :: k in tmpl.vals ==> FillValue(host, tmpl.vals[k], Get(dotenv, k)).Ok?
  {
    CheckVariablesOk(dotenv, tmpl, UnknownMode(o));
    if NoneMissing(dotenv, tmpl) {
      FillsAll(host, dotenv, tmpl);
      FillFromOutcome(FillerOf(host, dotenv, tmpl), tmpl.keys, 0, RawStart(dotenv, UnknownMode(o) == "remove"));
    }
  }

  /** When compose fails after the check passed, it fails with the error of the first template variable that does not fill in. */
  lemma ComposedError(host: Host, dotenv: Dict<string>, tmpl: Dict<Annotation>, o: ComposeOptions)
    requires CheckVariables(dotenv, tmpl, UnknownMode(o)).Ok?
    requires Composed(host, dotenv, tmpl, o).Err?
    ensures NoneMissing(dotenv, tmpl)
    ensures exists j :: 0 <= j < |tmpl.keys| && tmpl.keys[j] in tmpl.vals
              && FillValue(host, tmpl.vals[tmpl.keys[j]], Get(dotenv, tmpl.keys[j])) == Err(Composed(host, dotenv, tmpl, o).error)
              && forall l :: 0 <= l < j && tmpl.keys[l] in tmpl.vals ==> FillValue(host, tmpl.vals[tmpl.keys[l]], Get(dotenv, tmpl.keys[l])).Ok?
  {
    CheckVariablesOk(dotenv, tmpl, UnknownMode(o));
    FillerOfFillable(host, dotenv, tmpl);
    FillFromOutcome(FillerOf(host, dotenv, tmpl), tmpl.keys, 0, RawStart(dotenv, UnknownMode(o) == "remove"));
  }

  /** The variables compose returns under their own names, when it succeeds and the check passed. */
  function RawEnvOf(host: Host, dotenv: Dict<string>, tmpl: Dict<Annotation>, o: ComposeOptions): Dict<Value>
    requires Composed(host, dotenv, tmpl, o).Ok?
  {
    Composed(host, dotenv, tmpl, o).value.rawEnv
  }

  /** Without renaming, env is rawEnv itself. */
  lemma ComposedWithoutRename(host: Host, dotenv: Dict<string>, tmpl: Dict<Annotation>, o: ComposeOptions)
    requires Composed(host, dotenv, tmpl, o).Ok? && !RenameEnabled(o)
    ensures Composed(host, dotenv, tmpl, o).value.env == Composed(host, dotenv, tmpl, o).value.rawEnv
  {
  }

  /** The keys of rawEnv: dotenv's in dotenv's order (none when unknown variables are removed), then the template's new ones in the template's order. */
  lemma ComposedKeys(host: Host, dotenv: Dict<string>, tmpl: Dict<Annotation>, o: ComposeOptions)
    requires Composed(host, dotenv, tmpl, o).Ok?
    ensures RawEnvOf(host, dotenv, tmpl, o).keys ==
              if UnknownMode(o) == "remove" then tmpl.keys else dotenv.keys + Filter(tmpl.keys, (k: string) => k !in dotenv.vals)
  {
    var mode := UnknownMode(o);
    CheckVariablesOk(dotenv, tmpl, mode);
    FillerOfFillable(host, dotenv, tmpl);
    var start := RawStart(dotenv, mode == "remove");
    FillFromKeys(FillerOf(host, dotenv, tmpl), tmpl.keys, 0, start);
    assert tmpl.keys[0..] == tmpl.keys;
    if mode == "remove" {
      FilterAll(tmpl.keys, Unseen(start));
    } else {
      FilterSame(tmpl.keys, Unseen(start), (k: string) => k !in dotenv.vals);
    }
  }

  /** In rawEnv every template variable holds its filled-in value, and every other variable dotenv read (unless removed) its text. */
  lemma ComposedValues(host: Host, dotenv: Dict<string>, tmpl: Dict<Annotation>, o: ComposeOptions)
    requires Composed(host, dotenv, tmpl, o).Ok?
    ensures NoneMissing(dotenv, tmpl)
    ensures forall k :: k in tmpl.vals ==>
              k in RawEnvOf(host, dotenv, tmpl, o).vals && Ok(RawEnvOf(host, dotenv, tmpl, o).vals[k]) == FillValue(host, tmpl.vals[k], Get(dotenv, k))
    ensures UnknownMode(o) != "remove" ==>
              forall k :: k in dotenv.vals && k !in tmpl.vals ==>
                k in RawEnvOf(host, dotenv, tmpl, o).vals && RawEnvOf(host, dotenv, tmpl, o).vals[k] == Str(dotenv.vals[k])
  {
    var mode := UnknownMode(o);
    CheckVariablesOk(dotenv, tmpl, mode);
    FillerOfFillable(host, dotenv, tmpl);
    var start := RawStart(dotenv, mode == "remove");
    var fill := FillerOf(host, dotenv, tmpl);
    var raw := RawEnvOf(host, dotenv, tmpl, o);
    assert raw == FillFrom(fill, tmpl.keys, 0, start).value;
    FilledValues(host, dotenv, tmpl, start, raw);
    if mode != "remove" {
      KeptValues(host, dotenv, tmpl, start, raw);
    }
  }

  /** After the fill loop, every template variable holds its filled-in value. */
  lemma FilledValues(host: Host, dotenv: Dict<string>, tmpl: Dict<Annotation>, start: Dict<Value>, raw: Dict<Value>)
    requires NoneMissing(dotenv, tmpl) && Fillable(FillerOf(host, dotenv, tmpl), tmpl.keys, 0)
    requires FillFrom(FillerOf(host, dotenv, tmpl), tmpl.keys, 0, start) == Ok(raw)
    ensures forall k :: k in tmpl.vals ==> k in raw.vals && Ok(raw.vals[k]) == FillValue(host, tmpl.vals[k], Get(dotenv, k))
  {
    forall k | k in tmpl.vals
      ensures k in raw.vals && Ok(raw.vals[k]) == FillValue(host, tmpl.vals[k], Get(dotenv, k))
    {
      assert k in tmpl.keys;
      var j :| 0 <= j < |tmpl.keys| && tmpl.keys[j] == k;
      FillFromFilled(FillerOf(host, dotenv, tmpl), tmpl.keys, 0, start, j);
    }
  }

  /** After the fill loop, a variable of the copied dotenv output the template does not name holds its text. */
  lemma KeptValues(host: Host, dotenv: Dict<string>, tmpl: Dict<Annotation>, start: Dict<Value>, raw: Dict<Value>)
    requires NoneMissing(dotenv, tmpl) && Fillable(FillerOf(host, dotenv, tmpl), tmpl.keys, 0)
    requires FillFrom(FillerOf(host, dotenv, tmpl), tmpl.keys, 0, start) == Ok(raw)
    requires start == RawStart(dotenv, false)
    ensures forall k :: k in dotenv.vals && k !in tmpl.vals ==> k in raw.vals && raw.vals[k] == Str(dotenv.vals[k])
  {
    forall k | k in dotenv.vals && k !in tmpl.vals
      ensures k in raw.vals && raw.vals[k] == Str(dotenv.vals[k])
    {
      assert tmpl.keys[0..] == tmpl.keys;
      FillFromKeeps(FillerOf(host, dotenv, tmpl), tmpl.keys, 0, start, k);
    }
  }

  /** Each style's result: camelCase gives letters and digits, snake_case gives a fixed point of itself, any other style changes nothing. */
  lemma ToCaseResult(s: string, caseStyle: string)
    ensures caseStyle == "camelCase" ==> All(ToCase(s, caseStyle), IsAlnum)
    ensures caseStyle == "snake_case" ==> All(ToCase(s, caseStyle), IsSnakeChar) && ToCase(ToCase(s, caseStyle), caseStyle) == ToCase(s, caseStyle)
    ensures caseStyle != "camelCase" && caseStyle != "snake_case" ==> ToCase(s, caseStyle) == s
  {
    CamelCaseChars(s);
    SnakeCaseChars(s);
    SnakeCaseIdempotent(s);
  }
}
