/**
 * `frame` (src/lib/frame.ts): the same filling in and renaming as compose, but a
 * missing required variable is found inside the fill loop, the first error ends
 * it, and the error is returned instead of thrown.
 */
module Frame {
  import opened Wrappers
  import opened Text
  import opened Seqs
  import opened Dicts
  import opened Values
  import opened Convert
  import opened Template
  import opened Lodash
  import opened Compose

  /** The lodash function the `case` option names. */
  datatype CaseFunction = CamelCaseFunction | SnakeCaseFunction

  /** The `rename` group of the options; None stands for an option not given. */
  datatype FrameRename = FrameRename(enabled: Option<bool>, caseFunction: Option<CaseFunction>, nestingDelimiter: Option<string>)

  /** The options of frame; None stands for an option not given. */
  datatype FrameOptions = FrameOptions(removeUnknownVariables: Option<bool>, rename: Option<FrameRename>)

  function RemoveUnknown(o: FrameOptions): bool {
    o.removeUnknownVariables.GetOr(false)
  }

  /** Renaming is on when asked for, and otherwise whenever a rename group is given. */
  function RenameOn(o: FrameOptions): bool {
    match o.rename
    case None => false
    case Some(r) => r.enabled.GetOr(true)
  }

  function CaseOf(o: FrameOptions): CaseFunction {
    match o.rename
    case None => CamelCaseFunction
    case Some(r) => r.caseFunction.GetOr(CamelCaseFunction)
  }

  function DelimiterOf(o: FrameOptions): string {
    match o.rename
    case None => "__"
    case Some(r) => r.nestingDelimiter.GetOr("__")
  }

  /** `_[case](s)`. */
  function ApplyCase(c: CaseFunction, s: string): string {
    match c
    case CamelCaseFunction => CamelCase(s)
    case SnakeCaseFunction => SnakeCase(s)
  }

  function MissingRequired(key: string): string {
    "Required variable [" + key + "] is missing"
  }

  /** The value frame gives one template variable: an error naming it when it is required and absent, else what compose gives it. */
  function FrameValue(host: Host, key: string, a: Annotation, v: Option<string>): Result<Value, Exception> {
    if a.required == Some(true) && Absent(v) then Err(OtherError(MissingRequired(key)))
    else FillValue(host, a, v)
  }

  function FrameFiller(host: Host, dotenv: Dict<string>, tmpl: Dict<Annotation>): Filler {
    (key: string) requires key in tmpl.vals => FrameValue(host, key, tmpl.vals[key], Get(dotenv, key))
  }

  lemma FrameFillerFillable(host: Host, dotenv: Dict<string>, tmpl: Dict<Annotation>)
    ensures Fillable(FrameFiller(host, dotenv, tmpl), tmpl.keys, 0)
  {
    forall j | 0 <= j < |tmpl.keys|
      ensures tmpl.keys[j] in tmpl.vals
    {
      assert tmpl.keys[j] in tmpl.keys;
    }
  }

  /**
   * The path frame sets a variable at: the name the template gives it, read as a
   * dotted path; otherwise its own name cut at the nesting delimiter (when there is
   * one), empty parts kept, each part passed through the case function.
   */
  function FramePath(tmpl: Dict<Annotation>, o: FrameOptions, env: Dict<Value>, key: string): seq<string> {
    var a: Option<Annotation> := Get(tmpl, key);
    var name := if a.Some? then a.value.name else None;
    if name.Some? && name.value != "" then NamePath(env, name.value)
    else
      var d := DelimiterOf(o);
      var parts := if d != "" then SplitOn(key, d) else [key];
      seq(|parts|, k requires 0 <= k < |parts| => ApplyCase(CaseOf(o), parts[k]))
  }

  function FramePathOf(tmpl: Dict<Annotation>, o: FrameOptions): PathOf {
    (env: Dict<Value>, key: string) => FramePath(tmpl, o, env, key)
  }

  /** `frame`: the fill loop with the missing check inside it, then the rename loop when renaming is on; the first error is the result. */
  function Framed(host: Host, dotenv: Dict<string>, tmpl: Dict<Annotation>, o: FrameOptions): Result<ComposeOutput, Exception> {
    FrameFillerFillable(host, dotenv, tmpl);
    match FillFrom(FrameFiller(host, dotenv, tmpl), tmpl.keys, 0, RawStart(dotenv, RemoveUnknown(o)))
    case Err(e) => Err(e)
    case Ok(raw) =>
      var env := if RenameOn(o) then RenameTo(raw, FramePathOf(tmpl, o), |raw.keys|) else raw;
      Ok(ComposeOutput(raw, env))
  }

  /** The body of frame's fill loop for one variable: the missing check, then the value compose gives it. */
  method FrameOne(host: Host, key: string, annotation: Annotation, val: Option<string>) returns (r: Result<Value, Exception>)
    ensures r == FrameValue(host, key, annotation, val)
  {
    if annotation.required == Some(true) && Absent(val) {
      return Err(OtherError(MissingRequired(key)));
    }
    r := FillOne(host, annotation, val);
  }

  /** The fill loop of frame; the first missing or failing variable ends it. */
  method FrameFill(host: Host, dotenv: Dict<string>, tmpl: Dict<Annotation>, start: Dict<Value>) returns (r: Result<Dict<Value>, Exception>)
    ensures Fillable(FrameFiller(host, dotenv, tmpl), tmpl.keys, 0)
    ensures r == FillFrom(FrameFiller(host, dotenv, tmpl), tmpl.keys, 0, start)
  {
    FrameFillerFillable(host, dotenv, tmpl);
    ghost var fill := FrameFiller(host, dotenv, tmpl);
    var rawEnv := start;
    var i := 0;
    while i < |tmpl.keys|
      invariant i <= |tmpl.keys|
      invariant FillFrom(fill, tmpl.keys, i, rawEnv) == FillFrom(fill, tmpl.keys, 0, start)
    {
      var key := tmpl.keys[i];
      var value := FrameOne(host, key, tmpl.vals[key], Get(dotenv, key));
      FillFromStep(fill, tmpl.keys, i, rawEnv);
      if value.Err? {
        return Err(value.error);
      }
      rawEnv := Put(rawEnv, key, value.value);
      i := i + 1;
    }
    return Ok(rawEnv);
  }

  /** frame: the fill loop, then the rename loop when renaming is on; proved to compute Framed. */
  method Frame(host: Host, dotenv: Dict<string>, tmpl: Dict<Annotation>, o: FrameOptions) returns (r: Result<ComposeOutput, Exception>)
    ensures r == Framed(host, dotenv, tmpl, o)
  {
    var filled := FrameFill(host, dotenv, tmpl, RawStart(dotenv, RemoveUnknown(o)));
    if filled.Err? {
      return Err(filled.error);
    }
    var rawEnv := filled.value;
    var env := rawEnv;
    if RenameOn(o) {
      env := Rename(rawEnv, FramePathOf(tmpl, o));
    }
    return Ok(ComposeOutput(rawEnv, env));
  }

  // ---------------------------------------------------------------- properties

  /** Every template variable fills in under frame exactly when none is missing and each gets its value. */
  lemma FrameFillsAll(host: Host, dotenv: Dict<string>, tmpl: Dict<Annotation>)
    ensures Fillable(FrameFiller(host, dotenv, tmpl), tmpl.keys, 0)
    ensures FillsFrom(FrameFiller(host, dotenv, tmpl), tmpl.keys, 0) <==>
              NoneMissing(dotenv, tmpl) && forall k :: k in tmpl.vals ==> FillValue(host, tmpl.vals[k], Get(dotenv, k)).Ok?
  {
    FrameFillerFillable(host, dotenv, tmpl);
    var f := FrameFiller(host, dotenv, tmpl);
    if FillsFrom(f, tmpl.keys, 0) {
      forall k | k in tmpl.vals
        ensures !(tmpl.vals[k].required == Some(true) && Absent(Get(dotenv, k)))
        ensures FrameValue(host, k, tmpl.vals[k], Get(dotenv, k)).Ok?
      {
        assert k in tmpl.keys;
        var j :| 0 <= j < |tmpl.keys| && tmpl.keys[j] == k;
        assert f(tmpl.keys[j]).Ok?;
      }
    }
    if NoneMissing(dotenv, tmpl) && forall k :: k in tmpl.vals ==> FillValue(host, tmpl.vals[k], Get(dotenv, k)).Ok? {
      forall j | 0 <= j < |tmpl.keys|
        ensures f(tmpl.keys[j]).Ok?
      {
        assert tmpl.keys[j] in tmpl.keys;
      }
    }
  }

  /** frame succeeds exactly when no required variable is missing and every template variable fills in. */
  lemma FramedOk(host: Host, dotenv: Dict<string>, tmpl: Dict<Annotation>, o: FrameOptions)
    ensures Framed(host, dotenv, tmpl, o).Ok? <==>
              NoneMissing(dotenv, tmpl) && forall k :: k in tmpl.vals ==> FillValue(host, tmpl.vals[k], Get(dotenv, k)).Ok?
  {
    FrameFillsAll(host, dotenv, tmpl);
    FillFromOutcome(FrameFiller(host, dotenv, tmpl), tmpl.keys, 0, RawStart(dotenv, RemoveUnknown(o)));
  }

  /**
   * When frame fails, the error is that of the first template variable that does not
   * fill in: the missing-variable error naming it, or its conversion error.
   */
  lemma FramedError(host: Host, dotenv: Dict<string>, tmpl: Dict<Annotation>, o: FrameOptions)
    requires Framed(host, dotenv, tmpl, o).Err?
    ensures exists j :: 0 <= j < |tmpl.keys| && tmpl.keys[j] in tmpl.vals
              && FrameValue(host, tmpl.keys[j], tmpl.vals[tmpl.keys[j]], Get(dotenv, tmpl.keys[j])) == Err(Framed(host, dotenv, tmpl, o).error)
              && forall l :: 0 <= l < j && tmpl.keys[l] in tmpl.vals ==> FrameValue(host, tmpl.keys[l], tmpl.vals[tmpl.keys[l]], Get(dotenv, tmpl.keys[l])).Ok?
  {
    FrameFillerFillable(host, dotenv, tmpl);
    FillFromOutcome(FrameFiller(host, dotenv, tmpl), tmpl.keys, 0, RawStart(dotenv, RemoveUnknown(o)));
  }

  /** Loops with fillers that agree on every variable compute the same. */
  lemma {:induction false} FillFromSameFill(f: Filler, g: Filler, keys: seq<string>, i: nat, raw: Dict<Value>)
    requires i <= |keys| && Fillable(f, keys, i) && Fillable(g, keys, i)
    requires forall j :: i <= j < |keys| ==> f(keys[j]) == g(keys[j])
    ensures FillFrom(f, keys, i, raw) == FillFrom(g, keys, i, raw)
    decreases |keys| - i
  {
    if i < |keys| {
      FillFromStep(f, keys, i, raw);
      FillFromStep(g, keys, i, raw);
      if f(keys[i]).Ok? {
        FillFromSameFill(f, g, keys, i + 1, Put(raw, keys[i], f(keys[i]).value));
      }
    }
  }

  /**
   * Without renaming, frame and compose agree: when no required variable is
   * missing, they succeed together and return the same variables (frame removing
   * unknown variables where compose's "remove" does); otherwise both fail.
   */
  lemma FrameAgreesWithCompose(host: Host, dotenv: Dict<string>, tmpl: Dict<Annotation>, remove: bool)
    ensures var c := Composed(host, dotenv, tmpl, ComposeOptions(Some(if remove then "remove" else "keep"), None));
            var f := Framed(host, dotenv, tmpl, FrameOptions(Some(remove), None));
            && (NoneMissing(dotenv, tmpl) ==> f == c)
            && (!NoneMissing(dotenv, tmpl) ==> c.Err? && f.Err?)
  {
    var co := ComposeOptions(Some(if remove then "remove" else "keep"), None);
    var fo := FrameOptions(Some(remove), None);
    CheckVariablesOk(dotenv, tmpl, UnknownMode(co));
    FramedOk(host, dotenv, tmpl, fo);
    if NoneMissing(dotenv, tmpl) {
      FrameFillerFillable(host, dotenv, tmpl);
      FillerOfFillable(host, dotenv, tmpl);
      var f := FrameFiller(host, dotenv, tmpl);
      var g := FillerOf(host, dotenv, tmpl);
      forall j | 0 <= j < |tmpl.keys|
        ensures f(tmpl.keys[j]) == g(tmpl.keys[j])
      {
        assert tmpl.keys[j] in tmpl.keys;
      }
      FillFromSameFill(f, g, tmpl.keys, 0, RawStart(dotenv, remove));
    }
  }
}
