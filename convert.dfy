/**
 * The type converter of src/lib/convert.ts: a raw string and an ordered list of
 * type names give the value of the first type whose coercer accepts the string.
 */
module Convert {
  import opened Wrappers
  import opened Text
  import opened Values

  /**
   * The JavaScript built-ins the coercers call, which this model does not
   * define: `Number(data)` (None when it gives NaN) and `JSON.parse(data)` (None
   * when it throws).
   */
  datatype Host = Host(number: string -> Option<real>, json: string -> Option<Value>)

  /** The keys of `strTo` other than `array` (src/lib/convert.ts:18-49). */
  const ScalarNames: seq<string> := ["string", "number", "boolean", "json"]

  /** `strTo.number` (src/lib/convert.ts:20-26): fails exactly when `Number` gives NaN. */
  function CoerceNumber(host: Host, data: string): (r: Result<Value, Exception>)
    ensures r.Err? <==> host.number(data).None?
    ensures r.Ok? ==> r.value == Num(host.number(data).value)
    ensures r.Err? ==> r.error == ConvertError("Failed to convert the data into number")
  {
    match host.number(data)
    case Some(n) => Ok(Num(n))
    case None => Err(ConvertError("Failed to convert the data into number"))
  }

  /** `strTo.boolean` (src/lib/convert.ts:28-37). */
  function CoerceBoolean(data: string): (r: Result<Value, Exception>)
    ensures r == Ok(Bool(true)) <==> Lower(data) == "true" || Lower(data) == "yes"
    ensures r == Ok(Bool(false)) <==> Lower(data) == "false" || Lower(data) == "no"
    ensures r.Ok? || r == Err(ConvertError("Failed to convert the data into boolean"))
  {
    var lower := Lower(data);
    if lower == "true" || lower == "yes" then Ok(Bool(true))
    else if lower == "false" || lower == "no" then Ok(Bool(false))
    else Err(ConvertError("Failed to convert the data into boolean"))
  }

  /**
   * `strTo.json` (src/lib/convert.ts:39-49): the text must parse and start with
   * `{` or `[`; both failures end in the same ConvertError.
   */
  function CoerceJson(host: Host, data: string): (r: Result<Value, Exception>)
    ensures r.Ok? <==> host.json(data).Some? && |data| > 0 && data[0] in "{["
    ensures r.Ok? ==> r.value == host.json(data).value
    ensures r.Err? ==> r.error == ConvertError("Failed to convert the data into JSON")
  {
    match host.json(data)
    case None => Err(ConvertError("Failed to convert the data into JSON"))
    case Some(v) =>
      if |data| > 0 && (data[0] == '{' || data[0] == '[') then Ok(v)
      else Err(ConvertError("Failed to convert the data into JSON"))
  }

  /** `strTo[name](data)` for the scalar names. */
  function Scalar(host: Host, name: string, data: string): Result<Value, Exception>
    requires name in ScalarNames
  {
    if name == "string" then Ok(Str(data))
    else if name == "number" then CoerceNumber(host, data)
    else if name == "boolean" then CoerceBoolean(data)
    else CoerceJson(host, data)
  }

  /**
   * `strTo[elem](piece)` inside `strTo.array`. A name `strTo` lacks throws a
   * TypeError there; `array` itself throws (it looks up `strTo[undefined]`); the
   * array coercer turns every one of these failures into its own ConvertError.
   */
  function Element(host: Host, elem: string, piece: string): Result<Value, Exception> {
    if elem in ScalarNames then Scalar(host, elem, piece)
    else if elem == "array" then Err(ConvertError("Failed to convert the data into undefined[]"))
    else Err(OtherError("strTo[type] is not a function"))
  }

  function ArrayError(elem: string): Exception {
    ConvertError("Failed to convert the data into " + elem + "[]")
  }

  /**
   * The pieces from position `i` on, each converted with `elem`; None as soon as
   * one of them fails.
   */
  function ElementsFrom(host: Host, elem: string, pieces: seq<string>, i: nat): Option<seq<Value>>
    requires i <= |pieces|
    decreases |pieces| - i
  {
    if i == |pieces| then Some([])
    else
      var e := Element(host, elem, pieces[i]);
      if e.Err? then None
      else
        match ElementsFrom(host, elem, pieces, i + 1)
        case None => None
        case Some(rest) => Some([e.value] + rest)
  }

  /** `strTo.array(data, elem)` (src/lib/convert.ts:4-16). */
  function ArrayOf(host: Host, data: string, elem: string): Result<Value, Exception> {
    match ElementsFrom(host, elem, SplitTrimmed(data, ','), 0)
    case Some(items) => Ok(Arr(items))
    case None => Err(ArrayError(elem))
  }

  /** Names that take the array branch: `...[]`, and `array`, a key of `strTo`. */
  predicate IsArrayName(name: string) {
    (|name| >= 2 && name[|name| - 2..] == "[]") || name == "array"
  }

  /** The element type the array branch receives: the name without `[]`, or `undefined`. */
  function ElementName(name: string): string
    requires IsArrayName(name)
  {
    if |name| >= 2 && name[|name| - 2..] == "[]" then name[..|name| - 2] else "undefined"
  }

  /** Names the dispatch of src/lib/convert.ts:66-71 finds a coercer for. */
  predicate Known(name: string) {
    IsArrayName(name) || name in ScalarNames
  }

  /** One turn of the fallback loop (src/lib/convert.ts:64-72). */
  function Attempt(host: Host, name: string, data: string): Result<Value, Exception> {
    if IsArrayName(name) then ArrayOf(host, data, ElementName(name))
    else if name in ScalarNames then Scalar(host, name, data)
    else Err(OtherError("strTo[type] is not a function"))
  }

  /** An outcome that threw a ConvertError, after which the loop goes on. */
  predicate Falls(a: Result<Value, Exception>) {
    a.Err? && a.error.ConvertError?
  }

  /** The attempt with `name` threw a ConvertError. */
  predicate Recoverable(host: Host, name: string, data: string) {
    Falls(Attempt(host, name, data))
  }

  /**
   * The outcome of the attempt with each name of `types`, in list order. The
   * attempts have no effects, so the model may compute all of them while the
   * loop only reaches the first few.
   */
  function Outcomes(host: Host, data: string, types: seq<string>): (r: seq<Result<Value, Exception>>)
    ensures |r| == |types|
    ensures forall i :: 0 <= i < |types| ==> r[i] == Attempt(host, types[i], data)
  {
    seq(|types|, i requires 0 <= i < |types| => Attempt(host, types[i], data))
  }

  /**
   * The fallback loop over the outcomes from position `i` on: the first one that
   * is not a ConvertError, or `exhausted` when there is none.
   */
  function FirstDecisive(outcomes: seq<Result<Value, Exception>>, exhausted: Exception, i: nat): Result<Value, Exception>
    requires i <= |outcomes|
    decreases |outcomes| - i
  {
    if i == |outcomes| then Err(exhausted)
    else if Falls(outcomes[i]) then FirstDecisive(outcomes, exhausted, i + 1)
    else outcomes[i]
  }

  function AllFailed(types: seq<string>): Exception {
    ConvertError("Failed to convert the data into any of the types [" + Join(types, ",") + "]")
  }

  /** `convert(data, types)` (src/lib/convert.ts:59-81). */
  function Converted(host: Host, data: string, types: seq<string>): Result<Value, Exception> {
    FirstDecisive(Outcomes(host, data, types), AllFailed(types), 0)
  }

  /** `strTo.array`, pushing one converted piece after another. */
  method CoerceArray(host: Host, data: string, elem: string) returns (r: Result<Value, Exception>)
    ensures r == ArrayOf(host, data, elem)
  {
    var pieces := SplitTrimmed(data, ',');
    var output: seq<Value> := [];
    var i := 0;
    match ElementsFrom(host, elem, pieces, 0) {
      case None =>
      case Some(rest) => assert output + rest == rest;
    }
    while i < |pieces|
      invariant 0 <= i <= |pieces|
      invariant ElementsFrom(host, elem, pieces, 0) == match ElementsFrom(host, elem, pieces, i)
                                                      case None => None
                                                      case Some(rest) => Some(output + rest)
    {
      var item := Element(host, elem, pieces[i]);
      if item.Err? {
        return Err(ArrayError(elem));
      }
      match ElementsFrom(host, elem, pieces, i + 1) {
        case None =>
        case Some(rest) => assert output + ([item.value] + rest) == (output + [item.value]) + rest;
      }
      output := output + [item.value];
      i := i + 1;
    }
    assert output + [] == output;
    return Ok(Arr(output));
  }

  /** `convert`: try each type in order, go on after a ConvertError, stop at anything else. */
  method Convert(host: Host, data: string, types: seq<string>) returns (r: Result<Value, Exception>)
    ensures r == Converted(host, data, types)
  {
    ghost var outcomes := Outcomes(host, data, types);
    var i := 0;
    while i < |types|
      invariant 0 <= i <= |types|
      invariant FirstDecisive(outcomes, AllFailed(types), i) == Converted(host, data, types)
    {
      var output;
      if IsArrayName(types[i]) {
        output := CoerceArray(host, data, ElementName(types[i]));
      } else if types[i] in ScalarNames {
        output := Scalar(host, types[i], data);
      } else {
        output := Err(OtherError("strTo[type] is not a function"));
      }
      assert output == outcomes[i];
      if output.Ok? || !output.error.ConvertError? {
        return output;
      }
      i := i + 1;
    }
    return Err(AllFailed(types));
  }

  // ----- Properties -----

  /** A known name never throws anything but a ConvertError. */
  lemma KnownIsRecoverable(host: Host, name: string, data: string)
    requires Known(name)
    ensures Attempt(host, name, data).Ok? || Recoverable(host, name, data)
  {
  }

  /** `string` is the identity. */
  lemma StringIsIdentity(host: Host, data: string)
    ensures Attempt(host, "string", data) == Ok(Str(data))
  {
    assert !IsArrayName("string");
  }

  /**
   * The array coercion is all or nothing: it succeeds exactly when every piece
   * converts, and then holds one converted element per piece, in order.
   */
  lemma {:induction false} ElementsFromAllOrNothing(host: Host, elem: string, pieces: seq<string>, i: nat)
    requires i <= |pieces|
    ensures ElementsFrom(host, elem, pieces, i).Some?
        <==> forall k :: i <= k < |pieces| ==> Element(host, elem, pieces[k]).Ok?
    ensures ElementsFrom(host, elem, pieces, i).Some? ==>
              var items := ElementsFrom(host, elem, pieces, i).value;
              |items| == |pieces| - i
              && forall k :: i <= k < |pieces| ==> items[k - i] == Element(host, elem, pieces[k]).value
    decreases |pieces| - i
  {
    if i < |pieces| {
      ElementsFromAllOrNothing(host, elem, pieces, i + 1);
    }
  }

  /** `strTo.array` in terms of the pieces of its input. */
  lemma ArrayOfAllOrNothing(host: Host, data: string, elem: string)
    ensures ArrayOf(host, data, elem).Ok?
        <==> forall k :: 0 <= k < |SplitTrimmed(data, ',')| ==> Element(host, elem, SplitTrimmed(data, ',')[k]).Ok?
    ensures ArrayOf(host, data, elem).Ok? ==>
              ArrayOf(host, data, elem).value.Arr?
              && |ArrayOf(host, data, elem).value.items| == |SplitTrimmed(data, ',')|
              && forall k :: 0 <= k < |SplitTrimmed(data, ',')| ==>
                   ArrayOf(host, data, elem).value.items[k] == Element(host, elem, SplitTrimmed(data, ',')[k]).value
    ensures ArrayOf(host, data, elem).Err? ==> ArrayOf(host, data, elem).error == ArrayError(elem)
  {
    ElementsFromAllOrNothing(host, elem, SplitTrimmed(data, ','), 0);
  }

  /** `string[]` never fails and keeps every piece as a string. */
  lemma StringArrayKeepsPieces(host: Host, data: string)
    ensures Attempt(host, "string[]", data).Ok?
    ensures Attempt(host, "string[]", data).value == Arr(seq(|SplitTrimmed(data, ',')|, k requires 0 <= k < |SplitTrimmed(data, ',')| => Str(SplitTrimmed(data, ',')[k])))
  {
    assert IsArrayName("string[]") && ElementName("string[]") == "string";
    ArrayOfAllOrNothing(host, data, "string");
  }

  /** Lower-casing the input first changes nothing: the boolean coercer ignores case. */
  lemma BooleanIgnoresCase(data: string)
    ensures CoerceBoolean(data) == CoerceBoolean(Lower(data))
  {
    LowerIdempotent(data);
  }

  // The loop over any list of outcomes.

  lemma {:induction false} FirstDecisiveAt(outcomes: seq<Result<Value, Exception>>, exhausted: Exception, k: nat, j: nat)
    requires k <= j < |outcomes|
    requires forall i :: k <= i < j ==> Falls(outcomes[i])
    requires !Falls(outcomes[j])
    ensures FirstDecisive(outcomes, exhausted, k) == outcomes[j]
    decreases j - k
  {
    if k < j {
      FirstDecisiveAt(outcomes, exhausted, k + 1, j);
    }
  }

  lemma {:induction false} FirstDecisiveAllFall(outcomes: seq<Result<Value, Exception>>, exhausted: Exception, k: nat)
    requires k <= |outcomes|
    requires forall i :: k <= i < |outcomes| ==> Falls(outcomes[i])
    ensures FirstDecisive(outcomes, exhausted, k) == Err(exhausted)
    decreases |outcomes| - k
  {
    if k < |outcomes| {
      FirstDecisiveAllFall(outcomes, exhausted, k + 1);
    }
  }

  lemma {:induction false} FirstDecisiveIndex(outcomes: seq<Result<Value, Exception>>, exhausted: Exception, k: nat) returns (j: nat)
    requires k <= |outcomes|
    requires FirstDecisive(outcomes, exhausted, k) != Err(exhausted)
    ensures k <= j < |outcomes|
    ensures FirstDecisive(outcomes, exhausted, k) == outcomes[j] && !Falls(outcomes[j])
    ensures forall i :: k <= i < j ==> Falls(outcomes[i])
    decreases |outcomes| - k
  {
    if Falls(outcomes[k]) {
      j := FirstDecisiveIndex(outcomes, exhausted, k + 1);
    } else {
      j := k;
    }
  }

  lemma {:induction false} FirstDecisiveErrors(outcomes: seq<Result<Value, Exception>>, exhausted: Exception, k: nat)
    requires k <= |outcomes|
    requires exhausted.ConvertError?
    requires forall i :: k <= i < |outcomes| ==> outcomes[i].Ok? || outcomes[i].error.ConvertError?
    ensures FirstDecisive(outcomes, exhausted, k).Err? ==> FirstDecisive(outcomes, exhausted, k).error.ConvertError?
    decreases |outcomes| - k
  {
    if k < |outcomes| {
      FirstDecisiveErrors(outcomes, exhausted, k + 1);
    }
  }

  // The loop over the attempts of `convert`.

  /** The loop result is that of the first attempt that does not throw a ConvertError. */
  lemma ConvertedAt(host: Host, data: string, types: seq<string>, j: nat)
    requires j < |types|
    requires forall i :: 0 <= i < j ==> Recoverable(host, types[i], data)
    requires !Recoverable(host, types[j], data)
    ensures Converted(host, data, types) == Attempt(host, types[j], data)
  {
    var outcomes := Outcomes(host, data, types);
    FirstDecisiveAt(outcomes, AllFailed(types), 0, j);
  }

  /** If every attempt throws a ConvertError (an empty list included), so does `convert`. */
  lemma ConvertedAllFail(host: Host, data: string, types: seq<string>)
    requires forall i :: 0 <= i < |types| ==> Recoverable(host, types[i], data)
    ensures Converted(host, data, types) == Err(AllFailed(types))
  {
    FirstDecisiveAllFall(Outcomes(host, data, types), AllFailed(types), 0);
  }

  /** A successful `convert` returns what some attempt gave, every earlier one having thrown a ConvertError. */
  lemma ConvertedOkIsFirstSuccess(host: Host, data: string, types: seq<string>)
    requires Converted(host, data, types).Ok?
    ensures exists j :: 0 <= j < |types| && Attempt(host, types[j], data) == Converted(host, data, types)
                     && forall i :: 0 <= i < j ==> Recoverable(host, types[i], data)
  {
    var outcomes := Outcomes(host, data, types);
    var j := FirstDecisiveIndex(outcomes, AllFailed(types), 0);
    assert Attempt(host, types[j], data) == Converted(host, data, types);
  }

  /** With known names only, `convert` throws nothing but ConvertErrors. */
  lemma KnownNamesOnlyConvertErrors(host: Host, data: string, types: seq<string>)
    requires forall i :: 0 <= i < |types| ==> Known(types[i])
    ensures Converted(host, data, types).Err? ==> Converted(host, data, types).error.ConvertError?
  {
    var outcomes := Outcomes(host, data, types);
    forall i | 0 <= i < |types|
      ensures outcomes[i].Ok? || outcomes[i].error.ConvertError?
    {
      KnownIsRecoverable(host, types[i], data);
    }
    FirstDecisiveErrors(outcomes, AllFailed(types), 0);
  }

  /** A list holding `string` or `string[]` after known names only never fails. */
  lemma StringNeverFails(host: Host, data: string, types: seq<string>, j: nat)
    requires j < |types| && (types[j] == "string" || types[j] == "string[]")
    requires forall i :: 0 <= i < j ==> Known(types[i])
    ensures Converted(host, data, types).Ok?
  {
    StringIsIdentity(host, data);
    StringArrayKeepsPieces(host, data);
    var outcomes := Outcomes(host, data, types);
    assert !Falls(outcomes[j]);
    var m := FirstFalls(outcomes, 0, j);
    FirstDecisiveAt(outcomes, AllFailed(types), 0, m);
    KnownIsRecoverable(host, types[m], data);
  }

  /** The first position at or after `k`, and at most `j`, whose outcome is not a ConvertError. */
  lemma {:induction false} FirstFalls(outcomes: seq<Result<Value, Exception>>, k: nat, j: nat) returns (m: nat)
    requires k <= j < |outcomes|
    requires forall i :: 0 <= i < k ==> Falls(outcomes[i])
    requires !Falls(outcomes[j])
    ensures k <= m <= j
    ensures !Falls(outcomes[m])
    ensures forall i :: 0 <= i < m ==> Falls(outcomes[i])
    decreases j - k
  {
    if Falls(outcomes[k]) {
      m := FirstFalls(outcomes, k + 1, j);
    } else {
      m := k;
    }
  }

  // ----- Examples from the converter's documented behaviour -----

  /** `"true"` under `[json, number, boolean, string]` is the boolean `true`. */
  lemma TrueIsBoolean(host: Host)
    requires host.number("true").None?
    ensures Converted(host, "true", ["json", "number", "boolean", "string"]) == Ok(Bool(true))
  {
    var types := ["json", "number", "boolean", "string"];
    assert !IsArrayName("json") && !IsArrayName("number") && !IsArrayName("boolean");
    assert Recoverable(host, types[0], "true");
    assert Recoverable(host, types[1], "true");
    assert Lower("true") == "true";
    ConvertedAt(host, "true", types, 2);
  }

  /** A bare scalar is not accepted as JSON whatever `JSON.parse` makes of it. */
  lemma ScalarIsNotJson(host: Host)
    ensures CoerceJson(host, "999").Err?
  {
  }

  /** `Date` has no coercer: its TypeError escapes the loop; `Date[]` only fails. */
  lemma DateIsUnknown(host: Host, data: string)
    ensures Converted(host, data, ["Date", "string"]) == Err(OtherError("strTo[type] is not a function"))
    ensures Converted(host, data, ["Date[]", "string"]) == Ok(Str(data))
  {
    assert !IsArrayName("Date") && "Date" !in ScalarNames;
    ConvertedAt(host, data, ["Date", "string"], 0);
    assert IsArrayName("Date[]") && ElementName("Date[]") == "Date";
    var pieces := SplitTrimmed(data, ',');
    assert Element(host, "Date", pieces[0]).Err?;
    ArrayOfAllOrNothing(host, data, "Date");
    assert Recoverable(host, "Date[]", data);
    ConvertedAt(host, data, ["Date[]", "string"], 1);
  }
}
