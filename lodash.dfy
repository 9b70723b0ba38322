/**
 * The three lodash functions the composer calls: `camelCase` and `snakeCase`
 * (both built on `words`), and `set`, which writes a value at a property path and
 * creates the objects on the way.
 */
module Lodash {
  import opened Wrappers
  import opened Text
  import opened Seqs
  import opened Dicts
  import opened Values

  // ---------------------------------------------------------------- words

  /**
   * The shapes of a word lodash's `words` finds in ASCII text: a run of digits, a run
   * of lower-case letters, a capital followed by lower-case letters, or a run of capitals.
   */
  predicate IsWord(w: string) {
    && |w| > 0
    && (|| All(w, IsDigit)
        || All(w, IsLower)
        || (IsUpper(w[0]) && All(w[1..], IsLower))
        || All(w, IsUpper))
  }

  /**
   * Length of the word at the start of `s`, which starts with a letter or digit:
   * digits run to the last digit, lower-case letters (after at most one capital) to
   * the last lower-case letter, and a run of capitals stops before a capital that is
   * followed by a lower-case letter, which starts the next word.
   */
  function WordLen(s: string): (n: nat)
    requires |s| > 0 && IsAlnum(s[0])
    ensures 0 < n <= |s|
    ensures IsWord(s[..n])
  {
    var t := s[1..];
    if IsDigit(s[0]) then
      HeadThenRun(s, IsDigit);
      1 + Span(t, IsDigit)
    else if IsLower(s[0]) || (|t| > 0 && IsLower(t[0])) then
      HeadThenRun(s, IsLower);
      1 + Span(t, IsLower)
    else
      HeadThenRun(s, IsUpper);
      var n := 1 + Span(t, IsUpper);
      if n < |s| && IsLower(s[n]) then
        assert s[..n - 1] == s[..n][..n - 1];
        n - 1
      else
        n
  }

  /** The first character of `s` followed by the longest run of `p` characters after it. */
  lemma HeadThenRun(s: string, p: char -> bool)
    requires |s| > 0
    ensures Span(s[1..], p) < |s|
    ensures All(s[..1 + Span(s[1..], p)][1..], p)
    ensures p(s[0]) ==> All(s[..1 + Span(s[1..], p)], p)
  {
    var t := s[1..];
    var k := Span(t, p);
    SpanPrefix(t, p);
    assert s[..1 + k][1..] == t[..k];
  }

  /** `_.words(s)` on ASCII text: the words found left to right; other characters only separate them. */
  function Words(s: string): (r: seq<string>)
    ensures forall k :: 0 <= k < |r| ==> IsWord(r[k])
    decreases |s|
  {
    if |s| == 0 then []
    else if !IsAlnum(s[0]) then Words(s[1..])
    else
      var n := WordLen(s);
      [s[..n]] + Words(s[n..])
  }

  /** The words laid end to end. */
  function Concat(ws: seq<string>): string {
    if |ws| == 0 then "" else ws[0] + Concat(ws[1..])
  }

  /** Words loses no letter or digit and adds none: laid end to end they are the letters and digits of `s`. */
  lemma {:induction false} WordsKeepAlnum(s: string)
    ensures Concat(Words(s)) == Filter(s, IsAlnum)
    decreases |s|
  {
    if |s| > 0 {
      assert s == [s[0]] + s[1..];
      FilterAppend([s[0]], s[1..], IsAlnum);
      if !IsAlnum(s[0]) {
        WordsKeepAlnum(s[1..]);
      } else {
        var n := WordLen(s);
        WordsKeepAlnum(s[n..]);
        assert s == s[..n] + s[n..];
        FilterAppend(s[..n], s[n..], IsAlnum);
        WordFiltered(s[..n]);
      }
    }
  }

  /** A word in front of a character that is no letter or digit is read whole. */
  lemma WordLenOfWord(w: string, b: string)
    requires IsWord(w)
    requires |b| > 0 ==> !IsAlnum(b[0])
    ensures WordLen(w + b) == |w|
  {
    var s := w + b;
    var t := s[1..];
    var k := |w| - 1;
    assert t[..k] == w[1..];
    assert k < |t| ==> t[k] == b[0];
    if IsDigit(s[0]) {
      SpanExact(t, IsDigit, k);
    } else if IsLower(s[0]) || (|t| > 0 && IsLower(t[0])) {
      SpanExact(t, IsLower, k);
    } else {
      SpanExact(t, IsUpper, k);
    }
  }

  /** Characters that are no letter or digit in front of `s` change nothing. */
  lemma {:induction false} WordsSkip(sep: string, s: string)
    requires forall i :: 0 <= i < |sep| ==> !IsAlnum(sep[i])
    ensures Words(sep + s) == Words(s)
    decreases |sep|
  {
    if |sep| > 0 {
      assert (sep + s)[0] == sep[0];
      assert (sep + s)[1..] == sep[1..] + s;
      WordsSkip(sep[1..], s);
    } else {
      assert sep + s == s;
    }
  }

  /** Words laid out with a separator of no letters or digits between them are found again. */
  lemma {:induction false} WordsOfJoin(ws: seq<string>, sep: string)
    requires forall k :: 0 <= k < |ws| ==> IsWord(ws[k])
    requires |sep| > 0 && forall i :: 0 <= i < |sep| ==> !IsAlnum(sep[i])
    ensures Words(Join(ws, sep)) == ws
  {
    if |ws| == 1 {
      WordLenOfWord(ws[0], "");
      assert ws[0] + "" == ws[0];
      assert ws[0][|ws[0]|..] == "";
    } else if |ws| > 1 {
      var w := ws[0];
      var rest := sep + Join(ws[1..], sep);
      assert Join(ws, sep) == w + rest;
      WordLenOfWord(w, rest);
      assert (w + rest)[..|w|] == w;
      assert (w + rest)[|w|..] == rest;
      WordsSkip(sep, Join(ws[1..], sep));
      WordsOfJoin(ws[1..], sep);
    }
  }

  /** A word on its own is one word. */
  lemma WordsOfWord(w: string)
    requires IsWord(w)
    ensures Words(w) == [w]
  {
    assert Join([w], "_") == w;
    WordsOfJoin([w], "_");
  }

  // ---------------------------------------------------------------- camelCase, snakeCase

  /** What lodash's compounders remove before splitting: the apostrophes `'` and `’`. */
  function Unapostrophe(s: string): (r: string)
    ensures forall i :: 0 <= i < |r| ==> r[i] != '\'' && r[i] != '\U{2019}'
  {
    Filter(s, c => c != '\'' && c != '\U{2019}')
  }

  /** `_.capitalize(w)`: the first character upper-cased, the rest lower-cased. */
  function Capitalize(w: string): (r: string)
    ensures |r| == |w|
  {
    if |w| == 0 then "" else [UpperChar(w[0])] + Lower(w[1..])
  }

  /** The words after the first, each capitalised, laid end to end. */
  function CamelTail(ws: seq<string>): string {
    if |ws| == 0 then "" else Capitalize(ws[0]) + CamelTail(ws[1..])
  }

  /** `_.camelCase(s)`: the first word lower-cased, every later word capitalised, nothing between them. */
  function CamelCase(s: string): string {
    var ws := Words(Unapostrophe(s));
    if |ws| == 0 then "" else Lower(ws[0]) + CamelTail(ws[1..])
  }

  /** Every word lower-cased. */
  function LowerAll(ws: seq<string>): (r: seq<string>)
    ensures |r| == |ws|
    ensures forall k :: 0 <= k < |ws| ==> r[k] == Lower(ws[k])
  {
    seq(|ws|, k requires 0 <= k < |ws| => Lower(ws[k]))
  }

  /** `_.snakeCase(s)`: the words lower-cased and joined with `_`. */
  function SnakeCase(s: string): string {
    Join(LowerAll(Words(Unapostrophe(s))), "_")
  }

  /** A character of a snake-cased string. */
  predicate IsSnakeChar(c: char) {
    IsLower(c) || IsDigit(c) || c == '_'
  }

  lemma LowerAppend(a: string, b: string)
    ensures Lower(a + b) == Lower(a) + Lower(b)
  {
    assert forall i :: 0 <= i < |a + b| ==> Lower(a + b)[i] == (Lower(a) + Lower(b))[i];
  }

  lemma {:induction false} LowerCamelTail(ws: seq<string>)
    ensures Lower(CamelTail(ws)) == Lower(Concat(ws))
  {
    if |ws| > 0 {
      LowerCamelTail(ws[1..]);
      LowerAppend(Capitalize(ws[0]), CamelTail(ws[1..]));
      LowerAppend(ws[0], Concat(ws[1..]));
      assert Lower(Capitalize(ws[0])) == Lower(ws[0]);
    }
  }

  /** camelCase changes only letter case: lower-cased, it is the lower-cased letters and digits of its input, apostrophes removed. */
  lemma CamelCaseKeepsLetters(s: string)
    ensures Lower(CamelCase(s)) == Lower(Filter(Unapostrophe(s), IsAlnum))
  {
    var ws := Words(Unapostrophe(s));
    WordsKeepAlnum(Unapostrophe(s));
    if |ws| > 0 {
      assert Concat(ws) == ws[0] + Concat(ws[1..]);
      LowerCamelTail(ws[1..]);
      LowerAppend(ws[0], Concat(ws[1..]));
      LowerAppend(ws[0], CamelTail(ws[1..]));
      LowerIdempotent(ws[0]);
    }
  }

  /** Joining pieces and a separator made of `p` characters gives a string of `p` characters. */
  lemma {:induction false} JoinAll(ws: seq<string>, sep: string, p: char -> bool)
    requires forall k :: 0 <= k < |ws| ==> All(ws[k], p)
    requires All(sep, p)
    ensures All(Join(ws, sep), p)
  {
    if |ws| > 1 {
      JoinAll(ws[1..], sep, p);
      AllAppend(ws[0], sep, p);
      AllAppend(ws[0] + sep, Join(ws[1..], sep), p);
    }
  }

  /** A lower-cased word is still a word, made of lower-case letters and digits. */
  lemma LowerWord(w: string)
    requires IsWord(w)
    ensures IsWord(Lower(w)) && All(Lower(w), IsSnakeChar)
  {
    if !All(w, IsDigit) {
      assert forall i :: 0 <= i < |w| ==> IsUpper(w[i]) || IsLower(w[i]) by {
        if IsUpper(w[0]) && All(w[1..], IsLower) {
          assert forall i :: 1 <= i < |w| ==> w[1..][i - 1] == w[i];
        }
      }
      assert All(Lower(w), IsLower);
    }
  }

  /** A word is made of letters and digits. */
  lemma WordAlnum(w: string)
    requires IsWord(w)
    ensures All(w, IsAlnum)
  {
    if IsUpper(w[0]) && All(w[1..], IsLower) {
      assert forall i :: 1 <= i < |w| ==> w[1..][i - 1] == w[i];
    }
  }

  /** Keeping the letters and digits of a word keeps all of it. */
  lemma WordFiltered(w: string)
    requires IsWord(w)
    ensures Filter(w, IsAlnum) == w
  {
    WordAlnum(w);
    FilterAll(w, IsAlnum);
  }

  /** The capitalised words laid end to end are letters and digits. */
  lemma {:induction false} CamelTailChars(ws: seq<string>)
    requires forall k :: 0 <= k < |ws| ==> IsWord(ws[k])
    ensures All(CamelTail(ws), IsAlnum)
  {
    if |ws| > 0 {
      CamelTailChars(ws[1..]);
      WordAlnum(ws[0]);
      CapitalizeAlnum(ws[0]);
      assert CamelTail(ws) == Capitalize(ws[0]) + CamelTail(ws[1..]);
      AllAppend(Capitalize(ws[0]), CamelTail(ws[1..]), IsAlnum);
    }
  }

  /** Capitalising letters and digits gives letters and digits. */
  lemma CapitalizeAlnum(w: string)
    requires All(w, IsAlnum)
    ensures All(Capitalize(w), IsAlnum)
  {
    if |w| > 0 {
      var c := Capitalize(w);
      assert forall i :: 1 <= i < |c| ==> c[i] == LowerChar(w[i]);
    }
  }

  /** camelCase writes only letters and digits. */
  lemma CamelCaseChars(s: string)
    ensures All(CamelCase(s), IsAlnum)
  {
    var ws := Words(Unapostrophe(s));
    if |ws| > 0 {
      WordAlnum(ws[0]);
      CamelTailChars(ws[1..]);
      AllAppend(Lower(ws[0]), CamelTail(ws[1..]), IsAlnum);
    }
  }

  /** snakeCase writes only lower-case letters, digits and `_`. */
  lemma SnakeCaseChars(s: string)
    ensures All(SnakeCase(s), IsSnakeChar)
  {
    var lw := LowerAll(Words(Unapostrophe(s)));
    forall k | 0 <= k < |lw|
      ensures All(lw[k], IsSnakeChar)
    {
      LowerWord(Words(Unapostrophe(s))[k]);
    }
    JoinAll(lw, "_", IsSnakeChar);
  }

  /** snakeCase of a snake-cased string changes nothing. */
  lemma SnakeCaseIdempotent(s: string)
    ensures SnakeCase(SnakeCase(s)) == SnakeCase(s)
  {
    var ws := Words(Unapostrophe(s));
    var lw := LowerAll(ws);
    var t := Join(lw, "_");
    forall k | 0 <= k < |lw|
      ensures IsWord(lw[k]) && All(lw[k], IsSnakeChar)
    {
      LowerWord(ws[k]);
    }
    JoinAll(lw, "_", IsSnakeChar);
    FilterAll(t, c => c != '\'' && c != '\U{2019}');
    WordsOfJoin(lw, "_");
    forall k | 0 <= k < |lw|
      ensures Lower(lw[k]) == lw[k]
    {
      LowerIdempotent(ws[k]);
    }
    assert LowerAll(lw) == lw;
  }

  // ---------------------------------------------------------------- set

  /** The keys `_.set` refuses to write, so that no prototype is touched. */
  predicate Reserved(key: string) {
    key == "__proto__" || key == "constructor" || key == "prototype"
  }

  /** The object held at `key`, or a new empty one when `key` holds no object. */
  function ChildObject(d: Dict<Value>, key: string): Dict<Value> {
    var v: Option<Value> := Get(d, key);
    match v
    case Some(Obj(c)) => c
    case _ => Empty()
  }

  /**
   * `_.set(d, path, x)` for a path of property names: the last name receives `x`;
   * every name before it receives the object it already holds, or a new empty object
   * when it holds none. At a reserved name the writing stops and what was created
   * on the way stays.
   */
  function SetIn(d: Dict<Value>, path: seq<string>, x: Value): Dict<Value>
    decreases |path|
  {
    if |path| == 0 || Reserved(path[0]) then d
    else if |path| == 1 then Put(d, path[0], x)
    else Put(d, path[0], Obj(SetIn(ChildObject(d, path[0]), path[1..], x)))
  }

  /** `_.get(d, path)` for a non-empty path: the value found by following the names, None where one is missing. */
  function GetIn(d: Dict<Value>, path: seq<string>): Option<Value>
    requires |path| > 0
    decreases |path|
  {
    match Get(d, path[0])
    case None => None
    case Some(v) =>
      if |path| == 1 then Some(v)
      else match v
        case Obj(c) => GetIn(c, path[1..])
        case _ => None
  }

  /** No name of the path is reserved. */
  predicate Writable(path: seq<string>) {
    forall k :: 0 <= k < |path| ==> !Reserved(path[k])
  }

  /** After set, get on the same path finds the value. */
  lemma {:induction false} GetAfterSet(d: Dict<Value>, path: seq<string>, x: Value)
    requires |path| > 0 && Writable(path)
    ensures GetIn(SetIn(d, path, x), path) == Some(x)
    decreases |path|
  {
    if |path| > 1 {
      GetAfterSet(ChildObject(d, path[0]), path[1..], x);
    }
  }

  /** After set, get on a path that leaves it at index `k` finds what it found before. */
  lemma {:induction false} SetLeavesOtherPaths(d: Dict<Value>, path: seq<string>, x: Value, other: seq<string>, k: nat)
    requires k < |path| && k < |other|
    requires path[..k] == other[..k] && path[k] != other[k]
    ensures GetIn(SetIn(d, path, x), other) == GetIn(d, other)
    decreases |path|
  {
    if k > 0 && !Reserved(path[0]) && |path| > 1 {
      assert other[0] == path[0];
      var c := ChildObject(d, path[0]);
      SetLeavesOtherPaths(c, path[1..], x, other[1..], k - 1);
      if |other| > 1 {
        var v: Option<Value> := Get(d, path[0]);
        match v
        case Some(Obj(_)) =>
        case _ =>
          NotFoundInEmpty(SetIn(c, path[1..], x), path[1..], x, other[1..], k - 1);
      }
    }
  }

  /** In an object set made from an empty one, a path that leaves the written path finds nothing. */
  lemma {:induction false} NotFoundInEmpty(r: Dict<Value>, path: seq<string>, x: Value, other: seq<string>, k: nat)
    requires k < |path| && k < |other|
    requires path[..k] == other[..k] && path[k] != other[k]
    requires r == SetIn(Empty(), path, x)
    ensures GetIn(r, other) == None
    decreases |path|
  {
    if k > 0 && !Reserved(path[0]) && |path| > 1 {
      assert path[1..][..k - 1] == path[..k][1..];
      assert other[1..][..k - 1] == other[..k][1..];
      NotFoundInEmpty(SetIn(Empty(), path[1..], x), path[1..], x, other[1..], k - 1);
    }
  }

  /** Writing twice on one path is writing the second value. */
  lemma {:induction false} SetLastWins(d: Dict<Value>, path: seq<string>, x: Value, y: Value)
    ensures SetIn(SetIn(d, path, x), path, y) == SetIn(d, path, y)
    decreases |path|
  {
    if |path| > 1 && !Reserved(path[0]) {
      var c := ChildObject(d, path[0]);
      var first := SetIn(d, path, x);
      assert ChildObject(first, path[0]) == SetIn(c, path[1..], x);
      SetLastWins(c, path[1..], x, y);
      PutTwice(d, path[0], Obj(SetIn(c, path[1..], x)), Obj(SetIn(c, path[1..], y)));
    } else if |path| == 1 && !Reserved(path[0]) {
      PutTwice(d, path[0], x, y);
    }
  }

  /** Set adds the first name of a writable path at the end of the keys unless it is there already; the other keys keep their values. */
  lemma SetTopLevel(d: Dict<Value>, path: seq<string>, x: Value)
    requires |path| > 0 && !Reserved(path[0])
    ensures SetIn(d, path, x).keys == if path[0] in d.vals then d.keys else d.keys + [path[0]]
    ensures forall k :: k in d.vals && k != path[0] ==> k in SetIn(d, path, x).vals && SetIn(d, path, x).vals[k] == d.vals[k]
  {
  }

  /**
   * The path lodash reads from a string `name` when writing into `root`: the name
   * itself when it holds no `.` or is already a key of `root`, otherwise the parts
   * between the dots (for the names parse accepts, made of word characters and dots).
   */
  function NamePath(root: Dict<Value>, name: string): (r: seq<string>)
    ensures |r| >= 1
  {
    if '.' in name && name !in root.vals then SplitOn(name, ".") else [name]
  }

  /** The parts of a dotted name hold no dot, and put back together with dots they give the name. */
  lemma NamePathParts(root: Dict<Value>, name: string)
    ensures forall k :: 0 <= k < |NamePath(root, name)| ==> '.' !in NamePath(root, name)[k] || NamePath(root, name) == [name]
    ensures Join(NamePath(root, name), ".") == name
  {
    if '.' in name && name !in root.vals {
      SplitPiecesLackSeparator(name, ".");
      SplitJoin(name, ".");
      forall k | 0 <= k < |NamePath(root, name)|
        ensures '.' !in NamePath(root, name)[k]
      {
        ContainsChar(NamePath(root, name)[k], '.');
      }
    }
  }
}
