/**
 * The template parser of src/lib/template.ts: a `.env.template` text is read line
 * by line; a `##` line opens a comment block whose `@required` and `@optional`
 * directives build an annotation, which the next `KEY=VAL` line binds to KEY.
 *
 * The regular expressions at src/lib/template.ts:33-39 are written out as
 * classifiers; for each one a lemma states the set of strings the expression
 * matches and which match its greedy quantifiers pick.
 */
module Template {
  import opened Wrappers
  import opened Text
  import opened Dicts
  import opened Seqs
  import opened Values
  import opened Convert

  /** ALLOWED_TYPES (src/lib/template.ts:41). */
  const AllowedTypes: seq<string> := ["string", "string[]", "number", "number[]", "boolean", "boolean[]", "json"]

  // ----- Lines: NEWLINES_MATCH (src/lib/template.ts:33, 118) -----

  predicate IsNewline(c: char) {
    c == '\n' || c == '\r'
  }

  /**
   * `src.split(/\n|\r|\r\n/)` as written. At a `\r` the alternative `\r` is tried
   * before `\r\n` and always succeeds, so every `\n` and every `\r` ends a line by
   * itself, and a `\r\n` leaves an empty line behind it (see CrlfLosesAnnotation).
   */
  function Lines(s: string): (r: seq<string>)
    ensures |r| >= 1
    decreases |s|
  {
    if |s| == 0 then [""]
    else
      var rest := Lines(s[1..]);
      if IsNewline(s[0]) then [""] + rest
      else [[s[0]] + rest[0]] + rest[1..]
  }

  /** The lines of a text joined back with `\n` are the text with every `\r` made a `\n`. */
  lemma {:induction false} LinesJoin(s: string)
    ensures Join(Lines(s), "\n") == seq(|s|, i requires 0 <= i < |s| => if IsNewline(s[i]) then '\n' else s[i])
    decreases |s|
  {
    var unified := seq(|s|, i requires 0 <= i < |s| => if IsNewline(s[i]) then '\n' else s[i]);
    if |s| >= 1 {
      LinesJoin(s[1..]);
      var rest := Lines(s[1..]);
      var tail := seq(|s| - 1, i requires 0 <= i < |s| - 1 => if IsNewline(s[1..][i]) then '\n' else s[1..][i]);
      assert unified == [unified[0]] + tail;
      if IsNewline(s[0]) {
        assert Lines(s) == [""] + rest;
        assert Join(Lines(s), "\n") == "" + "\n" + Join(rest, "\n");
      } else {
        var r := Lines(s);
        assert r == [[s[0]] + rest[0]] + rest[1..];
        if |rest| == 1 {
          assert Join(r, "\n") == [s[0]] + rest[0];
        } else {
          assert Join(rest, "\n") == rest[0] + "\n" + Join(rest[1..], "\n");
          assert r[1..] == rest[1..];
          assert Join(r, "\n") == [s[0]] + rest[0] + "\n" + Join(rest[1..], "\n");
        }
      }
    }
  }

  /** No line holds a `\n` or a `\r`. */
  lemma {:induction false} LinesHaveNoNewline(s: string)
    ensures forall k, i :: 0 <= k < |Lines(s)| && 0 <= i < |Lines(s)[k]| ==> !IsNewline(Lines(s)[k][i])
    decreases |s|
  {
    if |s| >= 1 {
      LinesHaveNoNewline(s[1..]);
    }
  }

  /** A text without newline characters is one line. */
  lemma {:induction false} LinesOfOneLine(s: string)
    requires forall i :: 0 <= i < |s| ==> !IsNewline(s[i])
    ensures Lines(s) == [s]
    decreases |s|
  {
    if |s| >= 1 {
      LinesOfOneLine(s[1..]);
      assert [s[0]] + s[1..] == s;
    }
  }

  /**
   * The split NEWLINES_MATCH evidently stands for, with its `\r\n` alternative
   * tried first: a Windows line break ends one line, and a `\n` or `\r` on its
   * own ends one line. ParsedCrlf reads templates with this split.
   */
  function SplitLines(s: string): (r: seq<string>)
    ensures |r| >= 1
    decreases |s|
  {
    if |s| == 0 then [""]
    else if |s| >= 2 && s[0] == '\r' && s[1] == '\n' then [""] + SplitLines(s[2..])
    else
      var rest := SplitLines(s[1..]);
      if IsNewline(s[0]) then [""] + rest
      else [[s[0]] + rest[0]] + rest[1..]
  }

  /** `s` with every `\r\n`, and every other `\r`, made a `\n`. */
  function ToLf(s: string): string
    decreases |s|
  {
    if |s| == 0 then ""
    else if |s| >= 2 && s[0] == '\r' && s[1] == '\n' then "\n" + ToLf(s[2..])
    else [if IsNewline(s[0]) then '\n' else s[0]] + ToLf(s[1..])
  }

  /**
   * A text with Windows line breaks is read like the same text with Unix ones:
   * its lines are those of the text with every break made a `\n`, and hold no
   * `\n` or `\r`.
   */
  lemma {:induction false} SplitLinesAsLf(s: string)
    ensures SplitLines(s) == Lines(ToLf(s))
    ensures forall k, i :: 0 <= k < |SplitLines(s)| && 0 <= i < |SplitLines(s)[k]| ==> !IsNewline(SplitLines(s)[k][i])
    decreases |s|
  {
    if |s| >= 2 && s[0] == '\r' && s[1] == '\n' {
      SplitLinesAsLf(s[2..]);
      assert ("\n" + ToLf(s[2..]))[1..] == ToLf(s[2..]);
    } else if |s| >= 1 {
      SplitLinesAsLf(s[1..]);
      var t := ToLf(s[1..]);
      assert ToLf(s)[1..] == t;
    }
    LinesHaveNoNewline(ToLf(s));
  }

  /** A `\r\n` starts at position `i` of `s`. */
  predicate CrlfAt(s: string, i: int) {
    0 <= i && i + 1 < |s| && s[i] == '\r' && s[i + 1] == '\n'
  }

  /** On a text without `\r\n` the two splits agree. */
  lemma {:induction false} SplitLinesWithoutCrlf(s: string)
    requires forall i :: !CrlfAt(s, i)
    ensures SplitLines(s) == Lines(s)
    decreases |s|
  {
    if |s| >= 1 {
      assert !CrlfAt(s, 0);
      assert forall i :: CrlfAt(s[1..], i) ==> CrlfAt(s, i + 1);
      SplitLinesWithoutCrlf(s[1..]);
    }
  }

  /** The characters of `s` are no `\n` and no `\r`. */
  predicate OneLine(s: string) {
    forall i :: 0 <= i < |s| ==> !IsNewline(s[i])
  }

  /** A `\n` or `\r` at the start: an empty line, then the lines of the rest. */
  lemma LinesAtBreak(c: char, b: string)
    requires IsNewline(c)
    ensures Lines([c] + b) == [""] + Lines(b)
  {
    assert ([c] + b)[1..] == b;
  }

  /** A line without newline characters, a `\n` or `\r`, and the rest: the line, then the lines of the rest. */
  lemma {:induction false} LinesAfterBreak(a: string, c: char, b: string)
    requires OneLine(a) && IsNewline(c)
    ensures Lines(a + ([c] + b)) == [a] + Lines(b)
    decreases |a|
  {
    if |a| == 0 {
      assert a + ([c] + b) == [c] + b;
      LinesAtBreak(c, b);
    } else {
      LinesAfterBreak(a[1..], c, b);
      assert (a + ([c] + b))[1..] == a[1..] + ([c] + b);
      assert [a[0]] + a[1..] == a;
    }
  }

  /** A text without newline characters is one line under SplitLines too. */
  lemma {:induction false} SplitLinesOfOneLine(s: string)
    requires OneLine(s)
    ensures SplitLines(s) == [s]
    decreases |s|
  {
    if |s| >= 1 {
      SplitLinesOfOneLine(s[1..]);
      assert [s[0]] + s[1..] == s;
    }
  }

  /** A line without newline characters, a `\r\n`, and the rest: the line, then the lines of the rest. */
  lemma {:induction false} SplitLinesAfterCrlf(a: string, b: string)
    requires OneLine(a)
    ensures SplitLines(a + ("\r" + ("\n" + b))) == [a] + SplitLines(b)
    decreases |a|
  {
    var s := a + ("\r" + ("\n" + b));
    if |a| == 0 {
      assert s == "\r" + ("\n" + b);
      assert s[2..] == b;
    } else {
      SplitLinesAfterCrlf(a[1..], b);
      assert s[1..] == a[1..] + ("\r" + ("\n" + b));
      assert [a[0]] + a[1..] == a;
    }
  }

  /** A template with Windows line breaks: a `##` line, the comment line `d`, and the key line `k`. */
  function CrlfTemplate(d: string, k: string): string {
    "##" + ("\r" + ("\n" + (d + ("\r" + ("\n" + k)))))
  }

  /** A line that starts with `#` is no key line: a comment line, `##` included, never counts as `KEY=VAL`. */
  lemma HashLineIsNoKey(line: string)
    ensures |line| > 0 && line[0] == '#' ==> KeyOf(line).None?
  {
    if |line| > 0 && line[0] == '#' {
      assert !IsSpace('#');
      assert TrimStart(line) == line;
    }
  }

  /** The empty line is blank and of no other kind. */
  lemma EmptyLineIsBlank()
    ensures !IsBlockStart("") && KeyOf("").None? && CommentContent("").None? && Trim("") == ""
  {
  }

  /** The lines of a CRLF template: as written, with an empty line after each `\r`; under SplitLines, one per line. */
  lemma CrlfLines(d: string, k: string)
    requires OneLine(d) && OneLine(k)
    ensures Lines(CrlfTemplate(d, k)) == ["##", "", d, "", k]
    ensures SplitLines(CrlfTemplate(d, k)) == ["##", d, k]
  {
    var t3 := "\n" + k;
    var t2 := d + ("\r" + t3);
    var t1 := "\n" + t2;
    LinesOfOneLine(k);
    LinesAtBreak('\n', k);
    LinesAfterBreak(d, '\r', t3);
    LinesAtBreak('\n', t2);
    LinesAfterBreak("##", '\r', t1);
    ConsFive("##", "", d, "", k);
    SplitLinesOfOneLine(k);
    SplitLinesAfterCrlf(d, k);
    SplitLinesAfterCrlf("##", d + ("\r" + ("\n" + k)));
    ConsThree("##", d, k);
  }

  /**
   * As written, the split leaves an empty line between every `\r` and `\n`; that
   * line closes the block before its comment line is read, so the key line
   * receives nothing, whatever the comment line holds.
   */
  lemma CrlfLosesAnnotation(update: Setter, d: string, k: string)
    requires OneLine(d) && OneLine(k) && d != "##"
    requires CommentContent(d).Some? && KeyOf(k).Some?
    ensures Lines(CrlfTemplate(d, k)) == ["##", "", d, "", k]
    ensures ParseFrom(update, Lines(CrlfTemplate(d, k)), 0, None, Empty()) == Ok(Empty())
  {
    CrlfLines(d, k);
    FiveLines(Lines(CrlfTemplate(d, k)), d, k);
    EmptyLineClosesBlock(update, Lines(CrlfTemplate(d, k)));
  }

  /** The lines of the display, one by one. */
  lemma FiveLines(lines: seq<string>, d: string, k: string)
    requires lines == ["##", "", d, "", k]
    ensures |lines| == 5 && lines[0] == "##" && lines[1] == "" && lines[2] == d && lines[3] == "" && lines[4] == k
  {
  }

  /** A `##` line, an empty line, a comment line, an empty line and a key line: the block is empty, so nothing is recorded. */
  lemma EmptyLineClosesBlock(update: Setter, lines: seq<string>)
    requires |lines| == 5 && IsBlockStart(lines[0]) && lines[1] == "" && lines[3] == ""
    requires !IsBlockStart(lines[2]) && CommentContent(lines[2]).Some? && KeyOf(lines[4]).Some?
    ensures ParseFrom(update, lines, 0, None, Empty()) == Ok(Empty())
  {
    EmptyLineIsBlank();
    assert ParseFrom(update, lines, 0, None, Empty()) == ParseFrom(update, lines, 1, None, Empty()) by {
      assert BlockFrom(update, lines, 1, NoAnnotation) == Ok((NoAnnotation, 1));
      assert Block(update, lines, 0) == Ok((None, 1));
    }
    ParseFromSkip(update, lines, 1, Empty());
    ParseFromSkip(update, lines, 2, Empty());
    ParseFromSkip(update, lines, 3, Empty());
    ParseFromSkip(update, lines, 4, Empty());
  }

  /** Parse passes over an empty line, a comment line outside a block and a key line that nothing is pending for. */
  lemma ParseFromSkip(update: Setter, lines: seq<string>, i: nat, output: Dict<Annotation>)
    requires i < |lines|
    requires lines[i] == "" || (!IsBlockStart(lines[i]) && CommentContent(lines[i]).Some?) || KeyOf(lines[i]).Some?
    ensures ParseFrom(update, lines, i, None, output) == ParseFrom(update, lines, i + 1, None, output)
  {
    QuietLine(lines[i]);
  }

  /** An empty line, a comment line other than `##` and a key line all leave parse going without an error. */
  lemma QuietLine(line: string)
    requires line == "" || (!IsBlockStart(line) && CommentContent(line).Some?) || KeyOf(line).Some?
    ensures !IsBlockStart(line) && !Unclassified(line)
  {
    EmptyLineIsBlank();
    HashLineIsNoKey(line);
  }

  /** With `\r\n` read as one break, what the comment line of a CRLF template sets reaches its key line. */
  lemma CrlfKeepsAnnotation(update: Setter, d: string, k: string, b: Annotation)
    requires OneLine(d) && OneLine(k) && d != "##"
    requires CommentContent(d).Some? && KeyOf(k).Some?
    requires update(NoAnnotation, CommentContent(d).value) == Ok(b) && b != NoAnnotation
    ensures SplitLines(CrlfTemplate(d, k)) == ["##", d, k]
    ensures ParseFrom(update, SplitLines(CrlfTemplate(d, k)), 0, None, Empty()) == Ok(Put(Empty(), KeyOf(k).value, b))
  {
    CrlfLines(d, k);
    ThreeLines(SplitLines(CrlfTemplate(d, k)), d, k);
    CommentReachesKey(update, SplitLines(CrlfTemplate(d, k)), b);
  }

  /** The lines of the display, one by one. */
  lemma ThreeLines(lines: seq<string>, d: string, k: string)
    requires lines == ["##", d, k]
    ensures |lines| == 3 && lines[0] == "##" && lines[1] == d && lines[2] == k
  {
  }

  /** A `##` line, a comment line whose update sets `b`, and a key line: the key line receives `b`. */
  lemma CommentReachesKey(update: Setter, lines: seq<string>, b: Annotation)
    requires |lines| == 3 && IsBlockStart(lines[0]) && !IsBlockStart(lines[1])
    requires CommentContent(lines[1]).Some? && KeyOf(lines[2]).Some?
    requires update(NoAnnotation, CommentContent(lines[1]).value) == Ok(b) && b != NoAnnotation
    ensures ParseFrom(update, lines, 0, None, Empty()) == Ok(Put(Empty(), KeyOf(lines[2]).value, b))
  {
    HashLineIsNoKey(lines[2]);
    OneCommentBlock(update, lines, b);
    assert ParseFrom(update, lines, 0, None, Empty()) == ParseFrom(update, lines, 2, Some(b), Empty());
    assert ParseFrom(update, lines, 2, Some(b), Empty()) == ParseFrom(update, lines, 3, None, Put(Empty(), KeyOf(lines[2]).value, b));
  }

  /** The block opened by a `##` line and holding one comment line whose update sets `b` ends at the next line that is no comment. */
  lemma OneCommentBlock(update: Setter, lines: seq<string>, b: Annotation)
    requires |lines| == 3 && CommentContent(lines[1]).Some? && CommentContent(lines[2]).None?
    requires update(NoAnnotation, CommentContent(lines[1]).value) == Ok(b) && b != NoAnnotation
    ensures Block(update, lines, 0) == Ok((Some(b), 2))
  {
    assert BlockFrom(update, lines, 2, b) == Ok((b, 2));
  }

  // ----- Line classifiers -----

  /** RE_COMMENT_BLOCK_START (src/lib/template.ts:34). */
  predicate IsBlockStart(line: string) {
    line == "##"
  }

  /**
   * A way RE_COMMENT_LINE, `^#\s*(.*)$`, matches `line`: `#`, the whitespace
   * `line[1..k]`, and the captured `line[k..]`, all of which `.` must match.
   */
  ghost predicate CommentAt(line: string, k: nat) {
    1 <= k <= |line| && line[0] == '#' && All(line[1..k], IsSpace) && NoBreaks(line[k..])
  }

  /** The group RE_COMMENT_LINE (src/lib/template.ts:35) captures; None when it does not match. */
  function CommentContent(line: string): Option<string> {
    if |line| == 0 || line[0] != '#' then None
    else
      var k := 1 + Span(line[1..], IsSpace);
      if NoBreaks(line[k..]) then Some(line[k..]) else None
  }

  /**
   * CommentContent is RE_COMMENT_LINE: it finds a capture exactly when the
   * expression matches, and the capture is the one the greedy `\s*` leaves.
   */
  lemma CommentContentMatches(line: string)
    ensures CommentContent(line).Some? <==> exists k: nat :: CommentAt(line, k)
    ensures CommentContent(line).Some? ==>
              exists k: nat :: CommentAt(line, k) && CommentContent(line).value == line[k..]
                          && forall k': nat :: CommentAt(line, k') ==> k' <= k
  {
    if |line| > 0 && line[0] == '#' {
      var k := 1 + Span(line[1..], IsSpace);
      forall k': nat | CommentAt(line, k')
        ensures k' <= k && NoBreaks(line[k..])
      {
        assert forall i :: k <= i < |line| ==> line[i] == line[k'..][i - k'];
      }
      if NoBreaks(line[k..]) {
        assert CommentAt(line, k);
      }
    }
  }

  /** `[\w.-]`, a character of a key. */
  predicate IsKeyChar(c: char) {
    IsWordChar(c) || c == '.' || c == '-'
  }

  /**
   * A way `\s*(.*)?\s*$` matches `rest`: whitespace, a part `.` matches, and
   * whitespace again.
   */
  ghost predicate ValueAt(rest: string, u: nat, v: nat) {
    u <= v <= |rest| && All(rest[..u], IsSpace) && NoBreaks(rest[u..v]) && All(rest[v..], IsSpace)
  }

  /** `\s*(.*)?\s*$` matches `rest` in some way. */
  ghost predicate ValueMatches(rest: string) {
    exists u: nat, v: nat :: ValueAt(rest, u, v)
  }

  /**
   * A way RE_INI_KEY_VAL, `^\s*([\w.-]+)\s*=\s*(.*)?\s*$`, matches `line`: the
   * key is `line[a..b]` and the `=` is at `c`.
   */
  ghost predicate KeyValAt(line: string, a: nat, b: nat, c: nat) {
    a < b <= c < |line| && All(line[..a], IsSpace) && All(line[a..b], IsKeyChar)
    && All(line[b..c], IsSpace) && line[c] == '='
    && ValueMatches(line[c + 1..])
  }

  /** The key RE_INI_KEY_VAL (src/lib/template.ts:39) captures; None when it does not match. */
  function KeyOf(line: string): Option<string> {
    KeyIn(TrimStart(line))
  }

  /** The key at the start of `s`, when `\s*=` and a value follow it. */
  function KeyIn(s: string): Option<string> {
    var n := Span(s, IsKeyChar);
    if n > 0 && IsValuePart(s[n..]) then Some(s[..n]) else None
  }

  /** `\s*=\s*(.*)?\s*$` matches `r`. */
  predicate IsValuePart(r: string) {
    var t := TrimStart(r);
    |t| > 0 && t[0] == '=' && NoBreaks(Trim(t[1..]))
  }

  /** The value part matches exactly when what is left of it after trimming has no line break. */
  lemma ValueMatchesTrimmed(rest: string)
    ensures ValueMatches(rest) <==> NoBreaks(Trim(rest))
  {
    var u0, v0 := TrimBounds(rest);
    if NoBreaks(Trim(rest)) {
      assert ValueAt(rest, u0, v0);
    }
    if ValueMatches(rest) {
      var u: nat, v: nat :| ValueAt(rest, u, v);
      TrimWithin(rest, u, v, u0, v0);
    }
  }

  /** Where the trimmed part of `rest` lies: whitespace before it and after it, and none at either of its ends. */
  lemma TrimBounds(rest: string) returns (u0: nat, v0: nat)
    ensures u0 <= v0 <= |rest| && Trim(rest) == rest[u0..v0]
    ensures All(rest[..u0], IsSpace) && All(rest[v0..], IsSpace)
    ensures u0 < v0 ==> !IsSpace(rest[u0]) && !IsSpace(rest[v0 - 1])
  {
    var front := TrimStart(rest);
    var mid := Trim(rest);
    u0 := |rest| - |front|;
    v0 := u0 + |mid|;
    assert front == rest[u0..];
    assert mid == front[..|mid|];
    assert All(rest[..u0], IsSpace) by {
      assert forall i :: 0 <= i < u0 ==> rest[..u0][i] == rest[i];
    }
    assert All(rest[v0..], IsSpace) by {
      assert forall i :: 0 <= i < |rest| - v0 ==> rest[v0..][i] == front[|mid| + i];
    }
    assert mid == rest[u0..v0];
  }

  /** Any way the value part matches, the trimmed part lies inside the part `.*` takes, so it has no line break. */
  lemma TrimWithin(rest: string, u: nat, v: nat, u0: nat, v0: nat)
    requires ValueAt(rest, u, v)
    requires u0 <= v0 <= |rest| && All(rest[..u0], IsSpace) && All(rest[v0..], IsSpace)
    requires u0 < v0 ==> !IsSpace(rest[u0]) && !IsSpace(rest[v0 - 1])
    ensures NoBreaks(rest[u0..v0])
  {
    if u0 < v0 {
      assert forall i :: 0 <= i < v0 - u0 ==> rest[u0..v0][i] == rest[u..v][u0 - u + i];
    }
  }

  /** A character of a key is no whitespace. */
  lemma KeyCharIsNoSpace(c: char)
    requires IsKeyChar(c)
    ensures !IsSpace(c)
  {
  }

  /**
   * KeyOf is RE_INI_KEY_VAL: it finds a key exactly when the expression matches,
   * and every match captures that key.
   */
  lemma KeyOfMatches(line: string)
    ensures KeyOf(line).Some? <==> exists a: nat, b: nat, c: nat :: KeyValAt(line, a, b, c)
    ensures forall a: nat, b: nat, c: nat :: KeyValAt(line, a, b, c) ==> KeyOf(line) == Some(line[a..b])
  {
    forall a: nat, b: nat, c: nat | KeyValAt(line, a, b, c)
      ensures KeyOf(line) == Some(line[a..b])
    {
      KeyValAtIsUnique(line, a, b, c);
    }
    if KeyOf(line).Some? {
      KeyOfFindsMatch(line);
    }
  }

  /** When KeyOf finds a key, RE_INI_KEY_VAL matches and captures that key. */
  lemma KeyOfFindsMatch(line: string)
    requires KeyOf(line).Some?
    ensures exists a: nat, b: nat, c: nat :: KeyValAt(line, a, b, c) && KeyOf(line) == Some(line[a..b])
  {
    var s := TrimStart(line);
    var n := Span(s, IsKeyChar);
    var r := s[n..];
    var t := TrimStart(r);
    assert n > 0 && IsValuePart(r);
    TrimStartParts(line);
    TrimStartParts(r);
    SpanPrefix(s, IsKeyChar);
    var w1, w2 := line[..|line| - |s|], r[..|r| - |t|];
    KeyValAtOfParts(line, w1, s, n, w2, t);
  }

  /** A line cut into whitespace, a key of `n` characters, whitespace and a value part is a match. */
  lemma KeyValAtOfParts(line: string, w1: string, s: string, n: nat, w2: string, t: string)
    requires w1 + s == line && n <= |s| && w2 + t == s[n..]
    requires All(w1, IsSpace) && 0 < n && All(s[..n], IsKeyChar) && All(w2, IsSpace)
    requires |t| > 0 && t[0] == '=' && NoBreaks(Trim(t[1..]))
    ensures KeyValAt(line, |w1|, |w1| + n, |w1| + n + |w2|)
    ensures line[|w1|..|w1| + n] == s[..n]
  {
    var a, b, c := |w1|, |w1| + n, |w1| + n + |w2|;
    var key := s[..n];
    assert s == key + (w2 + t);
    AppendAssoc(key, w2, t);
    AppendAssoc(w1, key, w2 + t);
    AppendAssoc(w1 + key, w2, t);
    SlicesOfFour(line, w1, key, w2, t);
    assert line[c + 1..] == line[c..][1..];
    ValueMatchesTrimmed(t[1..]);
  }

  /** Every match of RE_INI_KEY_VAL is the one KeyOf finds: the longest runs decide. */
  lemma KeyValAtIsUnique(line: string, a: nat, b: nat, c: nat)
    requires KeyValAt(line, a, b, c)
    ensures KeyOf(line) == Some(line[a..b])
  {
    KeyValAtRuns(line, a, b, c);
    ValueMatchesTrimmed(line[c + 1..]);
    KeyOfFromRuns(line, a, b, c);
  }

  /** The runs of a match are the longest ones. */
  lemma KeyValAtRuns(line: string, a: nat, b: nat, c: nat)
    requires KeyValAt(line, a, b, c)
    ensures TrimStart(line) == line[a..]
    ensures Span(line[a..], IsKeyChar) == b - a
    ensures TrimStart(line[b..]) == line[c..]
  {
    assert line[a..b][0] == line[a];
    KeyCharIsNoSpace(line[a]);
    SpanExact(line, IsSpace, a);
    KeyRunEnds(line, a, b, c);
    SpanFrom(line, IsKeyChar, a, b);
    TrimStartFrom(line, b, c);
  }

  /** The key run of a match stops at a space or at the `=`, and the space run at the `=`. */
  lemma KeyRunEnds(line: string, a: nat, b: nat, c: nat)
    requires KeyValAt(line, a, b, c)
    ensures !IsKeyChar(line[b]) && !IsSpace(line[c])
  {
    if b < c {
      assert line[b..c][0] == line[b];
      assert IsSpace(line[b]);
    }
  }


  /** KeyOf read off the runs it scans. */
  lemma KeyOfFromRuns(line: string, a: nat, b: nat, c: nat)
    requires a < b <= c < |line| && line[c] == '='
    requires TrimStart(line) == line[a..]
    requires Span(line[a..], IsKeyChar) == b - a
    requires TrimStart(line[b..]) == line[c..]
    requires NoBreaks(Trim(line[c + 1..]))
    ensures KeyOf(line) == Some(line[a..b])
  {
    ValuePartAt(line, b, c);
    SliceOfSlice(line, a, b);
    var s := line[a..];
    assert Span(s, IsKeyChar) == b - a;
    assert IsValuePart(s[b - a..]);
    assert KeyIn(s) == Some(s[..b - a]);
  }

  lemma ValuePartAt(line: string, b: nat, c: nat)
    requires b <= c < |line| && line[c] == '='
    requires TrimStart(line[b..]) == line[c..]
    requires NoBreaks(Trim(line[c + 1..]))
    ensures IsValuePart(line[b..])
  {
    assert line[c..][1..] == line[c + 1..];
  }


  // ----- Type lists: RE_TYPE_DELIMITER and getTypes (src/lib/template.ts:38, 43-53) -----

  /** `rawTypes.trim().split(RE_TYPE_DELIMITER)`. */
  function TypeList(raw: string): seq<string> {
    SplitTrimmed(Trim(raw), '|')
  }

  /** `getTypes`: the listed names in written order, when every one is allowed. */
  function GetTypes(raw: string): (r: Result<seq<string>, string>)
    ensures r.Ok? <==> forall k :: 0 <= k < |TypeList(raw)| ==> TypeList(raw)[k] in AllowedTypes
    ensures r.Ok? ==> r.value == TypeList(raw) && |r.value| >= 1
    ensures r.Err? ==> r.error == "Unknown allowed type(s)"
  {
    var types := TypeList(raw);
    if forall k :: 0 <= k < |types| ==> types[k] in AllowedTypes then Ok(types)
    else Err("Unknown allowed type(s)")
  }

  // ----- Directives: RE_ANNOTATION_REQUIRED and RE_ANNOTATION_OPTIONAL (src/lib/template.ts:36-37) -----

  /** `[\w.]`, a character of a variable name. */
  predicate IsNameChar(c: char) {
    IsWordChar(c) || c == '.'
  }

  /** A directive a comment line holds, with its captured groups. */
  datatype Directive =
    | Required(rawTypes: string, name: Option<string>)
    | Optional(rawTypes: string, name: Option<string>, rawDefault: Option<string>)

  /**
   * What follows `tag`, spaces and `{`: the part `(.+)\}...$` of either directive
   * must match. None when `content` does not start that way.
   */
  function AfterBrace(content: string, tag: string): (r: Option<string>)
    ensures r.Some? ==> |r.value| < |content|
  {
    if |tag| <= |content| && content[..|tag|] == tag then
      var rest := TrimStart(content[|tag|..]);
      if rest != "" && rest[0] == '{' then Some(rest[1..]) else None
    else None
  }

  /** The last position of `c` in `s`. */
  function LastIndex(s: string, c: char): (r: Option<nat>)
    ensures r.Some? ==> r.value < |s| && s[r.value] == c && c !in s[r.value + 1..]
    ensures r.None? ==> c !in s
  {
    if |s| == 0 then None
    else if s[|s| - 1] == c then Some(|s| - 1)
    else
      var r := LastIndex(s[..|s| - 1], c);
      assert s == s[..|s| - 1] + [s[|s| - 1]];
      r
  }

  /** The groups `\s*([\w.]+)?$` captures in `t`: the name, if any. None when it does not match. */
  function RequiredTail(t: string): Option<Option<string>> {
    var u := TrimStart(t);
    if All(u, IsNameChar) then Some(NameCapture(u)) else None
  }

  /**
   * The groups `\s*(\[([\w.]+)?(=(.*))?\])?$` captures in `t`: the name and the
   * raw default, each if any. None when it does not match.
   */
  function OptionalTail(t: string): Option<(Option<string>, Option<string>)> {
    OptionalGroup(TrimStart(t))
  }

  /** `(\[([\w.]+)?(=(.*))?\])?$` on `u`, which does not start with whitespace. */
  function OptionalGroup(u: string): Option<(Option<string>, Option<string>)> {
    if u == "" then Some((None, None))
    else if u[0] != '[' then None
    else BracketGroup(u[1..])
  }

  /** `([\w.]+)?(=(.*))?\]$` on `v`, what follows the `[`. */
  function BracketGroup(v: string): Option<(Option<string>, Option<string>)> {
    var n := Span(v, IsNameChar);
    match DefaultGroup(v[n..])
    case Some(rawDefault) => Some((if n == 0 then None else Some(v[..n]), rawDefault))
    case None => None
  }

  /** `(=(.*))?\]$` on `r`, what follows the name: the raw default, if any. */
  function DefaultGroup(r: string): Option<Option<string>> {
    if r == "]" then Some(None)
    else if 2 <= |r| && r[0] == '=' && r[|r| - 1] == ']' && NoBreaks(r[1..|r| - 1]) then Some(Some(r[1..|r| - 1]))
    else None
  }

  /** The required directive when its `(.+)\}` ends at `p` in `body`. */
  function RequiredAt(body: string, p: nat): Option<Directive> {
    if 1 <= p < |body| && body[p] == '}' && NoBreaks(body[..p]) then
      match RequiredTail(body[p + 1..])
      case Some(name) => Some(Required(body[..p], name))
      case None => None
    else None
  }

  /** The optional directive when its `(.+)\}` ends at `p` in `body`. */
  function OptionalAt(body: string, p: nat): Option<Directive> {
    if 1 <= p < |body| && body[p] == '}' && NoBreaks(body[..p]) then
      match OptionalTail(body[p + 1..])
      case Some((name, rawDefault)) => Some(Optional(body[..p], name, rawDefault))
      case None => None
    else None
  }

  /** The largest position below `limit` that satisfies `ok`, the way a greedy quantifier backtracks. */
  function LastWhere(limit: nat, ok: nat -> bool): (r: Option<nat>)
    ensures r.Some? ==> r.value < limit && ok(r.value)
    ensures r.Some? ==> forall q: nat :: r.value < q < limit ==> !ok(q)
    ensures r.None? ==> forall q: nat :: q < limit ==> !ok(q)
  {
    if limit == 0 then None
    else if ok(limit - 1) then Some(limit - 1)
    else LastWhere(limit - 1, ok)
  }

  /** RE_ANNOTATION_REQUIRED on what follows its `{`: the greedy `(.+)` ends at the last `}`. */
  function RequiredIn(body: string): Option<Directive> {
    match LastIndex(body, '}')
    case Some(p) => RequiredAt(body, p)
    case None => None
  }

  /** RE_ANNOTATION_OPTIONAL on what follows its `{`: the greedy `(.+)` ends at the last `}` the rest can follow. */
  function OptionalIn(body: string): Option<Directive> {
    match LastWhere(|body|, OptionalSplits(body))
    case Some(p) => OptionalAt(body, p)
    case None => None
  }

  /** The positions at which OptionalAt accepts `body`. */
  function OptionalSplits(body: string): nat -> bool {
    (q: nat) => OptionalAt(body, q).Some?
  }

  /** `content.match(RE_ANNOTATION_REQUIRED)`, then `content.match(RE_ANNOTATION_OPTIONAL)` (src/lib/template.ts:58, 73). */
  function ParseDirective(content: string): Option<Directive> {
    match AfterBrace(content, "@required")
    case Some(body) => RequiredIn(body)
    case None =>
      match AfterBrace(content, "@optional")
      case Some(body) => OptionalIn(body)
      case None => None
  }

  // ----- The directive classifiers against their regular expressions -----

  /** A character of a name is no whitespace. */
  lemma NameCharIsNoSpace(c: char)
    requires IsNameChar(c)
    ensures !IsSpace(c)
  {
  }

  /** Whitespace followed by a string that does not start with whitespace trims to that string. */
  lemma TrimStartOf(w: string, u: string)
    requires All(w, IsSpace)
    requires u != "" ==> !IsSpace(u[0])
    ensures TrimStart(w + u) == u
  {
    var s := w + u;
    assert s[..|w|] == w;
    if u != "" {
      assert s[|w|] == u[0];
    }
    SpanExact(s, IsSpace, |w|);
    assert s[|w|..] == u;
  }

  /** AfterBrace finds the text after `tag`, whitespace and `{`. */
  lemma AfterBraceOf(tag: string, w: string, body: string)
    requires All(w, IsSpace)
    ensures AfterBrace(tag + w + "{" + body, tag) == Some(body)
  {
    var content := tag + w + "{" + body;
    assert content[..|tag|] == tag;
    assert content[|tag|..] == w + ("{" + body);
    TrimStartOf(w, "{" + body);
  }

  /** What AfterBrace finds follows `tag`, whitespace and `{`. */
  lemma AfterBraceSound(content: string, tag: string) returns (w: string)
    requires AfterBrace(content, tag).Some?
    ensures content == tag + w + "{" + AfterBrace(content, tag).value && All(w, IsSpace)
  {
    var body := AfterBrace(content, tag).value;
    var after := content[|tag|..];
    var rest := TrimStart(after);
    TrimStartParts(after);
    w := after[..|after| - |rest|];
    assert rest == "{" + body;
    assert content == content[..|tag|] + after;
  }

  /** RequiredTail reads whitespace followed by a name. */
  lemma RequiredTailOf(sp: string, n: string)
    requires All(sp, IsSpace) && All(n, IsNameChar)
    ensures RequiredTail(sp + n) == Some(NameCapture(n))
  {
    if n != "" {
      NameCharIsNoSpace(n[0]);
    }
    TrimStartOf(sp, n);
  }

  /** What RequiredTail accepts is whitespace followed by a name, and holds no `}`. */
  lemma RequiredTailSound(t: string)
    requires RequiredTail(t).Some?
    ensures var n := TrimStart(t);
            t == t[..|t| - |n|] + n && All(t[..|t| - |n|], IsSpace) && All(n, IsNameChar)
            && RequiredTail(t).value == NameCapture(n)
    ensures '}' !in t
  {
    TrimStartParts(t);
    var n := TrimStart(t);
    var w := t[..|t| - |n|];
    assert forall i :: 0 <= i < |t| ==> t[i] == if i < |w| then w[i] else n[i - |w|];
  }

  /** What follows the name in a bracket group: `]`, or `=DEFAULT]`. */
  function DefaultText(rawDefault: Option<string>): string {
    if rawDefault.Some? then "=" + rawDefault.value + "]" else "]"
  }

  /** The bracket group of the optional directive: `[NAME]` or `[NAME=DEFAULT]`. */
  function Bracket(n: string, rawDefault: Option<string>): string {
    "[" + n + DefaultText(rawDefault)
  }

  /** The capture of a name: `undefined` when the optional group `([\w.]+)?` matched nothing. */
  function NameCapture(n: string): Option<string> {
    if n == "" then None else Some(n)
  }

  /** DefaultGroup reads `]` and `=DEFAULT]`, and nothing else. */
  lemma DefaultGroupMatches(r: string, rawDefault: Option<string>)
    ensures DefaultGroup(r) == Some(rawDefault) <==> r == DefaultText(rawDefault) && (rawDefault.Some? ==> NoBreaks(rawDefault.value))
  {
    if r == DefaultText(rawDefault) && rawDefault.Some? {
      assert r[1..|r| - 1] == rawDefault.value;
    }
    if DefaultGroup(r) == Some(rawDefault) && rawDefault.Some? {
      assert r == "=" + r[1..|r| - 1] + "]";
    }
  }

  /** BracketGroup reads a name and the default text after it. */
  lemma BracketGroupOf(n: string, rawDefault: Option<string>)
    requires All(n, IsNameChar)
    requires rawDefault.Some? ==> NoBreaks(rawDefault.value)
    ensures BracketGroup(n + DefaultText(rawDefault)) == Some((NameCapture(n), rawDefault))
  {
    var v := n + DefaultText(rawDefault);
    assert v[..|n|] == n;
    assert v[|n|] == DefaultText(rawDefault)[0];
    SpanExact(v, IsNameChar, |n|);
    assert v[|n|..] == DefaultText(rawDefault);
    DefaultGroupMatches(DefaultText(rawDefault), rawDefault);
  }

  /** What BracketGroup accepts is a name followed by the default text. */
  lemma BracketGroupSound(v: string)
    requires BracketGroup(v).Some?
    ensures var n := v[..Span(v, IsNameChar)];
            var (name, rawDefault) := BracketGroup(v).value;
            v == n + DefaultText(rawDefault) && All(n, IsNameChar) && name == NameCapture(n)
            && (rawDefault.Some? ==> NoBreaks(rawDefault.value))
  {
    var k := Span(v, IsNameChar);
    SpanPrefix(v, IsNameChar);
    DefaultGroupMatches(v[k..], BracketGroup(v).value.1);
    assert v == v[..k] + v[k..];
  }

  /** OptionalTail reads whitespace alone. */
  lemma OptionalTailOfSpace(sp: string)
    requires All(sp, IsSpace)
    ensures OptionalTail(sp) == Some((None, None))
  {
    TrimStartOf(sp, "");
    assert sp + "" == sp;
  }

  /** OptionalTail reads whitespace followed by a bracket group. */
  lemma OptionalTailOfBracket(sp: string, n: string, rawDefault: Option<string>)
    requires All(sp, IsSpace) && All(n, IsNameChar)
    requires rawDefault.Some? ==> NoBreaks(rawDefault.value)
    ensures OptionalTail(sp + Bracket(n, rawDefault)) == Some((NameCapture(n), rawDefault))
  {
    TrimStartOf(sp, Bracket(n, rawDefault));
    OptionalGroupOf(n, rawDefault);
  }

  lemma OptionalGroupOf(n: string, rawDefault: Option<string>)
    requires All(n, IsNameChar)
    requires rawDefault.Some? ==> NoBreaks(rawDefault.value)
    ensures OptionalGroup(Bracket(n, rawDefault)) == Some((NameCapture(n), rawDefault))
  {
    assert Bracket(n, rawDefault)[1..] == n + DefaultText(rawDefault);
    BracketGroupOf(n, rawDefault);
  }

  /** What OptionalTail accepts is whitespace, then nothing or a bracket group holding its captures. */
  lemma OptionalTailSound(t: string)
    requires OptionalTail(t).Some?
    ensures var u := TrimStart(t);
            var w := t[..|t| - |u|];
            var (name, rawDefault) := OptionalTail(t).value;
            t == w + u && All(w, IsSpace)
            && (u == "" ==> name.None? && rawDefault.None?)
            && (u != "" ==> exists n: string :: u == Bracket(n, rawDefault) && All(n, IsNameChar) && name == NameCapture(n))
            && (rawDefault.Some? ==> NoBreaks(rawDefault.value))
  {
    TrimStartParts(t);
    var u := TrimStart(t);
    if u != "" {
      OptionalGroupSound(u);
      var v := u[1..];
      var n := v[..Span(v, IsNameChar)];
      assert u == Bracket(n, OptionalTail(t).value.1);
    }
  }

  /** What OptionalGroup accepts, when not empty, is a bracket group holding its captures. */
  lemma OptionalGroupSound(u: string)
    requires u != "" && OptionalGroup(u).Some?
    ensures var v := u[1..];
            var n := v[..Span(v, IsNameChar)];
            var (name, rawDefault) := OptionalGroup(u).value;
            u == Bracket(n, rawDefault) && All(n, IsNameChar) && name == NameCapture(n)
            && (rawDefault.Some? ==> NoBreaks(rawDefault.value))
  {
    var v := u[1..];
    assert OptionalGroup(u) == BracketGroup(v);
    BracketGroupSound(v);
    var n := v[..Span(v, IsNameChar)];
    var rawDefault := BracketGroup(v).value.1;
    assert u == [u[0]] + v;
    AppendAssoc("[", n, DefaultText(rawDefault));
  }

  /**
   * A way RE_ANNOTATION_REQUIRED matches `content`: `@required`, whitespace `w`,
   * `{`, the types, `}`, whitespace `sp` and the name `n`, which may be empty.
   */
  ghost predicate RequiredMatch(content: string, w: string, types: string, sp: string, n: string) {
    content == "@required" + w + "{" + types + "}" + (sp + n)
    && All(w, IsSpace) && |types| >= 1 && NoBreaks(types) && All(sp, IsSpace) && All(n, IsNameChar)
  }

  /**
   * A way RE_ANNOTATION_OPTIONAL matches `content`: `@optional`, whitespace `w`,
   * `{`, the types, `}`, whitespace `sp` and, when `bracket` holds, a bracket
   * group with the name `n` and the raw default.
   */
  ghost predicate OptionalMatch(content: string, w: string, types: string, sp: string, bracket: bool, n: string, rawDefault: Option<string>) {
    content == "@optional" + w + "{" + types + "}" + OptionalRest(sp, bracket, n, rawDefault)
    && All(w, IsSpace) && |types| >= 1 && NoBreaks(types) && All(sp, IsSpace) && All(n, IsNameChar)
    && (!bracket ==> n == "" && rawDefault.None?)
    && (rawDefault.Some? ==> NoBreaks(rawDefault.value))
  }

  /** A `}` that no `}` follows is the last one. */
  lemma LastIndexAt(body: string, p: nat)
    requires p < |body| && body[p] == '}' && '}' !in body[p + 1..]
    ensures LastIndex(body, '}') == Some(p)
  {
  }

  /** Whitespace and name characters hold no `}`. */
  lemma NoBraceIn(sp: string, n: string)
    requires All(sp, IsSpace) && All(n, IsNameChar)
    ensures '}' !in sp + n
  {
    assert forall i :: 0 <= i < |sp + n| ==> (sp + n)[i] == if i < |sp| then sp[i] else n[i - |sp|];
  }

  /** RequiredIn reads the types, `}`, whitespace and a name. */
  lemma RequiredInOf(types: string, sp: string, n: string)
    requires |types| >= 1 && NoBreaks(types) && All(sp, IsSpace) && All(n, IsNameChar)
    ensures RequiredIn(types + "}" + (sp + n)) == Some(Required(types, NameCapture(n)))
  {
    var body := types + "}" + (sp + n);
    NoBraceIn(sp, n);
    var p := |types|;
    assert body[p + 1..] == sp + n;
    assert body[..p] == types;
    LastIndexAt(body, p);
    RequiredTailOf(sp, n);
  }

  /** What RequiredIn reads: the types, then `}`, then a tail RequiredTail accepts. */
  lemma RequiredInSound(body: string, types: string, name: Option<string>)
    requires RequiredIn(body) == Some(Required(types, name))
    ensures 1 <= |types| < |body| && body[..|types|] == types && body[|types|] == '}' && NoBreaks(types)
    ensures RequiredTail(body[|types| + 1..]) == Some(name)
  {
  }

  /** Every way RE_ANNOTATION_REQUIRED matches gives the directive ParseDirective reads. */
  lemma RequiredComplete(content: string, w: string, types: string, sp: string, n: string)
    requires RequiredMatch(content, w, types, sp, n)
    ensures ParseDirective(content) == Some(Required(types, NameCapture(n)))
  {
    var body := types + "}" + (sp + n);
    Regroup("@required", w, body, types, sp + n);
    AfterBraceOf("@required", w, body);
    RequiredInOf(types, sp, n);
  }

  /** OptionalIn reads only optional directives. */
  lemma OptionalInIsOptional(body: string)
    ensures OptionalIn(body).Some? ==> OptionalIn(body).value.Optional?
  {
  }

  /** What ParseDirective reads as a required directive is a match of RE_ANNOTATION_REQUIRED with those captures. */
  lemma RequiredSound(content: string, types: string, name: Option<string>)
    requires ParseDirective(content) == Some(Required(types, name))
    ensures exists w: string, sp: string, n: string :: RequiredMatch(content, w, types, sp, n) && name == NameCapture(n)
  {
    var body := AfterBrace(content, "@required").value;
    var w := AfterBraceSound(content, "@required");
    var sp, n := RequiredInParts(body, types, name);
    Regroup("@required", w, body, types, sp + n);
    assert RequiredMatch(content, w, types, sp, n);
  }

  /** What RequiredIn reads, cut into the types, `}`, whitespace and a name. */
  lemma RequiredInParts(body: string, types: string, name: Option<string>) returns (sp: string, n: string)
    requires RequiredIn(body) == Some(Required(types, name))
    ensures body == types + "}" + (sp + n) && |types| >= 1 && NoBreaks(types) && All(sp, IsSpace) && All(n, IsNameChar)
    ensures name == NameCapture(n)
  {
    RequiredInSound(body, types, name);
    sp, n := RequiredAtParts(body, types, name);
  }

  /** A `}` after the types, followed by what RequiredTail accepts, cut into its parts. */
  lemma RequiredAtParts(body: string, types: string, name: Option<string>) returns (sp: string, n: string)
    requires 1 <= |types| < |body| && body[..|types|] == types && body[|types|] == '}' && NoBreaks(types)
    requires RequiredTail(body[|types| + 1..]) == Some(name)
    ensures body == types + "}" + (sp + n) && All(sp, IsSpace) && All(n, IsNameChar)
    ensures name == NameCapture(n)
  {
    var tail := body[|types| + 1..];
    RequiredTailSound(tail);
    n := TrimStart(tail);
    sp := tail[..|tail| - |n|];
    BodyAt(body, |types|, types, tail);
  }

  /** Associativity, for a directive cut into its parts. */
  lemma Regroup(tag: string, w: string, body: string, types: string, tail: string)
    requires body == types + "}" + tail
    ensures tag + w + "{" + body == tag + w + "{" + types + "}" + tail
  {
  }

  /** The text after the `}` of an optional directive: whitespace, then the bracket group if there is one. */
  function OptionalRest(sp: string, bracket: bool, n: string, rawDefault: Option<string>): string {
    sp + (if bracket then Bracket(n, rawDefault) else "")
  }

  /** OptionalAt reads the types, `}` and a tail of the optional directive. */
  lemma OptionalAtOf(types: string, sp: string, bracket: bool, n: string, rawDefault: Option<string>)
    requires |types| >= 1 && NoBreaks(types) && All(sp, IsSpace) && All(n, IsNameChar)
    requires !bracket ==> n == "" && rawDefault.None?
    requires rawDefault.Some? ==> NoBreaks(rawDefault.value)
    ensures OptionalAt(types + "}" + OptionalRest(sp, bracket, n, rawDefault), |types|)
            == Some(Optional(types, NameCapture(n), rawDefault))
  {
    var tail := OptionalRest(sp, bracket, n, rawDefault);
    var body := types + "}" + tail;
    assert body[|types|] == '}';
    assert body[..|types|] == types;
    assert body[|types| + 1..] == tail;
    if bracket {
      OptionalTailOfBracket(sp, n, rawDefault);
    } else {
      assert tail == sp;
      OptionalTailOfSpace(sp);
    }
  }

  /** What OptionalAt reads, cut into the types, `}`, whitespace and the bracket group if any. */
  lemma OptionalAtParts(body: string, p: nat, types: string, name: Option<string>, rawDefault: Option<string>)
    returns (sp: string, bracket: bool, n: string)
    requires OptionalAt(body, p) == Some(Optional(types, name, rawDefault))
    ensures body == types + "}" + OptionalRest(sp, bracket, n, rawDefault)
    ensures |types| >= 1 && NoBreaks(types) && All(sp, IsSpace) && All(n, IsNameChar)
    ensures (!bracket ==> n == "" && rawDefault.None?) && (rawDefault.Some? ==> NoBreaks(rawDefault.value))
    ensures name == NameCapture(n)
  {
    OptionalAtSound(body, p, types, name, rawDefault);
    var tail := body[p + 1..];
    sp, bracket, n := OptionalTailParts(tail, name, rawDefault);
    BodyAt(body, p, types, tail);
  }

  /** What OptionalAt reads: the types up to `p`, `}` at `p`, then a tail OptionalTail accepts. */
  lemma OptionalAtSound(body: string, p: nat, types: string, name: Option<string>, rawDefault: Option<string>)
    requires OptionalAt(body, p) == Some(Optional(types, name, rawDefault))
    ensures 1 <= p < |body| && body[p] == '}' && body[..p] == types && NoBreaks(types)
    ensures OptionalTail(body[p + 1..]) == Some((name, rawDefault))
  {
  }

  /** A body whose `}` is at `p` is the types before it, `}` and the tail after it. */
  lemma BodyAt(body: string, p: nat, types: string, tail: string)
    requires p < |body| && body[p] == '}' && body[..p] == types && tail == body[p + 1..]
    ensures body == types + "}" + tail
  {
    assert body == body[..p] + [body[p]] + tail;
  }

  /** What OptionalTail accepts, cut into whitespace and the bracket group if any. */
  lemma OptionalTailParts(tail: string, name: Option<string>, rawDefault: Option<string>)
    returns (sp: string, bracket: bool, n: string)
    requires OptionalTail(tail) == Some((name, rawDefault))
    ensures tail == OptionalRest(sp, bracket, n, rawDefault)
    ensures All(sp, IsSpace) && All(n, IsNameChar)
    ensures (!bracket ==> n == "" && rawDefault.None?) && (rawDefault.Some? ==> NoBreaks(rawDefault.value))
    ensures name == NameCapture(n)
  {
    OptionalTailSound(tail);
    var u := TrimStart(tail);
    sp := tail[..|tail| - |u|];
    if u == "" {
      bracket, n := false, "";
    } else {
      bracket := true;
      n :| u == Bracket(n, rawDefault) && All(n, IsNameChar) && name == NameCapture(n);
    }
  }

  /** Text starting with `@optional` is no required directive. */
  lemma NotRequired(content: string)
    requires |content| >= 9 && content[..9] == "@optional"
    ensures AfterBrace(content, "@required").None?
  {
    assert content[..9][1] == 'o';
  }

  /**
   * Every way RE_ANNOTATION_OPTIONAL matches makes ParseDirective read an optional
   * directive, whose types are at least as long as that match's: the greedy `(.+)`.
   */
  lemma OptionalMatched(content: string, w: string, types: string, sp: string, bracket: bool, n: string, rawDefault: Option<string>)
    requires OptionalMatch(content, w, types, sp, bracket, n, rawDefault)
    ensures ParseDirective(content).Some? && ParseDirective(content).value.Optional?
    ensures |types| <= |ParseDirective(content).value.rawTypes|
  {
    var body := types + "}" + OptionalRest(sp, bracket, n, rawDefault);
    Regroup("@optional", w, body, types, OptionalRest(sp, bracket, n, rawDefault));
    NotRequired(content);
    AfterBraceOf("@optional", w, body);
    OptionalAtOf(types, sp, bracket, n, rawDefault);
    OptionalInLongest(body, |types|);
  }

  /** OptionalIn ends the types at the last position that OptionalAt accepts. */
  lemma OptionalInLongest(body: string, p: nat)
    requires OptionalAt(body, p).Some?
    ensures OptionalIn(body).Some? && OptionalIn(body).value.Optional?
    ensures p <= |OptionalIn(body).value.rawTypes|
  {
    assert OptionalSplits(body)(p);
    assert LastWhere(|body|, OptionalSplits(body)).Some?;
    var q := OptionalInAt(body);
    OptionalAtShape(body, q);
  }

  /** The position OptionalIn ends the types at, and no later one is accepted. */
  lemma OptionalInAt(body: string) returns (p: nat)
    requires OptionalIn(body).Some?
    ensures OptionalIn(body) == OptionalAt(body, p) && OptionalAt(body, p).Some?
    ensures forall q: nat :: p < q < |body| ==> OptionalAt(body, q).None?
  {
    var r := LastWhere(|body|, OptionalSplits(body));
    p := r.value;
    forall q: nat | p < q < |body|
      ensures OptionalAt(body, q).None?
    {
      assert !OptionalSplits(body)(q);
    }
  }

  /** OptionalAt at `q` cuts the types at `q`. */
  lemma OptionalAtShape(body: string, q: nat)
    requires OptionalAt(body, q).Some?
    ensures q < |body| && OptionalAt(body, q).value.Optional? && OptionalAt(body, q).value.rawTypes == body[..q]
  {
  }

  /**
   * What ParseDirective reads as an optional directive is a match of
   * RE_ANNOTATION_OPTIONAL with those captures; with OptionalMatched, its types
   * are the longest any match has.
   */
  lemma OptionalSound(content: string, types: string, name: Option<string>, rawDefault: Option<string>)
    requires ParseDirective(content) == Some(Optional(types, name, rawDefault))
    ensures exists w: string, sp: string, bracket: bool, n: string ::
              OptionalMatch(content, w, types, sp, bracket, n, rawDefault) && name == NameCapture(n)
  {
    ParseDirectiveOptional(content, types, name, rawDefault);
    OptionalMatchOf(content, AfterBrace(content, "@optional").value, types, name, rawDefault);
  }

  /** ParseDirective reads an optional directive only where RE_ANNOTATION_REQUIRED does not start. */
  lemma ParseDirectiveOptional(content: string, types: string, name: Option<string>, rawDefault: Option<string>)
    requires ParseDirective(content) == Some(Optional(types, name, rawDefault))
    ensures AfterBrace(content, "@optional").Some?
    ensures OptionalIn(AfterBrace(content, "@optional").value) == Some(Optional(types, name, rawDefault))
  {
  }

  /** The match of RE_ANNOTATION_OPTIONAL an optional directive comes from. */
  lemma OptionalMatchOf(content: string, body: string, types: string, name: Option<string>, rawDefault: Option<string>)
    requires AfterBrace(content, "@optional") == Some(body)
    requires OptionalIn(body) == Some(Optional(types, name, rawDefault))
    ensures exists w: string, sp: string, bracket: bool, n: string ::
              OptionalMatch(content, w, types, sp, bracket, n, rawDefault) && name == NameCapture(n)
  {
    var w := AfterBraceSound(content, "@optional");
    var sp, bracket, n := OptionalInParts(body, types, name, rawDefault);
    Regroup("@optional", w, body, types, OptionalRest(sp, bracket, n, rawDefault));
    assert OptionalMatch(content, w, types, sp, bracket, n, rawDefault);
  }

  /** What OptionalIn reads, cut into the types, `}`, whitespace and the bracket group if any. */
  lemma OptionalInParts(body: string, types: string, name: Option<string>, rawDefault: Option<string>)
    returns (sp: string, bracket: bool, n: string)
    requires OptionalIn(body) == Some(Optional(types, name, rawDefault))
    ensures body == types + "}" + OptionalRest(sp, bracket, n, rawDefault)
    ensures |types| >= 1 && NoBreaks(types) && All(sp, IsSpace) && All(n, IsNameChar)
    ensures (!bracket ==> n == "" && rawDefault.None?) && (rawDefault.Some? ==> NoBreaks(rawDefault.value))
    ensures name == NameCapture(n)
  {
    var p := OptionalInAt(body);
    sp, bracket, n := OptionalAtParts(body, p, types, name, rawDefault);
  }

  // ----- Annotations: setAnnotation (src/lib/template.ts:7-12, 55-92) -----

  /** TemplateVarAnnotation: `undefined` fields are None. */
  datatype Annotation = Annotation(required: Option<bool>, types: Option<seq<string>>, name: Option<string>, defaultValue: Option<Value>)

  /** `{}`, the annotation a comment block starts from. */
  const NoAnnotation: Annotation := Annotation(None, None, None, None)

  const ConflictMessage: string := "The variable cannot be both required and optional"

  /** What an annotation built from directives always satisfies. */
  predicate Sound(a: Annotation) {
    && a.required.Some? && a.types.Some? && |a.types.value| >= 1
    && (forall k :: 0 <= k < |a.types.value| ==> a.types.value[k] in AllowedTypes)
    && (a.required == Some(true) ==> a.defaultValue.None?)
  }

  /**
   * `setAnnotation(annotation, content)`: the annotation after one comment line
   * whose text is `content`, or the message of the error it throws.
   */
  function SetAnnotation(host: Host, a: Annotation, content: string): Result<Annotation, string> {
    Apply(host, a, ParseDirective(content))
  }

  /** The effect of the directive a comment line holds, if any, on the annotation built so far. */
  function Apply(host: Host, a: Annotation, directive: Option<Directive>): (r: Result<Annotation, string>)
    ensures directive.None? ==> r == Ok(a)
    ensures directive.Some? && Conflicts(a, directive.value) ==> r == Err(ConflictMessage)
    ensures directive.Some? && !Conflicts(a, directive.value) && GetTypes(directive.value.rawTypes).Err? ==>
              r == Err("Unknown allowed type(s)")
    ensures directive.Some? && !Conflicts(a, directive.value) && GetTypes(directive.value.rawTypes).Ok? &&
            directive.value.Optional? && directive.value.rawDefault.Some? &&
            Converted(host, directive.value.rawDefault.value, TypeList(directive.value.rawTypes)).Err? ==>
              r == Err(Converted(host, directive.value.rawDefault.value, TypeList(directive.value.rawTypes)).error.message)
    ensures directive.Some? ==>
              (r.Ok? <==> !Conflicts(a, directive.value) && GetTypes(directive.value.rawTypes).Ok? &&
                          (directive.value.Optional? && directive.value.rawDefault.Some? ==>
                             Converted(host, directive.value.rawDefault.value, TypeList(directive.value.rawTypes)).Ok?))
    ensures directive.Some? && r.Ok? ==>
              r.value.types == Some(TypeList(directive.value.rawTypes)) && r.value.name == directive.value.name
  {
    match directive
    case None => Ok(a)
    case Some(Required(raw, name)) =>
      if a.required == Some(false) then Err(ConflictMessage)
      else
        (match GetTypes(raw)
         case Err(e) => Err(e)
         case Ok(types) => Ok(a.(required := Some(true), types := Some(types), name := name)))
    case Some(Optional(raw, name, rawDefault)) =>
      if a.required == Some(true) then Err(ConflictMessage)
      else
        match GetTypes(raw)
        case Err(e) => Err(e)
        case Ok(types) =>
          match rawDefault
          case None => Ok(a.(required := Some(false), types := Some(types), name := name, defaultValue := None))
          case Some(d) =>
            match Converted(host, d, types)
            case Err(e) => Err(e.message)
            case Ok(v) => Ok(a.(required := Some(false), types := Some(types), name := name, defaultValue := Some(v)))
  }

  /** `@required` after `@optional`, or `@optional` after `@required`, in one block (src/lib/template.ts:61-63, 76-78). */
  predicate Conflicts(a: Annotation, d: Directive) {
    (d.Required? && a.required == Some(false)) || (d.Optional? && a.required == Some(true))
  }

  /** A directive read into an empty or sound annotation leaves a sound one. */
  lemma ApplySound(host: Host, a: Annotation, d: Directive)
    requires a == NoAnnotation || Sound(a)
    requires Apply(host, a, Some(d)).Ok?
    ensures Sound(Apply(host, a, Some(d)).value)
  {
    assert GetTypes(d.rawTypes).Ok?;
    if d.Required? {
      assert a.required != Some(false);
      if a != NoAnnotation {
        assert Sound(a);
        assert a.required.Some?;
        assert a.required.value;
        assert a.required == Some(true);
      }
    }
  }

  /** A required directive sets `required` and keeps the default; an optional one sets the default exactly when it has `=`. */
  lemma ApplyDefault(host: Host, a: Annotation, d: Directive)
    requires Apply(host, a, Some(d)).Ok?
    ensures var r := Apply(host, a, Some(d)).value;
            match d
            case Required(_, _) => r.required == Some(true) && r.defaultValue == a.defaultValue
            case Optional(_, _, rawDefault) =>
              && r.required == Some(false)
              && (rawDefault.None? ==> r.defaultValue.None?)
              && (rawDefault.Some? ==> r.defaultValue == Some(Converted(host, rawDefault.value, r.types.value).value))
  {
  }

  /** Of two directives of the same kind, the second decides the types and the name, and the two never conflict. */
  lemma ApplyLastWins(host: Host, a: Annotation, first: Directive, second: Directive)
    requires first.Required? == second.Required?
    requires Apply(host, a, Some(first)).Ok?
    ensures var b := Apply(host, a, Some(first)).value;
            var r := Apply(host, b, Some(second));
            && (r.Ok? ==> r.value.types == Some(TypeList(second.rawTypes)) && r.value.name == second.name)
            && (GetTypes(second.rawTypes).Ok? && (second.Optional? ==> second.rawDefault.None?) ==> r.Ok?)
  {
    var b := Apply(host, a, Some(first)).value;
    assert b.required == Some(first.Required?) by {
      ApplyDefault(host, a, first);
    }
  }

  // ----- parseCommentBlock (src/lib/template.ts:94-112) -----

  /**
   * What reading one comment line does to the annotation being built. The block
   * reader and the parser take it as a parameter; the template parser proper
   * uses SetterOf(host), which is setAnnotation.
   */
  type Setter = (Annotation, string) -> Result<Annotation, string>

  /** `setAnnotation`, converting defaults with `host`. */
  function SetterOf(host: Host): Setter {
    (a: Annotation, content: string) => SetAnnotation(host, a, content)
  }

  lemma SetterOfIs(host: Host, a: Annotation, content: string)
    ensures SetterOf(host)(a, content) == SetAnnotation(host, a, content)
  {
  }

  /** The text `Failed to parse template: Ln <n>: ` for the 0-based line `i`. */
  function LinePrefix(i: nat): string {
    "Failed to parse template: Ln " + NatToString(i + 1) + ": "
  }

  /**
   * The comment lines from `i` on, read into `a`: the annotation and the index of the
   * first line that is not a comment, or the message for the first line whose update fails.
   */
  function BlockFrom(update: Setter, lines: seq<string>, i: nat, a: Annotation): (r: Result<(Annotation, nat), string>)
    requires i <= |lines|
    ensures r.Ok? ==> i <= r.value.1 <= |lines|
    decreases |lines| - i
  {
    if i == |lines| then Ok((a, i))
    else
      match CommentContent(lines[i])
      case None => Ok((a, i))
      case Some(content) =>
        match update(a, content)
        case Err(m) => Err(LinePrefix(i) + m)
        case Ok(b) => BlockFrom(update, lines, i + 1, b)
  }

  /** The block opened by the `##` line at `start`: its annotation (None when nothing was update) and where it ends. */
  function Block(update: Setter, lines: seq<string>, start: nat): (r: Result<(Option<Annotation>, nat), string>)
    requires start < |lines|
    ensures r.Ok? ==> start < r.value.1 <= |lines|
  {
    match BlockFrom(update, lines, start + 1, NoAnnotation)
    case Err(m) => Err(m)
    case Ok((a, next)) => Ok((if a == NoAnnotation then None else Some(a), next))
  }

  /** `parseCommentBlock`, with `update` standing for setAnnotation. */
  method ParseCommentBlock(update: Setter, lines: seq<string>, start: nat) returns (r: Result<(Option<Annotation>, nat), string>)
    requires start < |lines|
    ensures r == Block(update, lines, start)
  {
    var annotation := NoAnnotation;
    var i := start + 1;
    while i < |lines|
      invariant start + 1 <= i <= |lines|
      invariant BlockFrom(update, lines, i, annotation) == BlockFrom(update, lines, start + 1, NoAnnotation)
      decreases |lines| - i
    {
      var matchCommentLine := CommentContent(lines[i]);
      if matchCommentLine.None? {
        break;
      }
      var next := update(annotation, matchCommentLine.value);
      if next.Err? {
        return Err(LinePrefix(i) + next.error);
      }
      annotation := next.value;
      i := i + 1;
    }
    return Ok((if annotation == NoAnnotation then None else Some(annotation), i));
  }

  /** A block runs over consecutive comment lines and stops at the first line that is no comment, or at the end. */
  lemma {:induction false} BlockFromExtent(update: Setter, lines: seq<string>, i: nat, a: Annotation)
    requires i <= |lines|
    requires BlockFrom(update, lines, i, a).Ok?
    ensures var next := BlockFrom(update, lines, i, a).value.1;
            && (forall j :: i <= j < next ==> CommentContent(lines[j]).Some?)
            && (next < |lines| ==> CommentContent(lines[next]).None?)
    decreases |lines| - i
  {
    if i < |lines| && CommentContent(lines[i]).Some? {
      BlockFromExtent(update, lines, i + 1, update(a, CommentContent(lines[i]).value).value);
    }
  }

  /** Comment lines without a directive leave the annotation as it was. */
  lemma {:induction false} BlockFromWithoutDirectives(host: Host, lines: seq<string>, i: nat, a: Annotation)
    requires i <= |lines|
    requires forall j :: i <= j < |lines| && CommentContent(lines[j]).Some? ==> ParseDirective(CommentContent(lines[j]).value).None?
    ensures BlockFrom(SetterOf(host), lines, i, a).Ok? && BlockFrom(SetterOf(host), lines, i, a).value.0 == a
    decreases |lines| - i
  {
    if i < |lines| && CommentContent(lines[i]).Some? {
      SetterOfIs(host, a, CommentContent(lines[i]).value);
      BlockFromWithoutDirectives(host, lines, i + 1, a);
    }
  }

  /** Reading a block keeps an empty or sound annotation so. */
  lemma {:induction false} BlockFromSound(host: Host, lines: seq<string>, i: nat, a: Annotation)
    requires i <= |lines|
    requires a == NoAnnotation || Sound(a)
    requires BlockFrom(SetterOf(host), lines, i, a).Ok?
    ensures var b := BlockFrom(SetterOf(host), lines, i, a).value.0; b == NoAnnotation || Sound(b)
    decreases |lines| - i
  {
    if i < |lines| && CommentContent(lines[i]).Some? {
      var content := CommentContent(lines[i]).value;
      SetterOfIs(host, a, content);
      var d := ParseDirective(content);
      if d.Some? {
        ApplySound(host, a, d.value);
      }
      BlockFromSound(host, lines, i + 1, SetAnnotation(host, a, content).value);
    }
  }

  /** Every annotation a block yields has `required` and a non-empty list of allowed types, and no default when required. */
  lemma BlockSound(host: Host, lines: seq<string>, start: nat)
    requires start < |lines|
    requires Block(SetterOf(host), lines, start).Ok? && Block(SetterOf(host), lines, start).value.0.Some?
    ensures Sound(Block(SetterOf(host), lines, start).value.0.value)
  {
    BlockFromSound(host, lines, start + 1, NoAnnotation);
  }

  /** A block whose comment lines hold no directive yields no annotation. */
  lemma BlockWithoutDirectives(host: Host, lines: seq<string>, start: nat)
    requires start < |lines|
    requires forall j :: start < j < |lines| && CommentContent(lines[j]).Some? ==> ParseDirective(CommentContent(lines[j]).value).None?
    ensures Block(SetterOf(host), lines, start).Ok? && Block(SetterOf(host), lines, start).value.0.None?
  {
    BlockFromWithoutDirectives(host, lines, start + 1, NoAnnotation);
  }

  /** A failed block names the 1-based number of one of its comment lines, followed by the update's message. */
  lemma {:induction false} BlockFromErrorLine(update: Setter, lines: seq<string>, i: nat, a: Annotation)
    requires i <= |lines|
    requires BlockFrom(update, lines, i, a).Err?
    ensures exists j, b :: i <= j < |lines| && CommentContent(lines[j]).Some? && update(b, CommentContent(lines[j]).value).Err?
                        && BlockFrom(update, lines, i, a).error == LinePrefix(j) + update(b, CommentContent(lines[j]).value).error
    decreases |lines| - i
  {
    var content := CommentContent(lines[i]).value;
    match update(a, content)
    case Err(m) =>
      assert BlockFrom(update, lines, i, a).error == LinePrefix(i) + m;
    case Ok(b) =>
      BlockFromErrorLine(update, lines, i + 1, b);
  }

  // ----- parse (src/lib/template.ts:114-150) -----

  const NotALineMessage: string := "Neither a comment or a key-value pair"

  /**
   * The lines from `i` on, read with `pending` the annotation waiting for its key line
   * and `output` the variables found so far.
   */
  function ParseFrom(update: Setter, lines: seq<string>, i: nat, pending: Option<Annotation>, output: Dict<Annotation>): Result<Dict<Annotation>, string>
    requires i <= |lines|
    decreases |lines| - i
  {
    if i == |lines| then Ok(output)
    else if IsBlockStart(lines[i]) then
      match Block(update, lines, i)
      case Err(m) => Err(m)
      case Ok((annotation, next)) => ParseFrom(update, lines, next, annotation, output)
    else if KeyOf(lines[i]).Some? then
      if pending.Some? then ParseFrom(update, lines, i + 1, None, Put(output, KeyOf(lines[i]).value, pending.value))
      else ParseFrom(update, lines, i + 1, None, output)
    else if CommentContent(lines[i]).Some? || Trim(lines[i]) == "" then ParseFrom(update, lines, i + 1, pending, output)
    else Err(LinePrefix(i) + NotALineMessage)
  }

  /** `parse(src)`: the annotated variables of a template, or the message of the error it throws. */
  function Parsed(host: Host, src: string): Result<Dict<Annotation>, string> {
    ParseFrom(SetterOf(host), Lines(src), 0, None, Empty())
  }

  /**
   * parse as it is evidently meant, splitting with SplitLines: a template with
   * Windows line breaks is read like the same template with Unix ones.
   */
  function ParsedCrlf(host: Host, src: string): (r: Result<Dict<Annotation>, string>)
    ensures r == Parsed(host, ToLf(src))
  {
    SplitLinesAsLf(src);
    ParseFrom(SetterOf(host), SplitLines(src), 0, None, Empty())
  }

  /** `parse`, with `update` standing for setAnnotation: Parse(SetterOf(host), src) is Parsed(host, src). */
  method Parse(update: Setter, src: string) returns (r: Result<Dict<Annotation>, string>)
    ensures r == ParseFrom(update, Lines(src), 0, None, Empty())
  {
    var output: Dict<Annotation> := Empty();
    var lines := Lines(src);
    var annotation: Option<Annotation> := None;
    var i := 0;
    while i < |lines|
      invariant i <= |lines|
      invariant ParseFrom(update, lines, i, annotation, output) == ParseFrom(update, lines, 0, None, Empty())
      decreases |lines| - i
    {
      var line := lines[i];
      if IsBlockStart(line) {
        var result := ParseCommentBlock(update, lines, i);
        if result.Err? {
          return Err(result.error);
        }
        annotation := result.value.0;
        i := result.value.1;
      } else if KeyOf(line).Some? {
        if annotation.Some? {
          output := Put(output, KeyOf(line).value, annotation.value);
          annotation := None;
        }
        i := i + 1;
      } else if CommentContent(line).Some? || Trim(line) == "" {
        i := i + 1;
      } else {
        return Err(LinePrefix(i) + NotALineMessage);
      }
    }
    return Ok(output);
  }

  /** A line parse rejects: no `##`, no `KEY=VAL`, no comment and not blank. */
  predicate Unclassified(line: string) {
    !IsBlockStart(line) && KeyOf(line).None? && CommentContent(line).None? && Trim(line) != ""
  }

  /** `m` is the message parse gives for line `j`: a comment line whose update failed, or a line of no kind. */
  ghost predicate LineError(update: Setter, lines: seq<string>, j: nat, m: string)
    requires j < |lines|
  {
    || (Unclassified(lines[j]) && m == LinePrefix(j) + NotALineMessage)
    || (CommentContent(lines[j]).Some? &&
        exists b :: update(b, CommentContent(lines[j]).value).Err? && m == LinePrefix(j) + update(b, CommentContent(lines[j]).value).error)
  }

  /** Every error parse reports is the line-numbered error of one of the lines read. */
  lemma {:induction false} ParseFromError(update: Setter, lines: seq<string>, i: nat, pending: Option<Annotation>, output: Dict<Annotation>)
    requires i <= |lines|
    requires ParseFrom(update, lines, i, pending, output).Err?
    ensures exists j :: i <= j < |lines| && LineError(update, lines, j, ParseFrom(update, lines, i, pending, output).error)
    decreases |lines| - i
  {
    var r := ParseFrom(update, lines, i, pending, output);
    var line := lines[i];
    if IsBlockStart(line) && Block(update, lines, i).Err? {
      BlockStartError(update, lines, i, pending, output);
    } else if Unclassified(line) {
      assert LineError(update, lines, i, r.error);
    } else {
      var next, pending', output' := ParseFromNext(update, lines, i, pending, output);
      ParseFromError(update, lines, next, pending', output');
      var j :| next <= j < |lines| && LineError(update, lines, j, r.error);
    }
  }

  /** A `##` line whose block fails makes parse fail with the error of one of the block's comment lines. */
  lemma BlockStartError(update: Setter, lines: seq<string>, i: nat, pending: Option<Annotation>, output: Dict<Annotation>)
    requires i < |lines| && IsBlockStart(lines[i]) && Block(update, lines, i).Err?
    ensures ParseFrom(update, lines, i, pending, output) == Err(Block(update, lines, i).error)
    ensures exists j :: i < j < |lines| && LineError(update, lines, j, Block(update, lines, i).error)
  {
    var m := Block(update, lines, i).error;
    BlockFromErrorLine(update, lines, i + 1, NoAnnotation);
    var j, b :| i + 1 <= j < |lines| && CommentContent(lines[j]).Some? && update(b, CommentContent(lines[j]).value).Err?
                && m == LinePrefix(j) + update(b, CommentContent(lines[j]).value).error;
    assert LineError(update, lines, j, m);
  }

  /** Where parse does not stop at line `i`, it goes on from a later line. */
  lemma ParseFromNext(update: Setter, lines: seq<string>, i: nat, pending: Option<Annotation>, output: Dict<Annotation>)
    returns (next: nat, pending': Option<Annotation>, output': Dict<Annotation>)
    requires i < |lines| && !(IsBlockStart(lines[i]) && Block(update, lines, i).Err?) && !Unclassified(lines[i])
    ensures i < next <= |lines|
    ensures !IsBlockStart(lines[i]) ==> next == i + 1
    ensures ParseFrom(update, lines, i, pending, output) == ParseFrom(update, lines, next, pending', output')
  {
    var line := lines[i];
    if IsBlockStart(line) {
      var (annotation, n) := Block(update, lines, i).value;
      next, pending', output' := n, annotation, output;
    } else if KeyOf(line).Some? {
      next, pending' := i + 1, None;
      output' := if pending.Some? then Put(output, KeyOf(line).value, pending.value) else output;
    } else {
      next, pending', output' := i + 1, pending, output;
    }
  }

  /** One step of parse from line `i`: the line it goes on at, with what is then pending and recorded. */
  lemma ParseFromStep(update: Setter, lines: seq<string>, i: nat, pending: Option<Annotation>, output: Dict<Annotation>)
    returns (next: nat, pending': Option<Annotation>, output': Dict<Annotation>)
    requires i < |lines|
    requires ParseFrom(update, lines, i, pending, output).Ok?
    ensures i < next <= |lines|
    ensures ParseFrom(update, lines, i, pending, output) == ParseFrom(update, lines, next, pending', output')
    ensures IsBlockStart(lines[i]) ==> Block(update, lines, i) == Ok((pending', next)) && output' == output
    ensures !IsBlockStart(lines[i]) ==> next == i + 1
    ensures !IsBlockStart(lines[i]) && KeyOf(lines[i]).Some? ==>
              pending' == None && output' == if pending.Some? then Put(output, KeyOf(lines[i]).value, pending.value) else output
    ensures !IsBlockStart(lines[i]) && KeyOf(lines[i]).None? ==> pending' == pending && output' == output
  {
    var line := lines[i];
    if IsBlockStart(line) {
      var (annotation, n) := Block(update, lines, i).value;
      next, pending', output' := n, annotation, output;
    } else if KeyOf(line).Some? {
      next, pending' := i + 1, None;
      output' := if pending.Some? then Put(output, KeyOf(line).value, pending.value) else output;
    } else {
      next, pending', output' := i + 1, pending, output;
    }
  }

  /** Every variable parse records carries a sound annotation. */
  lemma {:induction false} ParseFromSound(host: Host, lines: seq<string>, i: nat, pending: Option<Annotation>, output: Dict<Annotation>)
    requires i <= |lines|
    requires pending.Some? ==> Sound(pending.value)
    requires forall k :: k in output.vals ==> Sound(output.vals[k])
    requires ParseFrom(SetterOf(host), lines, i, pending, output).Ok?
    ensures var r := ParseFrom(SetterOf(host), lines, i, pending, output).value;
            forall k :: k in r.vals ==> Sound(r.vals[k])
    decreases |lines| - i
  {
    if i < |lines| {
      var next, pending', output' := ParseFromStep(SetterOf(host), lines, i, pending, output);
      if IsBlockStart(lines[i]) {
        if pending'.Some? {
          BlockSound(host, lines, i);
        }
      } else if KeyOf(lines[i]).Some? && pending.Some? {
        PutSound(output, KeyOf(lines[i]).value, pending.value);
      }
      ParseFromSound(host, lines, next, pending', output');
    }
  }

  /** Recording a sound annotation keeps every recorded annotation sound. */
  lemma PutSound(output: Dict<Annotation>, key: string, a: Annotation)
    requires forall k :: k in output.vals ==> Sound(output.vals[k])
    requires Sound(a)
    ensures forall k :: k in Put(output, key, a).vals ==> Sound(Put(output, key, a).vals[k])
  {
  }

  /** What parse returns is sound: `required` set, allowed types in written order, no default when required. */
  lemma ParsedSound(host: Host, src: string)
    requires Parsed(host, src).Ok?
    ensures forall k :: k in Parsed(host, src).value.vals ==> Sound(Parsed(host, src).value.vals[k])
  {
    ParseFromSound(host, Lines(src), 0, None, Empty());
  }

  /** Parse only adds keys: the keys found so far keep their places in front. */
  lemma {:induction false} ParseFromKeepsKeys(update: Setter, lines: seq<string>, i: nat, pending: Option<Annotation>, output: Dict<Annotation>)
    requires i <= |lines|
    requires ParseFrom(update, lines, i, pending, output).Ok?
    ensures IsPrefix(output.keys, ParseFrom(update, lines, i, pending, output).value.keys)
    decreases |lines| - i
  {
    if i < |lines| {
      var next, pending', output' := ParseFromStep(update, lines, i, pending, output);
      ParseFromKeepsKeys(update, lines, next, pending', output');
      assert IsPrefix(output.keys, output'.keys);
      PrefixTrans(output.keys, output'.keys, ParseFrom(update, lines, next, pending', output').value.keys);
    }
  }

  /** Every key parse adds is the key of a `KEY=VAL` line it read. */
  lemma {:induction false} ParseFromKeysFromLines(update: Setter, lines: seq<string>, i: nat, pending: Option<Annotation>, output: Dict<Annotation>)
    requires i <= |lines|
    requires ParseFrom(update, lines, i, pending, output).Ok?
    ensures var r := ParseFrom(update, lines, i, pending, output).value;
            forall k :: k in r.vals && k !in output.vals ==> exists j :: i <= j < |lines| && KeyOf(lines[j]) == Some(k)
    decreases |lines| - i
  {
    if i < |lines| {
      var next, pending', output' := ParseFromStep(update, lines, i, pending, output);
      ParseFromKeysFromLines(update, lines, next, pending', output');
    }
  }

  /** Without a `##` line nothing is pending, so key lines alone add nothing. */
  lemma {:induction false} ParseFromWithoutBlocks(update: Setter, lines: seq<string>, i: nat, output: Dict<Annotation>)
    requires i <= |lines|
    requires forall j :: i <= j < |lines| ==> !IsBlockStart(lines[j])
    requires ParseFrom(update, lines, i, None, output).Ok?
    ensures ParseFrom(update, lines, i, None, output).value == output
    decreases |lines| - i
  {
    if i < |lines| {
      if KeyOf(lines[i]).Some? {
        assert ParseFrom(update, lines, i, None, output) == ParseFrom(update, lines, i + 1, None, output);
      } else {
        assert ParseFrom(update, lines, i, None, output) == ParseFrom(update, lines, i + 1, None, output);
      }
      ParseFromWithoutBlocks(update, lines, i + 1, output);
    }
  }

  /** With nothing pending and no `##` line, lines of the known kinds record nothing and raise no error. */
  lemma {:induction false} ParseFromQuiet(update: Setter, lines: seq<string>, i: nat, output: Dict<Annotation>)
    requires i <= |lines|
    requires forall j :: i <= j < |lines| ==> !IsBlockStart(lines[j]) && !Unclassified(lines[j])
    ensures ParseFrom(update, lines, i, None, output) == Ok(output)
    decreases |lines| - i
  {
    if i < |lines| {
      if KeyOf(lines[i]).Some? {
        assert ParseFrom(update, lines, i, None, output) == ParseFrom(update, lines, i + 1, None, output);
      } else {
        assert ParseFrom(update, lines, i, None, output) == ParseFrom(update, lines, i + 1, None, output);
      }
      ParseFromQuiet(update, lines, i + 1, output);
    }
  }

  /** Lines `i` to `j - 1` are all of the kinds parse reads past: key lines, comments and blank lines. */
  ghost predicate KnownRun(lines: seq<string>, i: nat, j: nat)
    requires i <= j <= |lines|
  {
    forall k :: i <= k < j ==> !IsBlockStart(lines[k]) && !Unclassified(lines[k])
  }

  /**
   * The first line of no kind, after lines that are neither `##` nor of no kind,
   * is the one parse reports, with its own line number.
   */
  lemma ParseFromUnclassified(update: Setter, lines: seq<string>, i: nat, j: nat, pending: Option<Annotation>, output: Dict<Annotation>)
    requires i <= j < |lines|
    requires forall k :: i <= k < j ==> !IsBlockStart(lines[k]) && !Unclassified(lines[k])
    requires Unclassified(lines[j])
    ensures ParseFrom(update, lines, i, pending, output) == Err(LinePrefix(j) + NotALineMessage)
  {
    assert KnownRun(lines, i, j);
    UnclassifiedError(update, lines, j, pending, output);
    UnclassifiedAfterRun(update, lines, i, j, pending, output);
  }

  /** ParseFromUnclassified, by induction on the run. */
  lemma {:induction false} UnclassifiedAfterRun(update: Setter, lines: seq<string>, i: nat, j: nat, pending: Option<Annotation>, output: Dict<Annotation>)
    requires i <= j < |lines| && KnownRun(lines, i, j)
    requires forall p, o :: ParseFrom(update, lines, j, p, o) == Err(LinePrefix(j) + NotALineMessage)
    ensures ParseFrom(update, lines, i, pending, output) == Err(LinePrefix(j) + NotALineMessage)
    decreases j - i
  {
    if i < j {
      var next, pending', output' := KnownStep(update, lines, i, j, pending, output);
      UnclassifiedAfterRun(update, lines, next, j, pending', output');
    }
  }

  /** One line of a known run: parse goes on at the next line. */
  lemma KnownStep(update: Setter, lines: seq<string>, i: nat, j: nat, pending: Option<Annotation>, output: Dict<Annotation>)
    returns (next: nat, pending': Option<Annotation>, output': Dict<Annotation>)
    requires i < j <= |lines| && KnownRun(lines, i, j)
    ensures next == i + 1 && KnownRun(lines, next, j)
    ensures ParseFrom(update, lines, i, pending, output) == ParseFrom(update, lines, next, pending', output')
  {
    assert !IsBlockStart(lines[i]) && !Unclassified(lines[i]);
    next, pending', output' := ParseFromNext(update, lines, i, pending, output);
  }

  /** Parse stops at a line of no kind, whatever is pending or recorded. */
  lemma UnclassifiedError(update: Setter, lines: seq<string>, j: nat, pending: Option<Annotation>, output: Dict<Annotation>)
    requires j < |lines| && Unclassified(lines[j])
    ensures forall p, o :: ParseFrom(update, lines, j, p, o) == Err(LinePrefix(j) + NotALineMessage)
  {
  }

  /** A `##` line starts over: what was pending before it does not matter. */
  lemma BlockReplacesPending(update: Setter, lines: seq<string>, i: nat, p1: Option<Annotation>, p2: Option<Annotation>, output: Dict<Annotation>)
    requires i < |lines| && IsBlockStart(lines[i])
    ensures ParseFrom(update, lines, i, p1, output) == ParseFrom(update, lines, i, p2, output)
  {
  }

  /** A pending annotation waits over comments and blank lines and goes to the next key line, and only to it. */
  lemma {:induction false} PendingBindsNextKey(update: Setter, lines: seq<string>, i: nat, j: nat, a: Annotation, output: Dict<Annotation>)
    requires i <= j < |lines|
    requires forall k :: i <= k < j ==> !IsBlockStart(lines[k]) && KeyOf(lines[k]).None? && (CommentContent(lines[k]).Some? || Trim(lines[k]) == "")
    requires !IsBlockStart(lines[j]) && KeyOf(lines[j]).Some?
    ensures ParseFrom(update, lines, i, Some(a), output) == ParseFrom(update, lines, j + 1, None, Put(output, KeyOf(lines[j]).value, a))
    decreases j - i
  {
    if i < j {
      PendingBindsNextKey(update, lines, i + 1, j, a, output);
    }
  }
}
