/** String helpers standing for the JavaScript string built-ins the source calls. */
module Text {

  /** The characters JavaScript's `\s` matches and `String.prototype.trim` strips. */
  predicate IsSpace(c: char) {
    || ('\t' <= c <= '\r') || c == ' ' || c == '\U{A0}' || c == '\U{1680}'
    || ('\U{2000}' <= c <= '\U{200A}') || c == '\U{2028}' || c == '\U{2029}'
    || c == '\U{202F}' || c == '\U{205F}' || c == '\U{3000}' || c == '\U{FEFF}'
  }

  predicate IsDigit(c: char) { '0' <= c <= '9' }
  predicate IsUpper(c: char) { 'A' <= c <= 'Z' }
  predicate IsLower(c: char) { 'a' <= c <= 'z' }
  predicate IsAlnum(c: char) { IsDigit(c) || IsUpper(c) || IsLower(c) }

  /** `\w` in a JavaScript regular expression. */
  predicate IsWordChar(c: char) { IsAlnum(c) || c == '_' }

  /** The line terminators, which `.` in a JavaScript regular expression does not match. */
  predicate IsLineBreak(c: char) {
    c == '\n' || c == '\r' || c == '\U{2028}' || c == '\U{2029}'
  }

  /** Every character of `s` satisfies `p`. */
  predicate All(s: string, p: char -> bool) {
    forall i :: 0 <= i < |s| ==> p(s[i])
  }

  /** Two strings of `p` characters laid end to end. */
  lemma AllAppend(a: string, b: string, p: char -> bool)
    requires All(a, p) && All(b, p)
    ensures All(a + b, p)
  {
    assert forall i :: 0 <= i < |a + b| ==> (a + b)[i] == if i < |a| then a[i] else b[i - |a|];
  }

  /** `.*` matches the whole of `s`. */
  predicate NoBreaks(s: string) {
    forall i :: 0 <= i < |s| ==> !IsLineBreak(s[i])
  }

  /** Length of the longest prefix of `s` made of characters satisfying `p`. */
  function Span(s: string, p: char -> bool): (n: nat)
    ensures n <= |s|
    ensures forall i :: 0 <= i < n ==> p(s[i])
    ensures n < |s| ==> !p(s[n])
  {
    if |s| == 0 || !p(s[0]) then 0 else 1 + Span(s[1..], p)
  }

  /** The longest prefix of `p` characters is made of `p` characters. */
  lemma SpanPrefix(s: string, p: char -> bool)
    ensures All(s[..Span(s, p)], p)
  {
    var n := Span(s, p);
    assert forall i :: 0 <= i < n ==> s[..n][i] == s[i];
  }

  /** A prefix of `p` characters no longer than `s` is at most the longest one. */
  lemma SpanMaximal(s: string, p: char -> bool, k: nat)
    requires k <= |s| && All(s[..k], p)
    ensures k <= Span(s, p)
  {
  }

  /** A prefix of `p` characters followed by a character that is not one is the longest one. */
  lemma SpanExact(s: string, p: char -> bool, k: nat)
    requires k <= |s| && All(s[..k], p)
    requires k < |s| ==> !p(s[k])
    ensures k == Span(s, p)
  {
    SpanMaximal(s, p, k);
  }

  /** A run of `p` characters from `x` to `y` that stops at a character that is not one is the longest run from `x`. */
  lemma SpanFrom(s: string, p: char -> bool, x: nat, y: nat)
    requires x <= y <= |s| && All(s[x..y], p)
    requires y < |s| ==> !p(s[y])
    ensures Span(s[x..], p) == y - x
  {
    var t := s[x..];
    assert t[..y - x] == s[x..y];
    SpanExact(t, p, y - x);
  }

  /** Length of the longest suffix of `s` made of characters satisfying `p`. */
  function SpanEnd(s: string, p: char -> bool): (n: nat)
    ensures n <= |s|
    ensures forall i :: |s| - n <= i < |s| ==> p(s[i])
    ensures n < |s| ==> !p(s[|s| - n - 1])
  {
    if |s| == 0 || !p(s[|s| - 1]) then 0 else 1 + SpanEnd(s[..|s| - 1], p)
  }

  /** `s.trimStart()`: the suffix left after the leading whitespace. */
  function TrimStart(s: string): (r: string)
    ensures |r| <= |s| && r == s[|s| - |r|..]
    ensures forall i :: 0 <= i < |s| - |r| ==> IsSpace(s[i])
    ensures r != "" ==> !IsSpace(r[0])
  {
    s[Span(s, IsSpace)..]
  }

  /** What trimStart removes is whitespace, and it is all that comes before the result. */
  lemma TrimStartParts(s: string)
    ensures All(s[..|s| - |TrimStart(s)|], IsSpace)
    ensures s[..|s| - |TrimStart(s)|] + TrimStart(s) == s
  {
    var k := |s| - |TrimStart(s)|;
    assert forall i :: 0 <= i < k ==> s[..k][i] == s[i];
  }

  /** Trimming the suffix of `s` from `x` on, when whitespace runs from `x` to `y` and stops there, leaves the suffix from `y` on. */
  lemma TrimStartFrom(s: string, x: nat, y: nat)
    requires x <= y <= |s| && All(s[x..y], IsSpace)
    requires y < |s| ==> !IsSpace(s[y])
    ensures TrimStart(s[x..]) == s[y..]
  {
    SpanFrom(s, IsSpace, x, y);
    SliceOfSlice(s, x, y);
  }

  /** Cutting a suffix of `s` at `b - a` cuts `s` at `b`. */
  lemma SliceOfSlice(s: string, a: nat, b: nat)
    requires a <= b <= |s|
    ensures s[a..][b - a..] == s[b..]
    ensures s[a..][..b - a] == s[a..b]
  {
  }

  /** `s.trimEnd()`: the prefix left before the trailing whitespace. */
  function TrimEnd(s: string): (r: string)
    ensures |r| <= |s| && r == s[..|r|]
    ensures forall i :: |r| <= i < |s| ==> IsSpace(s[i])
    ensures r != "" ==> !IsSpace(r[|r| - 1])
  {
    s[..|s| - SpanEnd(s, IsSpace)]
  }

  /** `s.trim()`. */
  function Trim(s: string): string {
    TrimEnd(TrimStart(s))
  }

  /** `d` occurs in `t` at position `i`. */
  predicate OccursAt(t: string, d: string, i: nat) {
    i + |d| <= |t| && t[i..i + |d|] == d
  }

  /** `t.includes(d)`. */
  predicate Contains(t: string, d: string) {
    exists i: nat :: i <= |t| && OccursAt(t, d, i)
  }

  /** A one-character string occurs in `t` exactly where its character does. */
  lemma ContainsChar(t: string, c: char)
    ensures Contains(t, [c]) <==> c in t
  {
    if c in t {
      var i :| 0 <= i < |t| && t[i] == c;
      assert t[i..i + 1] == [c];
      assert OccursAt(t, [c], i);
    }
    if Contains(t, [c]) {
      var i: nat :| i <= |t| && OccursAt(t, [c], i);
      assert t[i] == t[i..i + 1][0];
    }
  }

  /** `s.split(d)` for a non-empty string separator: cut at every occurrence found left to right. */
  function SplitOn(s: string, d: string): (r: seq<string>)
    requires |d| > 0
    ensures |r| >= 1
    decreases |s|
  {
    if |s| < |d| then [s]
    else if s[..|d|] == d then [""] + SplitOn(s[|d|..], d)
    else
      var rest := SplitOn(s[1..], d);
      [[s[0]] + rest[0]] + rest[1..]
  }

  /** The first piece of a split is a prefix of the text. */
  lemma {:induction false} SplitFirstPrefix(s: string, d: string)
    requires |d| > 0
    ensures |SplitOn(s, d)[0]| <= |s| && SplitOn(s, d)[0] == s[..|SplitOn(s, d)[0]|]
    decreases |s|
  {
    if |s| >= |d| && s[..|d|] != d {
      SplitFirstPrefix(s[1..], d);
      var rest := SplitOn(s[1..], d);
      assert [s[0]] + rest[0] == s[..1 + |rest[0]|];
    }
  }

  /**
   * `split` cuts at the FIRST occurrence of the separator: the first piece holds no
   * occurrence starting inside it, the separator follows it, and the other pieces
   * are the split of what comes after; a split into one piece is the whole text.
   */
  lemma SplitAtFirst(s: string, d: string)
    requires |d| > 0
    ensures |SplitOn(s, d)[0]| <= |s|
    ensures forall i :: 0 <= i < |SplitOn(s, d)[0]| ==> !OccursAt(s, d, i)
    ensures |SplitOn(s, d)| == 1 ==> SplitOn(s, d) == [s]
    ensures |SplitOn(s, d)| > 1 ==>
      && OccursAt(s, d, |SplitOn(s, d)[0]|)
      && SplitOn(s, d)[1..] == SplitOn(s[|SplitOn(s, d)[0]| + |d|..], d)
  {
    SplitFirstPrefix(s, d);
    SplitNoEarlierCut(s, d);
    SplitIntoOne(s, d);
    SplitRestAfterFirst(s, d);
  }

  /** No occurrence of the separator starts inside the first piece. */
  lemma {:induction false} SplitNoEarlierCut(s: string, d: string)
    requires |d| > 0
    ensures forall i :: 0 <= i < |SplitOn(s, d)[0]| ==> !OccursAt(s, d, i)
    decreases |s|
  {
    if |s| >= |d| && s[..|d|] != d {
      SplitNoEarlierCut(s[1..], d);
      var rest := SplitOn(s[1..], d);
      assert SplitOn(s, d)[0] == [s[0]] + rest[0];
      assert s == [s[0]] + s[1..];
      NoCutAfterCharacter(s[0], s[1..], d, |rest[0]|);
    }
  }

  /** A character in front of a text without an early occurrence adds none, if none starts at it. */
  lemma NoCutAfterCharacter(c: char, t: string, d: string, n: nat)
    requires !OccursAt([c] + t, d, 0)
    requires forall i :: 0 <= i < n ==> !OccursAt(t, d, i)
    ensures forall i :: 0 <= i < n + 1 ==> !OccursAt([c] + t, d, i)
  {
    var s := [c] + t;
    forall i | 0 < i <= n && i + |d| <= |s|
      ensures !OccursAt(s, d, i)
    {
      assert s[i..i + |d|] == t[i - 1..i - 1 + |d|];
      assert !OccursAt(t, d, i - 1);
    }
  }

  /** A split into a single piece is the whole text. */
  lemma {:induction false} SplitIntoOne(s: string, d: string)
    requires |d| > 0
    ensures |SplitOn(s, d)| == 1 ==> SplitOn(s, d) == [s]
    decreases |s|
  {
    if |s| >= |d| && s[..|d|] != d {
      SplitIntoOne(s[1..], d);
      assert s == [s[0]] + s[1..];
    }
  }

  /** After the first piece comes the separator, then the split of the rest of the text. */
  lemma {:induction false} SplitRestAfterFirst(s: string, d: string)
    requires |d| > 0
    ensures |SplitOn(s, d)| > 1 ==>
      && OccursAt(s, d, |SplitOn(s, d)[0]|)
      && SplitOn(s, d)[1..] == SplitOn(s[|SplitOn(s, d)[0]| + |d|..], d)
    decreases |s|
  {
    var r := SplitOn(s, d);
    if |s| < |d| {
      assert |r| == 1;
    } else if s[..|d|] == d {
      var tail := SplitOn(s[|d|..], d);
      assert r == [""] + tail;
      assert r[1..] == tail;
      assert OccursAt(s, d, 0);
    } else {
      SplitRestAfterFirst(s[1..], d);
      var rest := SplitOn(s[1..], d);
      assert r == [[s[0]] + rest[0]] + rest[1..];
      if |rest| > 1 {
        var tail := SplitOn(s[1..][|rest[0]| + |d|..], d);
        RestAfterCharacter(s, d, r, rest, tail);
      }
    }
  }

  /** The step of SplitRestAfterFirst where the first character of `s` joins the first piece. */
  lemma RestAfterCharacter(s: string, d: string, r: seq<string>, rest: seq<string>, tail: seq<string>)
    requires |s| >= 1 && |rest| > 1 && r == [[s[0]] + rest[0]] + rest[1..]
    requires OccursAt(s[1..], d, |rest[0]|) && rest[1..] == tail
    ensures |r| > 1 && OccursAt(s, d, |r[0]|) && r[1..] == tail
    ensures s[|r[0]| + |d|..] == s[1..][|rest[0]| + |d|..]
  {
    assert s == [s[0]] + s[1..];
    CutAfterCharacter(s[0], s[1..], d, |rest[0]|);
  }

  /** An occurrence at `n` in `t` is one at `n + 1` in `t` behind a character. */
  lemma CutAfterCharacter(c: char, t: string, d: string, n: nat)
    requires OccursAt(t, d, n)
    ensures OccursAt([c] + t, d, n + 1)
    ensures ([c] + t)[n + 1 + |d|..] == t[n + |d|..]
  {
    assert ([c] + t)[n + 1..n + 1 + |d|] == t[n..n + |d|];
  }

  /** Splitting on a separator and joining back with it gives the input again. */
  lemma {:induction false} SplitJoin(s: string, d: string)
    requires |d| > 0
    ensures Join(SplitOn(s, d), d) == s
    decreases |s|
  {
    if |s| >= |d| {
      if s[..|d|] == d {
        SplitJoin(s[|d|..], d);
        JoinAtSeparator(s, d);
      } else {
        SplitJoin(s[1..], d);
        JoinAtCharacter(s, d);
      }
    }
  }

  /** SplitJoin where `s` starts with the separator: an empty piece, then the rest. */
  lemma JoinAtSeparator(s: string, d: string)
    requires 0 < |d| <= |s| && s[..|d|] == d
    requires Join(SplitOn(s[|d|..], d), d) == s[|d|..]
    ensures Join(SplitOn(s, d), d) == s
  {
    var rest := SplitOn(s[|d|..], d);
    assert SplitOn(s, d) == [""] + rest;
    JoinCons("", rest, d);
    CutAndJoin(s, |d|);
    assert "" + d == d;
  }

  /** A text is its two sides at any cut. */
  lemma CutAndJoin(s: string, n: nat)
    requires n <= |s|
    ensures s[..n] + s[n..] == s
  {
  }

  /** Joining a part in front of others puts it and the separator in front. */
  lemma JoinCons(x: string, parts: seq<string>, sep: string)
    requires |parts| >= 1
    ensures Join([x] + parts, sep) == x + sep + Join(parts, sep)
  {
    assert ([x] + parts)[1..] == parts;
  }

  /** SplitJoin where `s` does not start with the separator: its first character joins the first piece. */
  lemma JoinAtCharacter(s: string, d: string)
    requires 0 < |d| <= |s| && s[..|d|] != d
    requires Join(SplitOn(s[1..], d), d) == s[1..]
    ensures Join(SplitOn(s, d), d) == s
  {
    var rest := SplitOn(s[1..], d);
    assert SplitOn(s, d) == [[s[0]] + rest[0]] + rest[1..];
    JoinOntoFirst([s[0]], rest, d);
    assert s == [s[0]] + s[1..];
  }

  /** Putting `x` in front of the first part puts it in front of the joined whole. */
  lemma JoinOntoFirst(x: string, parts: seq<string>, sep: string)
    requires |parts| >= 1
    ensures Join([x + parts[0]] + parts[1..], sep) == x + Join(parts, sep)
  {
    var r := [x + parts[0]] + parts[1..];
    assert r[1..] == parts[1..];
    if |parts| > 1 {
      assert Join(r, sep) == (x + parts[0]) + sep + Join(parts[1..], sep);
    }
  }

  /** A character put in front of a text without `d` makes no occurrence of `d` after position 0. */
  lemma ConsLacksSeparator(c: char, t: string, d: string)
    requires |d| > 0 && !Contains(t, d) && !OccursAt([c] + t, d, 0)
    ensures !Contains([c] + t, d)
  {
    forall i: nat | 0 < i && i + |d| <= |[c] + t|
      ensures !OccursAt([c] + t, d, i)
    {
      assert ([c] + t)[i..i + |d|] == t[i - 1..i - 1 + |d|];
      assert !OccursAt(t, d, i - 1);
    }
  }

  /** No piece of a split contains the separator. */
  lemma {:induction false} SplitPiecesLackSeparator(s: string, d: string)
    requires |d| > 0
    ensures forall k :: 0 <= k < |SplitOn(s, d)| ==> !Contains(SplitOn(s, d)[k], d)
    decreases |s|
  {
    var r := SplitOn(s, d);
    if |s| < |d| {
      assert r == [s];
    } else if s[..|d|] == d {
      SplitPiecesLackSeparator(s[|d|..], d);
      var rest := SplitOn(s[|d|..], d);
      assert r == [""] + rest;
      forall k | 0 <= k < |r|
        ensures !Contains(r[k], d)
      {
        if k > 0 {
          assert r[k] == rest[k - 1];
        }
      }
    } else {
      SplitPiecesLackSeparator(s[1..], d);
      SplitFirstPrefix(s, d);
      var rest := SplitOn(s[1..], d);
      assert r == [[s[0]] + rest[0]] + rest[1..];
      assert !OccursAt(r[0], d, 0) by {
        if |d| <= |r[0]| {
          assert r[0][..|d|] == s[..|d|];
        }
      }
      ConsLacksSeparator(s[0], rest[0], d);
      forall k | 0 < k < |r|
        ensures !Contains(r[k], d)
      {
        assert r[k] == rest[k];
      }
    }
  }

  /**
   * `s.split` on the pattern `\s*c\s*`, for a separator character `c` that is no whitespace:
   * cut at every `c`, dropping the whitespace next to each `c` but not at the
   * two ends of `s`.
   */
  function SplitTrimmed(s: string, c: char): (r: seq<string>)
    ensures |r| == |SplitOn(s, [c])|
  {
    var segs := SplitOn(s, [c]);
    seq(|segs|, i requires 0 <= i < |segs| =>
      var a := if i > 0 then TrimStart(segs[i]) else segs[i];
      if i < |segs| - 1 then TrimEnd(a) else a)
  }

  /** No piece holds the separator, and the inner ends of the pieces carry no whitespace. */
  lemma SplitTrimmedShape(s: string, c: char)
    ensures forall k :: 0 <= k < |SplitTrimmed(s, c)| ==> c !in SplitTrimmed(s, c)[k]
    ensures forall k :: 0 < k < |SplitTrimmed(s, c)| && SplitTrimmed(s, c)[k] != "" ==> !IsSpace(SplitTrimmed(s, c)[k][0])
    ensures forall k :: 0 <= k < |SplitTrimmed(s, c)| - 1 && SplitTrimmed(s, c)[k] != "" ==> !IsSpace(SplitTrimmed(s, c)[k][|SplitTrimmed(s, c)[k]| - 1])
  {
    var pieces := SplitTrimmed(s, c);
    forall k | 0 <= k < |pieces|
      ensures c !in pieces[k]
      ensures 0 < k && pieces[k] != "" ==> !IsSpace(pieces[k][0])
      ensures k < |pieces| - 1 && pieces[k] != "" ==> !IsSpace(pieces[k][|pieces[k]| - 1])
    {
      SplitTrimmedPieceShape(s, c, k);
    }
  }

  /** No piece of a one-character split holds that character. */
  lemma SplitPieceLacksChar(s: string, c: char, k: nat)
    requires k < |SplitOn(s, [c])|
    ensures c !in SplitOn(s, [c])[k]
  {
    SplitPiecesLackSeparator(s, [c]);
    ContainsChar(SplitOn(s, [c])[k], c);
  }

  /** The shape of piece `k`: a segment between separators, trimmed on its inner sides. */
  lemma SplitTrimmedPieceShape(s: string, c: char, k: nat)
    requires k < |SplitTrimmed(s, c)|
    ensures c !in SplitTrimmed(s, c)[k]
    ensures 0 < k && SplitTrimmed(s, c)[k] != "" ==> !IsSpace(SplitTrimmed(s, c)[k][0])
    ensures k < |SplitTrimmed(s, c)| - 1 && SplitTrimmed(s, c)[k] != "" ==> !IsSpace(SplitTrimmed(s, c)[k][|SplitTrimmed(s, c)[k]| - 1])
  {
    var segs := SplitOn(s, [c]);
    var piece := SplitTrimmed(s, c)[k];
    SplitPieceLacksChar(s, c, k);
    var a := if k > 0 then TrimStart(segs[k]) else segs[k];
    var lo := |segs[k]| - |a|;
    assert a == segs[k][lo..];
    assert piece == if k < |segs| - 1 then TrimEnd(a) else a;
    assert piece == a[..|piece|];
    SliceLacks(segs[k], lo, |piece|, c);
  }

  /** A slice of a text without `c` holds no `c`. */
  lemma SliceLacks(t: string, lo: nat, m: nat, c: char)
    requires lo + m <= |t| && c !in t
    ensures c !in t[lo..][..m]
  {
    assert forall i :: 0 <= i < m ==> t[lo..][..m][i] == t[lo + i];
  }

  /** `parts.join(sep)`; also what `${parts}` renders for an array of strings when `sep` is ",". */
  function Join(parts: seq<string>, sep: string): string {
    if |parts| == 0 then ""
    else if |parts| == 1 then parts[0]
    else parts[0] + sep + Join(parts[1..], sep)
  }

  function DigitChar(d: nat): char
    requires d < 10
  {
    ('0' as int + d) as char
  }

  /** The decimal rendering of a natural number, as `${n}` gives it. */
  function NatToString(n: nat): (r: string)
    ensures |r| >= 1
    ensures forall i :: 0 <= i < |r| ==> IsDigit(r[i])
  {
    if n < 10 then [DigitChar(n)] else NatToString(n / 10) + [DigitChar(n % 10)]
  }

  /** The number a string of decimal digits stands for. */
  function DigitsValue(s: string): nat
    requires forall i :: 0 <= i < |s| ==> IsDigit(s[i])
  {
    if |s| == 0 then 0
    else
      assert IsDigit(s[|s| - 1]);
      DigitsValue(s[..|s| - 1]) * 10 + (s[|s| - 1] as int - '0' as int)
  }

  /** The digits of `n` read back as `n`, and only zero is written with a leading `0`. */
  lemma {:induction false} NatToStringValue(n: nat)
    ensures DigitsValue(NatToString(n)) == n
    ensures NatToString(n)[0] == '0' ==> n == 0
  {
    if n >= 10 {
      NatToStringValue(n / 10);
      var r := NatToString(n);
      assert r[..|r| - 1] == NatToString(n / 10);
      assert r[0] == NatToString(n / 10)[0];
    }
  }

  function LowerChar(c: char): char {
    if IsUpper(c) then (c as int + 32) as char else c
  }

  function UpperChar(c: char): char {
    if IsLower(c) then (c as int - 32) as char else c
  }

  /** ASCII lower-casing, standing for `toLowerCase` and `toLocaleLowerCase`. */
  function Lower(s: string): (r: string)
    ensures |r| == |s|
    ensures forall i :: 0 <= i < |s| ==> r[i] == LowerChar(s[i])
  {
    seq(|s|, i requires 0 <= i < |s| => LowerChar(s[i]))
  }

  /** Lower-casing twice is lower-casing once. */
  lemma LowerIdempotent(s: string)
    ensures Lower(Lower(s)) == Lower(s)
  {
  }
}
