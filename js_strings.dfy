/**
  The JavaScript string built-ins the query helpers rely on, over `string`
  (a sequence of characters): `split` on a one-character separator, `join`,
  `trim` and `startsWith`.
 */
module JsStrings {

  /** The WhiteSpace and LineTerminator code points of ECMAScript: what `trim` removes. */
  predicate IsWhitespace(c: char) {
    || c == '\t' || c == '\n' || c == '\U{B}' || c == '\U{C}' || c == '\r' || c == ' '
    || c == '\U{A0}' || c == '\U{1680}' || ('\U{2000}' <= c <= '\U{200A}')
    || c == '\U{2028}' || c == '\U{2029}' || c == '\U{202F}' || c == '\U{205F}'
    || c == '\U{3000}' || c == '\U{FEFF}'
  }

  /** `s.startsWith(prefix)` */
  predicate StartsWith(s: string, prefix: string) {
    |prefix| <= |s| && s[..|prefix|] == prefix
  }

  /** The position of the first occurrence of `c` in `s`. */
  function IndexOf(s: string, c: char): (i: nat)
    requires c in s
    ensures i < |s| && s[i] == c && c !in s[..i]
  {
    if s[0] == c then 0
    else
      var j := IndexOf(s[1..], c);
      assert s[..j + 1] == [s[0]] + s[1..][..j];
      j + 1
  }

  /**
    `s.split(sep)` for a one-character separator: the pieces between
    consecutive separators, in order; a string without the separator
    splits into itself alone.
   */
  function Split(s: string, sep: char): (parts: seq<string>)
    ensures |parts| >= 1
    ensures forall k :: 0 <= k < |parts| ==> sep !in parts[k]
    decreases |s|
  {
    if sep in s then
      var i := IndexOf(s, sep);
      [s[..i]] + Split(s[i + 1..], sep)
    else
      [s]
  }

  /** `parts.join(sep)`: the empty list joins to the empty string. */
  function Join(parts: seq<string>, sep: string): (s: string)
    ensures |parts| >= 1 ==> |s| >= |parts[0]|
  {
    if |parts| == 0 then ""
    else if |parts| == 1 then parts[0]
    else parts[0] + sep + Join(parts[1..], sep)
  }

  /** `s.trimStart()`: the suffix of `s` left after its leading whitespace. */
  function TrimStart(s: string): (r: string)
    ensures |r| <= |s|
    ensures r == [] || !IsWhitespace(r[0])
  {
    if s != [] && IsWhitespace(s[0]) then TrimStart(s[1..]) else s
  }

  /** `s.trimEnd()`: the prefix of `s` left before its trailing whitespace. */
  function TrimEnd(s: string): (r: string)
    ensures |r| <= |s| && r == s[..|r|]
    ensures r == [] || !IsWhitespace(r[|r| - 1])
  {
    if s != [] && IsWhitespace(s[|s| - 1]) then TrimEnd(s[..|s| - 1]) else s
  }

  /** `s.trim()`: neither end of the result is whitespace. */
  function Trim(s: string): (r: string)
    ensures |r| <= |s|
    ensures r == [] || (!IsWhitespace(r[0]) && !IsWhitespace(r[|r| - 1]))
  {
    TrimEnd(TrimStart(s))
  }

  /** `s` with every occurrence of the character `a` replaced by `b`, position by position. */
  function ReplaceChar(s: string, a: char, b: char): (r: string)
    ensures |r| == |s|
  {
    seq(|s|, i requires 0 <= i < |s| => if s[i] == a then b else s[i])
  }

  /** Splitting at the first separator: the piece before it, then the rest split. */
  lemma SplitAtFirst(a: string, sep: char, b: string)
    requires sep !in a
    ensures Split(a + [sep] + b, sep) == [a] + Split(b, sep)
  {
    var s := a + [sep] + b;
    assert s[|a|] == sep;
    var i := IndexOf(s, sep);
    assert s[..i] == a;
    assert s[i + 1..] == b;
  }

  /** A string without the separator splits into itself. */
  lemma SplitNone(s: string, sep: char)
    requires sep !in s
    ensures Split(s, sep) == [s]
  {
  }

  /** Joining the pieces of a split with the same separator gives back the string. */
  lemma {:induction false} JoinSplit(s: string, sep: char)
    ensures Join(Split(s, sep), [sep]) == s
    decreases |s|
  {
    if sep in s {
      var i := IndexOf(s, sep);
      var rest := Split(s[i + 1..], sep);
      JoinSplit(s[i + 1..], sep);
      assert Split(s, sep) == [s[..i]] + rest;
      assert ([s[..i]] + rest)[1..] == rest;
      assert s == s[..i] + [sep] + s[i + 1..];
    }
  }

  /** Replacing in a string whose first separator follows `a`. */
  lemma ReplaceAtFirst(a: string, sep: char, t: char, b: string)
    requires sep !in a
    ensures ReplaceChar(a + [sep] + b, sep, t) == a + [t] + ReplaceChar(b, sep, t)
  {
    var r := ReplaceChar(a + [sep] + b, sep, t);
    var r' := a + [t] + ReplaceChar(b, sep, t);
    forall k | 0 <= k < |r|
      ensures r[k] == r'[k]
    {
      if k < |a| {
        assert a[k] in a;
      }
    }
  }

  /** Splitting on `sep` and joining with `t` replaces each `sep` by `t` and changes nothing else. */
  lemma {:induction false} JoinSplitReplace(s: string, sep: char, t: char)
    ensures Join(Split(s, sep), [t]) == ReplaceChar(s, sep, t)
    decreases |s|
  {
    if sep in s {
      var i := IndexOf(s, sep);
      var head, tail := s[..i], s[i + 1..];
      var rest := Split(tail, sep);
      assert Join(Split(s, sep), [t]) == head + [t] + Join(rest, [t]) by {
        assert Split(s, sep) == [head] + rest;
        assert ([head] + rest)[1..] == rest;
      }
      JoinSplitReplace(tail, sep, t);
      assert ReplaceChar(s, sep, t) == head + [t] + ReplaceChar(tail, sep, t) by {
        assert s == head + [sep] + tail;
        ReplaceAtFirst(head, sep, t, tail);
      }
    }
  }

  /** Splitting a join of separator-free pieces gives back the pieces. */
  lemma {:induction false} SplitJoin(parts: seq<string>, sep: char)
    requires |parts| >= 1
    requires forall k :: 0 <= k < |parts| ==> sep !in parts[k]
    ensures Split(Join(parts, [sep]), sep) == parts
    decreases |parts|
  {
    if |parts| == 1 {
      SplitNone(parts[0], sep);
    } else {
      SplitJoin(parts[1..], sep);
      SplitAtFirst(parts[0], sep, Join(parts[1..], [sep]));
      assert parts == [parts[0]] + parts[1..];
    }
  }

  /** Joining with one more piece appends the separator and that piece. */
  lemma {:induction false} JoinSnoc(parts: seq<string>, sep: string, last: string)
    requires |parts| >= 1
    ensures Join(parts + [last], sep) == Join(parts, sep) + sep + last
    decreases |parts|
  {
    if |parts| > 1 {
      JoinSnoc(parts[1..], sep, last);
      assert (parts + [last])[1..] == parts[1..] + [last];
    }
  }

  /** Leading whitespace is exactly what `trimStart` removes. */
  lemma {:induction false} TrimStartSkips(ws: string, s: string)
    requires forall i :: 0 <= i < |ws| ==> IsWhitespace(ws[i])
    requires s == [] || !IsWhitespace(s[0])
    ensures TrimStart(ws + s) == s
    decreases |ws|
  {
    if ws != [] {
      assert (ws + s)[1..] == ws[1..] + s;
      TrimStartSkips(ws[1..], s);
    } else {
      assert ws + s == s;
    }
  }

  /** A string with no whitespace at either end is its own `trim`. */
  lemma TrimUnchanged(s: string)
    requires s == [] || (!IsWhitespace(s[0]) && !IsWhitespace(s[|s| - 1]))
    ensures Trim(s) == s
  {
  }
}
