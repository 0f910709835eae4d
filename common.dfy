/**
  The projection sanitizer `sanitizeSelect` of helpers/common.ts: it rewrites a
  projection split on the space character so that no space-separated token of
  the result trims to the password field.
 */
module Common {
  import opened JsStrings

  const Password: string := "password"
  const PasswordExclusion: string := "-password"

  /** The filter callback: a token survives unless it trims to nothing, `password` or `-password`. */
  predicate Keep(token: string) {
    var trimmed := Trim(token);
    trimmed != Password && trimmed != PasswordExclusion && |trimmed| > 0
  }

  /** `xs.filter(p)`: the elements that satisfy `p`, in their original order. */
  function Filter<T>(xs: seq<T>, p: T -> bool): (kept: seq<T>)
    ensures |kept| <= |xs|
  {
    if xs == [] then [] else (if p(xs[0]) then [xs[0]] else []) + Filter(xs[1..], p)
  }

  /** An element is kept exactly when it is in the input and satisfies the predicate. */
  lemma {:induction false} FilterMembers<T>(xs: seq<T>, p: T -> bool)
    ensures forall x :: x in Filter(xs, p) <==> x in xs && p(x)
    decreases |xs|
  {
    if xs != [] {
      FilterMembers(xs[1..], p);
      assert xs == [xs[0]] + xs[1..];
    }
  }

  /** Filtering distributes over concatenation. */
  lemma {:induction false} FilterAppend<T>(xs: seq<T>, ys: seq<T>, p: T -> bool)
    ensures Filter(xs + ys, p) == Filter(xs, p) + Filter(ys, p)
    decreases |xs|
  {
    if xs != [] {
      assert (xs + ys)[1..] == xs[1..] + ys;
      FilterAppend(xs[1..], ys, p);
    } else {
      assert xs + ys == ys;
    }
  }

  /** Elements that all satisfy the predicate are kept as they are. */
  lemma {:induction false} FilterAll<T>(xs: seq<T>, p: T -> bool)
    requires forall x :: x in xs ==> p(x)
    ensures Filter(xs, p) == xs
    decreases |xs|
  {
    if xs != [] {
      FilterAll(xs[1..], p);
    }
  }

  /** Some token is in exclusion form: it starts with `-` (as written, not trimmed). */
  predicate HasExclusion(tokens: seq<string>) {
    exists t :: t in tokens && StartsWith(t, "-")
  }

  /** The kept tokens of a projection string, split on single spaces. */
  function Fields(select: string): seq<string>
  {
    Filter(Split(select, ' '), Keep)
  }

  /** `sanitizeSelect(select)`: the projection built from the kept tokens. */
  function SanitizeSelect(select: string): (r: string)
    ensures r != ""
  {
    var fields := Fields(select);
    assert fields != [] ==> fields[0] != "" by {
      FilterMembers(Split(select, ' '), Keep);
      assert fields != [] ==> fields[0] in fields;
    }
    Projection(fields)
  }

  /**
    The branches on the kept tokens: `-password` alone when there are none,
    the tokens joined by spaces, and `-password` appended when some token is
    an exclusion.
   */
  function Projection(fields: seq<string>): string
  {
    if |fields| > 0 then
      if HasExclusion(fields) then Join(fields, " ") + " " + PasswordExclusion
      else Join(fields, " ")
    else
      PasswordExclusion
  }

  /**
    The space-separated tokens of the result: `-password` alone when nothing
    is kept; the kept tokens when they are all inclusions; the kept tokens
    followed by `-password` when one of them is an exclusion.
   */
  function ProjectionTokens(kept: seq<string>): seq<string>
  {
    if kept == [] then [PasswordExclusion]
    else if HasExclusion(kept) then kept + [PasswordExclusion]
    else kept
  }

  /** Kept tokens contain no space, since they come from a split on spaces. */
  lemma FieldsHaveNoSpace(select: string)
    ensures forall t :: t in Fields(select) ==> ' ' !in t
  {
    FilterMembers(Split(select, ' '), Keep);
  }

  /** `-password` trims to itself, so the filter always drops it. */
  lemma PasswordExclusionDropped()
    ensures Trim(PasswordExclusion) == PasswordExclusion
    ensures !Keep(PasswordExclusion)
  {
    TrimUnchanged(PasswordExclusion);
  }

  /** No kept token is `-password` or trims to `password`. */
  lemma FieldsArePasswordFree(select: string)
    ensures PasswordExclusion !in Fields(select)
    ensures forall t :: t in Fields(select) ==> Trim(t) != Password
  {
    FilterMembers(Split(select, ' '), Keep);
    PasswordExclusionDropped();
  }

  /** The sanitized projection splits into exactly ProjectionTokens of the kept tokens. */
  lemma SanitizedTokens(select: string)
    ensures Split(SanitizeSelect(select), ' ') == ProjectionTokens(Fields(select))
  {
    var fields := Fields(select);
    FieldsHaveNoSpace(select);
    if fields == [] {
      SplitNone(PasswordExclusion, ' ');
    } else if HasExclusion(fields) {
      ExclusionTokens(fields);
    } else {
      SplitJoin(fields, ' ');
    }
  }

  lemma ExclusionTokens(fields: seq<string>)
    requires fields != []
    requires forall t :: t in fields ==> ' ' !in t
    ensures Split(Join(fields, " ") + " " + PasswordExclusion, ' ') == fields + [PasswordExclusion]
  {
    JoinSnoc(fields, " ", PasswordExclusion);
    SplitJoin(fields + [PasswordExclusion], ' ');
  }

  /** No space-separated token of the result trims to `password`. */
  lemma PasswordNeverIncluded(select: string)
    ensures forall t :: t in Split(SanitizeSelect(select), ' ') ==> Trim(t) != Password
  {
    var fields := Fields(select);
    var tokens := ProjectionTokens(fields);
    assert Split(SanitizeSelect(select), ' ') == tokens by {
      SanitizedTokens(select);
    }
    forall t | t in tokens
      ensures Trim(t) != Password
    {
      PasswordExclusionDropped();
      FieldsArePasswordFree(select);
      assert t in fields || t == PasswordExclusion;
    }
  }

  /** With nothing kept (empty input, blanks, password tokens only) the result is `-password`. */
  lemma NothingKept(select: string)
    requires Fields(select) == []
    ensures SanitizeSelect(select) == PasswordExclusion
  {
  }

  /**
    In inclusion mode the result lists exactly the kept tokens; no token of
    it is an exclusion and `-password` is not added.
   */
  lemma InclusionMode(select: string)
    requires Fields(select) != [] && !HasExclusion(Fields(select))
    ensures Split(SanitizeSelect(select), ' ') == Fields(select)
    ensures forall t :: t in Split(SanitizeSelect(select), ' ') ==> !StartsWith(t, "-")
    ensures PasswordExclusion !in Split(SanitizeSelect(select), ' ')
  {
    SanitizedTokens(select);
    assert StartsWith(PasswordExclusion, "-");
  }

  /**
    In exclusion mode the result is the kept tokens followed by `-password`,
    which therefore appears exactly once, as the last token.
   */
  lemma ExclusionMode(select: string)
    requires HasExclusion(Fields(select))
    ensures Split(SanitizeSelect(select), ' ') == Fields(select) + [PasswordExclusion]
    ensures PasswordExclusion !in Fields(select)
  {
    SanitizedTokens(select);
    FieldsArePasswordFree(select);
  }

  /** The kept tokens of a sanitized projection are the kept tokens of the original. */
  lemma FieldsOfSanitized(select: string)
    ensures Fields(SanitizeSelect(select)) == Fields(select)
  {
    var fields := Fields(select);
    assert Split(SanitizeSelect(select), ' ') == ProjectionTokens(fields) by {
      SanitizedTokens(select);
    }
    assert Filter([PasswordExclusion], Keep) == [] by {
      PasswordExclusionDropped();
    }
    assert Filter(fields, Keep) == fields by {
      FilterMembers(Split(select, ' '), Keep);
      FilterAll(fields, Keep);
    }
    if fields != [] && HasExclusion(fields) {
      FilterAppend(fields, [PasswordExclusion], Keep);
    }
  }

  /** Sanitizing twice is sanitizing once: the exclusion branch does not append `-password` again. */
  lemma {:induction false} SanitizeIdempotent(select: string)
    ensures SanitizeSelect(SanitizeSelect(select)) == SanitizeSelect(select)
  {
    FieldsOfSanitized(select);
  }

  /** Two space-free tokens separated by one space split back into those two. */
  lemma SplitPair(a: string, b: string)
    requires ' ' !in a && ' ' !in b
    ensures Split(a + " " + b, ' ') == [a, b]
  {
    SplitAtFirst(a, ' ', b);
    SplitNone(b, ' ');
    assert a + " " + b == a + [' '] + b;
  }

  lemma FilterPair<T>(x: T, y: T, p: T -> bool)
    ensures Filter([x, y], p) == (if p(x) then [x] else []) + (if p(y) then [y] else [])
  {
    assert [x, y][1..] == [y];
    assert [y][1..] == [];
  }

  /** The kept tokens of two space-free tokens. */
  lemma FieldsPair(a: string, b: string)
    requires ' ' !in a && ' ' !in b
    ensures Fields(a + " " + b) == (if Keep(a) then [a] else []) + (if Keep(b) then [b] else [])
  {
    SplitPair(a, b);
    FilterPair(a, b, Keep);
  }

  /** Two inclusion tokens pass through unchanged. */
  lemma SanitizeTwoInclusions(a: string, b: string)
    requires ' ' !in a && ' ' !in b && Keep(a) && Keep(b)
    requires !StartsWith(a, "-") && !StartsWith(b, "-")
    ensures SanitizeSelect(a + " " + b) == a + " " + b
  {
    var fields := Fields(a + " " + b);
    assert fields == [a, b] by {
      FieldsPair(a, b);
    }
    assert !HasExclusion([a, b]) by {
      forall t | t in [a, b] ensures !StartsWith(t, "-") {
        assert t == a || t == b;
      }
    }
    assert Projection([a, b]) == Join([a, b], " ");
    assert Join([a, b], " ") == a + " " + b by {
      assert [a, b][1..] == [b];
      assert Join([b], " ") == b;
    }
  }

  /** A `password` token after one kept token is dropped; `-password` is added back only in exclusion mode. */
  lemma SanitizeDropsPasswordAfter(a: string)
    requires ' ' !in a && Keep(a)
    ensures SanitizeSelect(a + " " + Password) == if StartsWith(a, "-") then a + " " + PasswordExclusion else a
  {
    var fields := Fields(a + " " + Password);
    assert fields == [a] by {
      TrimUnchanged(Password);
      FieldsPair(a, Password);
    }
    assert HasExclusion(fields) <==> StartsWith(a, "-");
  }

  /** A lone exclusion token gets `-password` appended. */
  lemma SanitizeOneExclusion(a: string)
    requires ' ' !in a && Keep(a) && StartsWith(a, "-")
    ensures SanitizeSelect(a) == a + " " + PasswordExclusion
  {
    var fields := Fields(a);
    assert fields == [a] by {
      SplitNone(a, ' ');
    }
    assert HasExclusion(fields);
  }

  /** The empty projection becomes `-password`. */
  lemma SanitizeEmpty()
    ensures SanitizeSelect("") == PasswordExclusion
  {
    SplitNone("", ' ');
    assert Fields("") == [];
  }

  /**
    The exclusion test looks at the token as written: a token whose first
    character is a tab is not seen as an exclusion even when its trimmed form
    is, so no `-password` is appended. A consumer that splits on any whitespace
    reads an exclusion of `email` alone, which still returns the password.
   */
  lemma ExclusionTestIsUntrimmed()
    ensures Trim("\t-email") == "-email"
    ensures SanitizeSelect("\t-email") == "\t-email"
  {
    SplitNone("\t-email", ' ');
    assert "\t-email"[1..] == "-email";
    TrimUnchanged("-email");
    assert Trim("\t-email") == "-email";
    assert Fields("\t-email") == ["\t-email"];
    assert !StartsWith("\t-email", "-");
  }

  /**
    Only the space character separates tokens: a tab between a field and
    `password` leaves one token, which is kept as it is. A consumer that splits
    the projection on any whitespace reads `password` as selected.
   */
  lemma TabSeparatedPasswordKept()
    ensures SanitizeSelect("name\tpassword") == "name\tpassword"
  {
    SplitNone("name\tpassword", ' ');
    TrimUnchanged("name\tpassword");
    assert Fields("name\tpassword") == ["name\tpassword"];
    assert !StartsWith("name\tpassword", "-");
  }
}
