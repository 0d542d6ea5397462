/** The JavaScript string operations the bot relies on, over `string`
    (a sequence of UTF-16 code units in JavaScript, of `char` here):
    `toLowerCase`, `includes`, `Array.prototype.join` and the `||`
    fallback on strings. `Split` is a helper the bot never calls: the
    inverse of `join`, used to state that a rendering splits back into
    its lines. */
module Text {

  /** ASCII case mapping: `A`..`Z` become `a`..`z`, everything else is kept. */
  function LowerChar(c: char): char {
    if 'A' <= c <= 'Z' then (c as int + 32) as char else c
  }

  /** `s.toLowerCase()`, restricted to ASCII case mapping. */
  function Lower(s: string): string {
    seq(|s|, i requires 0 <= i < |s| => LowerChar(s[i]))
  }

  // ---------------------------------------------------------------------
  // Substring search

  /** `p` occurs in `s` starting at index `i`. */
  ghost predicate OccursAt(s: string, p: string, i: int) {
    0 <= i && i + |p| <= |s| && s[i..i + |p|] == p
  }

  /** `s.includes(p)`: scans `s` from the left for a window equal to `p`.
      As in JavaScript, the empty pattern is included in every string. */
  function Includes(s: string, p: string): bool
    decreases |s|
  {
    if |p| > |s| then false
    else if s[..|p|] == p then true
    else Includes(s[1..], p)
  }

  /** The scan finds `p` exactly when `p` occurs somewhere in `s`. */
  lemma {:induction false} IncludesIff(s: string, p: string)
    ensures Includes(s, p) <==> exists i :: OccursAt(s, p, i)
    decreases |s|
  {
    if |p| > |s| {
    } else if s[..|p|] == p {
      assert OccursAt(s, p, 0);
    } else {
      IncludesIff(s[1..], p);
      if i :| OccursAt(s, p, i) {
        assert i != 0;
        assert s[1..][i - 1..i - 1 + |p|] == s[i..i + |p|];
        assert OccursAt(s[1..], p, i - 1);
      }
      if i :| OccursAt(s[1..], p, i) {
        assert s[1..][i..i + |p|] == s[i + 1..i + 1 + |p|];
        assert OccursAt(s, p, i + 1);
      }
    }
  }

  /** The window of `s` at `i` spells `p` up to ASCII case. */
  ghost predicate OccursIgnoringCaseAt(s: string, p: string, i: int) {
    && 0 <= i && i + |p| <= |s|
    && forall j :: 0 <= j < |p| ==> LowerChar(s[i + j]) == LowerChar(p[j])
  }

  /** One window of the lower-cased text equals a lower-case pattern
      exactly when the same window of the text matches it up to case. */
  lemma LowerWindow(s: string, p: string, i: int)
    requires Lower(p) == p
    requires 0 <= i && i + |p| <= |s|
    ensures OccursAt(Lower(s), p, i) <==> OccursIgnoringCaseAt(s, p, i)
  {
    var w := Lower(s)[i..i + |p|];
    assert |w| == |p|;
    assert forall j :: 0 <= j < |p| ==> w[j] == LowerChar(s[i + j]);
    assert forall j :: 0 <= j < |p| ==> p[j] == LowerChar(p[j]) by {
      forall j | 0 <= j < |p| ensures p[j] == LowerChar(p[j]) {
        assert Lower(p)[j] == LowerChar(p[j]);
      }
    }
    if OccursIgnoringCaseAt(s, p, i) {
      assert forall j :: 0 <= j < |p| ==> w[j] == p[j];
      assert w == p;
    }
  }

  /** Searching the lower-cased text for a lower-case pattern is a
      case-insensitive search of the original text. */
  lemma IncludesLowerIff(s: string, p: string)
    requires Lower(p) == p
    ensures Includes(Lower(s), p) <==> exists i :: OccursIgnoringCaseAt(s, p, i)
  {
    IncludesIff(Lower(s), p);
    forall i | 0 <= i && i + |p| <= |s|
      ensures OccursAt(Lower(s), p, i) <==> OccursIgnoringCaseAt(s, p, i)
    {
      LowerWindow(s, p, i);
    }
  }

  /** A pattern with a character the text lacks (up to ASCII case) does
      not occur in it, in any case. */
  lemma MissingCharExcludes(s: string, p: string, j: int)
    requires 0 <= j < |p|
    requires forall k :: 0 <= k < |s| ==> LowerChar(s[k]) != LowerChar(p[j])
    ensures !exists i :: OccursIgnoringCaseAt(s, p, i)
    ensures !exists i :: OccursAt(s, p, i)
  {
    forall i | 0 <= i && i + |p| <= |s|
      ensures !OccursIgnoringCaseAt(s, p, i) && !OccursAt(s, p, i)
    {
      assert s[i..i + |p|][j] == s[i + j];
    }
  }

  // ---------------------------------------------------------------------
  // The `||` fallback

  /** `s || fallback` for a string `s`: the empty string is falsy. */
  function OrElse(s: string, fallback: string): string {
    if s == "" then fallback else s
  }

  // ---------------------------------------------------------------------
  // Joining and splitting

  /** `xs.join(sep)`: the elements in order with `sep` between neighbours. */
  function Join(xs: seq<string>, sep: string): string
    decreases |xs|
  {
    if |xs| == 0 then ""
    else if |xs| == 1 then xs[0]
    else xs[0] + sep + Join(xs[1..], sep)
  }

  /** Joining one more element adds a separator and that element at the end. */
  lemma {:induction false} JoinSnoc(xs: seq<string>, x: string, sep: string)
    requires |xs| > 0
    ensures Join(xs + [x], sep) == Join(xs, sep) + sep + x
    decreases |xs|
  {
    if |xs| == 1 {
      assert xs + [x] == [xs[0], x];
      assert [xs[0], x][1..] == [x];
    } else {
      assert (xs + [x])[1..] == xs[1..] + [x];
      JoinSnoc(xs[1..], x, sep);
    }
  }

  /** With a non-empty separator, the join is empty only when there are no
      elements or a single empty one. */
  lemma JoinEmptyIff(xs: seq<string>, sep: string)
    requires sep != ""
    ensures Join(xs, sep) == "" <==> |xs| == 0 || (|xs| == 1 && xs[0] == "")
  {
    if |xs| > 1 {
      assert |Join(xs, sep)| >= |sep|;
    }
  }

  /** Splitting on a one-character separator, as `s.split(c)` would: the
      pieces between the occurrences of `c`; there is always one more
      piece than separators. */
  function Split(s: string, c: char): (r: seq<string>)
    ensures |r| == multiset(s)[c] + 1
    decreases |s|
  {
    if |s| == 0 then [""]
    else
      var rest := Split(s[1..], c);
      assert s == [s[0]] + s[1..];
      if s[0] == c then [""] + rest
      else [[s[0]] + rest[0]] + rest[1..]
  }

  /** A string without the separator splits into itself. */
  lemma {:induction false} SplitWithoutSeparator(x: string, c: char)
    requires c !in x
    ensures Split(x, c) == [x]
    decreases |x|
  {
    if |x| > 0 {
      SplitWithoutSeparator(x[1..], c);
      assert [x[0]] + x[1..] == x;
    }
  }

  /** Splitting `x + c + t` yields `x` followed by the pieces of `t`. */
  lemma {:induction false} SplitAfterPiece(x: string, c: char, t: string)
    requires c !in x
    ensures Split(x + [c] + t, c) == [x] + Split(t, c)
    decreases |x|
  {
    var s := x + [c] + t;
    if |x| == 0 {
      assert s[1..] == t;
    } else {
      assert s[1..] == x[1..] + [c] + t;
      SplitAfterPiece(x[1..], c, t);
      assert [x[0]] + x[1..] == x;
    }
  }

  /** Split undoes Join when no element contains the separator. */
  lemma {:induction false} SplitJoin(xs: seq<string>, c: char)
    requires |xs| > 0
    requires forall i :: 0 <= i < |xs| ==> c !in xs[i]
    ensures Split(Join(xs, [c]), c) == xs
    decreases |xs|
  {
    if |xs| == 1 {
      SplitWithoutSeparator(xs[0], c);
    } else {
      SplitAfterPiece(xs[0], c, Join(xs[1..], [c]));
      SplitJoin(xs[1..], c);
      assert [xs[0]] + xs[1..] == xs;
    }
  }
}
