/** Character classes and the string operations of Rust's standard library that
    the bot relies on: `to_lowercase`, `contains`, `replace`, `join` (and
    `split`, the inverse of `join`). Characters are modelled as ASCII. */
module Text {

  datatype Option<+T> = None | Some(value: T)

  /** The regex class `\d`, restricted to ASCII. */
  predicate IsDigit(c: char) {
    '0' <= c <= '9'
  }

  predicate IsUpper(c: char) {
    'A' <= c <= 'Z'
  }

  /** A word character `[A-Za-z0-9_]`: what the regex assertion `\b` looks at. */
  predicate IsWordChar(c: char) {
    'a' <= c <= 'z' || IsUpper(c) || IsDigit(c) || c == '_'
  }

  /** `char::to_lowercase` on ASCII: upper-case letters move to lower case,
      every other character is left alone. */
  function Lower(c: char): (d: char)
    ensures !IsUpper(d)
    ensures !IsUpper(c) ==> d == c
    ensures IsUpper(c) ==> d as int == c as int - 'A' as int + 'a' as int
    ensures IsDigit(d) == IsDigit(c) && IsWordChar(d) == IsWordChar(c)
  {
    if IsUpper(c) then (c as int - 'A' as int + 'a' as int) as char else c
  }

  /** `str::to_lowercase`, character by character. */
  function ToLower(s: string): (r: string)
    ensures |r| == |s|
    ensures forall i :: 0 <= i < |s| ==> r[i] == Lower(s[i])
    ensures forall i :: 0 <= i < |r| ==> !IsUpper(r[i])
  {
    if s == [] then [] else [Lower(s[0])] + ToLower(s[1..])
  }

  /** Lower-casing twice is lower-casing once. */
  lemma ToLowerIdempotent(s: string)
    ensures ToLower(ToLower(s)) == ToLower(s)
  {
    var once := ToLower(s);
    var twice := ToLower(once);
    assert forall i :: 0 <= i < |s| ==> twice[i] == Lower(once[i]) == once[i];
  }

  /** Text without upper-case letters is its own lower case. */
  lemma ToLowerKeepsLower(s: string)
    requires forall i :: 0 <= i < |s| ==> !IsUpper(s[i])
    ensures ToLower(s) == s
  {
  }

  /** `pat` occurs in `s` starting at index `i`. */
  predicate OccursAt(s: string, pat: string, i: int) {
    0 <= i && i + |pat| <= |s| && s[i..i + |pat|] == pat
  }

  /** `str::contains`: a left-to-right search for `pat` (the empty pattern is
      contained in every string). */
  predicate Contains(s: string, pat: string)
    decreases |s|
  {
    pat <= s || (|s| > 0 && Contains(s[1..], pat))
  }

  /** Occurrences in a suffix are occurrences in the whole text, shifted. */
  lemma OccursInSuffix(s: string, pat: string, n: nat, i: int)
    requires n <= |s| && i >= 0
    ensures OccursAt(s[n..], pat, i) <==> OccursAt(s, pat, i + n)
  {
    if i + n + |pat| <= |s| {
      assert s[n..][i..i + |pat|] == s[i + n..i + n + |pat|];
    }
  }

  /** The search agrees with the positional definition of an occurrence. */
  lemma {:induction false} ContainsIffOccurs(s: string, pat: string)
    ensures Contains(s, pat) <==> exists i :: OccursAt(s, pat, i)
    decreases |s|
  {
    if pat <= s {
      assert OccursAt(s, pat, 0);
    } else if |s| == 0 {
      assert forall i :: !OccursAt(s, pat, i);
    } else {
      ContainsIffOccurs(s[1..], pat);
      if Contains(s[1..], pat) {
        var i :| OccursAt(s[1..], pat, i);
        OccursInSuffix(s, pat, 1, i);
      } else {
        forall i | i > 0 ensures !OccursAt(s, pat, i) {
          OccursInSuffix(s, pat, 1, i - 1);
        }
        assert !OccursAt(s, pat, 0) by {
          if |pat| <= |s| { assert s[0..|pat|] == s[..|pat|]; }
        }
      }
    }
  }

  /** A pattern longer than the text never occurs in it. */
  lemma {:induction false} ContainsNotLonger(s: string, pat: string)
    requires |s| < |pat|
    ensures !Contains(s, pat)
    decreases |s|
  {
    if |s| > 0 {
      ContainsNotLonger(s[1..], pat);
    }
  }

  /** A text without the first character of `pat` does not contain `pat`. */
  lemma {:induction false} ContainsNeedsFirstChar(s: string, pat: string)
    requires |pat| > 0 && pat[0] !in s
    ensures !Contains(s, pat)
    decreases |s|
  {
    if |s| > 0 {
      assert s[0] in s;
      ContainsNeedsFirstChar(s[1..], pat);
    }
  }

  /** `str::replace(pat, rep)`: every non-overlapping occurrence of `pat`,
      found left to right, is replaced by `rep`. As in Rust, an empty pattern
      matches at every character boundary, so `rep` is inserted before every
      character and at the end. */
  function ReplaceAll(s: string, pat: string, rep: string): (r: string)
    ensures !Contains(s, pat) ==> r == s
    ensures rep == pat ==> r == s
    ensures |rep| == |pat| ==> |r| == |s|
    ensures |pat| > 0 && pat <= s ==> rep <= r
    ensures |rep| <= |pat| ==> |r| <= |s|
    ensures |rep| < |pat| && Contains(s, pat) ==> |r| < |s|
    decreases |s|
  {
    if |s| == 0 then
      (if |pat| == 0 then rep else [])
    else if |pat| == 0 then
      rep + [s[0]] + ReplaceAll(s[1..], pat, rep)
    else if pat <= s then
      rep + ReplaceAll(s[|pat|..], pat, rep)
    else
      [s[0]] + ReplaceAll(s[1..], pat, rep)
  }

  /** The first occurrence of `pat` is replaced by `rep`: the text before it
      is copied unchanged and the replacing goes on after the occurrence. */
  lemma {:induction false} ReplaceFirstOccurrence(x: string, y: string, pat: string, rep: string)
    requires |pat| > 0
    requires forall i :: 0 <= i < |x| ==> !OccursAt(x + pat + y, pat, i)
    ensures ReplaceAll(x + pat + y, pat, rep) == x + rep + ReplaceAll(y, pat, rep)
    decreases |x|
  {
    var s := x + pat + y;
    if |x| == 0 {
      assert s == pat + y;
      assert pat <= s;
      assert s[|pat|..] == y;
      assert x + rep == rep;
    } else {
      assert !(pat <= s) by {
        assert !OccursAt(s, pat, 0);
        assert |pat| <= |s| && s[0..|pat|] == s[..|pat|];
      }
      assert s[1..] == x[1..] + pat + y;
      forall i | 0 <= i < |x[1..]|
        ensures !OccursAt(x[1..] + pat + y, pat, i)
      {
        OccursInSuffix(s, pat, 1, i);
      }
      ReplaceFirstOccurrence(x[1..], y, pat, rep);
      assert [s[0]] + (x[1..] + rep + ReplaceAll(y, pat, rep)) == x + rep + ReplaceAll(y, pat, rep);
    }
  }

  /** No occurrence of `pat` in `s` starts before index `n` and ends after it. */
  predicate NoOccurrenceAcross(s: string, pat: string, n: int) {
    forall i :: 0 <= i < n < i + |pat| ==> !OccursAt(s, pat, i)
  }

  /** Replacing distributes over a concatenation that no occurrence of `pat`
      straddles. */
  lemma {:induction false} ReplaceAllConcat(x: string, y: string, pat: string, rep: string)
    requires |pat| > 0
    requires NoOccurrenceAcross(x + y, pat, |x|)
    ensures ReplaceAll(x + y, pat, rep) == ReplaceAll(x, pat, rep) + ReplaceAll(y, pat, rep)
    decreases |x|
  {
    var s := x + y;
    if |x| == 0 {
      assert s == y;
    } else if pat <= s {
      assert OccursAt(s, pat, 0) by { assert s[0..|pat|] == s[..|pat|]; }
      assert |pat| <= |x|;
      assert pat <= x by { assert x[..|pat|] == s[..|pat|]; }
      var x' := x[|pat|..];
      assert s[|pat|..] == x' + y;
      forall i | 0 <= i < |x'| < i + |pat|
        ensures !OccursAt(x' + y, pat, i)
      {
        OccursInSuffix(s, pat, |pat|, i);
      }
      ReplaceAllConcat(x', y, pat, rep);
    } else {
      assert !(pat <= x) by {
        if |pat| <= |x| { assert x[..|pat|] == s[..|pat|]; }
      }
      var x' := x[1..];
      assert s[1..] == x' + y;
      forall i | 0 <= i < |x'| < i + |pat|
        ensures !OccursAt(x' + y, pat, i)
      {
        OccursInSuffix(s, pat, 1, i);
      }
      ReplaceAllConcat(x', y, pat, rep);
    }
  }

  /** `[S]::join(sep)`: the strings of `xs` in order, separated by `sep`. */
  function Join(xs: seq<string>, sep: string): (r: string)
    ensures |xs| == 1 ==> r == xs[0]
    ensures |xs| > 0 ==> xs[0] <= r
    decreases |xs|
  {
    if |xs| == 0 then []
    else if |xs| == 1 then xs[0]
    else xs[0] + sep + Join(xs[1..], sep)
  }

  /** `str::split(sep)` collected into a sequence: the pieces between the
      separators, so there is always at least one piece and none of them
      contains `sep`. */
  function Split(s: string, sep: char): (r: seq<string>)
    ensures |r| >= 1
    ensures forall i :: 0 <= i < |r| ==> sep !in r[i]
    decreases |s|
  {
    if |s| == 0 then [[]]
    else
      var rest := Split(s[1..], sep);
      if s[0] == sep then [[]] + rest
      else [[s[0]] + rest[0]] + rest[1..]
  }

  /** Text without a separator is glued onto the first piece of what follows. */
  lemma {:induction false} SplitAfterPlain(a: string, t: string, sep: char)
    requires sep !in a
    ensures Split(a + t, sep) == [a + Split(t, sep)[0]] + Split(t, sep)[1..]
    decreases |a|
  {
    if |a| > 0 {
      assert (a + t)[1..] == a[1..] + t;
      SplitAfterPlain(a[1..], t, sep);
      var rest := Split(a[1..] + t, sep);
      assert Split(a + t, sep) == [[a[0]] + rest[0]] + rest[1..];
      assert rest[0] == a[1..] + Split(t, sep)[0];
      assert rest[1..] == Split(t, sep)[1..];
      assert [a[0]] + (a[1..] + Split(t, sep)[0]) == a + Split(t, sep)[0];
    } else {
      assert a + t == t;
      assert a + Split(t, sep)[0] == Split(t, sep)[0];
      assert Split(t, sep) == [Split(t, sep)[0]] + Split(t, sep)[1..];
    }
  }

  /** Splitting a joined list gives the list back, provided it is not empty
      and no element contains the separator. */
  lemma {:induction false} SplitJoin(xs: seq<string>, sep: char)
    requires |xs| > 0
    requires forall i :: 0 <= i < |xs| ==> sep !in xs[i]
    ensures Split(Join(xs, [sep]), sep) == xs
    decreases |xs|
  {
    if |xs| == 1 {
      SplitAfterPlain(xs[0], [], sep);
      assert xs[0] + [] == xs[0];
    } else {
      var tail := Join(xs[1..], [sep]);
      SplitJoin(xs[1..], sep);
      assert Join(xs, [sep]) == xs[0] + ([sep] + tail);
      SplitAfterPlain(xs[0], [sep] + tail, sep);
      assert ([sep] + tail)[1..] == tail;
      assert Split([sep] + tail, sep) == [[]] + xs[1..];
      assert xs[0] + [] == xs[0];
    }
  }
}
