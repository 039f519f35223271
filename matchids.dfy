/** The match-id extraction shared by the `match_info` command and the passive
    message handler: the leftmost match of the regular expression `\b\d{9}\b`.
    The regex is modelled twice: `MatchesAt` says where the expression matches,
    and `ScanFrom` is an explicit left-to-right scan over word runs that is
    proved to return the leftmost such place. */
module MatchIds {
  import opened Text

  /** The `{9}` of the expression. */
  const IdLength: nat := 9

  /** A canonical match id: exactly nine ASCII digits. */
  predicate IsMatchId(id: string) {
    |id| == IdLength && forall k :: 0 <= k < |id| ==> IsDigit(id[k])
  }

  /** Every character of `s[i..j]` is a digit. */
  predicate AllDigits(s: string, i: nat, j: nat)
    requires i <= j <= |s|
  {
    forall k :: i <= k < j ==> IsDigit(s[k])
  }

  /** `\b\d{9}\b` matches `s` at index `p`: nine digits, with a word boundary
      before and after them. Since digits are word characters, the boundary
      before means that `p` is the start of the text or follows a non-word
      character, and the boundary after means the end of the text or a
      non-word character. */
  predicate MatchesAt(s: string, p: int) {
    && 0 <= p && p + IdLength <= |s|
    && (forall k :: p <= k < p + IdLength ==> IsDigit(s[k]))
    && (p == 0 || !IsWordChar(s[p - 1]))
    && (p + IdLength == |s| || !IsWordChar(s[p + IdLength]))
  }

  /** `p` is where the regex search reports its match: the leftmost place at
      which the expression matches (every match has the same length). */
  predicate IsLeftmostMatch(s: string, p: int) {
    MatchesAt(s, p) && forall q :: 0 <= q < p ==> !MatchesAt(s, q)
  }

  /** The end of the run of word characters that starts at `i`. */
  function WordRunEnd(s: string, i: nat): (j: nat)
    requires i <= |s|
    ensures i <= j <= |s|
    ensures forall k :: i <= k < j ==> IsWordChar(s[k])
    ensures j == |s| || !IsWordChar(s[j])
    decreases |s| - i
  {
    if i == |s| || !IsWordChar(s[i]) then i else WordRunEnd(s, i + 1)
  }

  /** No match can start strictly inside a run of word characters, nor on the
      non-word character that ends it; at the start of the run the expression
      matches exactly when the whole run is nine digits. */
  lemma WordRunMatches(s: string, i: nat, j: nat)
    requires i < j <= |s|
    requires i == 0 || !IsWordChar(s[i - 1])
    requires forall k :: i <= k < j ==> IsWordChar(s[k])
    requires j == |s| || !IsWordChar(s[j])
    ensures MatchesAt(s, i) <==> j - i == IdLength && AllDigits(s, i, j)
    ensures forall q :: i < q <= j ==> !MatchesAt(s, q)
  {
    if MatchesAt(s, i) {
      assert forall k :: i <= k < i + IdLength ==> IsWordChar(s[k]);
    }
    forall q | i < q <= j
      ensures !MatchesAt(s, q)
    {
      if q < j {
        assert IsWordChar(s[q - 1]);
      } else if j < |s| {
        assert !IsDigit(s[j]);
      }
    }
  }

  /** The scan: from a position `i` at which a word boundary may start, skip
      non-word characters one at a time and word runs as a whole; the first
      word run that is exactly nine digits is the match. */
  function ScanFrom(s: string, i: nat): (r: Option<nat>)
    requires i <= |s|
    requires i == 0 || !IsWordChar(s[i - 1])
    ensures r.Some? ==> i <= r.value && MatchesAt(s, r.value)
    ensures r.Some? ==> forall q :: i <= q < r.value ==> !MatchesAt(s, q)
    ensures r.None? ==> forall q :: i <= q ==> !MatchesAt(s, q)
    decreases |s| - i
  {
    if i == |s| then None
    else if !IsWordChar(s[i]) then ScanFrom(s, i + 1)
    else
      var j := WordRunEnd(s, i);
      WordRunMatches(s, i, j);
      if j - i == IdLength && AllDigits(s, i, j) then Some(i)
      else if j == |s| then None
      else ScanFrom(s, j + 1)
  }

  /** The position of the leftmost match of `\b\d{9}\b` in `s`, if any. */
  function FindMatchId(s: string): (r: Option<nat>)
    ensures r.Some? ==> IsLeftmostMatch(s, r.value)
    ensures r.None? ==> forall q :: !MatchesAt(s, q)
  {
    ScanFrom(s, 0)
  }

  /** `re.captures(text)` followed by `&captures[0]`: the text of the leftmost
      match. It is a match id, it stands at the leftmost matching position, and
      there is none exactly when the expression matches nowhere. */
  function ExtractMatchId(s: string): (r: Option<string>)
    ensures r.Some? ==> IsMatchId(r.value)
    ensures r.Some? ==> exists p :: IsLeftmostMatch(s, p) && s[p..p + IdLength] == r.value
    ensures r.None? <==> forall q :: !MatchesAt(s, q)
  {
    match FindMatchId(s)
    case None => None
    case Some(p) => Some(s[p..p + IdLength])
  }

  /** The leftmost match, when there is one, is the extracted id. */
  lemma ExtractIsLeftmost(s: string, p: int)
    requires IsLeftmostMatch(s, p)
    ensures ExtractMatchId(s) == Some(s[p..p + IdLength])
  {
    var found := FindMatchId(s);
    assert found.Some?;
    assert !(found.value < p) && !(p < found.value);
  }

  /** Whether the expression matches depends only on which characters are
      digits and which are word characters. */
  lemma MatchesAtSameClasses(s: string, t: string, q: int)
    requires |s| == |t|
    requires forall k :: 0 <= k < |s| ==> IsDigit(s[k]) == IsDigit(t[k]) && IsWordChar(s[k]) == IsWordChar(t[k])
    ensures MatchesAt(s, q) <==> MatchesAt(t, q)
  {
  }

  /** Lower-casing does not move word boundaries or change digits, so the
      passive handler, which searches the lower-cased message, finds the same
      id as a search of the message as written. */
  lemma ExtractIgnoresCase(s: string)
    ensures ExtractMatchId(ToLower(s)) == ExtractMatchId(s)
  {
    var l := ToLower(s);
    forall q ensures MatchesAt(l, q) <==> MatchesAt(s, q) {
      MatchesAtSameClasses(l, s, q);
    }
    var found := FindMatchId(s);
    if found.Some? {
      var p := found.value;
      assert IsLeftmostMatch(l, p);
      ExtractIsLeftmost(l, p);
      ExtractIsLeftmost(s, p);
      assert forall k :: p <= k < p + IdLength ==> l[k] == s[k];
      assert l[p..p + IdLength] == s[p..p + IdLength];
    } else {
      assert forall q :: !MatchesAt(l, q);
    }
  }

  /** No character of `s` is a digit. */
  predicate NoDigits(s: string) {
    forall k :: 0 <= k < |s| ==> !IsDigit(s[k])
  }

  /** A text whose only digits form one run `d`: the run is extracted exactly
      when it is nine digits long and has a word boundary on each side; a
      longer or shorter run, or one glued to a letter or `_`, gives nothing. */
  lemma SoleDigitRun(a: string, d: string, b: string)
    requires NoDigits(a) && NoDigits(b)
    requires forall k :: 0 <= k < |d| ==> IsDigit(d[k])
    ensures ExtractMatchId(a + d + b) ==
      if |d| == IdLength && (a == [] || !IsWordChar(a[|a| - 1])) && (b == [] || !IsWordChar(b[0]))
      then Some(d) else None
  {
    var s := a + d + b;
    // Every match lies inside `d`, so it can only start at |a|.
    forall q | MatchesAt(s, q)
      ensures q == |a| && |d| == IdLength
    {
      assert IsDigit(s[q]) && IsDigit(s[q + IdLength - 1]);
      assert q >= |a| && q + IdLength <= |a| + |d|;
    }
    if |d| == IdLength && (a == [] || !IsWordChar(a[|a| - 1])) && (b == [] || !IsWordChar(b[0])) {
      assert s[|a|..|a| + IdLength] == d;
      assert MatchesAt(s, |a|);
      ExtractIsLeftmost(s, |a|);
    } else {
      assert !MatchesAt(s, |a|);
    }
  }

  /** When several tokens qualify, the leftmost wins: a nine-digit token with a
      word boundary on each side is the one extracted whenever the text before
      it holds no match, whatever follows it. */
  lemma FirstIsolatedToken(a: string, id: string, b: string)
    requires IsMatchId(id)
    requires ExtractMatchId(a) == None
    requires a == [] || !IsWordChar(a[|a| - 1])
    requires b == [] || !IsWordChar(b[0])
    ensures ExtractMatchId(a + id + b) == Some(id)
  {
    var s := a + id + b;
    forall q | 0 <= q < |a|
      ensures !MatchesAt(s, q)
    {
      if q + IdLength < |a| {
        assert MatchesAt(s, q) ==> MatchesAt(a, q) by {
          assert forall k :: 0 <= k < |a| ==> s[k] == a[k];
        }
      } else {
        assert !IsDigit(s[|a| - 1]);
      }
    }
    assert s[|a|..|a| + IdLength] == id;
    assert MatchesAt(s, |a|);
    ExtractIsLeftmost(s, |a|);
  }
}
