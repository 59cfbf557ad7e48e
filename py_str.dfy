/** The three Python string operations the scripts rely on, on `seq<char>`:
    substring containment (`p in s`), `s.strip(c)` for a one-character
    argument, and `s.replace(pat, rep)`; plus `s.count(pat)`, which states
    how much a replacement removes. */
module PyStr {

  /** `p` occurs in `s` starting at index `i`. */
  ghost predicate OccursAt(s: string, p: string, i: int)
  {
    0 <= i && i + |p| <= |s| && s[i..i + |p|] == p
  }

  /** Dropping the first `k` characters moves every occurrence `k` places left. */
  lemma OccursAtShift(s: string, p: string, k: nat, i: nat)
    requires k <= |s|
    ensures OccursAt(s[k..], p, i) <==> OccursAt(s, p, i + k)
  {
    if i + |p| <= |s[k..]| {
      assert s[k..][i..i + |p|] == s[i + k..i + k + |p|];
    }
  }

  /** Python's `p in s`: `p` is a substring of `s` (the empty string is a
      substring of every string). */
  function Contains(s: string, p: string): (r: bool)
    ensures r <==> exists i :: OccursAt(s, p, i)
    decreases |s|
  {
    if |s| < |p| then false
    else if s[..|p|] == p then
      assert OccursAt(s, p, 0);
      true
    else
      assert !OccursAt(s, p, 0);
      forall i: nat ensures OccursAt(s[1..], p, i) ==> OccursAt(s, p, i + 1) {
        OccursAtShift(s, p, 1, i);
      }
      forall j: nat | OccursAt(s, p, j) ensures OccursAt(s[1..], p, j - 1) {
        OccursAtShift(s, p, 1, j - 1);
      }
      Contains(s[1..], p)
  }

  /** For a one-character `p`, `p in s` is membership of that character. */
  lemma ContainsLetter(s: string, c: char)
    ensures Contains(s, [c]) <==> c in s
  {
    if c in s {
      var i :| 0 <= i < |s| && s[i] == c;
      assert s[i..i + 1] == [c];
      assert OccursAt(s, [c], i);
    } else {
      forall i: nat ensures !OccursAt(s, [c], i) {
        if i + 1 <= |s| {
          assert s[i..i + 1] == [s[i]];
        }
      }
    }
  }

  /** A string lacking the first character of `p` cannot contain `p`. */
  lemma MissingFirstLetter(s: string, p: string)
    requires p != [] && p[0] !in s
    ensures !Contains(s, p)
  {
    forall i: nat ensures !OccursAt(s, p, i) {
      if i + |p| <= |s| {
        assert s[i..i + |p|][0] == s[i];
      }
    }
  }

  /** A string with no occurrence of `p` has none in any suffix either. */
  lemma AbsentFromSuffix(s: string, p: string, k: nat)
    requires k <= |s| && !Contains(s, p)
    ensures !Contains(s[k..], p)
  {
    forall i: nat ensures !OccursAt(s[k..], p, i) {
      OccursAtShift(s, p, k, i);
    }
  }

  /** Python's `s.lstrip(c)`: drops every leading `c`. */
  function StripLeading(s: string, c: char): (r: string)
    ensures |r| <= |s| && r == s[|s| - |r|..]
    ensures forall k :: 0 <= k < |s| - |r| ==> s[k] == c
    ensures r == [] || r[0] != c
  {
    if s != [] && s[0] == c then StripLeading(s[1..], c) else s
  }

  /** Python's `s.rstrip(c)`: drops every trailing `c`. */
  function StripTrailing(s: string, c: char): (r: string)
    ensures |r| <= |s| && r == s[..|r|]
    ensures forall k :: |r| <= k < |s| ==> s[k] == c
    ensures r == [] || r[|r| - 1] != c
  {
    if s != [] && s[|s| - 1] == c then StripTrailing(s[..|s| - 1], c) else s
  }

  /** Python's `s.strip(c)` for a one-character argument `c`. */
  function Strip(s: string, c: char): (r: string)
    ensures r == [] || (r[0] != c && r[|r| - 1] != c)
    ensures r == [] <==> forall k :: 0 <= k < |s| ==> s[k] == c
  {
    var t := StripLeading(s, c);
    assert t == [] || t[0] != c;
    StripTrailing(t, c)
  }

  /** `Strip` removes leading and trailing `c` only: what remains is one
      contiguous piece of `s`, and everything cut off on either side is `c`. */
  lemma StripIsInfix(s: string, c: char) returns (i: nat, j: nat)
    ensures i <= j <= |s| && Strip(s, c) == s[i..j]
    ensures forall k :: 0 <= k < i ==> s[k] == c
    ensures forall k :: j <= k < |s| ==> s[k] == c
  {
    var t := StripLeading(s, c);
    var r := StripTrailing(t, c);
    i := |s| - |t|;
    j := i + |r|;
    assert t == s[i..];
    assert r == t[..|r|] == s[i..j];
    forall k | j <= k < |s| ensures s[k] == c {
      assert s[k] == t[k - i];
    }
  }

  /** A string without `c` is left alone by `Strip`, also after one `c` is
      appended to it: the piece of a line before its terminator. */
  lemma StripTerminated(w: string, c: char)
    requires c !in w
    ensures Strip(w, c) == w
    ensures Strip(w + [c], c) == w
  {
    assert w != [] ==> w[0] in w;
    assert w != [] ==> w[|w| - 1] in w;
    var t := w + [c];
    assert t[..|t| - 1] == w;
    if w == [] {
      assert StripLeading(t, c) == StripLeading([], c) by { assert t[1..] == []; }
    } else {
      assert StripLeading(t, c) == t;
    }
  }

  /** Python's `s.replace("", rep)`: `rep` before every character and at the end. */
  function InsertEverywhere(s: string, rep: string): (r: string)
    ensures rep <= r && r[|r| - |rep|..] == rep
    ensures rep == [] ==> r == s
  {
    if s == [] then rep else rep + [s[0]] + InsertEverywhere(s[1..], rep)
  }

  /** Python's `s.replace(pat, rep)`: every non-overlapping occurrence of
      `pat`, found left to right, becomes `rep`. */
  function Replace(s: string, pat: string, rep: string): (r: string)
    ensures rep == pat ==> r == s
    decreases |s|
  {
    if pat == [] then InsertEverywhere(s, rep)
    else if |s| < |pat| then s
    else if s[..|pat|] == pat then rep + Replace(s[|pat|..], pat, rep)
    else [s[0]] + Replace(s[1..], pat, rep)
  }

  /** Python's `s.count(pat)`: the number of non-overlapping occurrences that
      `Replace` rewrites. */
  function Count(s: string, pat: string): (n: nat)
    ensures n == 0 <==> !Contains(s, pat)
    decreases |s|
  {
    if pat == [] then |s| + 1
    else if |s| < |pat| then 0
    else if s[..|pat|] == pat then 1 + Count(s[|pat|..], pat)
    else Count(s[1..], pat)
  }

  /** A string in which `pat` does not occur is returned unchanged. */
  lemma {:induction false} ReplaceAbsent(s: string, pat: string, rep: string)
    requires !Contains(s, pat)
    ensures Replace(s, pat, rep) == s
    decreases |s|
  {
    if |s| >= |pat| {
      ReplaceAbsent(s[1..], pat, rep);
      assert [s[0]] + s[1..] == s;
    }
  }

  /** Where `pat` does not start, the first character is kept as it is. */
  lemma ReplaceSkip(s: string, pat: string, rep: string)
    requires pat != [] && s != [] && !OccursAt(s, pat, 0)
    ensures Replace(s, pat, rep) == [s[0]] + Replace(s[1..], pat, rep)
  {
    if |s| >= |pat| {
      assert s[0..|pat|] == s[..|pat|];
    }
  }

  /** A non-empty `a` is its head followed by its tail, also in front of `x`:
      the regrouping step of ReplaceFirst, stated apart for proof stability. */
  lemma HeadTailAppend(a: string, x: string)
    requires a != []
    ensures [a[0]] + (a[1..] + x) == a + x
  {
  }

  /** The first occurrence is the one replaced: when `pat` starts nowhere
      in `a + pat + b` before index `|a|`, the text before it is kept and
      the scan carries on right after it. */
  lemma {:induction false} ReplaceFirst(a: string, pat: string, rep: string, b: string)
    requires pat != []
    requires forall i :: 0 <= i < |a| ==> !OccursAt(a + pat + b, pat, i)
    ensures Replace(a + pat + b, pat, rep) == a + (rep + Replace(b, pat, rep))
    decreases |a|
  {
    var s := a + pat + b;
    if a == [] {
      assert s[..|pat|] == pat && s[|pat|..] == b;
    } else {
      var t := a[1..] + pat + b;
      assert s[1..] == t;
      forall i | 0 <= i < |a| - 1 ensures !OccursAt(t, pat, i) {
        OccursAtShift(s, pat, 1, i);
      }
      ReplaceFirst(a[1..], pat, rep, b);
      ReplaceSkip(s, pat, rep);
      assert s[0] == a[0];
      HeadTailAppend(a, rep + Replace(b, pat, rep));
    }
  }

  /** Length of `rep` inserted between characters and at the end. */
  lemma {:induction false} InsertEverywhereLength(s: string, rep: string)
    ensures |InsertEverywhere(s, rep)| == |s| + (|s| + 1) * |rep|
  {
    if s != [] {
      var n, d := |s| - 1, |rep|;
      InsertEverywhereLength(s[1..], rep);
      assert |InsertEverywhere(s[1..], rep)| == n + (n + 1) * d;
      assert |InsertEverywhere(s, rep)| == d + 1 + |InsertEverywhere(s[1..], rep)|;
      MulSucc(n + 1, d);
    }
  }

  /** Distribution step for ReplaceLength, stated once so that its proof
      stays linear. */
  lemma MulSucc(n: nat, d: int)
    ensures (1 + n) * d == d + n * d
  {
  }

  /** Each replaced occurrence changes the length by `|rep| - |pat|`. */
  lemma {:induction false} ReplaceLength(s: string, pat: string, rep: string)
    ensures |Replace(s, pat, rep)| == |s| + Count(s, pat) * (|rep| - |pat|)
    decreases |s|
  {
    if pat == [] {
      InsertEverywhereLength(s, rep);
    } else if |s| >= |pat| {
      var d := |rep| - |pat|;
      if s[..|pat|] == pat {
        ReplaceLength(s[|pat|..], pat, rep);
        ReplaceLengthAtMatch(s, pat, rep);
      } else {
        ReplaceLength(s[1..], pat, rep);
        assert |Replace(s, pat, rep)| == 1 + |Replace(s[1..], pat, rep)|;
        assert Count(s, pat) == Count(s[1..], pat);
      }
    }
  }

  /** The step of ReplaceLength where `s` starts with `pat`, stated apart
      for proof stability. */
  lemma ReplaceLengthAtMatch(s: string, pat: string, rep: string)
    requires pat != [] && |s| >= |pat| && s[..|pat|] == pat
    requires |Replace(s[|pat|..], pat, rep)| == |s[|pat|..]| + Count(s[|pat|..], pat) * (|rep| - |pat|)
    ensures |Replace(s, pat, rep)| == |s| + Count(s, pat) * (|rep| - |pat|)
  {
    var n, d := Count(s[|pat|..], pat), |rep| - |pat|;
    assert |Replace(s, pat, rep)| == |rep| + |Replace(s[|pat|..], pat, rep)|;
    assert Count(s, pat) == 1 + n;
    MulSucc(n, d);
  }

  /** A character absent from both the text and the replacement stays absent. */
  lemma {:induction false} ReplaceKeepsOut(s: string, pat: string, rep: string, c: char)
    requires c !in s && c !in rep
    ensures c !in Replace(s, pat, rep)
    decreases |s|
  {
    if pat == [] {
      InsertEverywhereKeepsOut(s, rep, c);
    } else if |s| >= |pat| {
      if s[..|pat|] == pat {
        assert forall k :: 0 <= k < |s| - |pat| ==> s[|pat|..][k] == s[k + |pat|];
        ReplaceKeepsOut(s[|pat|..], pat, rep, c);
      } else {
        assert forall k :: 0 <= k < |s| - 1 ==> s[1..][k] == s[k + 1];
        ReplaceKeepsOut(s[1..], pat, rep, c);
      }
    }
  }

  lemma {:induction false} InsertEverywhereKeepsOut(s: string, rep: string, c: char)
    requires c !in s && c !in rep
    ensures c !in InsertEverywhere(s, rep)
  {
    if s != [] {
      assert forall k :: 0 <= k < |s| - 1 ==> s[1..][k] == s[k + 1];
      InsertEverywhereKeepsOut(s[1..], rep, c);
    }
  }

  /** The first character of a replacement result: `rep`'s when the text
      starts with `pat`, the text's own otherwise. */
  lemma ReplaceHead(s: string, pat: string, rep: string)
    requires pat != [] && rep != [] && Replace(s, pat, rep) != []
    ensures Replace(s, pat, rep)[0] ==
      if |s| >= |pat| && s[..|pat|] == pat then rep[0] else s[0]
  {
  }

  /** Putting `x` in front of a text without the two-character `q` creates
      no `q` unless `x` and the text's first character spell it. */
  lemma ConsKeepsPairOut(x: char, t: string, q: string)
    requires |q| == 2 && !Contains(t, q)
    requires t == [] || x != q[0] || t[0] != q[1]
    ensures !Contains([x] + t, q)
  {
    var r := [x] + t;
    assert r[1..] == t;
    forall i: nat ensures !OccursAt(r, q, i) {
      if i == 0 {
        if 2 <= |r| {
          assert r[0..2] == [x, t[0]];
        }
      } else {
        OccursAtShift(r, q, 1, i - 1);
      }
    }
  }

  /** Replacing a two-character `pat` by one character that belongs to
      neither half of the two-character `q` never creates an occurrence of
      `q`; in particular (`q == pat`) it leaves no occurrence of `pat`. */
  lemma {:induction false} ReplaceLeavesNoPair(s: string, pat: string, rep: string, q: string)
    requires |pat| == 2 && |rep| == 1 && |q| == 2
    requires rep[0] != q[0] && rep[0] != q[1]
    requires q == pat || !Contains(s, q)
    ensures !Contains(Replace(s, pat, rep), q)
    decreases |s|
  {
    var r := Replace(s, pat, rep);
    if |s| < 2 {
      assert r == s;
      forall i: nat ensures !OccursAt(r, q, i) {
      }
    } else if s[..2] == pat {
      var rest := s[2..];
      if q != pat { AbsentFromSuffix(s, q, 2); }
      ReplaceLeavesNoPair(rest, pat, rep, q);
      assert r == [rep[0]] + Replace(rest, pat, rep);
      ConsKeepsPairOut(rep[0], Replace(rest, pat, rep), q);
    } else {
      var rest := s[1..];
      if q != pat { AbsentFromSuffix(s, q, 1); }
      ReplaceLeavesNoPair(rest, pat, rep, q);
      var tail := Replace(rest, pat, rep);
      assert r == [s[0]] + tail;
      assert tail == [] || s[0] != q[0] || tail[0] != q[1] by {
        if tail != [] {
          ReplaceHead(rest, pat, rep);
          assert rest[0] == s[1];
          assert s[..2] == [s[0], s[1]];
          if q != pat {
            assert !OccursAt(s, q, 0);
          }
        }
      }
      ConsKeepsPairOut(s[0], tail, q);
    }
  }
}
