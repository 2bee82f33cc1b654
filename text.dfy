/** String operations the renderer takes from Python's `str` type:
    `find`, `in`, `join`, `replace` and (ASCII) `lower`, plus the facts
    about where a pattern can or cannot occur in a concatenation. */
module Text {
  import opened Results

  /** `pat` occurs in `s` starting at index `k`. */
  predicate Occurs(s: string, pat: string, k: int) {
    0 <= k && k + |pat| <= |s| && s[k..k + |pat|] == pat
  }

  /** The first index at or after `from` where `pat` occurs in `s`
      (`s.find(pat, from)`, with None for -1). */
  function FindFrom(s: string, pat: string, from: nat): (r: Option<nat>)
    ensures r.Some? ==> from <= r.value && Occurs(s, pat, r.value)
    ensures r.Some? ==> forall k :: from <= k < r.value ==> !Occurs(s, pat, k)
    ensures r.None? ==> forall k :: from <= k ==> !Occurs(s, pat, k)
    decreases |s| - from
  {
    if from + |pat| > |s| then None
    else if s[from..from + |pat|] == pat then Some(from)
    else FindFrom(s, pat, from + 1)
  }

  /** An occurrence with none before it is the one FindFrom finds. */
  lemma FindFromIs(s: string, pat: string, i: nat)
    requires Occurs(s, pat, i)
    requires forall k :: 0 <= k < i ==> !Occurs(s, pat, k)
    ensures FindFrom(s, pat, 0) == Some(i)
  {
    var found := FindFrom(s, pat, 0);
    assert found.Some?;
    assert !(found.value < i) && !(i < found.value);
  }

  /** Python's `pat in s`. */
  predicate Contains(s: string, pat: string) {
    FindFrom(s, pat, 0).Some?
  }

  /** `pat in s` holds exactly when `pat` occurs somewhere in `s`. */
  lemma ContainsOccurs(s: string, pat: string)
    ensures Contains(s, pat) <==> exists k :: Occurs(s, pat, k)
  {
    if !Contains(s, pat) {
      assert forall k :: 0 <= k ==> !Occurs(s, pat, k);
    }
  }

  /** Python's `sep.join(parts)`. */
  function Join(sep: string, parts: seq<string>): string
    decreases |parts|
  {
    if |parts| == 0 then ""
    else if |parts| == 1 then parts[0]
    else parts[0] + sep + Join(sep, parts[1..])
  }

  /** Appending one more part to a non-empty join adds a separator and the part. */
  lemma {:induction false} JoinSnoc(sep: string, parts: seq<string>, last: string)
    requires |parts| > 0
    ensures Join(sep, parts + [last]) == Join(sep, parts) + sep + last
    decreases |parts|
  {
    if |parts| == 1 {
      assert parts + [last] == [parts[0], last];
    } else {
      assert (parts + [last])[1..] == parts[1..] + [last];
      JoinSnoc(sep, parts[1..], last);
    }
  }

  /** Python's `s.replace(pat, rep)` for a non-empty `pat`: scanning left
      to right, every occurrence is replaced and scanning resumes after it. */
  function ReplaceAll(s: string, pat: string, rep: string): string
    requires |pat| > 0
    decreases |s|
  {
    if |s| < |pat| then s
    else if s[..|pat|] == pat then rep + ReplaceAll(s[|pat|..], pat, rep)
    else [s[0]] + ReplaceAll(s[1..], pat, rep)
  }

  /** A suffix that does not start with an occurrence keeps its first character. */
  lemma ReplaceAllKeep(s: string, pat: string, rep: string, i: nat)
    requires |pat| > 0 && i + |pat| <= |s| && !Occurs(s, pat, i)
    ensures ReplaceAll(s[i..], pat, rep) == [s[i]] + ReplaceAll(s[i + 1..], pat, rep)
  {
    var u := s[i..];
    assert u[..|pat|] == s[i..i + |pat|];
    assert u[1..] == s[i + 1..];
  }

  /** A suffix that starts with an occurrence has it replaced. */
  lemma ReplaceAllHere(s: string, pat: string, rep: string, k: nat)
    requires |pat| > 0 && Occurs(s, pat, k)
    ensures ReplaceAll(s[k..], pat, rep) == rep + ReplaceAll(s[k + |pat|..], pat, rep)
  {
    var u := s[k..];
    assert u[..|pat|] == s[k..k + |pat|];
    assert u[|pat|..] == s[k + |pat|..];
  }

  /** From index `i` on, the first occurrence, at `k`, is replaced and the
      text from `i` up to it is kept. */
  lemma {:induction false} ReplaceAllFrom(s: string, pat: string, rep: string, i: nat, k: nat)
    requires |pat| > 0 && i <= k && Occurs(s, pat, k)
    requires forall m :: i <= m < k ==> !Occurs(s, pat, m)
    ensures ReplaceAll(s[i..], pat, rep) == s[i..k] + rep + ReplaceAll(s[k + |pat|..], pat, rep)
    decreases k - i
  {
    if i == k {
      ReplaceAllHere(s, pat, rep, k);
      assert s[i..k] == [];
    } else {
      ReplaceAllFrom(s, pat, rep, i + 1, k);
      ReplaceAllKeep(s, pat, rep, i);
      KeepFront(s, i, k, rep, ReplaceAll(s[k + |pat|..], pat, rep));
    }
  }

  /** Putting back the first character of a slice in front of what follows it. */
  lemma KeepFront(s: string, i: nat, k: nat, x: string, y: string)
    requires i < k <= |s|
    ensures [s[i]] + (s[i + 1..k] + x + y) == s[i..k] + x + y
  {
    assert s[i..k] == [s[i]] + s[i + 1..k];
  }

  /** The first occurrence is replaced and the text before it is kept. */
  lemma ReplaceAllAt(s: string, pat: string, rep: string, k: nat)
    requires |pat| > 0 && Occurs(s, pat, k)
    requires forall m :: 0 <= m < k ==> !Occurs(s, pat, m)
    ensures ReplaceAll(s, pat, rep) == s[..k] + rep + ReplaceAll(s[k + |pat|..], pat, rep)
  {
    ReplaceAllFrom(s, pat, rep, 0, k);
    assert s[0..] == s;
  }

  /** A string with no occurrence is left as it is. */
  lemma {:induction false} ReplaceAllNone(s: string, pat: string, rep: string)
    requires |pat| > 0 && forall m :: 0 <= m ==> !Occurs(s, pat, m)
    ensures ReplaceAll(s, pat, rep) == s
    decreases |s|
  {
    if |s| >= |pat| {
      assert !Occurs(s, pat, 0);
      var t := s[1..];
      forall m | 0 <= m ensures !Occurs(t, pat, m) {
        if m + |pat| <= |t| {
          assert t[m..m + |pat|] == s[m + 1..m + 1 + |pat|];
          assert !Occurs(s, pat, m + 1);
        }
      }
      ReplaceAllNone(t, pat, rep);
    }
  }

  /** Replacing never makes a pattern `bad` that neither the text nor the
      replacement holds, when the replacement starts and ends with
      characters that are not in `bad`. */
  lemma {:induction false} ReplaceAllAbsent(s: string, pat: string, rep: string, bad: string)
    requires |pat| > 0 && |bad| > 0 && Absent(s, bad) && Absent(rep, bad)
    requires |rep| > 0 && rep[0] !in bad && rep[|rep| - 1] !in bad
    ensures Absent(ReplaceAll(s, pat, rep), bad)
    decreases |s|
  {
    match FindFrom(s, pat, 0)
    case None =>
      ReplaceAllNone(s, pat, rep);
    case Some(k) =>
      ReplaceAllAt(s, pat, rep, k);
      var head, tail := s[..k], s[k + |pat|..];
      assert head == s[0..k];
      AbsentSlice(s, bad, 0, k);
      AbsentSlice(s, bad, k + |pat|, |s|);
      assert tail == s[k + |pat|..|s|];
      ReplaceAllAbsent(tail, pat, rep, bad);
      assert rep[0] !in bad[1..];
      SeamByEnds(head, rep, bad);
      AbsentConcat(head, rep, bad);
      assert (head + rep)[|head + rep| - 1] !in bad[..|bad| - 1];
      SeamByEnds(head + rep, ReplaceAll(tail, pat, rep), bad);
      AbsentConcat(head + rep, ReplaceAll(tail, pat, rep), bad);
  }

  /** One character of Python's `str.lower()`, for the ASCII letters. */
  function LowerChar(c: char): char {
    if 'A' <= c <= 'Z' then (c as int - 'A' as int + 'a' as int) as char else c
  }

  /** Python's `s.lower()` restricted to ASCII case folding. */
  function Lower(s: string): (r: string)
    ensures |r| == |s|
    ensures forall i :: 0 <= i < |s| ==> r[i] == LowerChar(s[i])
    decreases |s|
  {
    if s == [] then [] else [LowerChar(s[0])] + Lower(s[1..])
  }

  /** `pat` occurs nowhere in `s`. */
  ghost predicate Absent(s: string, pat: string) {
    forall k :: !Occurs(s, pat, k)
  }

  /** No occurrence of `pat` can straddle the seam between `x` and `y`. */
  ghost predicate SeamFree(x: string, y: string, pat: string) {
    forall t :: 0 < t < |pat| && t <= |x| && |pat| - t <= |y| ==>
      x[|x| - t..] != pat[..t] || y[..|pat| - t] != pat[t..]
  }

  /** An occurrence in `x + y` lies in `x`, in `y`, or across the seam. */
  lemma AbsentConcat(x: string, y: string, pat: string)
    requires Absent(x, pat) && Absent(y, pat) && SeamFree(x, y, pat)
    ensures Absent(x + y, pat)
  {
    var s := x + y;
    forall k | 0 <= k && k + |pat| <= |s| ensures !Occurs(s, pat, k) {
      if k + |pat| <= |x| {
        assert s[k..k + |pat|] == x[k..k + |pat|];
        assert !Occurs(x, pat, k);
      } else if k >= |x| {
        assert s[k..k + |pat|] == y[k - |x|..k - |x| + |pat|];
        assert !Occurs(y, pat, k - |x|);
      } else {
        var t := |x| - k;
        assert s[k..k + |pat|] == x[|x| - t..] + y[..|pat| - t];
        assert pat == pat[..t] + pat[t..];
      }
    }
  }

  /** A string that lacks one of the characters of `pat` has no occurrence of it. */
  lemma AbsentMissingChar(s: string, pat: string, ch: char)
    requires ch in pat && ch !in s
    ensures Absent(s, pat)
  {
    var i :| 0 <= i < |pat| && pat[i] == ch;
    forall k | 0 <= k && k + |pat| <= |s| ensures !Occurs(s, pat, k) {
      assert s[k + i] in s;
      assert s[k..k + |pat|][i] != pat[i];
    }
  }

  /** No occurrence straddles the seam when `x` does not end with a
      character that can end a proper prefix of `pat`, or `y` does not
      start with one that can start a proper suffix. */
  lemma SeamByEnds(x: string, y: string, pat: string)
    requires |pat| > 0
    requires |x| == 0 || |y| == 0 || x[|x| - 1] !in pat[..|pat| - 1] || y[0] !in pat[1..]
    ensures SeamFree(x, y, pat)
  {
    forall t | 0 < t < |pat| && t <= |x| && |pat| - t <= |y|
      ensures x[|x| - t..] != pat[..t] || y[..|pat| - t] != pat[t..]
    {
      if x[|x| - 1] !in pat[..|pat| - 1] {
        assert pat[..|pat| - 1][t - 1] == pat[t - 1];
        assert x[|x| - t..][t - 1] != pat[..t][t - 1];
      } else {
        assert pat[1..][t - 1] == pat[t];
        assert y[..|pat| - t][0] != pat[t..][0];
      }
    }
  }

  /** A prefix of `x + y + z` that ends inside `y`. */
  lemma PrefixIntoMiddle(x: string, y: string, z: string, n: nat)
    requires n <= |y|
    ensures (x + y + z)[..|x| + n] == x + y[..n]
  {
  }

  /** A prefix of `s` is its part before `i` followed by its part from `i`. */
  lemma PrefixSplit(s: string, i: nat, j: nat)
    requires i <= j <= |s|
    ensures s[..j] == s[..i] + s[i..j]
  {
  }

  /** Two strings that agree up to `q` have the same occurrences ending by `q`. */
  lemma OccursSamePrefix(s: string, t: string, pat: string, q: nat)
    requires q <= |s| && q <= |t| && s[..q] == t[..q]
    ensures forall k :: 0 <= k && k + |pat| <= q ==> (Occurs(s, pat, k) <==> Occurs(t, pat, k))
  {
    forall k | 0 <= k && k + |pat| <= q ensures Occurs(s, pat, k) <==> Occurs(t, pat, k) {
      assert s[k..k + |pat|] == s[..q][k..k + |pat|];
      assert t[k..k + |pat|] == t[..q][k..k + |pat|];
    }
  }

  /** Inside a copy of `x` placed at `off`, a pattern occurs where it occurs in `x`. */
  lemma OccursInCopy(s: string, x: string, off: nat, pat: string)
    requires off + |x| <= |s| && s[off..off + |x|] == x
    ensures forall k :: off <= k && k + |pat| <= off + |x| ==> (Occurs(s, pat, k) <==> Occurs(x, pat, k - off))
  {
    forall k | off <= k && k + |pat| <= off + |x| ensures Occurs(s, pat, k) <==> Occurs(x, pat, k - off) {
      forall j | k - off <= j < k - off + |pat| ensures x[j] == s[off + j] {
        assert s[off..off + |x|][j] == s[off + j];
      }
      assert x[k - off..k - off + |pat|] == s[k..k + |pat|];
    }
  }

  /** A suffix of a string has no occurrence where the string has none. */
  lemma AbsentSuffix(s: string, pat: string, e: nat)
    requires e <= |s|
    requires forall k :: e <= k ==> !Occurs(s, pat, k)
    ensures forall k :: !Occurs(s[e..], pat, k)
  {
    var rest := s[e..];
    forall k | 0 <= k && k + |pat| <= |rest| ensures !Occurs(rest, pat, k) {
      assert rest[k..k + |pat|] == s[e + k..e + k + |pat|];
      assert !Occurs(s, pat, e + k);
    }
  }

  /** A slice of a string in which `pat` is absent has no `pat` either. */
  lemma AbsentSlice(s: string, pat: string, i: nat, j: nat)
    requires i <= j <= |s| && Absent(s, pat)
    ensures Absent(s[i..j], pat)
  {
    var u := s[i..j];
    forall k | 0 <= k && k + |pat| <= |u| ensures !Occurs(u, pat, k) {
      var w, v := u[k..k + |pat|], s[i + k..i + k + |pat|];
      forall m | 0 <= m < |pat| ensures w[m] == v[m] {
        assert u[k + m] == s[i + k + m];
      }
      assert w == v;
      assert !Occurs(s, pat, i + k);
    }
  }
}
