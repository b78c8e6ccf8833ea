/** The PHP string primitives the service is built from, as functions on
    code-point sequences: the run replacement of `preg_replace`, `trim`,
    `preg_split` on a whitespace class, `mb_substr` and `mb_stripos`. */
module PhpStrings {
  import opened Chars

  datatype Option<T> = None | Some(value: T)

  /** `preg_replace('/[C]+/', ' ', s)`, where `p` is the class C: every
      maximal run of characters of the class becomes one space. */
  function ReplaceRuns(s: string, p: char -> bool): (r: string)
    ensures |r| <= |s|
  {
    ReplaceRunsAfter(s, p, false)
  }

  /** The replacement scanning left to right; `inRun` says whether the
      character before `s` was of the class, in which case a leading run of
      `s` continues that run and adds no second space. */
  function ReplaceRunsAfter(s: string, p: char -> bool, inRun: bool): (r: string)
    ensures |r| <= |s|
  {
    if s == [] then []
    else if !p(s[0]) then [s[0]] + ReplaceRunsAfter(s[1..], p, false)
    else if inRun then ReplaceRunsAfter(s[1..], p, true)
    else [' '] + ReplaceRunsAfter(s[1..], p, true)
  }

  /** Every character of the result is the replacement space or a character
      of the input outside the class. */
  lemma {:induction false} ReplaceRunsChars(s: string, p: char -> bool, inRun: bool)
    ensures forall c :: c in ReplaceRunsAfter(s, p, inRun) ==> c == ' ' || (c in s && !p(c))
  {
    if s != [] {
      ReplaceRunsChars(s[1..], p, p(s[0]));
      assert forall c :: c in s[1..] ==> c in s;
    }
  }

  /** When the class contains the space itself, the result holds no
      character of the class other than single spaces, and never two
      class characters side by side. */
  lemma {:induction false} ReplaceRunsCollapses(s: string, p: char -> bool, inRun: bool)
    requires p(' ')
    ensures forall c :: c in ReplaceRunsAfter(s, p, inRun) && p(c) ==> c == ' '
    ensures forall i :: 0 <= i < |ReplaceRunsAfter(s, p, inRun)| - 1 ==>
              !(p(ReplaceRunsAfter(s, p, inRun)[i]) && p(ReplaceRunsAfter(s, p, inRun)[i + 1]))
    ensures inRun && ReplaceRunsAfter(s, p, inRun) != [] ==> !p(ReplaceRunsAfter(s, p, inRun)[0])
  {
    if s != [] {
      var st := p(s[0]);
      ReplaceRunsCollapses(s[1..], p, st);
      ReplaceRunsChars(s[1..], p, st);
    }
  }

  /** The replacement depends on the class only through the characters
      that occur in the string. */
  lemma {:induction false} ReplaceRunsAgree(s: string, p: char -> bool, q: char -> bool, inRun: bool)
    requires forall c :: c in s ==> p(c) == q(c)
    ensures ReplaceRunsAfter(s, p, inRun) == ReplaceRunsAfter(s, q, inRun)
  {
    if s != [] {
      assert s[0] in s;
      assert forall c :: c in s[1..] ==> c in s;
      ReplaceRunsAgree(s[1..], p, q, p(s[0]));
    }
  }

  /** Characters outside the class are copied unchanged. */
  lemma {:induction false} ReplaceRunsKeepsPrefix(m: string, b: string, p: char -> bool, inRun: bool)
    requires m != []
    requires forall c :: c in m ==> !p(c)
    ensures ReplaceRunsAfter(m + b, p, inRun) == m + ReplaceRunsAfter(b, p, false)
    decreases |m|
  {
    assert (m + b)[0] == m[0];
    assert (m + b)[1..] == m[1..] + b;
    if |m| == 1 {
      assert m[1..] + b == b;
    } else {
      ReplaceRunsKeepsPrefix(m[1..], b, p, false);
    }
  }

  /** A run never crosses into a part that starts outside the class. */
  lemma {:induction false} ReplaceRunsSplitsBefore(a: string, b: string, p: char -> bool, inRun: bool)
    requires b == [] || !p(b[0])
    ensures ReplaceRunsAfter(a + b, p, inRun) == ReplaceRunsAfter(a, p, inRun) + ReplaceRunsAfter(b, p, false)
    decreases |a|
  {
    if a == [] {
      assert a + b == b;
      if b != [] {
        assert ReplaceRunsAfter(b, p, inRun) == [b[0]] + ReplaceRunsAfter(b[1..], p, false);
      }
    } else {
      assert (a + b)[0] == a[0];
      assert (a + b)[1..] == a[1..] + b;
      ReplaceRunsSplitsBefore(a[1..], b, p, p(a[0]));
    }
  }

  /** A run never crosses out of a part that ends outside the class. */
  lemma {:induction false} ReplaceRunsSplitsAfter(a: string, b: string, p: char -> bool, inRun: bool)
    requires a != [] && !p(a[|a| - 1])
    ensures ReplaceRunsAfter(a + b, p, inRun) == ReplaceRunsAfter(a, p, inRun) + ReplaceRunsAfter(b, p, false)
    decreases |a|
  {
    assert (a + b)[0] == a[0];
    assert (a + b)[1..] == a[1..] + b;
    if |a| == 1 {
      assert a[1..] + b == b;
    } else {
      ReplaceRunsSplitsAfter(a[1..], b, p, p(a[0]));
    }
  }

  /** A whole run of class characters becomes one space, or nothing when it
      continues a run. */
  lemma {:induction false} ReplaceRunsOfRun(run: string, p: char -> bool, inRun: bool)
    requires run != [] && forall c :: c in run ==> p(c)
    ensures ReplaceRunsAfter(run, p, inRun) == if inRun then [] else [' ']
    decreases |run|
  {
    if |run| > 1 {
      ReplaceRunsOfRun(run[1..], p, true);
    }
  }

  /** A string without class characters is left as it is. */
  lemma ReplaceRunsUnchanged(s: string, p: char -> bool)
    requires forall c :: c in s ==> !p(c)
    ensures ReplaceRuns(s, p) == s
  {
    if s != [] {
      ReplaceRunsKeepsPrefix(s, [], p, false);
      assert s + [] == s;
    }
  }

  /** The replacement of a concatenation is the concatenation of the
      replacements when no run straddles the seam. */
  lemma ReplaceRunsJoin(a: string, b: string, p: char -> bool)
    requires (a != [] && !p(a[|a| - 1])) || b == [] || !p(b[0])
    ensures ReplaceRuns(a + b, p) == ReplaceRuns(a, p) + ReplaceRuns(b, p)
  {
    if b == [] || !p(b[0]) {
      ReplaceRunsSplitsBefore(a, b, p, false);
    } else {
      ReplaceRunsSplitsAfter(a, b, p, false);
    }
  }

  /** Where PHP's `trim` cuts at the front: the number of leading trimmed
      characters. */
  function TrimStart(s: string): (k: nat)
    ensures k <= |s|
    ensures forall i :: 0 <= i < k ==> IsTrimmed(s[i])
    ensures k < |s| ==> !IsTrimmed(s[k])
  {
    if s != [] && IsTrimmed(s[0]) then 1 + TrimStart(s[1..]) else 0
  }

  /** Where PHP's `trim` cuts at the back: the end of `s` without its
      trailing trimmed characters. */
  function TrimEnd(s: string): (e: nat)
    ensures e <= |s|
    ensures forall i :: e <= i < |s| ==> IsTrimmed(s[i])
    ensures 0 < e ==> !IsTrimmed(s[e - 1])
  {
    if s != [] && IsTrimmed(s[|s| - 1]) then TrimEnd(s[..|s| - 1]) else |s|
  }

  /** PHP's `trim` with its default character set: the slice between the
      leading and the trailing trimmed characters. */
  function Trim(s: string): (r: string)
    ensures |r| <= |s|
    ensures r != [] ==> !IsTrimmed(r[0]) && !IsTrimmed(r[|r| - 1])
  {
    if TrimStart(s) < TrimEnd(s) then s[TrimStart(s)..TrimEnd(s)] else []
  }

  /** `trim` leaves a string alone that neither starts nor ends with a
      character it removes. */
  lemma TrimUnchanged(s: string)
    requires s != [] && !IsTrimmed(s[0]) && !IsTrimmed(s[|s| - 1])
    ensures Trim(s) == s
  {
    assert TrimStart(s) == 0 && TrimEnd(s) == |s|;
  }

  /** `trim` removes exactly the trimmed characters around a string that
      neither starts nor ends with one. */
  lemma TrimAround(head: string, s: string, tail: string)
    requires s != [] && !IsTrimmed(s[0]) && !IsTrimmed(s[|s| - 1])
    requires forall c :: c in head ==> IsTrimmed(c)
    requires forall c :: c in tail ==> IsTrimmed(c)
    ensures Trim(head + s + tail) == s
  {
    var x := head + s + tail;
    assert x[|head|] == s[0] && x[|head| + |s| - 1] == s[|s| - 1];
    assert forall i :: 0 <= i < |head| ==> x[i] in head;
    assert forall i :: |head| + |s| <= i < |x| ==> x[i] in tail;
    assert TrimStart(x) == |head| && TrimEnd(x) == |head| + |s|;
    assert x[|head|..|head| + |s|] == s;
  }

  lemma TrimChars(s: string)
    ensures forall c :: c in Trim(s) ==> c in s
  {
  }

  /** An occurrence of a string that neither starts nor ends with a
      character `trim` removes survives `trim` whole: `trim` only removes
      characters around it. */
  lemma TrimKeepsOccurrence(s: string, m: string, i: nat)
    requires m != [] && OccursAt(m, s, i)
    requires !IsTrimmed(m[0]) && !IsTrimmed(m[|m| - 1])
    ensures TrimStart(s) <= i && OccursAt(m, Trim(s), i - TrimStart(s))
  {
    assert s[i] == m[0] && s[i + |m| - 1] == m[|m| - 1];
    var k, e := TrimStart(s), TrimEnd(s);
    assert k <= i && i + |m| <= e;
    assert Trim(s) == s[k..e];
    SliceOfSlice(s, k, e, i - k, i - k + |m|);
  }

  lemma SliceOfSlice(s: string, lo: nat, hi: nat, a: nat, b: nat)
    requires lo <= hi <= |s| && a <= b <= hi - lo
    ensures s[lo..hi][a..b] == s[lo + a..lo + b]
  {
    forall j | 0 <= j < b - a
      ensures s[lo..hi][a..b][j] == s[lo + a..lo + b][j]
    {
    }
  }

  /** Concatenation of a sequence of strings. */
  function Concat(parts: seq<string>): string {
    if parts == [] then [] else parts[0] + Concat(parts[1..])
  }

  /** The characters of `s` outside the class `p`, in order. */
  function Without(s: string, p: char -> bool): (r: string)
    ensures |r| <= |s|
  {
    if s == [] then [] else (if p(s[0]) then [] else [s[0]]) + Without(s[1..], p)
  }

  /** `preg_split('/[C]+/', s)` for the class `p`: the pieces between maximal
      runs of class characters, including an empty first (last) piece when
      `s` starts (ends) with such a run. Read from the left: a character
      outside the class extends the first piece; a class character opens
      the run in front of it unless that run already started. */
  function Split(s: string, p: char -> bool): (parts: seq<string>)
    ensures |parts| >= 1
    ensures s != [] && p(s[0]) ==> parts[0] == []
  {
    if s == [] then [[]]
    else
      var rest := Split(s[1..], p);
      if !p(s[0]) then [[s[0]] + rest[0]] + rest[1..]
      else if s[1..] != [] && p(s[1]) then rest
      else [[]] + rest
  }

  /** No piece holds a class character, and every character of a piece
      comes from the input. */
  lemma {:induction false} SplitPartsChars(s: string, p: char -> bool)
    ensures forall k, c :: 0 <= k < |Split(s, p)| && c in Split(s, p)[k] ==> c in s && !p(c)
  {
    if s != [] {
      SplitPartsChars(s[1..], p);
      assert forall c :: c in s[1..] ==> c in s;
    }
  }

  /** The same, for one character of one piece. */
  lemma SplitPartChar(s: string, p: char -> bool, k: nat, c: char)
    requires k < |Split(s, p)| && c in Split(s, p)[k]
    ensures c in s && !p(c)
  {
    SplitPartsChars(s, p);
  }

  /** A leading piece without class characters joins the first part. */
  lemma {:induction false} SplitPrefixWord(w: string, b: string, p: char -> bool)
    requires forall c :: c in w ==> !p(c)
    ensures Split(w + b, p) == [w + Split(b, p)[0]] + Split(b, p)[1..]
    decreases |w|
  {
    var parts := Split(b, p);
    if w == [] {
      assert w + b == b;
      assert w + parts[0] == parts[0];
      assert parts == [parts[0]] + parts[1..];
    } else {
      assert (w + b)[0] == w[0];
      assert (w + b)[1..] == w[1..] + b;
      SplitPrefixWord(w[1..], b, p);
      assert [w[0]] + (w[1..] + parts[0]) == w + parts[0];
    }
  }

  /** A string without class characters is one part. */
  lemma SplitUnbroken(s: string, p: char -> bool)
    requires forall c :: c in s ==> !p(c)
    ensures Split(s, p) == [s]
  {
    SplitPrefixWord(s, [], p);
    assert s + [] == s;
  }

  /** A leading run of class characters closes an empty first part. */
  lemma {:induction false} SplitSeparatorRun(run: string, b: string, p: char -> bool)
    requires run != [] && forall c :: c in run ==> p(c)
    requires b == [] || !p(b[0])
    ensures Split(run + b, p) == [[]] + Split(b, p)
    decreases |run|
  {
    assert (run + b)[0] == run[0];
    assert (run + b)[1..] == run[1..] + b;
    if |run| == 1 {
      assert run[1..] + b == b;
    } else {
      assert (run + b)[1] == run[1];
      SplitSeparatorRun(run[1..], b, p);
    }
  }

  /** A word followed by a run of class characters is one part; the rest
      of the parts come from what follows the run. */
  lemma SplitAfterWord(w: string, run: string, rest: string, p: char -> bool)
    requires forall c :: c in w ==> !p(c)
    requires run != [] && forall c :: c in run ==> p(c)
    requires rest == [] || !p(rest[0])
    ensures Split(w + run + rest, p) == [w] + Split(rest, p)
  {
    assert w + run + rest == w + (run + rest);
    SplitPrefixWord(w, run + rest, p);
    SplitSeparatorRun(run, rest, p);
    assert w + [] == w;
  }

  /** Nothing but the separators is lost: the pieces of `preg_split`, put
      back together, are the input with its class characters removed. */
  lemma {:induction false} SplitLosesOnlySeparators(s: string, p: char -> bool)
    ensures Concat(Split(s, p)) == Without(s, p)
  {
    if s != [] {
      var rest := Split(s[1..], p);
      SplitLosesOnlySeparators(s[1..], p);
      assert Concat(rest) == rest[0] + Concat(rest[1..]);
      if !p(s[0]) {
        var parts := [[s[0]] + rest[0]] + rest[1..];
        assert parts[1..] == rest[1..];
        assert Concat(parts) == ([s[0]] + rest[0]) + Concat(rest[1..]);
      } else if !(s[1..] != [] && p(s[1])) {
        assert ([[]] + rest)[1..] == rest;
      }
    }
  }

  /** `mb_substr(s, start, len)` for a non-negative start and length: at
      most `len` characters from `start`, cut short at the end of `s`. */
  function Substr(s: string, start: nat, len: nat): (r: string)
    ensures |r| <= len
    ensures start <= |s| ==> |r| == if len <= |s| - start then len else |s| - start
    ensures forall i :: 0 <= i < |r| ==> start + i < |s| && r[i] == s[start + i]
  {
    if start >= |s| then []
    else if len <= |s| - start then s[start..start + len]
    else s[start..]
  }

  /** `needle` occurs in `hay` at position `i`. */
  predicate OccursAt(needle: string, hay: string, i: nat) {
    i + |needle| <= |hay| && hay[i..i + |needle|] == needle
  }

  /** The first occurrence of `needle` in `hay` at or after `from`. */
  function SearchFrom(hay: string, needle: string, from: nat): (r: Option<nat>)
    ensures r.Some? ==> from <= r.value && OccursAt(needle, hay, r.value)
    ensures r.Some? ==> forall j :: from <= j < r.value ==> !OccursAt(needle, hay, j)
    ensures r.None? ==> forall j :: from <= j ==> !OccursAt(needle, hay, j)
    decreases |hay| - from
  {
    if from + |needle| > |hay| then None
    else if hay[from..from + |needle|] == needle then Some(from)
    else SearchFrom(hay, needle, from + 1)
  }

  /** `mb_stripos(hay, needle)`: the position of the first case-insensitive
      occurrence, or none. An empty needle occurs at position 0. */
  function Stripos(hay: string, needle: string): (r: Option<nat>)
    ensures r.Some? ==> OccursAt(Lower(needle), Lower(hay), r.value)
    ensures r.Some? ==> forall j: nat :: j < r.value ==> !OccursAt(Lower(needle), Lower(hay), j)
    ensures r.None? ==> forall j: nat :: !OccursAt(Lower(needle), Lower(hay), j)
    ensures needle == [] ==> r == Some(0)
  {
    SearchFrom(Lower(hay), Lower(needle), 0)
  }
}
