/**
 * The duplicate-special-character collapse of `check_and_reformat_address`,
 * specified without reference to the loop that performs it.
 *
 * The loop scans positions `i` of the checked address from left to right and,
 * whenever `s[i] == s[i + 1]` and `s[i]` is neither a letter nor a digit, calls
 * `list.remove(s[i])` on a working copy: the LEFTMOST remaining occurrence goes,
 * not the one at `i`. The specification below says which positions survive
 * once the scan has passed the first `i` positions: a letter or digit always
 * survives; any other character `c` at position `j` survives exactly when at
 * least as many copies of `c` stand before `j` as the scan has met adjacent
 * pairs `c c`. So for each special character `c`, the leftmost `Pairs(c)`
 * occurrences of `c` are dropped and all other characters are kept, in order.
 */
module Collapse {
  import opened Text

  /** The number of adjacent pairs `c c` starting before position `i` of `s`. */
  function Pairs(s: string, i: nat, c: char): nat
    requires i <= |s|
  {
    if i == 0 then 0
    else Pairs(s, i - 1, c) + (if i < |s| && s[i - 1] == c && s[i] == c then 1 else 0)
  }

  /** The number of copies of `c` standing before position `j` of `s`. */
  function Rank(s: string, j: nat, c: char): nat
    requires j <= |s|
  {
    if j == 0 then 0 else Rank(s, j - 1, c) + (if s[j - 1] == c then 1 else 0)
  }

  lemma {:induction false} RankIsCount(s: string, j: nat, c: char)
    requires j <= |s|
    ensures Rank(s, j, c) == Count(s[..j], c)
  {
    if j > 0 {
      RankIsCount(s, j - 1, c);
      CountPrefixStep(s, j - 1, c);
    }
  }

  /** Whether position `j` of `s` is still present once the scan has passed the first `i` positions. */
  predicate Kept(s: string, i: nat, j: nat)
    requires i <= |s| && j < |s|
  {
    IsAlnum(s[j]) || Rank(s, j, s[j]) >= Pairs(s, i, s[j])
  }

  /** The characters among the first `n` positions of `s` that are kept after `i` scan steps, in order. */
  function Select(s: string, i: nat, n: nat): string
    requires i <= |s| && n <= |s|
  {
    if n == 0 then [] else Select(s, i, n - 1) + (if Kept(s, i, n - 1) then [s[n - 1]] else [])
  }

  /** The working copy after the scan has passed the first `i` positions. */
  function Survivors(s: string, i: nat): string
    requires i <= |s|
  {
    Select(s, i, |s|)
  }

  /** The collapsed address: the working copy once the whole scan is done. */
  function Collapsed(s: string): string
  {
    Survivors(s, |s|)
  }

  // ----- the scan, one step at a time -----

  /** A scan cannot meet more pairs of `c` than there are copies of `c` before its position. */
  lemma {:induction false} PairsBound(s: string, i: nat, c: char)
    requires i <= |s|
    ensures Pairs(s, i, c) <= Rank(s, i, c)
  {
    if i > 0 {
      PairsBound(s, i - 1, c);
    }
  }

  lemma {:induction false} RankMonotone(s: string, i: nat, j: nat, c: char)
    requires i <= j <= |s|
    ensures Rank(s, i, c) <= Rank(s, j, c)
  {
    if i < j {
      RankMonotone(s, i, j - 1, c);
    }
  }

  lemma {:induction false} SelectExt(s: string, i: nat, i': nat, n: nat)
    requires i <= |s| && i' <= |s| && n <= |s|
    requires forall j :: 0 <= j < n ==> Kept(s, i, j) == Kept(s, i', j)
    ensures Select(s, i, n) == Select(s, i', n)
  {
    if n > 0 {
      SelectExt(s, i, i', n - 1);
    }
  }

  /** Before the scan starts, the working copy is the whole address (`list(address)`). */
  lemma {:induction false} SurvivorsInitial(s: string)
    ensures Survivors(s, 0) == s
  {
    SelectPrefix(s, |s|);
    assert s[..|s|] == s;
  }

  lemma {:induction false} SelectPrefix(s: string, n: nat)
    requires n <= |s|
    ensures Select(s, 0, n) == s[..n]
  {
    if n > 0 {
      SelectPrefix(s, n - 1);
      assert s[..n] == s[..n - 1] + [s[n - 1]];
    }
  }

  /** One removal at a pair `c c` found at position `i`: among the first `n` positions,
      the kept copies of `c` lose their leftmost member, or nothing changes when
      none of them is kept yet. */
  lemma {:induction false} DropStep(s: string, i: nat, n: nat)
    requires i + 1 < |s| && s[i] == s[i + 1] && !IsAlnum(s[i]) && n <= |s|
    ensures Rank(s, n, s[i]) <= Pairs(s, i, s[i]) ==>
              s[i] !in Select(s, i, n) && Select(s, i + 1, n) == Select(s, i, n)
    ensures Rank(s, n, s[i]) > Pairs(s, i, s[i]) ==>
              s[i] in Select(s, i, n) && RemoveFirst(Select(s, i, n), s[i]) == Select(s, i + 1, n)
  {
    var c, k := s[i], Pairs(s, i, s[i]);
    if n > 0 {
      var m := n - 1;
      DropStep(s, i, m);
      var a, a' := Select(s, i, m), Select(s, i + 1, m);
      var x := if Kept(s, i, m) then [s[m]] else [];
      var x' := if Kept(s, i + 1, m) then [s[m]] else [];
      assert Select(s, i, n) == a + x;
      assert Select(s, i + 1, n) == a' + x';
      if s[m] != c {
        assert Pairs(s, i + 1, s[m]) == Pairs(s, i, s[m]);
        assert x' == x && c !in x;
        if Rank(s, m, c) > k {
          RemoveFirstLeft(a, x, c);
        }
      } else if Rank(s, m, c) > k {
        assert x' == x;
        RemoveFirstLeft(a, x, c);
      } else if Rank(s, m, c) == k {
        assert x == [c] && x' == [];
        RemoveFirstRight(a, x, c);
        assert RemoveFirst(x, c) == [];
      } else {
        assert x == [] && x' == [];
      }
    }
  }

  /** One step of the scan: at a pair of equal special characters the working copy
      loses the leftmost copy of that character (and has one to lose, so
      `list.remove` never raises); at any other position it is unchanged. */
  lemma SurvivorsStep(s: string, i: nat)
    requires i < |s|
    ensures i + 1 < |s| && s[i] == s[i + 1] && !IsAlnum(s[i]) ==>
              s[i] in Survivors(s, i) && RemoveFirst(Survivors(s, i), s[i]) == Survivors(s, i + 1)
    ensures !(i + 1 < |s| && s[i] == s[i + 1] && !IsAlnum(s[i])) ==>
              Survivors(s, i + 1) == Survivors(s, i)
  {
    if i + 1 < |s| && s[i] == s[i + 1] && !IsAlnum(s[i]) {
      var c := s[i];
      PairsBound(s, i, c);
      RankMonotone(s, i + 2, |s|, c);
      DropStep(s, i, |s|);
    } else {
      forall j | 0 <= j < |s|
        ensures Kept(s, i, j) == Kept(s, i + 1, j)
      {
        assert Pairs(s, i + 1, s[j]) == Pairs(s, i, s[j]) || IsAlnum(s[j]);
      }
      SelectExt(s, i, i + 1, |s|);
    }
  }

  // ----- what the collapse does -----

  lemma {:induction false} SelectCount(s: string, n: nat, c: char)
    requires n <= |s|
    ensures Count(Select(s, |s|, n), c) ==
              if IsAlnum(c) then Rank(s, n, c)
              else if Rank(s, n, c) >= Pairs(s, |s|, c) then Rank(s, n, c) - Pairs(s, |s|, c)
              else 0
  {
    if n > 0 {
      var m := n - 1;
      SelectCount(s, m, c);
      var x := if Kept(s, |s|, m) then [s[m]] else [];
      CountAppend(Select(s, |s|, m), x, c);
      assert Count(x, c) == if Kept(s, |s|, m) && s[m] == c then 1 else 0 by {
        if x != [] {
          assert x[..0] == [];
        }
      }
      assert Rank(s, n, c) == Rank(s, m, c) + (if s[m] == c then 1 else 0);
    }
  }


  /** Letters and digits are never removed; every other character `c` loses exactly
      as many copies as the address has adjacent pairs `c c`. */
  lemma {:induction false} CollapsedCount(s: string, c: char)
    ensures Count(Collapsed(s), c) == Count(s, c) - (if IsAlnum(c) then 0 else Pairs(s, |s|, c))
  {
    SelectCount(s, |s|, c);
    PairsBound(s, |s|, c);
    RankIsCount(s, |s|, c);
    assert s[..|s|] == s;
  }

  lemma {:induction false} PairsNone(s: string, i: nat, c: char)
    requires i <= |s| && !IsAlnum(c)
    requires forall p :: 0 <= p < |s| - 1 ==> !(s[p] == s[p + 1] && !IsAlnum(s[p]))
    ensures Pairs(s, i, c) == 0
  {
    if i > 0 {
      PairsNone(s, i - 1, c);
    }
  }

  /** An address with no two equal adjacent special characters is left as it is. */
  lemma CollapsedNoPairs(s: string)
    requires forall p :: 0 <= p < |s| - 1 ==> !(s[p] == s[p + 1] && !IsAlnum(s[p]))
    ensures Collapsed(s) == s
  {
    forall j | 0 <= j < |s|
      ensures Kept(s, |s|, j) == Kept(s, 0, j)
    {
      if !IsAlnum(s[j]) {
        PairsNone(s, |s|, s[j]);
      }
    }
    SelectExt(s, |s|, 0, |s|);
    SurvivorsInitial(s);
  }

  /** The last character is never removed, so a non-empty address stays non-empty. */
  lemma CollapsedNonEmpty(s: string)
    requires s != []
    ensures Collapsed(s) != [] && Collapsed(s)[|Collapsed(s)| - 1] == s[|s| - 1]
  {
    var n := |s| - 1;
    var c := s[n];
    PairsBound(s, n, c);
    assert Pairs(s, |s|, c) == Pairs(s, n, c);
    assert Kept(s, |s|, n);
  }

  /** `t` can be had from `s` by deleting characters. */
  predicate IsSubsequence(t: string, s: string)
    decreases |s|
  {
    if t == [] then true
    else if s == [] then false
    else (t[|t| - 1] == s[|s| - 1] && IsSubsequence(t[..|t| - 1], s[..|s| - 1]))
         || IsSubsequence(t, s[..|s| - 1])
  }

  lemma {:induction false} SelectSubsequence(s: string, i: nat, n: nat)
    requires i <= |s| && n <= |s|
    ensures IsSubsequence(Select(s, i, n), s[..n])
  {
    if n > 0 {
      SelectSubsequence(s, i, n - 1);
      assert s[..n][..n - 1] == s[..n - 1];
      var t := Select(s, i, n);
      var u := s[..n];
      if Kept(s, i, n - 1) {
        assert t[..|t| - 1] == Select(s, i, n - 1);
        assert t[|t| - 1] == u[|u| - 1];
        assert u[..|u| - 1] == s[..n - 1];
      } else {
        assert t == Select(s, i, n - 1);
        assert u[..|u| - 1] == s[..n - 1];
      }
    }
  }

  /** The collapse only deletes: its result is a subsequence of the address. */
  lemma CollapsedSubsequence(s: string)
    ensures IsSubsequence(Collapsed(s), s)
  {
    SelectSubsequence(s, |s|, |s|);
    assert s[..|s|] == s;
  }

  /** A character the address does not hold is not in its collapse either. */
  lemma CollapsedAbsent(s: string, c: char)
    requires c !in s
    ensures c !in Collapsed(s)
  {
    CountZero(s, c);
    CollapsedCount(s, c);
    CountZero(Collapsed(s), c);
  }

  function Repeat(c: char, m: nat): (r: string)
    ensures |r| == m && forall k :: 0 <= k < m ==> r[k] == c
  {
    if m == 0 then [] else Repeat(c, m - 1) + [c]
  }

  /** Positions holding no pair of equal special characters leave the working copy alone. */
  lemma {:induction false} SurvivorsSkip(s: string, i: nat, j: nat)
    requires i <= j <= |s|
    requires forall p :: i <= p < j ==> !(p + 1 < |s| && s[p] == s[p + 1] && !IsAlnum(s[p]))
    ensures Survivors(s, j) == Survivors(s, i)
  {
    if i < j {
      SurvivorsSkip(s, i, j - 1);
      SurvivorsStep(s, j - 1);
    }
  }

  // ----- runs of a special character -----

  /** No two equal adjacent characters of which the first is special. */
  predicate NoSpecialPairs(t: string)
  {
    forall p :: 0 <= p < |t| - 1 ==> !(t[p] == t[p + 1] && !IsAlnum(t[p]))
  }

  /** Removing the leftmost `c` when the first copy follows a prefix free of `c`. */
  lemma RemoveAfterPrefix(x: string, c: char, rest: string)
    requires c !in x
    ensures RemoveFirst(x + [c] + rest, c) == x + rest
  {
    RemoveFirstRight(x, [c] + rest, c);
    assert x + [c] + rest == x + ([c] + rest);
    assert IndexOf([c] + rest, c) == 0;
    assert ([c] + rest)[1..] == rest;
  }

  /** One scan step at a pair, phrased on the working copy. */
  lemma StepAt(s: string, i: nat, w: string, w': string)
    requires i + 1 < |s| && s[i] == s[i + 1] && !IsAlnum(s[i])
    requires Survivors(s, i) == w && s[i] in w && RemoveFirst(w, s[i]) == w'
    ensures Survivors(s, i + 1) == w'
  {
    SurvivorsStep(s, i);
  }

  /** The scan through a run `c c ... c` that holds the first copies of `c`:
      each pair removes one copy from the run itself. */
  lemma {:induction false} RunShrinks(x: string, c: char, m: nat, y: string, k: nat)
    requires !IsAlnum(c) && c !in x && 1 <= m && k < m
    requires Survivors(x + Repeat(c, m) + y, |x|) == x + Repeat(c, m) + y
    ensures Survivors(x + Repeat(c, m) + y, |x| + k) == x + Repeat(c, m - k) + y
  {
    if k > 0 {
      RunShrinks(x, c, m, y, k - 1);
      RunStep(x, c, m, y, k);
    }
  }

  /** One pair inside the run: the copy removed is the run's first. */
  lemma RunStep(x: string, c: char, m: nat, y: string, k: nat)
    requires !IsAlnum(c) && c !in x && 1 <= k < m
    requires Survivors(x + Repeat(c, m) + y, |x| + k - 1) == x + Repeat(c, m - k + 1) + y
    ensures Survivors(x + Repeat(c, m) + y, |x| + k) == x + Repeat(c, m - k) + y
  {
    var s := x + Repeat(c, m) + y;
    var i := |x| + k - 1;
    assert s[i] == c && s[i + 1] == c;
    var r := Repeat(c, m - k);
    RepeatRegroup(x, c, m - k, y);
    RemoveAfterPrefix(x, c, r + y);
    StepAt(s, i, x + [c] + (r + y), x + r + y);
  }

  lemma RepeatRegroup(x: string, c: char, n: nat, y: string)
    ensures x + Repeat(c, n + 1) + y == x + [c] + (Repeat(c, n) + y)
    ensures x + (Repeat(c, n) + y) == x + Repeat(c, n) + y
  {
    var r := Repeat(c, n);
    assert Repeat(c, n + 1) == r + [c];
    assert r + [c] == [c] + r by {
      assert forall j :: 0 <= j < |r| + 1 ==> (r + [c])[j] == c && ([c] + r)[j] == c;
    }
  }

  /** A lone run of a special character shrinks to a single copy and nothing else
      changes: when the run holds the first copies of `c` and the address, with the
      run shortened to one character, has no equal adjacent special characters. */
  lemma CollapseSingleRun(x: string, c: char, m: nat, y: string)
    requires !IsAlnum(c) && c !in x && 1 <= m
    requires NoSpecialPairs(x + [c] + y)
    ensures Collapsed(x + Repeat(c, m) + y) == x + [c] + y
  {
    var s := x + Repeat(c, m) + y;
    var t := x + [c] + y;
    SurvivorsInitial(s);
    forall p | 0 <= p < |x|
      ensures !(p + 1 < |s| && s[p] == s[p + 1] && !IsAlnum(s[p]))
    {
      if p + 1 < |x| {
        assert s[p] == t[p] && s[p + 1] == t[p + 1];
      }
    }
    SurvivorsSkip(s, 0, |x|);
    RunShrinks(x, c, m, y, m - 1);
    assert Repeat(c, 1) == [c];
    forall p | |x| + m - 1 <= p < |s|
      ensures !(p + 1 < |s| && s[p] == s[p + 1] && !IsAlnum(s[p]))
    {
      if p + 1 < |s| {
        assert s[p] == t[p - m + 1] && s[p + 1] == t[p - m + 2];
      }
    }
    SurvivorsSkip(s, |x| + m - 1, |s|);
  }

  // ----- several runs: the collapse a reader expects -----

  /** A pair of equal special characters starts at position `p`. */
  predicate PairAt(s: string, p: nat)
  {
    p + 1 < |s| && s[p] == s[p + 1] && !IsAlnum(s[p])
  }

  /** The first `n` positions of `s` with every special character dropped that
      the same character follows: each run shrinks to its last copy. */
  function Squeezed(s: string, n: nat): string
    requires n <= |s|
  {
    if n == 0 then [] else Squeezed(s, n - 1) + (if PairAt(s, n - 1) then [] else [s[n - 1]])
  }

  /** At every pair, the working copy holds no copy of the pair's character
      from before the pair: each run holds the first copies of its character
      that the scan keeps. */
  predicate RunsLeadTheirCopies(s: string)
  {
    forall p :: 0 <= p < |s| && PairAt(s, p) ==> s[p] !in Squeezed(s, p)
  }

  /** A scan step at a pair whose character the part already scanned no longer holds. */
  lemma PairStep(s: string, p: nat, w: string)
    requires PairAt(s, p) && s[p] !in w && Survivors(s, p) == w + s[p..]
    ensures Survivors(s, p + 1) == w + s[p + 1..]
  {
    var c := s[p];
    assert s[p..] == [c] + s[p + 1..];
    assert w + s[p..] == w + [c] + s[p + 1..];
    RemoveAfterPrefix(w, c, s[p + 1..]);
    StepAt(s, p, w + s[p..], w + s[p + 1..]);
  }

  /** A scan step anywhere else moves one character from the unscanned part to the scanned part. */
  lemma PlainStep(s: string, p: nat, w: string)
    requires p < |s| && !PairAt(s, p) && Survivors(s, p) == w + s[p..]
    ensures Survivors(s, p + 1) == (w + [s[p]]) + s[p + 1..]
  {
    SurvivorsStep(s, p);
    assert s[p..] == [s[p]] + s[p + 1..];
  }

  /** The loop invariant of the scan when runs lead their copies: the working
      copy is the squeezed scanned part followed by the unscanned rest. */
  lemma {:induction false} SurvivorsSqueezed(s: string, i: nat)
    requires i <= |s|
    requires forall p :: 0 <= p < i && PairAt(s, p) ==> s[p] !in Squeezed(s, p)
    ensures Survivors(s, i) == Squeezed(s, i) + s[i..]
  {
    if i == 0 {
      SurvivorsInitial(s);
      assert s[0..] == s;
    } else {
      SurvivorsSqueezed(s, i - 1);
      if PairAt(s, i - 1) {
        PairStep(s, i - 1, Squeezed(s, i - 1));
      } else {
        PlainStep(s, i - 1, Squeezed(s, i - 1));
      }
    }
  }

  /** When every run holds the first copies of its character, the collapse is
      exactly the squeeze: every run, of any special character, shrinks to one
      copy, however many runs the address has. */
  lemma CollapsedSqueezes(s: string)
    requires RunsLeadTheirCopies(s)
    ensures Collapsed(s) == Squeezed(s, |s|)
  {
    SurvivorsSqueezed(s, |s|);
    assert s[|s|..] == [];
  }

  // ----- shortening one run -----

  /** `s` is `t` with the character at position `k` repeated `d` more times. */
  predicate Stretched(s: string, t: string, k: nat, d: nat)
  {
    && k < |t| && |s| == |t| + d
    && (forall j :: 0 <= j < k ==> s[j] == t[j])
    && (forall j :: k <= j <= k + d ==> s[j] == t[k])
    && (forall j :: k + d < j < |s| ==> s[j] == t[j - d])
  }

  /** Copies of `ch` before position `j` of the stretched string. */
  lemma {:induction false} RankStretched(s: string, t: string, k: nat, d: nat, j: nat, ch: char)
    requires Stretched(s, t, k, d) && j <= |s|
    ensures j <= k ==> Rank(s, j, ch) == Rank(t, j, ch)
    ensures k <= j <= k + d + 1 ==> Rank(s, j, ch) == Rank(t, k, ch) + (if ch == t[k] then j - k else 0)
    ensures k + d + 1 <= j ==> Rank(s, j, ch) == Rank(t, j - d, ch) + (if ch == t[k] then d else 0)
  {
    if j > 0 {
      RankStretched(s, t, k, d, j - 1, ch);
      if j - 1 > k + d {
        assert s[j - 1] == t[j - 1 - d];
      }
    }
  }

  /** Pairs of `ch` met before position `i` of the stretched string: the run adds `d`. */
  lemma {:induction false} PairsStretched(s: string, t: string, k: nat, d: nat, i: nat, ch: char)
    requires Stretched(s, t, k, d) && i <= |s|
    ensures i <= k ==> Pairs(s, i, ch) == Pairs(t, i, ch)
    ensures k <= i <= k + d ==> Pairs(s, i, ch) == Pairs(t, k, ch) + (if ch == t[k] then i - k else 0)
    ensures k + d <= i ==> Pairs(s, i, ch) == Pairs(t, i - d, ch) + (if ch == t[k] then d else 0)
  {
    if i > 0 {
      PairsStretched(s, t, k, d, i - 1, ch);
      var p := i - 1;
      if p < k {
        assert s[p] == t[p] && s[i] == t[i];
      } else if p < k + d {
        assert s[p] == t[k] && s[i] == t[k];
      } else {
        assert s[p] == t[p - d];
        if i < |s| {
          assert s[i] == t[i - d];
        }
      }
    }
  }

  /** Over the whole string, the run adds `d` pairs of its own character. */
  lemma PairsStretchedAll(s: string, t: string, k: nat, d: nat, ch: char)
    requires Stretched(s, t, k, d)
    ensures Pairs(s, |s|, ch) == Pairs(t, |t|, ch) + (if ch == t[k] then d else 0)
  {
    PairsStretched(s, t, k, d, |s|, ch);
    assert |s| - d == |t|;
  }

  /** Before the run, a position is kept exactly when it is kept in `t`. */
  lemma KeptBeforeRun(s: string, t: string, k: nat, d: nat, j: nat)
    requires Stretched(s, t, k, d) && Rank(t, k, t[k]) == 0 && j < k
    ensures s[j] == t[j] && Kept(s, |s|, j) == Kept(t, |t|, j)
  {
    var ch := t[j];
    assert ch != t[k] by {
      RankPositive(t, j, k);
    }
    RankStretched(s, t, k, d, j, ch);
    PairsStretchedAll(s, t, k, d, ch);
  }

  /** From the run's last copy on, a position is kept exactly when its
      counterpart `d` places earlier in `t` is. */
  lemma KeptFromRunEnd(s: string, t: string, k: nat, d: nat, j: nat)
    requires Stretched(s, t, k, d) && k + d <= j < |s|
    ensures s[j] == t[j - d] && Kept(s, |s|, j) == Kept(t, |t|, j - d)
  {
    RankStretched(s, t, k, d, j, s[j]);
    PairsStretchedAll(s, t, k, d, s[j]);
  }

  /** A copy of `c` before `k` would make `Rank(t, k, c)` positive. */
  lemma {:induction false} RankPositive(t: string, j: nat, k: nat)
    requires j < k <= |t|
    ensures Rank(t, k, t[j]) > 0
  {
    if j < k - 1 {
      RankPositive(t, j, k - 1);
    }
  }

  /** The extra copies of the run are all dropped. */
  lemma RunCopyDropped(s: string, t: string, k: nat, d: nat, j: nat)
    requires Stretched(s, t, k, d) && !IsAlnum(t[k]) && Rank(t, k, t[k]) == 0
    requires k <= j < k + d
    ensures !Kept(s, |s|, j)
  {
    RankStretched(s, t, k, d, j, t[k]);
    PairsStretchedAll(s, t, k, d, t[k]);
  }

  /** The survivors of a stretched string are those of the original, with
      the run's extra copies left out. */
  lemma {:induction false} SelectStretched(s: string, t: string, k: nat, d: nat, n: nat)
    requires Stretched(s, t, k, d) && !IsAlnum(t[k]) && Rank(t, k, t[k]) == 0 && n <= |s|
    ensures n <= k ==> Select(s, |s|, n) == Select(t, |t|, n)
    ensures k <= n <= k + d ==> Select(s, |s|, n) == Select(t, |t|, k)
    ensures k + d <= n ==> Select(s, |s|, n) == Select(t, |t|, n - d)
  {
    if n > 0 {
      SelectStretched(s, t, k, d, n - 1);
      var j := n - 1;
      if j < k {
        KeptBeforeRun(s, t, k, d, j);
      } else if j < k + d {
        RunCopyDropped(s, t, k, d, j);
      } else {
        KeptFromRunEnd(s, t, k, d, j);
      }
    }
  }

  /** A run `c c ... c` that holds the first copies of its special character
      collapses like a single `c`, whatever the rest of the address holds:
      every pair inside the run removes one of the run's own copies. */
  lemma CollapseRun(x: string, c: char, m: nat, y: string)
    requires !IsAlnum(c) && c !in x && 1 <= m
    ensures Collapsed(x + Repeat(c, m) + y) == Collapsed(x + [c] + y)
  {
    var s := x + Repeat(c, m) + y;
    var t := x + [c] + y;
    var k, d := |x|, m - 1;
    assert Stretched(s, t, k, d) by {
      forall j | k + d < j < |s|
        ensures s[j] == t[j - d]
      {
        assert s[j] == y[j - k - m];
      }
    }
    assert Rank(t, k, c) == 0 by {
      RankIsCount(t, k, c);
      assert t[..k] == x;
      CountZero(x, c);
    }
    SelectStretched(s, t, k, d, |s|);
  }

  /** A stretch of an address: some text, then a run of `count` copies of `c`. */
  datatype Run = Run(text: string, c: char, count: nat)

  /** The runs in order, followed by `tail`. */
  function Spell(runs: seq<Run>, tail: string): string
  {
    if runs == [] then tail
    else runs[0].text + Repeat(runs[0].c, runs[0].count) + Spell(runs[1..], tail)
  }

  /** The same, with every run shrunk to one copy. */
  function Shrunk(runs: seq<Run>, tail: string): string
  {
    if runs == [] then tail
    else runs[0].text + [runs[0].c] + Shrunk(runs[1..], tail)
  }

  /** Every run is of a special character, is non-empty, and holds the first
      copies of its character after the text `p` already read. */
  predicate RunsFresh(p: string, runs: seq<Run>)
    decreases |runs|
  {
    runs != [] ==>
      && !IsAlnum(runs[0].c) && 1 <= runs[0].count && runs[0].c !in p + runs[0].text
      && RunsFresh(p + runs[0].text + [runs[0].c], runs[1..])
  }

  /** Several runs, each holding the first copies of its own special
      character, all shrink to one copy together, whatever follows them. */
  lemma {:induction false} CollapseRuns(p: string, runs: seq<Run>, tail: string)
    requires RunsFresh(p, runs)
    ensures Collapsed(p + Spell(runs, tail)) == Collapsed(p + Shrunk(runs, tail))
    decreases |runs|
  {
    if runs != [] {
      var r := runs[0];
      var x := p + r.text;
      SpellFirst(p, runs, tail);
      CollapseRun(x, r.c, r.count, Spell(runs[1..], tail));
      CollapseRuns(x + [r.c], runs[1..], tail);
    }
  }

  lemma SpellFirst(p: string, runs: seq<Run>, tail: string)
    requires runs != []
    ensures p + Spell(runs, tail) == p + runs[0].text + Repeat(runs[0].c, runs[0].count) + Spell(runs[1..], tail)
    ensures p + Shrunk(runs, tail) == p + runs[0].text + [runs[0].c] + Shrunk(runs[1..], tail)
  {
  }

  /** With no pair left once the runs are shrunk, the collapse is the shrunk address. */
  lemma CollapseToShrunk(runs: seq<Run>, tail: string)
    requires RunsFresh([], runs) && NoSpecialPairs(Shrunk(runs, tail))
    ensures Collapsed(Spell(runs, tail)) == Shrunk(runs, tail)
  {
    CollapseRuns([], runs, tail);
    assert [] + Spell(runs, tail) == Spell(runs, tail);
    assert [] + Shrunk(runs, tail) == Shrunk(runs, tail);
    CollapsedNoPairs(Shrunk(runs, tail));
  }

  lemma TripleRun(c: char)
    ensures Repeat(c, 3) == [c, c, c]
  {
    assert Repeat(c, 1) == [c];
  }

  /** Three runs of three copies of distinct special characters, each run
      holding the first copies of its character, shrink to one copy each. */
  lemma CollapseThreeRuns(t0: string, c0: char, t1: string, c1: char, t2: string, c2: char, t3: string)
    requires !IsAlnum(c0) && !IsAlnum(c1) && !IsAlnum(c2)
    requires c0 !in t0
    requires c1 != c0 && c1 !in t0 + t1
    requires c2 != c0 && c2 != c1 && c2 !in t0 + t1 + t2
    requires NoSpecialPairs(t0 + [c0] + t1 + [c1] + t2 + [c2] + t3)
    ensures Collapsed(t0 + [c0, c0, c0] + t1 + [c1, c1, c1] + t2 + [c2, c2, c2] + t3)
         == t0 + [c0] + t1 + [c1] + t2 + [c2] + t3
  {
    var runs := [Run(t0, c0, 3), Run(t1, c1, 3), Run(t2, c2, 3)];
    ThreeRunsSpelled(t0, c0, t1, c1, t2, c2, t3);
    ThreeRunsFresh(t0, c0, t1, c1, t2, c2);
    CollapseToShrunk(runs, t3);
  }

  lemma ThreeRunsFresh(t0: string, c0: char, t1: string, c1: char, t2: string, c2: char)
    requires !IsAlnum(c0) && !IsAlnum(c1) && !IsAlnum(c2)
    requires c0 !in t0
    requires c1 != c0 && c1 !in t0 + t1
    requires c2 != c0 && c2 != c1 && c2 !in t0 + t1 + t2
    ensures RunsFresh([], [Run(t0, c0, 3), Run(t1, c1, 3), Run(t2, c2, 3)])
  {
    var runs := [Run(t0, c0, 3), Run(t1, c1, 3), Run(t2, c2, 3)];
    var last, two := [Run(t2, c2, 3)], [Run(t1, c1, 3), Run(t2, c2, 3)];
    assert runs[1..] == two && two[1..] == last && last[1..] == [];
    var p1 := [] + t0 + [c0];
    var p2 := p1 + t1 + [c1];
    assert c2 !in p2 + t2 by {
      assert forall k :: 0 <= k < |p2 + t2| ==> (p2 + t2)[k] in t0 + t1 + t2 || (p2 + t2)[k] in [c0, c1];
    }
    assert c1 !in p1 + t1 by {
      assert forall k :: 0 <= k < |p1 + t1| ==> (p1 + t1)[k] in t0 + t1 || (p1 + t1)[k] == c0;
    }
    assert RunsFresh(p2 + t2 + [c2], []);
  }

  lemma ThreeRunsSpelled(t0: string, c0: char, t1: string, c1: char, t2: string, c2: char, t3: string)
    ensures Spell([Run(t0, c0, 3), Run(t1, c1, 3), Run(t2, c2, 3)], t3)
         == t0 + [c0, c0, c0] + t1 + [c1, c1, c1] + t2 + [c2, c2, c2] + t3
    ensures Shrunk([Run(t0, c0, 3), Run(t1, c1, 3), Run(t2, c2, 3)], t3)
         == t0 + [c0] + t1 + [c1] + t2 + [c2] + t3
  {
    var runs := [Run(t0, c0, 3), Run(t1, c1, 3), Run(t2, c2, 3)];
    TripleRun(c0);
    TripleRun(c1);
    TripleRun(c2);
    var last, two := [Run(t2, c2, 3)], [Run(t1, c1, 3), Run(t2, c2, 3)];
    assert runs[1..] == two && two[1..] == last && last[1..] == [];
    assert Spell(last, t3) == t2 + [c2, c2, c2] + t3;
    assert Spell(two, t3) == t1 + [c1, c1, c1] + (t2 + [c2, c2, c2] + t3);
    assert Shrunk(last, t3) == t2 + [c2] + t3;
    assert Shrunk(two, t3) == t1 + [c1] + (t2 + [c2] + t3);
  }

  /** The address of the double-special-characters case of the user tests:
      runs of three spaces, three dots and three commas each shrink to one copy. */
  lemma CollapseMainStreet()
    ensures Collapsed("1223   main-Street... of O,,,Connor") == "1223 main-Street. of O,Connor"
  {
    MainStreetSpelled();
    MainStreetShrunk();
    MainStreetNoPairs();
    assert ' ' !in "1223";
    assert '.' !in "1223" + "main-Street";
    assert ',' !in "1223" + "main-Street" + " of O";
    CollapseThreeRuns("1223", ' ', "main-Street", '.', " of O", ',', "Connor");
  }

  lemma MainStreetSpelled()
    ensures "1223" + [' ', ' ', ' '] + "main-Street" + ['.', '.', '.'] + " of O" + [',', ',', ','] + "Connor"
         == "1223   main-Street... of O,,,Connor"
  {
  }

  lemma MainStreetShrunk()
    ensures "1223" + [' '] + "main-Street" + ['.'] + " of O" + [','] + "Connor"
         == "1223 main-Street. of O,Connor"
  {
  }

  lemma MainStreetNoPairs()
    ensures NoSpecialPairs("1223 main-Street. of O,Connor")
  {
  }

  /** Two runs, of spaces and of commas: `"321   main,,,street"` becomes
      `"321 main,street"`. */
  lemma CollapseMainComma()
    ensures Collapsed("321   main,,,street") == "321 main,street"
  {
    var y := "main" + [',', ',', ','] + "street";
    TripleRun(' ');
    TripleRun(',');
    assert "321   main,,,street" == "321" + Repeat(' ', 3) + y;
    CollapseRun("321", ' ', 3, y);
    assert "321" + [' '] + y == "321 main" + Repeat(',', 3) + "street";
    assert ',' !in "321 main";
    CollapseRun("321 main", ',', 3, "street");
    assert "321 main" + [','] + "street" == "321 main,street";
    assert NoSpecialPairs("321 main,street");
    CollapsedNoPairs("321 main,street");
  }

  predicate AllAlnum(t: string)
  {
    forall k :: 0 <= k < |t| ==> IsAlnum(t[k])
  }

  /** Two separate pairs of the same special character: the second pair's
      removal takes the leftmost remaining copy, which is the first pair's, so
      the first pair vanishes and the second pair survives intact. Thus
      `"ab..cd..ef"` collapses to `"abcd..ef"`, which still holds two equal
      adjacent special characters. */
  lemma CollapseSecondPairSurvives(x: string, y: string, z: string, c: char)
    requires !IsAlnum(c) && AllAlnum(x) && AllAlnum(y) && AllAlnum(z) && y != []
    ensures Collapsed(x + [c, c] + y + [c, c] + z) == x + y + [c, c] + z
  {
    var s := x + [c, c] + y + [c, c] + z;
    var b := |x| + 2 + |y|;
    FirstPairGone(x, y, z, c);
    SecondPairTaken(x, y, z, c);
    SurvivorsSkip(s, b + 1, |s|);
  }

  lemma FirstPairGone(x: string, y: string, z: string, c: char)
    requires !IsAlnum(c) && AllAlnum(x) && AllAlnum(y) && AllAlnum(z) && y != []
    ensures Survivors(x + [c, c] + y + [c, c] + z, |x| + 2 + |y|) == x + [c] + (y + [c, c] + z)
  {
    var s := x + [c, c] + y + [c, c] + z;
    FirstPairTaken(x, y, z, c);
    assert s[|x| + 2] == y[0];
    SurvivorsSkip(s, |x| + 1, |x| + 2 + |y|);
  }

  lemma FirstPairTaken(x: string, y: string, z: string, c: char)
    requires !IsAlnum(c) && AllAlnum(x)
    ensures Survivors(x + [c, c] + y + [c, c] + z, |x| + 1) == x + [c] + (y + [c, c] + z)
  {
    var w := [c] + (y + [c, c] + z);
    Regroup(x, y, z, c);
    PairAfterPrefix(x, c, w);
  }

  lemma Regroup(x: string, y: string, z: string, c: char)
    ensures x + [c, c] + y + [c, c] + z == x + [c] + ([c] + (y + [c, c] + z))
    ensures x + ([c] + (y + [c, c] + z)) == x + [c] + (y + [c, c] + z)
  {
  }

  /** A pair of special characters right after a prefix of letters and digits
      removes the first character of the pair. */
  lemma PairAfterPrefix(x: string, c: char, w: string)
    requires !IsAlnum(c) && AllAlnum(x) && w != [] && w[0] == c
    ensures Survivors(x + [c] + w, |x| + 1) == x + w
  {
    var s := x + [c] + w;
    AlnumPrefixUntouched(s, x);
    assert c !in x;
    RemoveAfterPrefix(x, c, w);
    StepAt(s, |x|, s, x + w);
  }

  /** The scan leaves the working copy alone across a prefix of letters and digits. */
  lemma AlnumPrefixUntouched(s: string, x: string)
    requires AllAlnum(x) && x <= s
    ensures Survivors(s, |x|) == s
  {
    SurvivorsInitial(s);
    forall p | 0 <= p < |x|
      ensures !(p + 1 < |s| && s[p] == s[p + 1] && !IsAlnum(s[p]))
    {
      assert s[p] == x[p];
    }
    SurvivorsSkip(s, 0, |x|);
  }

  lemma SecondPairTaken(x: string, y: string, z: string, c: char)
    requires !IsAlnum(c) && AllAlnum(x) && AllAlnum(y) && y != []
    requires Survivors(x + [c, c] + y + [c, c] + z, |x| + 2 + |y|) == x + [c] + (y + [c, c] + z)
    ensures Survivors(x + [c, c] + y + [c, c] + z, |x| + 3 + |y|) == x + y + [c, c] + z
  {
    var s := x + [c, c] + y + [c, c] + z;
    assert c !in x;
    RemoveAfterPrefix(x, c, y + [c, c] + z);
    StepAt(s, |x| + 2 + |y|, x + [c] + (y + [c, c] + z), x + (y + [c, c] + z));
    assert x + (y + [c, c] + z) == x + y + [c, c] + z;
  }

  /** So collapsing is not idempotent: collapsing again removes one more copy. */
  lemma CollapseNotIdempotent(x: string, y: string, z: string, c: char)
    requires !IsAlnum(c) && AllAlnum(x) && AllAlnum(y) && AllAlnum(z) && y != []
    ensures Collapsed(Collapsed(x + [c, c] + y + [c, c] + z)) == x + y + [c] + z
  {
    CollapseSecondPairSurvives(x, y, z, c);
    var u := x + y;
    assert u + Repeat(c, 2) + z == x + y + [c, c] + z;
    assert c !in u;
    var t := u + [c] + z;
    forall p | 0 <= p < |t| - 1
      ensures !(t[p] == t[p + 1] && !IsAlnum(t[p]))
    {
      if p < |u| {
        assert IsAlnum(t[p]);
      } else if p == |u| {
        assert t[p + 1] == z[0];
      } else {
        assert IsAlnum(t[p]);
      }
    }
    CollapseSingleRun(u, c, 2, z);
  }
}
