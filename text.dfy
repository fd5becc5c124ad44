/**
 * The Python string operations the record manager relies on, restricted to
 * ASCII: character classes, `str.lower`, `str.title`, `str.strip`, counting,
 * searching and `list.remove` on a list of characters.
 */
module Text {

  // ----- character classes -----

  predicate IsUpper(c: char) { 'A' <= c <= 'Z' }
  predicate IsLower(c: char) { 'a' <= c <= 'z' }
  /** A member of `string.ascii_letters`. */
  predicate IsLetter(c: char) { IsUpper(c) || IsLower(c) }
  /** A member of `string.digits`. */
  predicate IsDigit(c: char) { '0' <= c <= '9' }
  predicate IsAlnum(c: char) { IsLetter(c) || IsDigit(c) }
  /** `str.isspace` on ASCII: space, tab, line feed, vertical tab, form feed,
      carriage return and the four separators 0x1C to 0x1F. */
  predicate IsSpace(c: char) { c == ' ' || ('\t' <= c <= '\r') || ('\U{1C}' <= c <= '\U{1F}') }

  function LowerChar(c: char): (r: char)
    ensures IsLetter(r) <==> IsLetter(c)
    ensures !IsUpper(r)
    ensures !IsLetter(c) ==> r == c
  {
    if IsUpper(c) then (c as int + 32) as char else c
  }

  function UpperChar(c: char): (r: char)
    ensures IsLetter(r) <==> IsLetter(c)
    ensures !IsLower(r)
    ensures !IsLetter(c) ==> r == c
  {
    if IsLower(c) then (c as int - 32) as char else c
  }

  lemma CaseRoundTrips(c: char)
    ensures LowerChar(LowerChar(c)) == LowerChar(c) && LowerChar(UpperChar(c)) == LowerChar(c)
    ensures UpperChar(UpperChar(c)) == UpperChar(c) && UpperChar(LowerChar(c)) == UpperChar(c)
  {
  }

  // ----- str.lower -----

  /** `str.lower`: every upper-case letter replaced by its lower-case form. */
  function Lower(s: string): (r: string)
  {
    seq(|s|, i requires 0 <= i < |s| => LowerChar(s[i]))
  }

  predicate IsLowerCase(s: string)
  {
    forall i :: 0 <= i < |s| ==> !IsUpper(s[i])
  }

  /** `str.lower` keeps the length, leaves no upper-case letter and changes
      nothing but letters. */
  lemma LowerSpec(s: string)
    ensures |Lower(s)| == |s| && IsLowerCase(Lower(s))
    ensures forall i :: 0 <= i < |s| && !IsLetter(s[i]) ==> Lower(s)[i] == s[i]
    ensures forall i :: 0 <= i < |s| ==> (IsLetter(Lower(s)[i]) <==> IsLetter(s[i]))
    ensures IsLowerCase(s) ==> Lower(s) == s
  {
  }

  // ----- str.title -----

  /** The character `str.title` puts at position `i` of `s`: a letter is upper-cased
      exactly when the character before it is not a letter, and lower-cased otherwise. */
  function TitleAt(s: string, i: nat): char
    requires i < |s|
  {
    if i > 0 && IsLetter(s[i - 1]) then LowerChar(s[i]) else UpperChar(s[i])
  }

  /** `str.title` on ASCII. */
  function Title(s: string): (r: string)
  {
    seq(|s|, i requires 0 <= i < |s| => TitleAt(s, i))
  }

  /** A string that `str.title` leaves as it is. */
  predicate IsTitled(s: string)
  {
    forall i :: 0 <= i < |s| ==> s[i] == TitleAt(s, i)
  }

  /** `str.title` keeps the length and which positions hold letters, and its
      result is titled: applying it twice is applying it once. */
  lemma TitleSpec(s: string)
    ensures |Title(s)| == |s|
    ensures forall i :: 0 <= i < |s| ==> (IsLetter(Title(s)[i]) <==> IsLetter(s[i]))
    ensures forall i :: 0 <= i < |s| && !IsLetter(s[i]) ==> Title(s)[i] == s[i]
    ensures IsTitled(Title(s))
    ensures Title(Title(s)) == Title(s)
  {
    var t := Title(s);
    forall i | 0 <= i < |s|
      ensures t[i] == TitleAt(t, i)
    {
      CaseRoundTrips(s[i]);
    }
  }

  /** A titled string is its own title. */
  lemma TitledFixed(s: string)
    requires IsTitled(s)
    ensures Title(s) == s
  {
  }

  // ----- str.strip -----

  /** The number of whitespace characters `s` starts with. */
  function LeadingSpaces(s: string): (n: nat)
    ensures n <= |s|
    ensures forall k :: 0 <= k < n ==> IsSpace(s[k])
    ensures n < |s| ==> !IsSpace(s[n])
  {
    if s != [] && IsSpace(s[0]) then 1 + LeadingSpaces(s[1..]) else 0
  }

  /** The number of whitespace characters `s` ends with. */
  function TrailingSpaces(s: string): (n: nat)
    ensures n <= |s|
    ensures forall k :: |s| - n <= k < |s| ==> IsSpace(s[k])
    ensures n < |s| ==> !IsSpace(s[|s| - 1 - n])
  {
    if s != [] && IsSpace(s[|s| - 1]) then 1 + TrailingSpaces(s[..|s| - 1]) else 0
  }

  /** True when `s` neither starts nor ends with whitespace. */
  predicate Trimmed(s: string)
  {
    s == [] || (!IsSpace(s[0]) && !IsSpace(s[|s| - 1]))
  }

  /** `str.strip` with no argument: leading and trailing whitespace removed. */
  function Strip(s: string): (r: string)
    ensures |r| <= |s| && Trimmed(r)
  {
    var t := s[LeadingSpaces(s)..];
    t[..|t| - TrailingSpaces(t)]
  }

  predicate AllSpace(s: string)
  {
    forall k :: 0 <= k < |s| ==> IsSpace(s[k])
  }

  /** `str.strip` removes exactly the whitespace around the text: if `s` is some
      whitespace, then a trimmed middle, then some whitespace, the result is the middle. */
  lemma StripCharacterised(a: string, m: string, b: string)
    requires AllSpace(a) && AllSpace(b) && Trimmed(m)
    ensures Strip(a + m + b) == m
  {
    var s := a + m + b;
    var lead := LeadingSpaces(s);
    if m == [] {
      assert s == a + b;
      assert AllSpace(s);
      assert lead == |s|;
    } else {
      assert s[|a|] == m[0];
      assert lead == |a|;
      var t := s[lead..];
      assert t == m + b;
      var trail := TrailingSpaces(t);
      assert t[|m| - 1] == m[|m| - 1];
      assert trail == |b|;
      assert t[..|t| - trail] == m;
    }
  }

  /** Stripping twice is stripping once. */
  lemma StripIdempotent(s: string)
    ensures Strip(Strip(s)) == Strip(s)
  {
    var m := Strip(s);
    assert [] + m + [] == m;
    StripCharacterised([], m, []);
  }

  /** The stripped string is a slice of the original: `s[a..a + |Strip(s)|]` for
      the number `a` of leading whitespace characters. */
  lemma StripIsSlice(s: string)
    ensures LeadingSpaces(s) + |Strip(s)| <= |s|
    ensures Strip(s) == s[LeadingSpaces(s)..LeadingSpaces(s) + |Strip(s)|]
  {
  }

  /** Stripping a titled string leaves it titled: the character that follows the
      removed whitespace was already capitalised as the start of a word. */
  lemma StripTitled(s: string)
    requires IsTitled(s)
    ensures IsTitled(Strip(s))
  {
    StripIsSlice(s);
    var a := LeadingSpaces(s);
    var t := Strip(s);
    forall i | 0 <= i < |t|
      ensures t[i] == TitleAt(t, i)
    {
      assert t[i] == s[a + i];
      if i > 0 {
        assert t[i - 1] == s[a + i - 1];
      } else if a > 0 {
        assert IsSpace(s[a - 1]);
      }
    }
  }

  // ----- counting and searching -----

  /** The number of occurrences of `c` in `s`. */
  function Count(s: string, c: char): nat
  {
    if s == [] then 0 else Count(s[..|s| - 1], c) + (if s[|s| - 1] == c then 1 else 0)
  }

  lemma {:induction false} CountAppend(a: string, b: string, c: char)
    ensures Count(a + b, c) == Count(a, c) + Count(b, c)
  {
    if b == [] {
      assert a + b == a;
    } else {
      assert (a + b)[..|a + b| - 1] == a + b[..|b| - 1];
      CountAppend(a, b[..|b| - 1], c);
    }
  }

  lemma {:induction false} CountZero(s: string, c: char)
    ensures Count(s, c) == 0 <==> c !in s
  {
    if s != [] {
      CountZero(s[..|s| - 1], c);
      assert s == s[..|s| - 1] + [s[|s| - 1]];
    }
  }

  /** Counting in a prefix one character longer. */
  lemma CountPrefixStep(s: string, n: nat, c: char)
    requires n < |s|
    ensures Count(s[..n + 1], c) == Count(s[..n], c) + (if s[n] == c then 1 else 0)
  {
    assert s[..n + 1][..n] == s[..n];
  }

  /** The index of the first `c` in `s`, or `|s|` when there is none. */
  function IndexOf(s: string, c: char): (k: nat)
    ensures k <= |s|
    ensures k < |s| <==> c in s
    ensures k < |s| ==> s[k] == c
    ensures forall j :: 0 <= j < k ==> s[j] != c
  {
    if s == [] then 0 else if s[0] == c then 0 else 1 + IndexOf(s[1..], c)
  }

  /** The index of the last `c` in `s`, or -1 when there is none. */
  function LastIndexOf(s: string, c: char): (k: int)
    ensures -1 <= k < |s|
    ensures k == -1 <==> c !in s
    ensures k >= 0 ==> s[k] == c
    ensures forall j :: k < j < |s| ==> s[j] != c
  {
    if s == [] then -1
    else if s[|s| - 1] == c then |s| - 1
    else LastIndexOf(s[..|s| - 1], c)
  }

  /** The text after the last `c` in `s` (all of `s` when there is none). */
  function AfterLast(s: string, c: char): (r: string)
    ensures c !in r
  {
    s[LastIndexOf(s, c) + 1..]
  }

  /** The text before the first `c` in `s` (all of `s` when there is none). */
  function BeforeFirst(s: string, c: char): (r: string)
    ensures c !in r
  {
    s[..IndexOf(s, c)]
  }

  /** Where `c` occurs exactly once, the part before it and the part after it
      split `s` around it. */
  lemma {:induction false} SplitAtOnly(l: string, d: string, c: char)
    requires c !in l && c !in d
    ensures Count(l + [c] + d, c) == 1
    ensures BeforeFirst(l + [c] + d, c) == l && AfterLast(l + [c] + d, c) == d
  {
    var s := l + [c] + d;
    CountAppend(l + [c], d, c);
    CountAppend(l, [c], c);
    CountZero(l, c);
    CountZero(d, c);
    assert [c][..0] == [];
    assert s[|l|] == c;
    var k := LastIndexOf(s, c);
    assert k == |l|;
    assert s[k + 1..] == d;
    var f := IndexOf(s, c);
    assert f == |l|;
    assert s[..f] == l;
  }

  /** When the suffix `b` holds a `c`, the text after the last `c` lies inside `b`. */
  lemma AfterLastOfSuffix(a: string, b: string, c: char)
    requires c in b
    ensures AfterLast(a + b, c) == AfterLast(b, c)
  {
    var s := a + b;
    var kb := LastIndexOf(b, c);
    assert s[|a| + kb] == c;
    assert forall j :: |a| + kb < j < |s| ==> s[j] == b[j - |a|];
    assert LastIndexOf(s, c) == |a| + kb;
    assert s[|a| + kb + 1..] == b[kb + 1..];
  }

  /** `s` read back to front, as a list filled by appending `s[-1]`, `s[-2]`, ... */
  function Reverse(s: string): (r: string)
    ensures |r| == |s|
    ensures forall k :: 0 <= k < |s| ==> r[k] == s[|s| - 1 - k]
  {
    if s == [] then [] else Reverse(s[1..]) + [s[0]]
  }

  /** Reversing keeps membership. */
  lemma ReverseHas(s: string, c: char)
    ensures c in Reverse(s) <==> c in s
  {
    var r := Reverse(s);
    if c in s {
      var k :| 0 <= k < |s| && s[k] == c;
      assert r[|s| - 1 - k] == c;
    }
  }

  // ----- list.remove -----

  /** `list.remove(c)` on a list of characters: the leftmost `c` is deleted.
      Python raises when there is none, hence the precondition. */
  function RemoveFirst(s: string, c: char): (r: string)
    requires c in s
    ensures |r| == |s| - 1
  {
    s[..IndexOf(s, c)] + s[IndexOf(s, c) + 1..]
  }

  /** The first `c` is at `k` when `s[k]` is a `c` and nothing before it is. */
  lemma IndexOfAt(s: string, c: char, k: nat)
    requires k < |s| && s[k] == c && forall j :: 0 <= j < k ==> s[j] != c
    ensures IndexOf(s, c) == k
  {
  }

  /** Removing from a concatenation whose left part holds no `c` removes from the right part. */
  lemma RemoveFirstRight(a: string, b: string, c: char)
    requires c !in a && c in b
    ensures RemoveFirst(a + b, c) == a + RemoveFirst(b, c)
  {
    var kb := IndexOf(b, c);
    IndexOfRight(a, b, c);
    SplitRight(a, b, kb);
  }

  /** The first `c` of `a + b` is the first of `b`, shifted, when `a` holds none. */
  lemma {:induction false} IndexOfRight(a: string, b: string, c: char)
    requires c !in a && c in b
    ensures IndexOf(a + b, c) == |a| + IndexOf(b, c)
  {
    if a == [] {
      assert a + b == b;
    } else {
      assert (a + b)[0] == a[0];
      assert (a + b)[1..] == a[1..] + b;
      IndexOfRight(a[1..], b, c);
    }
  }

  /** Cutting `a + b` around position `k` of `b`. */
  lemma SplitRight(a: string, b: string, k: nat)
    requires k < |b|
    ensures (a + b)[..|a| + k] + (a + b)[|a| + k + 1..] == a + (b[..k] + b[k + 1..])
  {
    assert (a + b)[..|a| + k] == a + b[..k];
    assert (a + b)[|a| + k + 1..] == b[k + 1..];
  }

  /** Removing from a concatenation whose left part holds a `c` removes from the left part. */
  lemma RemoveFirstLeft(a: string, b: string, c: char)
    requires c in a
    ensures RemoveFirst(a + b, c) == RemoveFirst(a, c) + b
  {
    var s := a + b;
    var k := IndexOf(s, c);
    var ka := IndexOf(a, c);
    assert s[ka] == c;
    assert k == ka;
    assert s[..k] == a[..ka];
    assert s[k + 1..] == a[ka + 1..] + b;
  }
}
