/** Small building blocks shared by the server and the client models:
    optional values, results, string helpers (trimming, ASCII case mapping,
    decimal rendering) and sequence helpers (filter, first-occurrence
    de-duplication, subsequences). */
module Base {

  datatype Option<T> = None | Some(value: T)

  datatype Result<T, E> = Ok(value: T) | Err(error: E)

  // ---------------------------------------------------------------------
  // Sequences

  /** No element occurs twice. */
  predicate NoDup<T(==)>(s: seq<T>) {
    forall i, j :: 0 <= i < j < |s| ==> s[i] != s[j]
  }

  /** `a` can be obtained from `b` by deleting elements (order is kept). */
  predicate IsSubseq<T(==)>(a: seq<T>, b: seq<T>)
    decreases |b|
  {
    if a == [] then true
    else if b == [] then false
    else if a[0] == b[0] then IsSubseq(a[1..], b[1..])
    else IsSubseq(a, b[1..])
  }

  /** The elements of `s` that satisfy `p`, in their original order
      (JavaScript's `Array.prototype.filter`, a Python list comprehension
      with a condition, or a SQL `WHERE` over a table kept in row order). */
  function Filter<T(!new)>(s: seq<T>, p: T -> bool): (r: seq<T>)
    ensures |r| <= |s|
    ensures forall x :: x in r <==> x in s && p(x)
    ensures forall i :: 0 <= i < |r| ==> p(r[i])
  {
    if s == [] then [] else (if p(s[0]) then [s[0]] else []) + Filter(s[1..], p)
  }

  lemma {:induction false} SubseqMember<T>(a: seq<T>, b: seq<T>, x: T)
    requires IsSubseq(a, b) && x in a
    ensures x in b
  {
    if a[0] == b[0] {
      if x != a[0] {
        SubseqMember(a[1..], b[1..], x);
      }
    } else {
      SubseqMember(a, b[1..], x);
    }
  }

  /** A subsequence of a sequence whose elements have distinct keys has
      distinct keys too. */
  lemma {:induction false} SubseqKeysDistinct<T, K>(a: seq<T>, b: seq<T>, key: T -> K)
    requires IsSubseq(a, b)
    requires forall i, j :: 0 <= i < j < |b| ==> key(b[i]) != key(b[j])
    ensures forall i, j :: 0 <= i < j < |a| ==> key(a[i]) != key(a[j])
  {
    if a != [] && b != [] {
      var tl := b[1..];
      assert forall i :: 0 <= i < |tl| ==> tl[i] == b[i + 1];
      if a[0] == b[0] {
        SubseqKeysDistinct(a[1..], tl, key);
        forall k | 1 <= k < |a| ensures key(a[k]) != key(a[0]) {
          assert a[1..][k - 1] == a[k];
          SubseqMember(a[1..], tl, a[k]);
          var m :| 0 <= m < |tl| && tl[m] == a[k];
          assert b[m + 1] == a[k];
        }
        forall i, j | 0 <= i < j < |a| ensures key(a[i]) != key(a[j]) {
          if i > 0 {
            assert a[i] == a[1..][i - 1] && a[j] == a[1..][j - 1];
          }
        }
      } else {
        SubseqKeysDistinct(a, tl, key);
      }
    }
  }

  lemma {:induction false} FilterIsSubseq<T(!new)>(s: seq<T>, p: T -> bool)
    ensures IsSubseq(Filter(s, p), s)
  {
    if s != [] {
      FilterIsSubseq(s[1..], p);
      if p(s[0]) {
        assert Filter(s, p) == [s[0]] + Filter(s[1..], p);
        assert ([s[0]] + Filter(s[1..], p))[1..] == Filter(s[1..], p);
      } else {
        assert Filter(s, p) == Filter(s[1..], p);
        SubseqDropHead(Filter(s[1..], p), s);
      }
    }
  }

  /** A subsequence of the tail is a subsequence of the whole. */
  lemma {:induction false} SubseqDropHead<T>(a: seq<T>, b: seq<T>)
    requires b != [] && IsSubseq(a, b[1..])
    ensures IsSubseq(a, b)
    decreases |a| + |b|, 1
  {
    if a != [] && a[0] == b[0] {
      SubseqDropFirst(a, b[1..]);
    }
  }

  /** Dropping the first element of a subsequence keeps it a subsequence. */
  lemma {:induction false} SubseqDropFirst<T>(a: seq<T>, b: seq<T>)
    requires a != [] && IsSubseq(a, b)
    ensures IsSubseq(a[1..], b)
    decreases |a| + |b|, 0
  {
    assert b != [];
    if a[0] == b[0] {
      if a[1..] != [] {
        SubseqDropHead(a[1..], b);
      }
    } else {
      SubseqDropFirst(a, b[1..]);
      if a[1..] != [] {
        SubseqDropHead(a[1..], b);
      }
    }
  }

  lemma {:induction false} FilterAllTrue<T(!new)>(s: seq<T>, p: T -> bool)
    requires forall x :: x in s ==> p(x)
    ensures Filter(s, p) == s
  {
    if s != [] {
      FilterAllTrue(s[1..], p);
    }
  }

  lemma {:induction false} FilterAppend<T(!new)>(a: seq<T>, b: seq<T>, p: T -> bool)
    ensures Filter(a + b, p) == Filter(a, p) + Filter(b, p)
  {
    if a == [] {
      assert a + b == b;
    } else {
      assert (a + b)[1..] == a[1..] + b;
      FilterAppend(a[1..], b, p);
    }
  }

  lemma {:induction false} FilterAllFalse<T(!new)>(s: seq<T>, p: T -> bool)
    requires forall x :: x in s ==> !p(x)
    ensures Filter(s, p) == []
  {
    if s != [] {
      FilterAllFalse(s[1..], p);
    }
  }

  /** Filtering a duplicate-free sequence keeps it duplicate-free. */
  /** Filtering keeps every occurrence of a kept element: each kept
      element occurs as often as in the input, any other not at all. */
  lemma {:induction false} FilterMultiplicity<T(!new)>(s: seq<T>, p: T -> bool)
    ensures forall x :: multiset(Filter(s, p))[x] == (if p(x) then multiset(s)[x] else 0)
  {
    if s != [] {
      FilterMultiplicity(s[1..], p);
      assert s == [s[0]] + s[1..];
      assert multiset(s) == multiset{s[0]} + multiset(s[1..]);
    }
  }

  lemma {:induction false} FilterNoDup<T(!new)>(s: seq<T>, p: T -> bool)
    requires NoDup(s)
    ensures NoDup(Filter(s, p))
  {
    if s != [] {
      FilterNoDup(s[1..], p);
      var rest := Filter(s[1..], p);
      if p(s[0]) {
        assert s[0] !in s[1..];
        assert s[0] !in rest;
        var all := [s[0]] + rest;
        forall i, j | 0 <= i < j < |all| ensures all[i] != all[j] {
          if i == 0 {
            assert all[j] == rest[j - 1];
          } else {
            assert all[i] == rest[i - 1] && all[j] == rest[j - 1];
          }
        }
      }
    }
  }

  /** First-occurrence de-duplication, as Python's `list(dict.fromkeys(s))`:
      each element is kept where it first appears. */
  function Unique<T(==,!new)>(s: seq<T>): (r: seq<T>)
    ensures NoDup(r)
    ensures forall x :: x in r <==> x in s
    ensures |r| <= |s|
  {
    if s == [] then []
    else
      var u := Unique(s[..|s| - 1]);
      if s[|s| - 1] in u then u else u + [s[|s| - 1]]
  }

  /** De-duplication keeps first occurrences in their original order. */
  lemma {:induction false} UniqueIsSubseq<T(!new)>(s: seq<T>)
    ensures IsSubseq(Unique(s), s)
  {
    if s != [] {
      var init := s[..|s| - 1];
      UniqueIsSubseq(init);
      assert s == init + [s[|s| - 1]];
      if s[|s| - 1] in Unique(init) {
        SubseqAppendRight(Unique(init), init, [s[|s| - 1]]);
      } else {
        SubseqAppendBoth(Unique(init), init, [s[|s| - 1]]);
      }
    }
  }

  lemma {:induction false} SubseqAppendRight<T>(a: seq<T>, b: seq<T>, c: seq<T>)
    requires IsSubseq(a, b)
    ensures IsSubseq(a, b + c)
    decreases |b|
  {
    if a != [] {
      assert b != [];
      assert (b + c)[1..] == b[1..] + c;
      if a[0] == b[0] {
        SubseqAppendRight(a[1..], b[1..], c);
      } else {
        SubseqAppendRight(a, b[1..], c);
      }
    }
  }

  lemma {:induction false} SubseqAppendBoth<T>(a: seq<T>, b: seq<T>, c: seq<T>)
    requires IsSubseq(a, b)
    ensures IsSubseq(a + c, b + c)
    decreases |b|
  {
    if a == [] {
      SubseqPrepend(c, b);
      assert a + c == c;
    } else {
      assert b != [];
      assert (a + c)[0] == a[0] && (a + c)[1..] == a[1..] + c;
      assert (b + c)[0] == b[0] && (b + c)[1..] == b[1..] + c;
      if a[0] == b[0] {
        SubseqAppendBoth(a[1..], b[1..], c);
      } else {
        SubseqAppendBoth(a, b[1..], c);
      }
    }
  }

  lemma {:induction false} SubseqRefl<T>(a: seq<T>)
    ensures IsSubseq(a, a)
  {
    if a != [] {
      SubseqRefl(a[1..]);
    }
  }

  /** A sequence stays a subsequence of itself with anything put in front. */
  lemma {:induction false} SubseqPrepend<T>(a: seq<T>, b: seq<T>)
    ensures IsSubseq(a, b + a)
    decreases |b|
  {
    if b != [] {
      SubseqPrepend(a, b[1..]);
      assert (b + a)[1..] == b[1..] + a;
      SubseqDropHead(a, b + a);
    } else {
      SubseqRefl(a);
      assert b + a == a;
    }
  }

  lemma {:induction false} UniqueOfNoDup<T(!new)>(s: seq<T>)
    requires NoDup(s)
    ensures Unique(s) == s
  {
    if s != [] {
      var init := s[..|s| - 1];
      assert NoDup(init);
      UniqueOfNoDup(init);
      assert s[|s| - 1] !in init;
      assert s == init + [s[|s| - 1]];
    }
  }

  /** A non-empty input keeps at least one element. */
  lemma UniqueNonEmpty<T(!new)>(s: seq<T>)
    requires |s| > 0
    ensures |Unique(s)| >= 1
  {
    assert s[0] in Unique(s);
  }

  /** The position of the first occurrence of `x` in `s`. */
  function FirstIndex<T(==)>(s: seq<T>, x: T): (r: nat)
    requires x in s
    ensures r < |s| && s[r] == x
    ensures forall k :: 0 <= k < r ==> s[k] != x
  {
    if s[0] == x then 0 else 1 + FirstIndex(s[1..], x)
  }

  /** Any position with `x` and no `x` before it is the first occurrence. */
  lemma FirstIndexIs<T>(s: seq<T>, x: T, r: nat)
    requires r < |s| && s[r] == x
    requires forall k :: 0 <= k < r ==> s[k] != x
    ensures FirstIndex(s, x) == r
  {
  }

  /** Appending leaves the first occurrence of an element of `a` in place. */
  lemma FirstIndexAppend<T>(a: seq<T>, b: seq<T>, x: T)
    requires x in a
    ensures FirstIndex(a + b, x) == FirstIndex(a, x)
  {
    var f := FirstIndex(a, x);
    assert (a + b)[f] == x;
    assert forall k :: 0 <= k < f ==> (a + b)[k] == a[k];
    FirstIndexIs(a + b, x, f);
  }

  /** `Unique` keeps each element where it first occurs: its elements
      appear in the order of their first occurrences in the input. */
  lemma {:induction false} UniqueKeepsFirstOccurrenceOrder<T(!new)>(s: seq<T>)
    ensures forall i, j :: 0 <= i < j < |Unique(s)| ==>
      FirstIndex(s, Unique(s)[i]) < FirstIndex(s, Unique(s)[j])
  {
    if s != [] {
      var init, last := s[..|s| - 1], s[|s| - 1];
      assert s == init + [last];
      var u := Unique(init);
      UniqueKeepsFirstOccurrenceOrder(init);
      forall x | x in u
        ensures FirstIndex(s, x) == FirstIndex(init, x) && FirstIndex(s, x) < |init|
      {
        FirstIndexAppend(init, [last], x);
      }
      if last !in u {
        assert Unique(s) == u + [last];
        assert last !in init;
        FirstIndexIs(s, last, |init|);
        forall i, j | 0 <= i < j < |Unique(s)|
          ensures FirstIndex(s, Unique(s)[i]) < FirstIndex(s, Unique(s)[j])
        {
          assert Unique(s)[i] == u[i];
          if j < |u| {
            assert Unique(s)[j] == u[j];
          }
        }
      }
    }
  }

  // ---------------------------------------------------------------------
  // Strings

  /** The six ASCII whitespace characters, the part of the whitespace
      JavaScript's `trim` and Python's `strip` remove that this model
      covers. */
  predicate IsSpace(c: char) {
    c == ' ' || c == '\t' || c == '\n' || c == '\r' || c as int == 11 || c as int == 12
  }

  function TrimStart(s: string): (r: string)
    ensures |r| <= |s| && r == s[|s| - |r|..]
    ensures r == [] || !IsSpace(r[0])
    ensures forall i :: 0 <= i < |s| - |r| ==> IsSpace(s[i])
  {
    if |s| > 0 && IsSpace(s[0]) then TrimStart(s[1..]) else s
  }

  function TrimEnd(s: string): (r: string)
    ensures |r| <= |s| && r == s[..|r|]
    ensures r == [] || !IsSpace(r[|r| - 1])
    ensures forall i :: |r| <= i < |s| ==> IsSpace(s[i])
  {
    if |s| > 0 && IsSpace(s[|s| - 1]) then TrimEnd(s[..|s| - 1]) else s
  }

  /** `s.trim()` / `s.strip()` on text whose whitespace is ASCII: both
      ends stripped of the characters `IsSpace` names. Non-ASCII
      whitespace (U+00A0, U+FEFF, ...) is kept, which the programs'
      `trim` would remove. */
  function Trim(s: string): (r: string)
  {
    TrimEnd(TrimStart(s))
  }

  lemma TrimStartIsSuffix(s: string)
    ensures forall i :: 0 <= i < |TrimStart(s)| ==> TrimStart(s)[i] == s[|s| - |TrimStart(s)| + i]
  {
    var t := TrimStart(s);
    assert t == s[|s| - |t|..];
  }

  lemma TrimEndIsPrefix(t: string)
    ensures forall i :: 0 <= i < |TrimEnd(t)| ==> TrimEnd(t)[i] == t[i]
  {
    var r := TrimEnd(t);
    assert r == t[..|r|];
  }

  /** A trimmed string neither starts nor ends with whitespace. */
  lemma TrimEdges(s: string)
    ensures Trim(s) == [] || (!IsSpace(Trim(s)[0]) && !IsSpace(Trim(s)[|Trim(s)| - 1]))
  {
    var t := TrimStart(s);
    var r := TrimEnd(t);
    assert Trim(s) == r;
    if r != [] {
      TrimEndIsPrefix(t);
      assert r[0] == t[0];
    }
  }

  /** A trimmed string is the piece of the input that starts after the
      leading whitespace. */
  lemma TrimShape(s: string)
    ensures |s| - |TrimStart(s)| + |Trim(s)| <= |s|
    ensures forall i :: 0 <= i < |Trim(s)| ==> Trim(s)[i] == s[|s| - |TrimStart(s)| + i]
  {
    var t := TrimStart(s);
    var r := TrimEnd(t);
    assert Trim(s) == r;
    TrimStartIsSuffix(s);
    TrimEndIsPrefix(t);
  }

  /** Trimming yields the empty string exactly for all-whitespace input. */
  lemma TrimEmptyIff(s: string)
    ensures Trim(s) == [] <==> forall i :: 0 <= i < |s| ==> IsSpace(s[i])
  {
  }

  predicate IsAsciiLower(c: char) { 'a' <= c <= 'z' }
  predicate IsAsciiUpper(c: char) { 'A' <= c <= 'Z' }

  function UpperChar(c: char): char {
    if IsAsciiLower(c) then (c as int - 32) as char else c
  }

  function LowerChar(c: char): char {
    if IsAsciiUpper(c) then (c as int + 32) as char else c
  }

  /** `toUpperCase` restricted to ASCII letters (every other character is
      its own upper case). */
  function ToUpper(s: string): (r: string)
    ensures |r| == |s|
    ensures forall i :: 0 <= i < |s| ==> r[i] == UpperChar(s[i])
  {
    seq(|s|, i requires 0 <= i < |s| => UpperChar(s[i]))
  }

  /** Python's `str.lower` restricted to ASCII letters. */
  function ToLower(s: string): (r: string)
    ensures |r| == |s|
    ensures forall i :: 0 <= i < |s| ==> r[i] == LowerChar(s[i])
  {
    seq(|s|, i requires 0 <= i < |s| => LowerChar(s[i]))
  }

  predicate StartsWith(s: string, prefix: string) {
    |prefix| <= |s| && s[..|prefix|] == prefix
  }

  /** The first `n` characters, or all of them when there are fewer
      (`s.slice(0, n)`, `s[:n]`). */
  function Take(s: string, n: nat): (r: string)
    ensures |r| == if |s| < n then |s| else n
    ensures r == s[..|r|]
  {
    if |s| <= n then s else s[..n]
  }

  // ---------------------------------------------------------------------
  // Decimal rendering of naturals (f-strings and template literals)

  function DigitChar(d: nat): char
    requires d < 10
  {
    ('0' as int + d) as char
  }

  function Dec(n: nat): (r: string)
    ensures |r| >= 1
    ensures forall i :: 0 <= i < |r| ==> '0' <= r[i] <= '9'
  {
    if n < 10 then [DigitChar(n)] else Dec(n / 10) + [DigitChar(n % 10)]
  }

  /** Different numbers render differently. */
  lemma {:induction false} DecInjective(a: nat, b: nat)
    requires Dec(a) == Dec(b)
    ensures a == b
  {
    var da, db := Dec(a), Dec(b);
    assert da[|da| - 1] == db[|db| - 1];
    if a < 10 && b < 10 {
      assert DigitChar(a) == DigitChar(b);
    } else if a >= 10 && b >= 10 {
      assert DigitChar(a % 10) == DigitChar(b % 10);
      assert da[..|da| - 1] == Dec(a / 10);
      assert db[..|db| - 1] == Dec(b / 10);
      DecInjective(a / 10, b / 10);
    } else {
      // One rendering has a single digit, the other at least two.
      assert false;
    }
  }

  function Pow10(k: nat): (r: nat)
    ensures r >= 1
  {
    if k == 0 then 1 else 10 * Pow10(k - 1)
  }

  lemma {:induction false} Pow10Monotone(a: nat, b: nat)
    requires a <= b
    ensures Pow10(a) <= Pow10(b)
    decreases b
  {
    if a < b {
      Pow10Monotone(a, b - 1);
    }
  }

  /** A number is below ten to the power of its digit count. */
  lemma {:induction false} DecBound(n: nat)
    ensures n < Pow10(|Dec(n)|)
  {
    if n >= 10 {
      DecBound(n / 10);
      assert |Dec(n)| == |Dec(n / 10)| + 1;
    }
  }

  /** Numbers at or above 10^k take more than k digits. */
  lemma DecLong(n: nat, k: nat)
    requires n >= Pow10(k)
    ensures |Dec(n)| > k
  {
    DecBound(n);
  }
}
