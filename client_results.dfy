/** The results screen (src/components/DetailedResults.tsx): the rows
    sorted by descending count with ties in server order, the winner, the
    rounded percentages, when voter chips appear, and the initials shown
    for a voter without an avatar. */
module ClientResults {
  import opened Base
  import opened ApiTypes

  // ---------------------------------------------------------------------
  // `[...results.results].sort((a, b) => b.count - a.count)`

  /** The comparator puts `a` after `b` exactly when `b.count > a.count`;
      the sort is stable, so each row is inserted after every row whose
      count is at least its own. */
  function Insert(x: ResultItem, s: seq<ResultItem>): (r: seq<ResultItem>)
    ensures |r| == |s| + 1
  {
    if s == [] then [x]
    else if s[0].count < x.count then [x] + s
    else [s[0]] + Insert(x, s[1..])
  }

  /** Inserts the rows of `rest` one by one, in their order, into `acc`. */
  function SortFrom(acc: seq<ResultItem>, rest: seq<ResultItem>): (r: seq<ResultItem>)
    ensures |r| == |acc| + |rest|
    decreases |rest|
  {
    if rest == [] then acc
    else SortFrom(Insert(rest[0], acc), rest[1..])
  }

  /** `sortedResults`, a new sequence: the input is not changed. */
  function SortByCount(rows: seq<ResultItem>): (r: seq<ResultItem>)
    ensures |r| == |rows|
  {
    SortFrom([], rows)
  }

  lemma {:induction false} InsertPermutes(x: ResultItem, s: seq<ResultItem>)
    ensures multiset(Insert(x, s)) == multiset(s) + multiset{x}
    decreases |s|
  {
    if s != [] && s[0].count >= x.count {
      InsertPermutes(x, s[1..]);
      assert s == [s[0]] + s[1..];
    }
  }

  lemma {:induction false} SortFromPermutes(acc: seq<ResultItem>, rest: seq<ResultItem>)
    ensures multiset(SortFrom(acc, rest)) == multiset(acc) + multiset(rest)
    decreases |rest|
  {
    if rest != [] {
      InsertPermutes(rest[0], acc);
      SortFromPermutes(Insert(rest[0], acc), rest[1..]);
      assert rest == [rest[0]] + rest[1..];
    }
  }

  predicate SortedDesc(s: seq<ResultItem>) {
    forall i, j :: 0 <= i < j < |s| ==> s[i].count >= s[j].count
  }

  /** The rows with count `k`, in their order. */
  function WithCount(s: seq<ResultItem>, k: int): (r: seq<ResultItem>)
    ensures |r| <= |s|
  {
    if s == [] then [] else (if s[0].count == k then [s[0]] else []) + WithCount(s[1..], k)
  }

  lemma {:induction false} WithCountAppend(a: seq<ResultItem>, b: seq<ResultItem>, k: int)
    ensures WithCount(a + b, k) == WithCount(a, k) + WithCount(b, k)
    decreases |a|
  {
    if a == [] {
      assert a + b == b;
    } else {
      assert (a + b)[0] == a[0] && (a + b)[1..] == a[1..] + b;
      WithCountAppend(a[1..], b, k);
      var h := if a[0].count == k then [a[0]] else [];
      assert WithCount(a + b, k) == h + WithCount(a[1..] + b, k);
      assert WithCount(a, k) == h + WithCount(a[1..], k);
    }
  }

  lemma InsertSorted(x: ResultItem, s: seq<ResultItem>)
    requires SortedDesc(s)
    ensures SortedDesc(Insert(x, s))
    decreases |s|
  {
    if s != [] && s[0].count >= x.count {
      InsertSorted(x, s[1..]);
      var r := Insert(x, s);
      var t := Insert(x, s[1..]);
      assert forall y :: y in t ==> y in s[1..] || y == x by {
        InsertPermutes(x, s[1..]);
        forall y | y in t ensures y in s[1..] || y == x {
          assert y in multiset(t);
        }
      }
      forall j | 0 < j < |r| ensures r[0].count >= r[j].count {
        assert r[j] == t[j - 1] && t[j - 1] in t;
      }
    }
  }

  /** In a sorted sequence whose head counts less than `k`, no row counts `k`. */
  lemma {:induction false} NoneWithCountAbove(s: seq<ResultItem>, k: int)
    requires SortedDesc(s) && s != [] && s[0].count < k
    ensures WithCount(s, k) == []
    decreases |s|
  {
    if |s| > 1 {
      assert s[1..][0] == s[1];
      NoneWithCountAbove(s[1..], k);
    }
  }

  /** Inserting keeps the rows of each count in the order they came in:
      the new row goes after every row with its own count. */
  lemma {:induction false} InsertStable(x: ResultItem, s: seq<ResultItem>, k: int)
    requires SortedDesc(s)
    ensures WithCount(Insert(x, s), k) == WithCount(s, k) + WithCount([x], k)
    decreases |s|
  {
    assert WithCount([x], k) == (if x.count == k then [x] else []) + WithCount([], k);
    if s == [] {
    } else if s[0].count < x.count {
      var r := [x] + s;
      assert r[0] == x && r[1..] == s;
      if x.count == k {
        NoneWithCountAbove(s, k);
      }
    } else {
      var r := Insert(x, s);
      assert r[0] == s[0] && r[1..] == Insert(x, s[1..]);
      InsertStable(x, s[1..], k);
    }
  }

  lemma {:induction false} SortFromSorted(acc: seq<ResultItem>, rest: seq<ResultItem>)
    requires SortedDesc(acc)
    ensures SortedDesc(SortFrom(acc, rest))
    decreases |rest|
  {
    if rest != [] {
      InsertSorted(rest[0], acc);
      SortFromSorted(Insert(rest[0], acc), rest[1..]);
    }
  }

  lemma WithCountHead(s: seq<ResultItem>, k: int)
    requires s != []
    ensures WithCount(s, k) == WithCount([s[0]], k) + WithCount(s[1..], k)
  {
    assert [s[0]] + s[1..] == s;
    WithCountAppend([s[0]], s[1..], k);
  }

  lemma ConcatAssoc(a: seq<ResultItem>, b: seq<ResultItem>, c: seq<ResultItem>)
    ensures (a + b) + c == a + (b + c)
  {
  }

  lemma {:induction false} SortFromStable(acc: seq<ResultItem>, rest: seq<ResultItem>, k: int)
    requires SortedDesc(acc)
    ensures WithCount(SortFrom(acc, rest), k) == WithCount(acc, k) + WithCount(rest, k)
    decreases |rest|
  {
    if rest != [] {
      var acc' := Insert(rest[0], acc);
      InsertSorted(rest[0], acc);
      SortFromStable(acc', rest[1..], k);
      InsertStable(rest[0], acc, k);
      WithCountHead(rest, k);
      ConcatAssoc(WithCount(acc, k), WithCount([rest[0]], k), WithCount(rest[1..], k));
    }
  }

  /** `sortedResults` is a permutation of the rows with non-increasing
      counts, and the rows of any one count keep their server order. */
  lemma SortByCountSpec(rows: seq<ResultItem>)
    ensures multiset(SortByCount(rows)) == multiset(rows)
    ensures SortedDesc(SortByCount(rows))
    ensures forall k :: WithCount(SortByCount(rows), k) == WithCount(rows, k)
  {
    SortFromPermutes([], rows);
    SortFromSorted([], rows);
    forall k ensures WithCount(SortByCount(rows), k) == WithCount(rows, k) {
      SortFromStable([], rows, k);
    }
  }

  lemma InsertAtEnd(x: ResultItem, s: seq<ResultItem>)
    requires forall i :: 0 <= i < |s| ==> s[i].count >= x.count
    ensures Insert(x, s) == s + [x]
    decreases |s|
  {
    if s != [] {
      InsertAtEnd(x, s[1..]);
      assert [s[0]] + (s[1..] + [x]) == s + [x];
    }
  }

  lemma {:induction false} SortFromOfSorted(acc: seq<ResultItem>, rest: seq<ResultItem>)
    requires SortedDesc(acc + rest)
    ensures SortFrom(acc, rest) == acc + rest
    decreases |rest|
  {
    if rest != [] {
      var all := acc + rest;
      forall i | 0 <= i < |acc| ensures acc[i].count >= rest[0].count {
        assert all[i] == acc[i] && all[|acc|] == rest[0];
      }
      InsertAtEnd(rest[0], acc);
      assert acc + [rest[0]] + rest[1..] == all;
      SortFromOfSorted(acc + [rest[0]], rest[1..]);
    }
  }

  /** Sorting rows already in order returns them unchanged, so sorting
      twice is sorting once. */
  lemma SortByCountIdempotent(rows: seq<ResultItem>)
    ensures SortedDesc(rows) ==> SortByCount(rows) == rows
    ensures SortByCount(SortByCount(rows)) == SortByCount(rows)
  {
    if SortedDesc(rows) {
      assert [] + rows == rows;
      SortFromOfSorted([], rows);
    }
    SortByCountSpec(rows);
    assert [] + SortByCount(rows) == SortByCount(rows);
    SortFromOfSorted([], SortByCount(rows));
  }

  // ---------------------------------------------------------------------
  // Winner and percentages

  /** `sortedResults[0]`, absent for a poll without variants. */
  function Winner(rows: seq<ResultItem>): Option<ResultItem> {
    var sorted := SortByCount(rows);
    if |sorted| > 0 then Some(sorted[0]) else None
  }

  /** The winner banner's condition. */
  predicate ShowsWinnerBanner(rows: seq<ResultItem>) {
    Winner(rows).Some? && Winner(rows).value.count > 0
  }

  /** The winner is one of the rows, and no row has more votes. */
  lemma WinnerIsMaximal(rows: seq<ResultItem>)
    ensures Winner(rows).Some? <==> rows != []
    ensures Winner(rows).Some? ==> Winner(rows).value in rows
    ensures Winner(rows).Some? ==> forall r :: r in rows ==> r.count <= Winner(rows).value.count
  {
    SortByCountSpec(rows);
    var sorted := SortByCount(rows);
    if rows != [] {
      assert sorted[0] in multiset(sorted);
      forall r | r in rows ensures r.count <= sorted[0].count {
        assert r in multiset(sorted);
        var j :| 0 <= j < |sorted| && sorted[j] == r;
      }
    }
  }

  /** `Math.round(count / total * 100)` with exact arithmetic, halves
      rounded up, and 0 when there are no votes. */
  function Percentage(count: int, total: int): int {
    if total > 0 then (200 * count + total) / (2 * total) else 0
  }

  /** The percentage is the integer nearest to 100 * count / total, a half
      going up: 100 * count / total - 1/2 < p <= 100 * count / total + 1/2. */
  lemma PercentageIsNearest(count: int, total: int)
    requires total > 0
    ensures 200 * count - total < 2 * total * Percentage(count, total) <= 200 * count + total
  {
    var p := Percentage(count, total);
    var n := 200 * count + total;
    assert n == (2 * total) * p + n % (2 * total);
  }

  lemma MulLe(a: int, b: int, c: int)
    requires a <= b && c >= 0
    ensures a * c <= b * c
  {
    assert b * c - a * c == (b - a) * c;
  }

  lemma PercentageBounds(count: int, total: int)
    requires 0 <= count <= total
    ensures 0 <= Percentage(count, total) <= 100
  {
    if total > 0 {
      PercentageIsNearest(count, total);
      var p := Percentage(count, total);
      var t2 := 2 * total;
      assert 200 * count <= 200 * total;
      if p > 100 {
        MulLe(101, p, t2);
        assert false;
      }
      if p < 0 {
        MulLe(p, -1, t2);
        assert false;
      }
    }
  }

  /** One row of the detailed list. */
  datatype DisplayRow = DisplayRow(item: ResultItem, percentage: int, isWinner: bool, showsVoters: bool)

  /** The chips appear only on a public poll and only for a non-empty list. */
  predicate ShowVoterChips(isAnonymous: bool, item: ResultItem) {
    !isAnonymous && item.voters.Some? && |item.voters.value| > 0
  }

  function DisplayRows(res: VoteResult): (r: seq<DisplayRow>)
    ensures |r| == |res.results|
    ensures forall i :: 0 <= i < |r| ==> r[i].item == SortByCount(res.results)[i]
  {
    var sorted := SortByCount(res.results);
    seq(|sorted|, i requires 0 <= i < |sorted| =>
      DisplayRow(sorted[i], Percentage(sorted[i].count, res.total),
                 i == 0 && sorted[i].count > 0, ShowVoterChips(res.isAnonymous, sorted[i])))
  }

  /** At most one row is marked as the winner, it is the first, and it is
      the banner's winner; an anonymous result never shows chips. */
  lemma DisplayRowsSpec(res: VoteResult)
    ensures forall i, j ::
      (0 <= i < |DisplayRows(res)| && 0 <= j < |DisplayRows(res)| &&
       DisplayRows(res)[i].isWinner && DisplayRows(res)[j].isWinner) ==> i == j
    ensures forall i :: 0 <= i < |DisplayRows(res)| && DisplayRows(res)[i].isWinner ==>
      i == 0 && ShowsWinnerBanner(res.results) && DisplayRows(res)[i].item == Winner(res.results).value
    ensures ShowsWinnerBanner(res.results) ==> DisplayRows(res)[0].isWinner
    ensures res.isAnonymous ==> forall i :: 0 <= i < |DisplayRows(res)| ==> !DisplayRows(res)[i].showsVoters
  {
  }

  /** When the total is the number of votes over the rows, every
      percentage lies between 0 and 100. */
  lemma DisplayPercentagesBounded(res: VoteResult)
    requires forall i :: 0 <= i < |res.results| ==> 0 <= res.results[i].count <= res.total
    ensures forall i :: 0 <= i < |DisplayRows(res)| ==> 0 <= DisplayRows(res)[i].percentage <= 100
  {
    SortByCountSpec(res.results);
    var sorted := SortByCount(res.results);
    forall i | 0 <= i < |sorted| ensures 0 <= Percentage(sorted[i].count, res.total) <= 100 {
      assert sorted[i] in multiset(res.results);
      var j :| 0 <= j < |res.results| && res.results[j] == sorted[i];
      PercentageBounds(sorted[i].count, res.total);
    }
  }

  // ---------------------------------------------------------------------
  // The demo data: counts 57, 65 and 2 over 124 votes

  lemma DemoPercentages()
    ensures Percentage(57, 124) == 46 && Percentage(65, 124) == 52 && Percentage(2, 124) == 2
  {
  }

  lemma DemoWinner(a: ResultItem, b: ResultItem, c: ResultItem)
    requires a.count == 57 && b.count == 65 && c.count == 2
    ensures SortByCount([a, b, c]) == [b, a, c]
    ensures ShowsWinnerBanner([a, b, c]) && Winner([a, b, c]) == Some(b)
  {
    assert Insert(a, []) == [a];
    assert Insert(b, [a]) == [b, a];
    assert Insert(c, [b, a]) == [b] + Insert(c, [a]);
    assert Insert(c, [a]) == [a] + Insert(c, []);
    assert SortFrom([], [a, b, c]) == SortFrom([a], [b, c]);
    assert SortFrom([a], [b, c]) == SortFrom([b, a], [c]);
    assert SortFrom([b, a], [c]) == SortFrom([b, a, c], []);
  }

  // ---------------------------------------------------------------------
  // `getInitials`

  /** The first two characters of the trimmed name, else of the trimmed
      username, upper-cased; "?" when both are blank or missing. */
  function Initials(name: Option<string>, username: Option<string>): (r: string)
    ensures 1 <= |r| <= 2
  {
    var fromName := if name.Some? then Trim(name.value) else "";
    var fromUsername := if username.Some? then Trim(username.value) else "";
    if |fromName| > 0 then ToUpper(Take(fromName, 2))
    else if |fromUsername| > 0 then ToUpper(Take(fromUsername, 2))
    else "?"
  }

  /** The initials come from the name when it is not blank, from the
      username when only the name is blank, and are "?" when both are
      blank (a name or username that is itself "?" also gives "?"). */
  lemma InitialsSource(name: Option<string>, username: Option<string>)
    ensures name.Some? && Trim(name.value) != "" ==>
      Initials(name, username) == ToUpper(Take(Trim(name.value), 2))
    ensures (name.None? || Trim(name.value) == "") && username.Some? && Trim(username.value) != "" ==>
      Initials(name, username) == ToUpper(Take(Trim(username.value), 2))
    ensures (name.None? || Trim(name.value) == "") && (username.None? || Trim(username.value) == "") ==>
      Initials(name, username) == "?"
  {
  }
}
