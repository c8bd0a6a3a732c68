/** The username maintenance the server runs at start-up
    (`ensure_user_columns`, backend/app.py): every user without a username
    gets one derived from the e-mail address, and every username shared by
    several users is kept by the lowest id while the others get a numeric
    suffix. This module gives the pure specification: the candidate search,
    the row updates and their properties. The loops that carry them out over
    the stored table are methods of `Backend.Store`. */
module Usernames {
  import opened Base
  import opened Tables

  // ---------------------------------------------------------------------
  // Candidate names

  /** `email.split("@")[0]`: everything before the first '@'. */
  function LocalPart(email: string): (r: string)
    ensures |r| <= |email| && r == email[..|r|]
    ensures '@' !in r
    ensures |r| < |email| ==> email[|r|] == '@'
  {
    if email == [] || email[0] == '@' then [] else [email[0]] + LocalPart(email[1..])
  }

  /** The base of a backfilled username: the lowercased local part of the
      e-mail address or, when that is empty (no e-mail, or one starting with
      '@'), `user_` and the first eight characters of the id. */
  function BaseName(u: UserRow): (r: string)
    ensures r != []
    ensures LocalPart(u.email) != [] ==> r == ToLower(LocalPart(u.email))
    ensures LocalPart(u.email) == [] ==> r == ToLower("user_" + Take(u.id, 8))
  {
    var local := if u.email != "" then LocalPart(u.email) else "";
    ToLower(if local != "" then local else "user_" + Take(u.id, 8))
  }

  /** The k-th name tried for `base`: `base` itself, then `base1`, `base2`, ... */
  function Candidate(base: string, k: nat): string {
    if k == 0 then base else base + Dec(k)
  }

  /** Different suffixes give different names, so the search never tries a
      name twice. */
  lemma CandidatesDistinct(base: string, j: nat, k: nat)
    requires j != k
    ensures Candidate(base, j) != Candidate(base, k)
  {
    if j != 0 && k != 0 {
      if Candidate(base, j) == Candidate(base, k) {
        assert |Dec(j)| == |Dec(k)|;
        assert Dec(j) == Candidate(base, j)[|base|..];
        assert Dec(k) == Candidate(base, k)[|base|..];
        DecInjective(j, k);
      }
    }
  }

  /** `SELECT 1 FROM users WHERE username = :name AND id <> :id`. */
  predicate HeldByOther(users: seq<UserRow>, id: string, name: string) {
    exists i :: 0 <= i < |users| && users[i].username == name && users[i].id != id
  }

  /** The length of the longest stored username. */
  function MaxLen(users: seq<UserRow>): (r: nat)
    ensures forall i :: 0 <= i < |users| ==> |users[i].username| <= r
  {
    if users == [] then 0
    else
      var m := MaxLen(users[1..]);
      assert forall i :: 1 <= i < |users| ==> users[i] == users[1..][i - 1];
      if |users[0].username| > m then |users[0].username| else m
  }

  /** A name that is taken is no longer than the longest username, so only
      suffixes below 10^MaxLen can be taken: the search stops. */
  lemma TakenSuffixBound(users: seq<UserRow>, id: string, base: string, k: nat)
    requires HeldByOther(users, id, Candidate(base, k))
    ensures k < Pow10(MaxLen(users))
  {
    if k >= Pow10(MaxLen(users)) {
      DecLong(k, MaxLen(users));
    }
  }

  /** The suffix the search settles on when it starts at `k`: the first one
      whose candidate no other user holds. */
  function FirstFree(users: seq<UserRow>, id: string, base: string, k: nat): (r: nat)
    ensures r >= k
    ensures !HeldByOther(users, id, Candidate(base, r))
    ensures forall j :: k <= j < r ==> HeldByOther(users, id, Candidate(base, j))
    decreases Pow10(MaxLen(users)) - k
  {
    if !HeldByOther(users, id, Candidate(base, k)) then k
    else
      TakenSuffixBound(users, id, base, k);
      FirstFree(users, id, base, k + 1)
  }

  // ---------------------------------------------------------------------
  // Row updates

  /** `UPDATE users SET username = :name WHERE id = :id`. */
  function SetUsername(users: seq<UserRow>, id: string, name: string): (r: seq<UserRow>)
    ensures |r| == |users|
    ensures forall i :: 0 <= i < |users| ==>
      r[i] == if users[i].id == id then users[i].(username := name) else users[i]
  {
    seq(|users|, i requires 0 <= i < |users| =>
      if users[i].id == id then users[i].(username := name) else users[i])
  }

  /** Two tables that differ at most in their usernames. */
  predicate SameButUsernames(a: seq<UserRow>, b: seq<UserRow>) {
    && |a| == |b|
    && forall i :: 0 <= i < |a| ==>
         && a[i].id == b[i].id && a[i].email == b[i].email && a[i].name == b[i].name
         && a[i].role == b[i].role && a[i].passwordHash == b[i].passwordHash
         && a[i].avatarUrl == b[i].avatarUrl
  }

  lemma SameButUsernamesTrans(a: seq<UserRow>, b: seq<UserRow>, c: seq<UserRow>)
    requires SameButUsernames(a, b) && SameButUsernames(b, c)
    ensures SameButUsernames(a, c)
  {
  }

  /** Giving `id` a name nobody else holds creates no shared name, and makes
      no user other than `id` lose its own exclusive name. */
  lemma RenameKeepsExclusive(users: seq<UserRow>, id: string, name: string, other: string)
    requires !HeldByOther(users, id, name) && other != id
    requires OwnsName(users, other)
    ensures OwnsName(SetUsername(users, id, name), other)
  {
    var after := SetUsername(users, id, name);
    var i :| 0 <= i < |users| && users[i].id == other && users[i].username != ""
             && !HeldByOther(users, other, users[i].username);
    assert after[i] == users[i];
    assert users[i].username != name by {
      assert users[i].id != id;
    }
    forall j | 0 <= j < |after| && after[j].id != other
      ensures after[j].username != users[i].username
    {
      if users[j].id != id {
        assert after[j] == users[j];
      }
    }
  }

  /** A user whose non-empty username no other user holds. */
  predicate OwnsName(users: seq<UserRow>, id: string) {
    exists i :: 0 <= i < |users| && users[i].id == id && users[i].username != ""
      && !HeldByOther(users, id, users[i].username)
  }

  lemma RenameOwns(users: seq<UserRow>, id: string, name: string)
    requires !HeldByOther(users, id, name) && name != "" && UserExists(users, id)
    ensures OwnsName(SetUsername(users, id, name), id)
  {
    var after := SetUsername(users, id, name);
    var i :| 0 <= i < |users| && users[i].id == id;
    assert after[i].username == name;
    forall j | 0 <= j < |after| && after[j].id != id ensures after[j].username != name {
      assert users[j] == after[j];
    }
  }

  // ---------------------------------------------------------------------
  // Backfill (backend/app.py:139-158)

  /** `SELECT id FROM users WHERE username IS NULL OR username = ''`. */
  function PendingIds(users: seq<UserRow>): (r: seq<string>)
    ensures forall id :: id in r <==> exists i :: 0 <= i < |users| && users[i].id == id && users[i].username == ""
  {
    if users == [] then []
    else
      var rest := PendingIds(users[1..]);
      assert forall i :: 1 <= i < |users| ==> users[i] == users[1..][i - 1];
      (if users[0].username == "" then [users[0].id] else []) + rest
  }

  /** One pass of the backfill loop body for the row with `id`. */
  function BackfillOne(users: seq<UserRow>, id: string): (r: seq<UserRow>)
    ensures |r| == |users|
  {
    match FindUser(users, id)
    case None => users
    case Some(u) =>
      var base := BaseName(u);
      SetUsername(users, id, Candidate(base, FirstFree(users, id, base, 0)))
  }

  /** The backfill loop over the pending ids, in order. */
  function BackfillAll(users: seq<UserRow>, pending: seq<string>): (r: seq<UserRow>)
    ensures |r| == |users|
    decreases |pending|
  {
    if pending == [] then users else BackfillAll(BackfillOne(users, pending[0]), pending[1..])
  }

  /** One pass of the loop body changes only the username of the row with
      `id`. */
  lemma BackfillOneFrame(users: seq<UserRow>, id: string)
    ensures SameButUsernames(users, BackfillOne(users, id))
    ensures forall i :: 0 <= i < |users| && users[i].id != id ==> BackfillOne(users, id)[i] == users[i]
    ensures forall i :: 0 <= i < |users| && users[i].id == id ==> BackfillOne(users, id)[i].username != ""
  {
  }

  /** One pass gives `id` a name no other user holds and takes no
      exclusive name away from anybody else. */
  lemma BackfillOneOwns(users: seq<UserRow>, id: string)
    requires UserExists(users, id)
    ensures OwnsName(BackfillOne(users, id), id)
    ensures forall other :: other != id && OwnsName(users, other) ==> OwnsName(BackfillOne(users, id), other)
  {
    var u := FindUser(users, id).value;
    var base := BaseName(u);
    var name := Candidate(base, FirstFree(users, id, base, 0));
    RenameOwns(users, id, name);
    forall other | other != id && OwnsName(users, other)
      ensures OwnsName(BackfillOne(users, id), other)
    {
      RenameKeepsExclusive(users, id, name, other);
    }
  }

  lemma {:induction false} BackfillAllFrame(users: seq<UserRow>, pending: seq<string>)
    ensures SameButUsernames(users, BackfillAll(users, pending))
    decreases |pending|
  {
    if pending != [] {
      var next := BackfillOne(users, pending[0]);
      BackfillOneFrame(users, pending[0]);
      BackfillAllFrame(next, pending[1..]);
      SameButUsernamesTrans(users, next, BackfillAll(next, pending[1..]));
    }
  }

  /** When every user without a name is pending, nobody is left without one. */
  lemma {:induction false} BackfillAllNonEmpty(users: seq<UserRow>, pending: seq<string>)
    requires forall i :: 0 <= i < |users| && users[i].username == "" ==> users[i].id in pending
    ensures forall i :: 0 <= i < |users| ==> BackfillAll(users, pending)[i].username != ""
    decreases |pending|
  {
    if pending != [] {
      var next := BackfillOne(users, pending[0]);
      BackfillOneFrame(users, pending[0]);
      forall i | 0 <= i < |next| && next[i].username == "" ensures next[i].id in pending[1..] {
        assert users[i].id != pending[0];
        assert next[i] == users[i];
        assert users[i].id in pending;
      }
      BackfillAllNonEmpty(next, pending[1..]);
    }
  }

  /** Every pending user, and every user that already held a name alone,
      ends up holding a name alone. */
  lemma {:induction false} BackfillAllOwns(users: seq<UserRow>, pending: seq<string>)
    requires forall id :: id in pending ==> UserExists(users, id)
    ensures forall id :: (id in pending || OwnsName(users, id)) ==> OwnsName(BackfillAll(users, pending), id)
    decreases |pending|
  {
    if pending != [] {
      var next := BackfillOne(users, pending[0]);
      BackfillOneFrame(users, pending[0]);
      BackfillOneOwns(users, pending[0]);
      forall id | id in pending[1..] ensures UserExists(next, id) {
        assert id in pending;
        var i :| 0 <= i < |users| && users[i].id == id;
        assert next[i].id == id;
      }
      BackfillAllOwns(next, pending[1..]);
      forall id | id in pending || OwnsName(users, id)
        ensures OwnsName(BackfillAll(users, pending), id)
      {
        if id != pending[0] && id !in pending[1..] {
          assert OwnsName(next, id);
        }
      }
    }
  }

  /** The backfill as the server runs it, over the ids its query returns:
      only usernames change, nobody is left without a username, and every
      user that had none now holds a name no other user holds. */
  lemma BackfillUsernamesSpec(users: seq<UserRow>)
    ensures SameButUsernames(users, BackfillAll(users, PendingIds(users)))
    ensures forall i :: 0 <= i < |users| ==> BackfillAll(users, PendingIds(users))[i].username != ""
    ensures forall id :: id in PendingIds(users) ==> OwnsName(BackfillAll(users, PendingIds(users)), id)
  {
    BackfillAllFrame(users, PendingIds(users));
    BackfillAllNonEmpty(users, PendingIds(users));
    BackfillAllOwns(users, PendingIds(users));
  }

  // ---------------------------------------------------------------------
  // Ordering of ids (`ORDER BY id`, binary collation)

  /** Code-point lexicographic order, which for UTF-8 text agrees with the
      byte order the database compares by. */
  predicate LexLess(a: string, b: string) {
    if a == [] then b != []
    else if b == [] then false
    else if a[0] != b[0] then a[0] < b[0]
    else LexLess(a[1..], b[1..])
  }

  predicate LexLeq(a: string, b: string) {
    a == b || LexLess(a, b)
  }

  lemma {:induction false} LexLessIrreflexive(a: string)
    ensures !LexLess(a, a)
  {
    if a != [] {
      LexLessIrreflexive(a[1..]);
    }
  }

  lemma {:induction false} LexLessTransitive(a: string, b: string, c: string)
    requires LexLess(a, b) && LexLess(b, c)
    ensures LexLess(a, c)
  {
    if a != [] && b != [] && c != [] && a[0] == b[0] && b[0] == c[0] {
      LexLessTransitive(a[1..], b[1..], c[1..]);
    }
  }

  lemma {:induction false} LexLessTotal(a: string, b: string)
    ensures a == b || LexLess(a, b) || LexLess(b, a)
  {
    if a != [] && b != [] && a[0] == b[0] {
      LexLessTotal(a[1..], b[1..]);
      assert a == [a[0]] + a[1..] && b == [b[0]] + b[1..];
    }
  }

  lemma LexLeqTransitive(a: string, b: string, c: string)
    requires LexLeq(a, b) && LexLeq(b, c)
    ensures LexLeq(a, c)
  {
    if a != b && b != c {
      LexLessTransitive(a, b, c);
    }
  }

  lemma LexLeqAntisymmetric(a: string, b: string)
    requires LexLeq(a, b) && LexLeq(b, a)
    ensures a == b
  {
    if a != b {
      LexLessTransitive(a, b, a);
      LexLessIrreflexive(a);
    }
  }

  predicate SortedIds(s: seq<string>) {
    forall i, j :: 0 <= i < j < |s| ==> LexLeq(s[i], s[j])
  }

  function Insert(x: string, s: seq<string>): (r: seq<string>)
    ensures multiset(r) == multiset(s) + multiset{x}
    ensures |r| == |s| + 1
  {
    if s == [] || LexLeq(x, s[0]) then [x] + s
    else
      assert s == [s[0]] + s[1..];
      [s[0]] + Insert(x, s[1..])
  }

  lemma {:induction false} InsertSorted(x: string, s: seq<string>)
    requires SortedIds(s)
    ensures SortedIds(Insert(x, s))
  {
    var r := Insert(x, s);
    if s == [] {
    } else if LexLeq(x, s[0]) {
      forall i, j | 0 <= i < j < |r| ensures LexLeq(r[i], r[j]) {
        if i == 0 && j > 1 {
          LexLeqTransitive(x, s[0], s[j - 1]);
        }
      }
    } else {
      LexLessTotal(x, s[0]);
      InsertSorted(x, s[1..]);
      var t := Insert(x, s[1..]);
      assert r == [s[0]] + t;
      forall i, j | 0 <= i < j < |r| ensures LexLeq(r[i], r[j]) {
        if i == 0 {
          assert r[j] == t[j - 1];
          assert r[j] in multiset(t);
          if r[j] != x {
            assert r[j] in multiset(s[1..]);
            var k :| 0 <= k < |s[1..]| && s[1..][k] == r[j];
            assert s[k + 1] == r[j];
          }
        } else {
          assert r[i] == t[i - 1] && r[j] == t[j - 1];
        }
      }
    }
  }

  /** The ids sorted ascending: a permutation of the input in order. */
  function SortIds(s: seq<string>): (r: seq<string>)
    ensures multiset(r) == multiset(s)
    ensures SortedIds(r)
  {
    if s == [] then []
    else
      InsertSorted(s[0], SortIds(s[1..]));
      assert s == [s[0]] + s[1..];
      Insert(s[0], SortIds(s[1..]))
  }

  lemma {:induction false} NoDupCount(a: seq<string>, x: string)
    requires NoDup(a)
    ensures multiset(a)[x] <= 1
  {
    if a != [] {
      forall k | 0 <= k < |a[1..]| ensures a[1..][k] != a[0] {
        assert a[1..][k] == a[k + 1];
      }
      NoDupCount(a[1..], x);
      assert a == [a[0]] + a[1..];
    }
  }

  lemma TwoIndicesCount(b: seq<string>, i: int, j: int)
    requires 0 <= i < j < |b|
    ensures b[i] == b[j] ==> multiset(b)[b[i]] >= 2
  {
    assert b == b[..i] + [b[i]] + b[i + 1..j] + [b[j]] + b[j + 1..];
  }

  lemma NoDupOfPermutation(a: seq<string>, b: seq<string>)
    requires multiset(a) == multiset(b) && NoDup(a)
    ensures NoDup(b)
  {
    forall i, j | 0 <= i < j < |b| ensures b[i] != b[j] {
      NoDupCount(a, b[i]);
      TwoIndicesCount(b, i, j);
    }
  }

  // ---------------------------------------------------------------------
  // Duplicate resolution (backend/app.py:164-196)

  /** A non-empty username held by more than one row (the `GROUP BY
      username HAVING COUNT(*) > 1` query). */
  predicate Shared(users: seq<UserRow>, name: string) {
    && name != ""
    && exists i, j :: 0 <= i < |users| && 0 <= j < |users| && i != j
         && users[i].username == name && users[j].username == name
  }

  function IsShared(users: seq<UserRow>): string -> bool {
    (n: string) => Shared(users, n)
  }

  function Names(users: seq<UserRow>): (r: seq<string>)
    ensures |r| == |users| && forall i :: 0 <= i < |users| ==> r[i] == users[i].username
  {
    seq(|users|, i requires 0 <= i < |users| => users[i].username)
  }

  /** The rows of the duplicates query: each shared name once. */
  function DupNames(users: seq<UserRow>): (r: seq<string>)
    ensures NoDup(r)
    ensures forall n :: n in r <==> Shared(users, n)
  {
    var names := Names(users);
    assert forall n :: Shared(users, n) ==> n in names by {
      forall n | Shared(users, n) ensures n in names {
        var i, j :| 0 <= i < |users| && 0 <= j < |users| && i != j
                    && users[i].username == n && users[j].username == n;
        assert names[i] == n;
      }
    }
    Unique(Filter(names, IsShared(users)))
  }

  /** The ids of the rows holding `name`, in table order. */
  function HolderIdsInOrder(users: seq<UserRow>, name: string): (r: seq<string>)
    ensures forall id :: id in r <==> exists i :: 0 <= i < |users| && users[i].id == id && users[i].username == name
  {
    if users == [] then []
    else
      var rest := HolderIdsInOrder(users[1..], name);
      assert forall i :: 1 <= i < |users| ==> users[i] == users[1..][i - 1];
      (if users[0].username == name then [users[0].id] else []) + rest
  }

  lemma {:induction false} HolderIdsNoDup(users: seq<UserRow>, name: string)
    requires UserIdsDistinct(users)
    ensures NoDup(HolderIdsInOrder(users, name))
  {
    if users != [] {
      var tl := users[1..];
      assert forall i :: 0 <= i < |tl| ==> tl[i] == users[i + 1];
      HolderIdsNoDup(tl, name);
      var rest := HolderIdsInOrder(tl, name);
      if users[0].username == name {
        forall k | 0 <= k < |rest| ensures rest[k] != users[0].id {
          assert rest[k] in rest;
          var i :| 0 <= i < |tl| && tl[i].id == rest[k] && tl[i].username == name;
          assert users[i + 1].id == rest[k];
        }
        var r := [users[0].id] + rest;
        forall i, j | 0 <= i < j < |r| ensures r[i] != r[j] {
          if i > 0 {
            assert r[i] == rest[i - 1] && r[j] == rest[j - 1];
          } else {
            assert r[j] == rest[j - 1];
          }
        }
      }
    }
  }

  /** `SELECT id FROM users WHERE username = :name ORDER BY id`. */
  function Holders(users: seq<UserRow>, name: string): (r: seq<string>)
    ensures forall id :: id in r <==> exists i :: 0 <= i < |users| && users[i].id == id && users[i].username == name
    ensures SortedIds(r)
    ensures UserIdsDistinct(users) ==> NoDup(r)
  {
    var s := HolderIdsInOrder(users, name);
    var r := SortIds(s);
    assert forall id :: id in r <==> id in s by {
      forall id ensures id in r <==> id in s {
        assert id in r <==> id in multiset(r);
        assert id in s <==> id in multiset(s);
      }
    }
    assert UserIdsDistinct(users) ==> NoDup(r) by {
      if UserIdsDistinct(users) {
        HolderIdsNoDup(users, name);
        NoDupOfPermutation(s, r);
      }
    }
    r
  }

  /** The inner loop for one duplicated `name`: the row at position `idx`
      (counting from 0 in `ORDER BY id` order) tries `name+idx`,
      `name+(idx+1)`, ... and takes the first one free. */
  function RenameRest(users: seq<UserRow>, name: string, rest: seq<string>, idx: nat): (r: seq<UserRow>)
    requires idx >= 1
    ensures |r| == |users|
    decreases |rest|
  {
    if rest == [] then users
    else
      var k := FirstFree(users, rest[0], name, idx);
      RenameRest(SetUsername(users, rest[0], Candidate(name, k)), name, rest[1..], idx + 1)
  }

  /** Resolution of one duplicated name: the first holder in id order keeps
      it and the others are renamed. */
  function DedupOne(users: seq<UserRow>, name: string): (r: seq<UserRow>)
    ensures |r| == |users|
  {
    var hs := Holders(users, name);
    if |hs| <= 1 then users else RenameRest(users, name, hs[1..], 1)
  }

  /** The outer loop over the duplicated names. */
  function DedupAll(users: seq<UserRow>, dups: seq<string>): (r: seq<UserRow>)
    ensures |r| == |users|
    decreases |dups|
  {
    if dups == [] then users else DedupAll(DedupOne(users, dups[0]), dups[1..])
  }

  /** Renaming a row to a name no other row holds creates no new shared
      name. */
  lemma RenameNoNewShared(users: seq<UserRow>, id: string, name: string)
    requires UserIdsDistinct(users) && !HeldByOther(users, id, name)
    ensures forall n :: Shared(SetUsername(users, id, name), n) ==> Shared(users, n)
  {
    var after := SetUsername(users, id, name);
    forall n | Shared(after, n) ensures Shared(users, n) {
      var i, j :| 0 <= i < |after| && 0 <= j < |after| && i != j
                  && after[i].username == n && after[j].username == n;
      assert users[i].id != id by {
        assert i < j ==> users[i].id != users[j].id;
        assert j < i ==> users[j].id != users[i].id;
      }
      assert users[j].id != id by {
        assert i < j ==> users[i].id != users[j].id;
        assert j < i ==> users[j].id != users[i].id;
      }
      assert users[i] == after[i] && users[j] == after[j];
    }
  }

  lemma {:induction false} RenameRestFrame(users: seq<UserRow>, name: string, rest: seq<string>, idx: nat)
    requires idx >= 1
    ensures SameButUsernames(users, RenameRest(users, name, rest, idx))
    ensures forall i :: 0 <= i < |users| && users[i].id !in rest ==> RenameRest(users, name, rest, idx)[i] == users[i]
    decreases |rest|
  {
    if rest != [] {
      var next := SetUsername(users, rest[0], Candidate(name, FirstFree(users, rest[0], name, idx)));
      var fin := RenameRest(next, name, rest[1..], idx + 1);
      assert RenameRest(users, name, rest, idx) == fin;
      RenameRestFrame(next, name, rest[1..], idx + 1);
      assert SameButUsernames(users, next);
      SameButUsernamesTrans(users, next, fin);
      forall i | 0 <= i < |users| && users[i].id !in rest ensures fin[i] == users[i] {
        assert users[i].id != rest[0];
        assert users[i].id !in rest[1..] by {
          assert forall x :: x in rest[1..] ==> x in rest;
        }
        assert next[i] == users[i];
      }
    }
  }

  lemma {:induction false} RenameRestShared(users: seq<UserRow>, name: string, rest: seq<string>, idx: nat)
    requires idx >= 1 && UserIdsDistinct(users)
    ensures forall n :: Shared(RenameRest(users, name, rest, idx), n) ==> Shared(users, n)
    decreases |rest|
  {
    if rest != [] {
      var c := Candidate(name, FirstFree(users, rest[0], name, idx));
      var next := SetUsername(users, rest[0], c);
      RenameNoNewShared(users, rest[0], c);
      assert UserIdsDistinct(next) by {
        assert forall i :: 0 <= i < |users| ==> next[i].id == users[i].id;
      }
      RenameRestShared(next, name, rest[1..], idx + 1);
    }
  }

  /** After the inner loop, a row holds `name` only if it held it before
      and was not among the renamed rows. */
  lemma {:induction false} RenameRestName(users: seq<UserRow>, name: string, rest: seq<string>, idx: nat)
    requires idx >= 1
    ensures forall i :: 0 <= i < |users| && RenameRest(users, name, rest, idx)[i].username == name ==>
      users[i].username == name && users[i].id !in rest
    decreases |rest|
  {
    if rest != [] {
      var c := Candidate(name, FirstFree(users, rest[0], name, idx));
      var next := SetUsername(users, rest[0], c);
      assert c != name by {
        assert |c| > |name|;
      }
      RenameRestName(next, name, rest[1..], idx + 1);
      var after := RenameRest(next, name, rest[1..], idx + 1);
      forall i | 0 <= i < |users| && after[i].username == name
        ensures users[i].username == name && users[i].id !in rest
      {
        assert next[i].username == name && next[i].id !in rest[1..];
        assert users[i].id != rest[0];
        assert next[i] == users[i];
      }
    }
  }

  lemma DedupOneFrame(users: seq<UserRow>, name: string)
    ensures SameButUsernames(users, DedupOne(users, name))
  {
    var hs := Holders(users, name);
    if |hs| > 1 {
      RenameRestFrame(users, name, hs[1..], 1);
    }
  }

  /** Resolving one duplicated name creates no new shared name, and
      afterwards that name is not shared. */
  lemma DedupOneShared(users: seq<UserRow>, name: string)
    requires UserIdsDistinct(users)
    ensures forall n :: Shared(DedupOne(users, name), n) ==> Shared(users, n)
    ensures !Shared(DedupOne(users, name), name)
  {
    var hs := Holders(users, name);
    var after := DedupOne(users, name);
    DedupOneFrame(users, name);
    if |hs| > 1 {
      RenameRestShared(users, name, hs[1..], 1);
      RenameRestName(users, name, hs[1..], 1);
      forall i | 0 <= i < |after| && after[i].username == name ensures |hs| > 0 && users[i].id == hs[0] {
        assert users[i].id in hs;
      }
    } else {
      forall i | 0 <= i < |after| && after[i].username == name ensures |hs| > 0 && users[i].id == hs[0] {
        assert users[i].id in hs;
      }
    }
    forall i, j | 0 <= i < j < |after| && after[i].username == name ensures after[j].username != name {
      assert users[i].id != users[j].id;
    }
  }

  /** The holder with the lowest id keeps its row, and so its name. */
  lemma DedupOneKeepsLowest(users: seq<UserRow>, name: string, i: int)
    requires UserIdsDistinct(users)
    requires 0 <= i < |users| && users[i].username == name
    requires forall j :: 0 <= j < |users| && users[j].username == name ==> LexLeq(users[i].id, users[j].id)
    ensures DedupOne(users, name)[i] == users[i]
  {
    var hs := Holders(users, name);
    if |hs| > 1 {
      RenameRestFrame(users, name, hs[1..], 1);
      assert hs[0] in hs;
      var j0 :| 0 <= j0 < |users| && users[j0].id == hs[0] && users[j0].username == name;
      assert users[i].id in hs;
      var m :| 0 <= m < |hs| && hs[m] == users[i].id;
      assert LexLeq(hs[0], hs[m]);
      LexLeqAntisymmetric(hs[0], users[i].id);
      assert users[i].id !in hs[1..];
    }
  }

  lemma {:induction false} RenameRestNonEmpty(users: seq<UserRow>, name: string, rest: seq<string>, idx: nat)
    requires idx >= 1
    requires forall i :: 0 <= i < |users| ==> users[i].username != ""
    ensures forall i :: 0 <= i < |users| ==> RenameRest(users, name, rest, idx)[i].username != ""
    decreases |rest|
  {
    if rest != [] {
      var c := Candidate(name, FirstFree(users, rest[0], name, idx));
      RenameRestNonEmpty(SetUsername(users, rest[0], c), name, rest[1..], idx + 1);
    }
  }

  /** Renaming never empties a username. */
  lemma {:induction false} DedupAllNonEmpty(users: seq<UserRow>, dups: seq<string>)
    requires forall i :: 0 <= i < |users| ==> users[i].username != ""
    ensures forall i :: 0 <= i < |users| ==> DedupAll(users, dups)[i].username != ""
    decreases |dups|
  {
    if dups != [] {
      var hs := Holders(users, dups[0]);
      if |hs| > 1 {
        RenameRestNonEmpty(users, dups[0], hs[1..], 1);
      }
      DedupAllNonEmpty(DedupOne(users, dups[0]), dups[1..]);
    }
  }

  /** When the outer loop runs over every name shared at the start, no
      username is shared afterwards and only usernames change. */
  lemma {:induction false} DedupAllEffect(users: seq<UserRow>, dups: seq<string>)
    requires UserIdsDistinct(users)
    requires forall n :: Shared(users, n) ==> n in dups
    ensures SameButUsernames(users, DedupAll(users, dups))
    ensures forall n :: !Shared(DedupAll(users, dups), n)
    decreases |dups|
  {
    if dups != [] {
      var next := DedupOne(users, dups[0]);
      DedupOneFrame(users, dups[0]);
      DedupOneShared(users, dups[0]);
      assert UserIdsDistinct(next) by {
        assert forall i :: 0 <= i < |users| ==> next[i].id == users[i].id;
      }
      forall n | Shared(next, n) ensures n in dups[1..] {
        assert Shared(users, n);
        assert n != dups[0];
      }
      DedupAllEffect(next, dups[1..]);
      SameButUsernamesTrans(users, next, DedupAll(next, dups[1..]));
    }
  }
}
