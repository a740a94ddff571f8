/**
 * The table logic of the dashboard component (src/components/Content.js):
 * row selection, the select-all flag, the column search, pagination, the
 * changed-cell diff between two polls, the status counters and the
 * post-delete filter. Users are the rows `/api/users` returns.
 */
module Table {
  import opened Wrappers
  import opened Seqs
  import opened JsStrings

  /** A cell value: the API delivers strings and integers. */
  datatype Value = Str(s: string) | Num(n: int)

  /** A row: its `index` and its other columns by name. */
  datatype User = User(index: int, fields: map<string, Value>)

  /** `value.toString()`. */
  function ValueText(v: Value): string {
    match v
    case Str(s) => s
    case Num(n) => IntToString(n)
  }

  /** `users.map(user => user.index)` as a set. */
  function Indices(users: seq<User>): (r: set<int>)
    ensures forall i :: i in r <==> exists u :: u in users && u.index == i
    decreases |users|
  {
    if users == [] then {}
    else
      var init := users[..|users| - 1];
      assert users == init + [users[|users| - 1]];
      Indices(init) + {users[|users| - 1].index}
  }

  // ---------------------------------------------------------------- Array.prototype.filter

  /** `users.filter(keep)`. */
  function Filter(users: seq<User>, keep: User -> bool): (r: seq<User>)
    ensures |r| <= |users|
    decreases |users|
  {
    if users == [] then []
    else Filter(users[..|users| - 1], keep) + (if keep(users[|users| - 1]) then [users[|users| - 1]] else [])
  }

  /** A user survives the filter exactly when it was there and is kept. */
  lemma {:induction false} FilterMembers(users: seq<User>, keep: User -> bool, u: User)
    ensures u in Filter(users, keep) <==> u in users && keep(u)
    decreases |users|
  {
    if users != [] {
      var init := users[..|users| - 1];
      FilterMembers(init, keep, u);
      assert users == init + [users[|users| - 1]];
    }
  }

  /** Filtering keeps the original order: it distributes over concatenation. */
  lemma {:induction false} FilterAppend(a: seq<User>, b: seq<User>, keep: User -> bool)
    ensures Filter(a + b, keep) == Filter(a, keep) + Filter(b, keep)
    decreases |b|
  {
    if b == [] {
      assert a + b == a;
    } else {
      var b' := b[..|b| - 1];
      assert (a + b)[..|a + b| - 1] == a + b';
      assert (a + b)[|a + b| - 1] == b[|b| - 1];
      FilterAppend(a, b', keep);
    }
  }

  /** A filter that keeps everything returns the input unchanged. */
  lemma {:induction false} FilterAll(users: seq<User>, keep: User -> bool)
    requires forall u :: u in users ==> keep(u)
    ensures Filter(users, keep) == users
    decreases |users|
  {
    if users != [] {
      var init, last := users[..|users| - 1], users[|users| - 1];
      forall u | u in init
        ensures keep(u)
      {
        InSnoc(users, u);
      }
      FilterAll(init, keep);
      assert keep(last);
      assert users == init + [last];
    }
  }

  /** Two complementary filters split the input between them. */
  lemma {:induction false} FilterSplit(users: seq<User>, p: User -> bool, q: User -> bool)
    requires forall u :: p(u) <==> !q(u)
    ensures |Filter(users, p)| + |Filter(users, q)| == |users|
    decreases |users|
  {
    if users != [] {
      FilterSplit(users[..|users| - 1], p, q);
    }
  }

  /** A stricter filter keeps no more rows. */
  lemma {:induction false} FilterMono(users: seq<User>, p: User -> bool, q: User -> bool)
    requires forall u :: p(u) ==> q(u)
    ensures |Filter(users, p)| <= |Filter(users, q)|
    decreases |users|
  {
    if users != [] {
      FilterMono(users[..|users| - 1], p, q);
    }
  }

  // ---------------------------------------------------------------- row selection

  /** A plain click: flip whether `i` is selected. */
  function Toggled(rows: set<int>, i: int): (r: set<int>)
    ensures i in r <==> i !in rows
    ensures forall j :: j != i ==> (j in r <==> j in rows)
  {
    if i in rows then rows - {i} else rows + {i}
  }

  /** Toggling the same row twice restores the selection. */
  lemma {:induction false} ToggleTwice(rows: set<int>, i: int)
    ensures Toggled(Toggled(rows, i), i) == rows
  {
  }

  function Min(a: int, b: int): int { if a <= b then a else b }

  function Max(a: int, b: int): int { if a <= b then b else a }

  /**
   * A shift-click with a previous index: add every index from
   * `min(last, index)` to `max(last, index)`, inclusive, removing nothing.
   */
  method AddRange(rows: set<int>, last: int, index: int) returns (r: set<int>)
    ensures forall j :: j in r <==> j in rows || Min(last, index) <= j <= Max(last, index)
  {
    var start, end := Min(last, index), Max(last, index);
    r := rows;
    for i := start to end + 1
      invariant forall j :: j in r <==> j in rows || start <= j < i
    {
      r := r + {i};
    }
  }

  /** The `selectAll` effect: at least one user, and as many selected rows as users. */
  predicate SelectAllFlag(users: seq<User>, rows: set<int>) {
    |users| > 0 && |rows| == |users|
  }

  predicate DistinctIndices(users: seq<User>) {
    forall i, j :: 0 <= i < j < |users| ==> users[i].index != users[j].index
  }

  lemma {:induction false} NotAnIndex(users: seq<User>, x: int)
    requires forall k :: 0 <= k < |users| ==> users[k].index != x
    ensures x !in Indices(users)
  {
    forall u | u in users ensures u.index != x {
      var k :| 0 <= k < |users| && users[k] == u;
    }
  }

  lemma {:induction false} IndicesCount(users: seq<User>)
    requires DistinctIndices(users)
    ensures |Indices(users)| == |users|
    decreases |users|
  {
    if users != [] {
      var init := users[..|users| - 1];
      var last := users[|users| - 1];
      IndicesCount(init);
      assert DistinctIndices(init) by {
        forall i, j | 0 <= i < j < |init| ensures init[i].index != init[j].index {
          assert init[i] == users[i] && init[j] == users[j];
        }
      }
      var before := Indices(init);
      assert Indices(users) == before + {last.index};
      assert forall k :: 0 <= k < |init| ==> init[k].index != last.index by {
        forall k | 0 <= k < |init| ensures init[k].index != last.index {
          assert init[k] == users[k];
        }
      }
      NotAnIndex(init, last.index);
    }
  }

  lemma {:induction false} SubsetSameSize(a: set<int>, b: set<int>)
    requires a <= b && |a| == |b|
    ensures a == b
  {
    var extra := b - a;
    assert b == a + extra;
    assert a * extra == {};
    assert |b| == |a| + |extra|;
  }

  /**
   * The size comparison means what it is meant to: when indices are
   * distinct and only users' indices are selected, the flag is set exactly
   * when every user is selected.
   */
  lemma {:induction false} SelectAllMeansAll(users: seq<User>, rows: set<int>)
    requires DistinctIndices(users)
    requires rows <= Indices(users)
    ensures SelectAllFlag(users, rows) <==> users != [] && rows == Indices(users)
  {
    IndicesCount(users);
    if |rows| == |users| {
      SubsetSameSize(rows, Indices(users));
    }
  }

  // ---------------------------------------------------------------- the column search

  /**
   * One row matches the queries: every non-empty query is a substring of the
   * row's value in that column, both lowercased.
   */
  predicate Matches(u: User, queries: map<string, string>)
    requires Searchable(u, queries)
  {
    forall k :: k in queries && queries[k] != "" ==>
      Includes(ToLower(ValueText(u.fields[k])), ToLower(queries[k]))
  }

  /** Every column with a non-empty query exists on the row (`user[key].toString()` would throw otherwise). */
  predicate Searchable(u: User, queries: map<string, string>) {
    forall k :: k in queries && queries[k] != "" ==> k in u.fields
  }

  predicate AllSearchable(users: seq<User>, queries: map<string, string>) {
    forall u :: u in users ==> Searchable(u, queries)
  }

  function MatchesTotal(queries: map<string, string>): User -> bool {
    (u: User) => Searchable(u, queries) && Matches(u, queries)
  }

  /** `filterUsers`. */
  function FilterUsers(users: seq<User>, queries: map<string, string>): (r: seq<User>)
    requires AllSearchable(users, queries)
  {
    Filter(users, MatchesTotal(queries))
  }

  /** A row is shown exactly when it is a row and every non-empty query occurs in its column, ignoring case. */
  lemma {:induction false} FilterUsersMembers(users: seq<User>, queries: map<string, string>, u: User)
    requires AllSearchable(users, queries)
    ensures u in FilterUsers(users, queries) <==>
            u in users && forall k :: k in queries && queries[k] != "" ==>
              exists i :: OccursAt(ToLower(ValueText(u.fields[k])), ToLower(queries[k]), i)
  {
    FilterMembers(users, MatchesTotal(queries), u);
    if u in users {
      forall k | k in queries && queries[k] != ""
        ensures Includes(ToLower(ValueText(u.fields[k])), ToLower(queries[k])) <==>
                exists i :: OccursAt(ToLower(ValueText(u.fields[k])), ToLower(queries[k]), i)
      {
        IncludesIff(ToLower(ValueText(u.fields[k])), ToLower(queries[k]));
      }
    }
  }

  /** With every query empty, all rows are shown in their original order. */
  lemma {:induction false} FilterUsersAllEmpty(users: seq<User>, queries: map<string, string>)
    requires forall k :: k in queries ==> queries[k] == ""
    ensures AllSearchable(users, queries)
    ensures FilterUsers(users, queries) == users
  {
    FilterAll(users, MatchesTotal(queries));
  }

  /** Filters that agree on every row give the same result. */
  lemma {:induction false} FilterSame(users: seq<User>, p: User -> bool, q: User -> bool)
    requires forall u :: u in users ==> p(u) == q(u)
    ensures Filter(users, p) == Filter(users, q)
    decreases |users|
  {
    if users != [] {
      FilterSame(users[..|users| - 1], p, q);
    }
  }

  /** Searching is case-insensitive: lowercasing every query shows the same rows. */
  lemma {:induction false} FilterUsersIgnoresCase(users: seq<User>, queries: map<string, string>, lowered: map<string, string>)
    requires AllSearchable(users, queries)
    requires lowered.Keys == queries.Keys
    requires forall k :: k in queries ==> lowered[k] == ToLower(queries[k])
    ensures AllSearchable(users, lowered)
    ensures FilterUsers(users, lowered) == FilterUsers(users, queries)
  {
    forall k | k in queries ensures (lowered[k] == "") == (queries[k] == "") {
      assert |lowered[k]| == |queries[k]|;
    }
    forall k | k in queries ensures ToLower(lowered[k]) == ToLower(queries[k]) {
      ToLowerIdempotent(queries[k]);
    }
    FilterSame(users, MatchesTotal(lowered), MatchesTotal(queries));
  }

  // ---------------------------------------------------------------- pagination

  const RowsPerPage: nat := 100

  /** `s.slice(start, end)`: negative positions count from the end, and positions are clamped. */
  function Slice(s: seq<User>, start: int, end: int): (r: seq<User>)
    ensures |r| <= |s|
  {
    var from := if start < 0 then Max(|s| + start, 0) else Min(start, |s|);
    var to := if end < 0 then Max(|s| + end, 0) else Min(end, |s|);
    if from < to then s[from..to] else []
  }

  /** The rows page `page` shows: `slice(page * 100 - 100, page * 100)`. */
  function PageRows(filtered: seq<User>, page: int): seq<User> {
    Slice(filtered, page * RowsPerPage - RowsPerPage, page * RowsPerPage)
  }

  /** `Math.ceil(n / 100)`. */
  function TotalPages(n: nat): (r: nat)
    ensures (r - 1) * RowsPerPage < n <= r * RowsPerPage || (n == 0 && r == 0)
  {
    (n + RowsPerPage - 1) / RowsPerPage
  }

  /** Page `p` (from 1) holds the rows from `(p - 1) * 100` up to `p * 100`, cut at the end of the list. */
  lemma {:induction false} PageRowsWindow(filtered: seq<User>, page: int)
    requires page >= 1
    ensures var lo := Min((page - 1) * RowsPerPage, |filtered|);
            var hi := Min(page * RowsPerPage, |filtered|);
            PageRows(filtered, page) == filtered[lo..hi]
    ensures |PageRows(filtered, page)| <= RowsPerPage
  {
  }

  /** Whatever the page number, even zero or negative, the table shows at most 100 rows, all of them filtered rows. */
  lemma {:induction false} PageRowsBounded(filtered: seq<User>, page: int)
    ensures |PageRows(filtered, page)| <= RowsPerPage
    ensures forall u :: u in PageRows(filtered, page) ==> u in filtered
  {
    var n := |filtered|;
    var start, end := page * RowsPerPage - RowsPerPage, page * RowsPerPage;
    var from := if start < 0 then Max(n + start, 0) else Min(start, n);
    var to := if end < 0 then Max(n + end, 0) else Min(end, n);
    assert to - from <= RowsPerPage;
    if from < to {
      assert PageRows(filtered, page) == filtered[from..to];
      forall u | u in filtered[from..to] ensures u in filtered {
        var k :| 0 <= k < to - from && filtered[from..to][k] == u;
        assert filtered[from + k] == u;
      }
    }
  }

  /** The pages 1..totalPages hold every row exactly once, in order, and each of them is non-empty. */
  lemma {:induction false} PagesCover(filtered: seq<User>, k: nat)
    requires k <= TotalPages(|filtered|)
    ensures Pages(filtered, k) == filtered[..Min(k * RowsPerPage, |filtered|)]
    ensures forall p :: 1 <= p <= k ==> PageRows(filtered, p) != []
  {
    if k > 0 {
      PagesCover(filtered, k - 1);
      PageRowsWindow(filtered, k);
      var lo := Min((k - 1) * RowsPerPage, |filtered|);
      assert filtered[..Min(k * RowsPerPage, |filtered|)] == filtered[..lo] + filtered[lo..Min(k * RowsPerPage, |filtered|)];
    }
  }

  /** Pages 1..k concatenated. */
  function Pages(filtered: seq<User>, k: nat): seq<User> {
    if k == 0 then [] else Pages(filtered, k - 1) + PageRows(filtered, k)
  }

  /** The pages after the last one, and page 0 (`slice(-100, 0)`), are empty. */
  lemma {:induction false} PageBeyondLast(filtered: seq<User>, page: int)
    requires page > TotalPages(|filtered|) || page == 0
    ensures PageRows(filtered, page) == []
  {
    if page > 0 {
      assert (page - 1) * RowsPerPage >= TotalPages(|filtered|) * RowsPerPage;
    }
  }

  /** `goToNextPage`: one page on, but never past `totalPages`. */
  function NextPage(page: int, totalPages: nat): (r: int)
    ensures r <= totalPages
    ensures page < totalPages ==> r == page + 1
    ensures page >= totalPages ==> r == totalPages
  {
    Min(page + 1, totalPages)
  }

  /** `goToPreviousPage`: one page back, but never below 1. */
  function PreviousPage(page: int): (r: int)
    ensures r >= 1
    ensures page > 1 ==> r == page - 1
    ensures page <= 1 ==> r == 1
  {
    Max(page - 1, 1)
  }

  /** From any page 1..totalPages, "next" and "previous" stay within 1..totalPages. */
  lemma {:induction false} NavigationStaysInRange(page: int, totalPages: nat)
    requires 1 <= page <= totalPages
    ensures 1 <= NextPage(page, totalPages) <= totalPages
    ensures 1 <= PreviousPage(page) <= totalPages
  {
  }

  // ---------------------------------------------------------------- changed cells

  /** `previousData.find(p => p.index === user.index)`. */
  function Counterpart(previous: seq<User>, index: int): (r: Option<User>)
    ensures r.Some? ==> r.value in previous && r.value.index == index
    ensures r.None? ==> forall p :: p in previous ==> p.index != index
    decreases |previous|
  {
    if previous == [] then None
    else if previous[0].index == index then Some(previous[0])
    else Counterpart(previous[1..], index)
  }

  /** `prevUser[key] !== user[key]`: a column missing from the earlier row reads as `undefined`. */
  predicate Differs(prev: User, u: User, key: string)
    requires key in u.fields
  {
    key !in prev.fields || prev.fields[key] != u.fields[key]
  }

  /** The cell id `` `${user.index}-${key}` ``. */
  function CellId(index: int, key: string): string {
    IntToString(index) + "-" + key
  }

  /** The cell ids of the columns in `keys` whose value differs from `prev`'s. */
  function CellsOf(prev: User, u: User, keys: set<string>): set<string>
    requires keys <= u.fields.Keys
  {
    set key | key in keys && Differs(prev, u, key) :: CellId(u.index, key)
  }

  /** The cells of `u` that changed since its counterpart in the previous poll. */
  function ChangedCells(previous: seq<User>, u: User): set<string> {
    match Counterpart(previous, u.index)
    case None => {}
    case Some(prev) => CellsOf(prev, u, u.fields.Keys)
  }

  lemma {:induction false} CellsOfAddChanged(prev: User, u: User, done: set<string>, key: string)
    requires done <= u.fields.Keys && key in u.fields && Differs(prev, u, key)
    ensures CellsOf(prev, u, done + {key}) == CellsOf(prev, u, done) + {CellId(u.index, key)}
  {
  }

  lemma {:induction false} CellsOfAddSame(prev: User, u: User, done: set<string>, key: string)
    requires done <= u.fields.Keys && key in u.fields && !Differs(prev, u, key)
    ensures CellsOf(prev, u, done + {key}) == CellsOf(prev, u, done)
  {
  }

  /** Row `u` has index `index`, a column `key`, and a counterpart in `previous` whose `key` differs. */
  predicate ChangedAt(previous: seq<User>, u: User, index: int, key: string) {
    && u.index == index && key in u.fields
    && Counterpart(previous, index).Some? && Differs(Counterpart(previous, index).value, u, key)
  }

  lemma {:induction false} ChangedCellsMembers(previous: seq<User>, u: User, index: int, key: string)
    ensures CellId(index, key) in ChangedCells(previous, u) <==> ChangedAt(previous, u, index, key)
  {
    if CellId(index, key) in ChangedCells(previous, u) {
      var k :| k in u.fields && Differs(Counterpart(previous, u.index).value, u, k) &&
               CellId(u.index, k) == CellId(index, key);
      CellIdInjective(u.index, k, index, key);
    }
  }

  /** The `updatedCells` set: every changed cell of every row that existed before. */
  function UpdatedCells(previous: seq<User>, users: seq<User>): set<string>
    decreases |users|
  {
    if users == [] then {}
    else UpdatedCells(previous, users[..|users| - 1]) + ChangedCells(previous, users[|users| - 1])
  }

  lemma {:induction false} UpdatedCellsStep(previous: seq<User>, users: seq<User>, n: nat)
    requires n < |users|
    ensures UpdatedCells(previous, users[..n + 1]) == UpdatedCells(previous, users[..n]) + ChangedCells(previous, users[n])
  {
    assert users[..n + 1][..n] == users[..n];
  }

  /** The inner loop of the diff in `fetchData`: the changed columns of one row that has a counterpart `prev`. */
  method RowChangedCells(prev: User, user: User) returns (cells: set<string>)
    ensures cells == CellsOf(prev, user, user.fields.Keys)
  {
    cells := {};
    var keys := user.fields.Keys;
    ghost var done: set<string> := {};
    while keys != {}
      invariant keys <= user.fields.Keys && done == user.fields.Keys - keys
      invariant cells == CellsOf(prev, user, done)
      decreases |keys|
    {
      var key :| key in keys;
      if Differs(prev, user, key) {
        CellsOfAddChanged(prev, user, done, key);
        cells := cells + {CellId(user.index, key)};
      } else {
        CellsOfAddSame(prev, user, done, key);
      }
      keys, done := keys - {key}, done + {key};
    }
    assert done == user.fields.Keys;
  }

  /** The diff in `fetchData`: the loop over the new rows, each checked column by column. */
  method ComputeUpdatedCells(previous: seq<User>, newUsers: seq<User>) returns (cells: set<string>)
    ensures cells == UpdatedCells(previous, newUsers)
  {
    cells := {};
    for n := 0 to |newUsers|
      invariant cells == UpdatedCells(previous, newUsers[..n])
    {
      var user := newUsers[n];
      UpdatedCellsStep(previous, newUsers, n);
      var prevUser := Counterpart(previous, user.index);
      if prevUser.Some? {
        var rowCells := RowChangedCells(prevUser.value, user);
        cells := cells + rowCells;
      }
    }
    assert newUsers[..|newUsers|] == newUsers;
  }

  /** The length of the index part of a cell id: an optional sign, then the digits. */
  function IndexPartLength(s: string): nat {
    var off := if |s| > 0 && s[0] == '-' then 1 else 0;
    off + |LeadingDigits(s[off..])|
  }

  lemma {:induction false} IndexPartOf(sign: string, d: string, key: string)
    requires sign == "" || sign == "-"
    requires d != [] && AllDigits(d)
    ensures var s := sign + d + "-" + key;
            IndexPartLength(s) == |sign| + |d| && s[|sign| + |d| + 1..] == key
  {
    var s := sign + d + "-" + key;
    var off := |sign|;
    assert s[off..] == d + ("-" + key);
    assert |s| > 0 && (s[0] == '-' <==> sign == "-") by {
      if sign == "" { assert s[0] == d[0]; }
    }
    assert ("-" + key)[0] == '-';
    LeadingDigitsOfDigits(d, "-" + key);
    assert s[off + |d| + 1..] == key;
  }

  lemma {:induction false} ParseIntBeforeDash(sign: string, d: string, key: string)
    requires sign == "" || sign == "-"
    requires d != [] && AllDigits(d)
    ensures ParseInt(sign + d + "-" + key) == Some(if sign == "" then DigitsValue(d) as int else 0 - DigitsValue(d) as int)
  {
    var rest := "-" + key;
    assert rest[0] == '-';
    if sign == "" {
      ParseIntDigitsThen(sign + d + "-" + key, d, rest);
    } else {
      ParseIntMinusDigitsThen(sign + d + "-" + key, d, rest);
    }
  }

  /** A cell id gives back its row index (by parseInt) and its column (after the index and the dash). */
  lemma {:induction false} CellIdDecodes(index: int, key: string)
    ensures ParseInt(CellId(index, key)) == Some(index)
    ensures IndexPartLength(CellId(index, key)) + 1 <= |CellId(index, key)|
    ensures CellId(index, key)[IndexPartLength(CellId(index, key)) + 1..] == key
  {
    var sign := if index < 0 then "-" else "";
    var d := NatToString(if index < 0 then -index else index);
    assert CellId(index, key) == sign + d + "-" + key;
    IndexPartOf(sign, d, key);
    ParseIntBeforeDash(sign, d, key);
  }

  /** Distinct (index, column) pairs have distinct cell ids. */
  lemma {:induction false} CellIdInjective(i1: int, k1: string, i2: int, k2: string)
    requires CellId(i1, k1) == CellId(i2, k2)
    ensures i1 == i2 && k1 == k2
  {
    CellIdDecodes(i1, k1);
    CellIdDecodes(i2, k2);
  }

  /**
   * A cell is marked exactly when some new row with that index existed in
   * the previous poll and its value for that column differs (or is new).
   */
  lemma {:induction false} UpdatedCellsMembers(previous: seq<User>, users: seq<User>, index: int, key: string)
    ensures CellId(index, key) in UpdatedCells(previous, users) <==>
            exists u :: u in users && ChangedAt(previous, u, index, key)
    decreases |users|
  {
    if users != [] {
      var init, last := users[..|users| - 1], users[|users| - 1];
      UpdatedCellsMembers(previous, init, index, key);
      ChangedCellsMembers(previous, last, index, key);
      if exists u :: u in init && ChangedAt(previous, u, index, key) {
        var u :| u in init && ChangedAt(previous, u, index, key);
        InSnoc(users, u);
      }
      if ChangedAt(previous, last, index, key) {
        InSnoc(users, last);
      }
      if exists u :: u in users && ChangedAt(previous, u, index, key) {
        var u :| u in users && ChangedAt(previous, u, index, key);
        InSnoc(users, u);
      }
    }
  }

  /** Rows that did not exist in the previous poll contribute no marked cell. */
  lemma {:induction false} NewRowsUnmarked(previous: seq<User>, users: seq<User>)
    requires forall u :: u in users ==> Counterpart(previous, u.index).None?
    ensures UpdatedCells(previous, users) == {}
    decreases |users|
  {
    if users != [] {
      NewRowsUnmarked(previous, users[..|users| - 1]);
    }
  }

  /** Polling the same data twice marks no cell, when indices are distinct. */
  lemma {:induction false} UnchangedUnmarked(users: seq<User>, k: nat)
    requires DistinctIndices(users) && k <= |users|
    ensures UpdatedCells(users, users[..k]) == {}
    decreases k
  {
    if k > 0 {
      UnchangedUnmarked(users, k - 1);
      assert users[..k][..k - 1] == users[..k - 1];
      var u := users[k - 1];
      SelfCounterpart(users, k - 1, 0);
      assert ChangedCells(users, u) == {};
    }
  }

  lemma {:induction false} SelfCounterpart(users: seq<User>, i: nat, from: nat)
    requires DistinctIndices(users) && from <= i < |users|
    ensures Counterpart(users[from..], users[i].index) == Some(users[i])
    decreases i - from
  {
    if from < i {
      assert users[from..][1..] == users[from + 1..];
      SelfCounterpart(users, i, from + 1);
    }
  }

  // ---------------------------------------------------------------- counters and delete

  predicate IsOnline(u: User) {
    "status" in u.fields && u.fields["status"] == Str("Online")
  }

  predicate IsOffline(u: User) {
    !IsOnline(u)
  }

  predicate IsBanned(u: User) {
    "status" in u.fields && u.fields["status"] == Str("Account Banned")
  }

  /** `totalOnline + totalOffline == totalUsers` and `totalBanned <= totalOffline`. */
  lemma {:induction false} Counters(users: seq<User>)
    ensures |Filter(users, IsOnline)| + |Filter(users, IsOffline)| == |users|
    ensures |Filter(users, IsBanned)| <= |Filter(users, IsOffline)|
  {
    FilterSplit(users, IsOnline, IsOffline);
    assert Str("Account Banned") != Str("Online");
    FilterMono(users, IsBanned, IsOffline);
  }

  function Unselected(rows: set<int>): User -> bool {
    (u: User) => u.index !in rows
  }

  /** After a delete: the rows whose index was not selected. */
  function RemoveSelected(users: seq<User>, rows: set<int>): seq<User> {
    Filter(users, Unselected(rows))
  }

  /** Exactly the unselected rows remain, in their original order. */
  lemma {:induction false} RemoveSelectedSpec(users: seq<User>, rows: set<int>, more: seq<User>, u: User)
    ensures u in RemoveSelected(users, rows) <==> u in users && u.index !in rows
    ensures RemoveSelected(users + more, rows) == RemoveSelected(users, rows) + RemoveSelected(more, rows)
  {
    FilterMembers(users, Unselected(rows), u);
    FilterAppend(users, more, Unselected(rows));
  }
}
