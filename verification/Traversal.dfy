/** Keyset traversal in the abstract: rows under a strict order, a matching set
    that may change between pages, and a client that remembers the last row it
    was given. Pagination.dfy shows that gotq's pages are such steps. */
module Traversal {
  import opened Common

  ghost predicate StrictOrder<T(!new)>(lt: (T, T) -> bool) {
    && (forall a :: !lt(a, a))
    && (forall a, b, c :: lt(a, b) && lt(b, c) ==> lt(a, c))
  }

  ghost predicate TotalOn<T(!new)>(lt: (T, T) -> bool, chosen: set<T>) {
    forall a, b :: a in chosen && b in chosen && a != b ==> lt(a, b) || lt(b, a)
  }

  ghost predicate Increasing<T>(lt: (T, T) -> bool, rows: seq<T>) {
    forall i, j :: 0 <= i < j < |rows| ==> lt(rows[i], rows[j])
  }

  /** The listing of a set: exactly its elements, strictly increasing. */
  ghost predicate Lists<T(!new)>(lt: (T, T) -> bool, chosen: set<T>, rows: seq<T>) {
    (forall r :: r in rows <==> r in chosen) && Increasing(lt, rows)
  }

  lemma FirstIsLeast<T(!new)>(lt: (T, T) -> bool, chosen: set<T>, rows: seq<T>, r: T)
    requires Lists(lt, chosen, rows) && r in chosen && rows != []
    ensures rows[0] in chosen && (rows[0] == r || lt(rows[0], r))
  {
    assert rows[0] in rows && r in rows;
    var i :| 0 <= i < |rows| && rows[i] == r;
  }

  lemma FirstRemoved<T(!new)>(lt: (T, T) -> bool, chosen: set<T>, rows: seq<T>)
    requires StrictOrder(lt) && Lists(lt, chosen, rows) && rows != []
    ensures Lists(lt, chosen - {rows[0]}, rows[1..])
  {
    forall r ensures r in rows[1..] <==> r in chosen - {rows[0]} {
      if r in rows[1..] {
        var i :| 0 <= i < |rows[1..]| && rows[1..][i] == r;
        assert rows[i + 1] == r && lt(rows[0], rows[i + 1]);
      }
      if r in chosen && r != rows[0] {
        var i :| 0 <= i < |rows| && rows[i] == r;
        assert rows[1..][i - 1] == r;
      }
    }
  }

  lemma {:induction false} ListingSize<T(!new)>(lt: (T, T) -> bool, chosen: set<T>, rows: seq<T>)
    requires StrictOrder(lt) && Lists(lt, chosen, rows)
    ensures |rows| == |chosen|
  {
    if rows == [] {
      assert chosen == {};
    } else {
      assert rows[0] in chosen;
      FirstRemoved(lt, chosen, rows);
      ListingSize(lt, chosen - {rows[0]}, rows[1..]);
    }
  }

  lemma {:induction false} ListingUnique<T(!new)>(lt: (T, T) -> bool, chosen: set<T>, a: seq<T>, b: seq<T>)
    requires StrictOrder(lt) && Lists(lt, chosen, a) && Lists(lt, chosen, b)
    ensures a == b
  {
    ListingSize(lt, chosen, a);
    ListingSize(lt, chosen, b);
    if a != [] {
      assert a[0] in a && b[0] in b;
      FirstIsLeast(lt, chosen, a, b[0]);
      FirstIsLeast(lt, chosen, b, a[0]);
      FirstRemoved(lt, chosen, a);
      FirstRemoved(lt, chosen, b);
      ListingUnique(lt, chosen - {a[0]}, a[1..], b[1..]);
      assert a == [a[0]] + a[1..] && b == [b[0]] + b[1..];
    }
  }

  lemma {:induction false} LeastExists<T(!new)>(lt: (T, T) -> bool, chosen: set<T>) returns (least: T)
    requires StrictOrder(lt) && TotalOn(lt, chosen) && chosen != {}
    ensures least in chosen && forall r :: r in chosen && r != least ==> lt(least, r)
    decreases |chosen|
  {
    least :| least in chosen;
    var rest := chosen - {least};
    if rest == {} {
      assert chosen == {least};
    } else {
      var other := LeastExists(lt, rest);
      assert lt(least, other) || lt(other, least);
      assert forall r :: r in chosen ==> r == least || r in rest;
      if lt(other, least) {
        least := other;
      }
    }
  }

  lemma {:induction false} ListingExists<T(!new)>(lt: (T, T) -> bool, chosen: set<T>) returns (rows: seq<T>)
    requires StrictOrder(lt) && TotalOn(lt, chosen)
    ensures Lists(lt, chosen, rows)
    decreases |chosen|
  {
    if chosen == {} {
      rows := [];
    } else {
      var least := LeastExists(lt, chosen);
      var rest := ListingExists(lt, chosen - {least});
      rows := [least] + rest;
      forall i, j | 0 <= i < j < |rows| ensures lt(rows[i], rows[j]) {
        if i == 0 {
          assert rest[j - 1] in rest;
        }
      }
    }
  }

  // ---- the protocol ----

  datatype Mark<T> = Start | Behind(row: T) | Finished

  datatype State<T> = State(matching: set<T>, seen: seq<T>, mark: Mark<T>)

  ghost function Ahead<T>(lt: (T, T) -> bool, matching: set<T>, mark: Mark<T>): set<T> {
    if mark.Behind? then set r | r in matching && lt(mark.row, r) else matching
  }

  /** One page: a non-empty prefix of the rows ahead, if any; the mark moves to its
      last row when rows remain behind it, and otherwise the traversal is finished. */
  ghost predicate PageOf<T(!new)>(lt: (T, T) -> bool, s: State<T>, s': State<T>, rows: seq<T>, count: nat) {
    && s.mark != Finished && s'.matching == s.matching
    && Lists(lt, Ahead(lt, s.matching, s.mark), rows)
    && count <= |rows| && (rows != [] ==> count > 0)
    && s'.seen == s.seen + rows[..count]
    && s'.mark == if count == |rows| then Finished else Behind(rows[count - 1])
  }

  ghost predicate Page<T(!new)>(lt: (T, T) -> bool, s: State<T>, s': State<T>) {
    exists rows, count: nat :: PageOf(lt, s, s', rows, count)
  }

  // The matching set may become anything.
  predicate Change<T(==)>(s: State<T>, s': State<T>) {
    s'.seen == s.seen && s'.mark == s.mark
  }

  ghost predicate Run<T(!new)>(lt: (T, T) -> bool, run: seq<State<T>>) {
    && run != [] && run[0].seen == [] && run[0].mark == Start
    && forall i :: 0 <= i < |run| - 1 ==> Page(lt, run[i], run[i + 1]) || Change(run[i], run[i + 1])
  }

  function Last<T>(xs: seq<T>): T
    requires xs != []
  {
    xs[|xs| - 1]
  }

  // Of the rows that stayed, exactly those up to the last one returned were returned.
  ghost predicate Invariant<T>(lt: (T, T) -> bool, s: State<T>, kept: set<T>) {
    && Increasing(lt, s.seen)
    && match s.mark
       case Start => s.seen == []
       case Behind(row) =>
         && s.seen != [] && Last(s.seen) == row
         && forall r :: r in kept ==> (r in s.seen <==> !lt(row, r))
       case Finished => forall r :: r in kept ==> r in s.seen
  }

  lemma IncreasingExtends<T(!new)>(lt: (T, T) -> bool, seen: seq<T>, rows: seq<T>)
    requires StrictOrder(lt) && Increasing(lt, seen) && Increasing(lt, rows)
    requires seen != [] ==> forall r :: r in rows ==> lt(Last(seen), r)
    ensures Increasing(lt, seen + rows)
  {
    forall i, j | 0 <= i < j < |seen + rows| ensures lt((seen + rows)[i], (seen + rows)[j]) {
      if i < |seen| <= j {
        assert rows[j - |seen|] in rows;
      }
    }
  }

  lemma MarkSplits<T(!new)>(lt: (T, T) -> bool, rows: seq<T>, count: nat, r: T)
    requires StrictOrder(lt) && Increasing(lt, rows) && 0 < count <= |rows| && r in rows
    ensures r in rows[..count] <==> !lt(rows[count - 1], r)
  {
    var i :| 0 <= i < |rows| && rows[i] == r;
    if i < count {
      assert rows[..count][i] == r;
      assert i < count - 1 ==> lt(rows[i], rows[count - 1]);
    } else {
      assert lt(rows[count - 1], rows[i]);
      assert forall k :: 0 <= k < count ==> k == count - 1 || lt(rows[k], rows[count - 1]);
      assert forall k :: 0 <= k < count ==> rows[..count][k] != r;
    }
  }

  lemma InvariantKeptByPage<T(!new)>(lt: (T, T) -> bool, s: State<T>, s': State<T>, kept: set<T>)
    requires StrictOrder(lt) && Page(lt, s, s') && Invariant(lt, s, kept) && kept <= s.matching
    ensures Invariant(lt, s', kept)
  {
    var rows, count: nat :| PageOf(lt, s, s', rows, count);
    assert forall r :: r in rows[..count] ==> r in rows;
    IncreasingExtends(lt, s.seen, rows[..count]);
    if count == |rows| {
      assert rows[..count] == rows;
      forall r | r in kept ensures r in s'.seen {
        assert r in s.seen || r in rows;
      }
    } else {
      var mark := rows[count - 1];
      assert Last(s'.seen) == mark && mark in rows;
      forall r | r in kept ensures r in s'.seen <==> !lt(mark, r) {
        if r in rows {
          MarkSplits(lt, rows, count, r);
          assert r !in s.seen;
        } else {
          assert r in s.seen;
          var i :| 0 <= i < |s.seen| && s.seen[i] == r;
          assert lt(s'.seen[i], s'.seen[|s'.seen| - 1]);
        }
      }
    }
  }

  // From any moment at which it holds.
  lemma {:induction false} InvariantKept<T(!new)>(lt: (T, T) -> bool, run: seq<State<T>>, kept: set<T>, m: nat, n: nat)
    requires StrictOrder(lt) && Run(lt, run) && m <= n < |run| && Invariant(lt, run[m], kept)
    requires forall i :: m <= i < n ==> kept <= run[i].matching
    ensures Invariant(lt, run[n], kept)
    decreases n
  {
    if m < n {
      InvariantKept(lt, run, kept, m, n - 1);
      if Page(lt, run[n - 1], run[n]) {
        InvariantKeptByPage(lt, run[n - 1], run[n], kept);
      }
    }
  }

  lemma InvariantHolds<T(!new)>(lt: (T, T) -> bool, run: seq<State<T>>, kept: set<T>, n: nat)
    requires StrictOrder(lt) && Run(lt, run) && n < |run|
    requires forall i :: 0 <= i < n ==> kept <= run[i].matching
    ensures Invariant(lt, run[n], kept)
  {
    InvariantKept(lt, run, kept, 0, n);
  }

  ghost predicate ExactlyOnce<T(!new)>(row: T, seen: seq<T>) {
    exists i :: 0 <= i < |seen| && seen[i] == row && forall j :: 0 <= j < |seen| && seen[j] == row ==> j == i
  }

  // A row the traversal can still come to.
  predicate StillAhead<T>(lt: (T, T) -> bool, s: State<T>, row: T) {
    match s.mark
    case Start => true
    case Behind(last) => lt(last, row)
    case Finished => false
  }

  /** A row that matches from some moment on, at which it lies ahead of the last row
      returned, is returned exactly once. */
  lemma LateRowsReturnedOnce<T(!new)>(lt: (T, T) -> bool, run: seq<State<T>>, m: nat, row: T)
    requires StrictOrder(lt) && Run(lt, run) && m < |run| && Last(run).mark == Finished
    requires StillAhead(lt, run[m], row) && forall i :: m <= i < |run| ==> row in run[i].matching
    ensures ExactlyOnce(row, Last(run).seen)
  {
    InvariantHolds(lt, run, {}, m);
    var before := run[m].seen;
    assert forall i :: 0 <= i < |before| - 1 ==> lt(before[i], before[|before| - 1]);
    InvariantKept(lt, run, {row}, m, |run| - 1);
    hide Run;
    var seen := Last(run).seen;
    assert row in {row};
    var i :| 0 <= i < |seen| && seen[i] == row;
    forall j | 0 <= j < |seen| && seen[j] == row ensures j == i {
      assert !lt(seen[i], seen[j]) && !lt(seen[j], seen[i]);
    }
  }

  lemma PersistentRowsReturnedOnce<T(!new)>(lt: (T, T) -> bool, run: seq<State<T>>, row: T)
    requires StrictOrder(lt) && Run(lt, run) && Last(run).mark == Finished
    requires forall i :: 0 <= i < |run| ==> row in run[i].matching
    ensures ExactlyOnce(row, Last(run).seen)
  {
    LateRowsReturnedOnce(lt, run, 0, row);
  }

  lemma {:induction false} ReturnedRowsMatched<T(!new)>(lt: (T, T) -> bool, run: seq<State<T>>, n: nat, row: T)
    requires Run(lt, run) && n < |run| && row in run[n].seen
    ensures exists i :: 0 <= i < n && row in run[i].matching
  {
    assert n > 0;
    if row in run[n - 1].seen {
      ReturnedRowsMatched(lt, run, n - 1, row);
    } else {
      var rows, count: nat :| PageOf(lt, run[n - 1], run[n], rows, count);
      assert row in rows[..count];
      assert row in rows;
    }
  }

  // ---- a matching set that does not change ----

  ghost predicate Undisturbed<T(!new)>(lt: (T, T) -> bool, matching: set<T>, run: seq<State<T>>) {
    && Run(lt, run)
    && (forall i :: 0 <= i < |run| ==> run[i].matching == matching)
    && (forall i :: 0 <= i < |run| - 1 ==> Page(lt, run[i], run[i + 1]))
  }

  lemma RowsAheadAreTheRest<T(!new)>(lt: (T, T) -> bool, matching: set<T>, all: seq<T>, n: nat, rows: seq<T>)
    requires StrictOrder(lt) && Lists(lt, matching, all) && 0 < n <= |all|
    requires Lists(lt, Ahead(lt, matching, Behind(all[n - 1])), rows)
    ensures rows == all[n..]
  {
    var later := Ahead(lt, matching, Behind(all[n - 1]));
    forall r ensures r in all[n..] <==> r in later {
      if r in all {
        MarkSplits(lt, all, n, r);
        assert all == all[..n] + all[n..];
        if r in all[n..] {
          var i :| 0 <= i < |all[n..]| && all[n..][i] == r;
          assert lt(all[n - 1], all[n + i]);
        }
      }
    }
    ListingUnique(lt, later, rows, all[n..]);
  }

  lemma PageContinuesListing<T(!new)>(lt: (T, T) -> bool, s: State<T>, s': State<T>, all: seq<T>)
    requires StrictOrder(lt) && Page(lt, s, s') && Lists(lt, s.matching, all)
    requires Invariant(lt, s, {}) && |s.seen| <= |all| && s.seen == all[..|s.seen|]
    ensures |s'.seen| <= |all| && s'.seen == all[..|s'.seen|]
    ensures s'.mark.Finished? <==> |s'.seen| == |all|
    ensures s'.mark.Behind? ==> |s'.seen| > |s.seen|
    ensures !s'.mark.Start? && !s.mark.Finished?
  {
    var rows, count: nat :| PageOf(lt, s, s', rows, count);
    var n := |s.seen|;
    if s.mark.Behind? {
      assert s.mark.row == all[n - 1];
      assert Ahead(lt, s.matching, s.mark) == Ahead(lt, s.matching, Behind(all[n - 1]));
      assert Lists(lt, Ahead(lt, s.matching, s.mark), rows);
      RowsAheadAreTheRest(lt, s.matching, all, n, rows);
    } else {
      ListingUnique(lt, s.matching, rows, all);
      assert all[0..] == all;
    }
    assert rows == all[n..];
    assert s'.seen == all[..n] + all[n..][..count] == all[..n + count];
  }

  lemma {:induction false} FullTraversal<T(!new)>(lt: (T, T) -> bool, matching: set<T>, run: seq<State<T>>, all: seq<T>)
    requires StrictOrder(lt) && Undisturbed(lt, matching, run) && Lists(lt, matching, all)
    ensures var s := Last(run); var pages := |run| - 1;
      && |s.seen| <= |all| && s.seen == all[..|s.seen|]
      && (s.mark == Finished ==> s.seen == all)
      && (pages > 0 ==> (s.mark.Behind? <==> |s.seen| < |all|))
      && (s.mark.Behind? ==> pages <= |s.seen|)
      && pages <= Max(1, |all|)
  {
    if |run| > 1 {
      var before := run[..|run| - 1];
      assert Undisturbed(lt, matching, before) by {
        assert forall i :: 0 <= i < |before| ==> before[i] == run[i];
        assert forall i :: 0 <= i < |before| - 1 ==> Page(lt, run[i], run[i + 1]);
      }
      FullTraversal(lt, matching, before, all);
      InvariantHolds(lt, run, {}, |run| - 2);
      assert Last(before) == run[|run| - 2];
      PageContinuesListing(lt, run[|run| - 2], run[|run| - 1], all);
    }
  }

  // ---- the same traversal, told by an attribute of the rows ----

  function Mapped<T, U>(f: T -> U, rows: seq<T>): seq<U> { seq(|rows|, i requires 0 <= i < |rows| => f(rows[i])) }

  ghost function Image<T, U>(f: T -> U, s: State<T>): State<U> {
    State(set r | r in s.matching :: f(r), Mapped(f, s.seen),
          if s.mark.Behind? then Behind(f(s.mark.row)) else if s.mark.Start? then Start else Finished)
  }

  lemma AheadImage<T(!new), U(!new)>(lt: (T, T) -> bool, ltU: (U, U) -> bool, f: T -> U, s: State<T>, rows: seq<T>)
    requires forall a, b :: lt(a, b) == ltU(f(a), f(b))
    requires Lists(lt, Ahead(lt, s.matching, s.mark), rows)
    ensures Lists(ltU, Ahead(ltU, Image(f, s).matching, Image(f, s).mark), Mapped(f, rows))
  {
    var mapped := Mapped(f, rows);
    var ahead := Ahead(ltU, Image(f, s).matching, Image(f, s).mark);
    forall u ensures u in mapped <==> u in ahead {
      if u in mapped {
        var i :| 0 <= i < |rows| && mapped[i] == u;
        assert rows[i] in rows;
      }
      if u in ahead {
        var r :| r in s.matching && f(r) == u;
        assert r in rows;
        var i :| 0 <= i < |rows| && rows[i] == r;
        assert mapped[i] == u;
      }
    }
  }

  lemma PageImage<T(!new), U(!new)>(lt: (T, T) -> bool, ltU: (U, U) -> bool, f: T -> U, s: State<T>, s': State<T>)
    requires forall a, b :: lt(a, b) == ltU(f(a), f(b))
    requires Page(lt, s, s')
    ensures Page(ltU, Image(f, s), Image(f, s'))
  {
    hide Lists, Ahead;
    var rows, count: nat :| PageOf(lt, s, s', rows, count);
    AheadImage(lt, ltU, f, s, rows);
    assert Mapped(f, s.seen + rows[..count]) == Mapped(f, s.seen) + Mapped(f, rows)[..count];
    assert PageOf(ltU, Image(f, s), Image(f, s'), Mapped(f, rows), count);
  }

  /** If the order only looks at an attribute of the rows, the attribute's run is a run too. */
  lemma RunImage<T(!new), U(!new)>(lt: (T, T) -> bool, ltU: (U, U) -> bool, f: T -> U, run: seq<State<T>>)
    requires forall a, b :: lt(a, b) == ltU(f(a), f(b))
    requires Run(lt, run)
    ensures Run(ltU, seq(|run|, i requires 0 <= i < |run| => Image(f, run[i])))
  {
    hide Page;
    forall i | 0 <= i < |run| - 1
      ensures Page(ltU, Image(f, run[i]), Image(f, run[i + 1])) || Change(Image(f, run[i]), Image(f, run[i + 1]))
    {
      if Page(lt, run[i], run[i + 1]) {
        PageImage(lt, ltU, f, run[i], run[i + 1]);
      }
    }
  }
}
