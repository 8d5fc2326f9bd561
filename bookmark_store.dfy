/**
 * The remote `bookmarks` table as the dashboard's three queries use it
 * (app/dashboard/page.tsx, lines 63-67, 95-99 and 117): a select of one
 * owner's rows ordered by `created_at`, descending; an insert of title, url
 * and owner, for which the server assigns the id and `created_at`; and a
 * delete of the rows matching both an id and an owner.
 *
 * The table is a sequence of rows held by a `Store` object. Every remote call
 * takes the outcome the transport reports, so both the success and the error
 * path can be followed.
 */
module BookmarkStore {
  import opened Wrappers
  import opened BookmarkCard

  /** What the transport reports for a select or a delete. */
  datatype Outcome = Ok | Err

  /** What the transport reports for an insert: on success, the identifier and
      creation timestamp the server assigned to the new row. */
  datatype InsertOutcome = Inserted(id: string, createdAt: string) | Rejected

  // ---------------------------------------------------------------------------
  // Ordering by created_at

  /** `a` sorts at or before `b`, character by character; a proper prefix sorts first. */
  predicate LexLe(a: string, b: string)
    decreases |a|
  {
    a == [] || (b != [] && (a[0] < b[0] || (a[0] == b[0] && LexLe(a[1..], b[1..]))))
  }

  lemma {:induction false} LexReflexive(a: string)
    ensures LexLe(a, a)
    decreases |a|
  {
    if a != [] {
      LexReflexive(a[1..]);
    }
  }

  lemma {:induction false} LexTotal(a: string, b: string)
    ensures LexLe(a, b) || LexLe(b, a)
    decreases |a|
  {
    if a != [] && b != [] && a[0] == b[0] {
      LexTotal(a[1..], b[1..]);
    }
  }

  lemma {:induction false} LexTransitive(a: string, b: string, c: string)
    requires LexLe(a, b) && LexLe(b, c)
    ensures LexLe(a, c)
    decreases |a|
  {
    if a != [] && a[0] == b[0] && b[0] == c[0] {
      LexTransitive(a[1..], b[1..], c[1..]);
    }
  }

  /** `x` was created no later than `y`. */
  predicate NoNewer(x: BookmarkItem, y: BookmarkItem) {
    LexLe(x.createdAt, y.createdAt)
  }

  /** The select's descending order on `created_at`: newest first. */
  predicate NewestFirst(s: seq<BookmarkItem>) {
    forall i, j :: 0 <= i < j < |s| ==> NoNewer(s[j], s[i])
  }

  lemma NewestFirstCons(y: BookmarkItem, s: seq<BookmarkItem>)
    requires NewestFirst(s)
    requires forall e :: e in s ==> NoNewer(e, y)
    ensures NewestFirst([y] + s)
  {
    var r := [y] + s;
    forall i, j | 0 <= i < j < |r|
      ensures NoNewer(r[j], r[i])
    {
      assert r[j] == s[j - 1];
      if i > 0 {
        assert r[i] == s[i - 1];
      }
    }
  }

  /** Every row of a newest-first `t` is no newer than `x` once its head is. */
  lemma HeadBoundsAll(x: BookmarkItem, t: seq<BookmarkItem>)
    requires NewestFirst(t) && (t == [] || NoNewer(t[0], x))
    ensures forall e :: e in t ==> NoNewer(e, x)
  {
    forall e | e in t
      ensures NoNewer(e, x)
    {
      var j :| 0 <= j < |t| && t[j] == e;
      if j > 0 {
        LexTransitive(e.createdAt, t[0].createdAt, x.createdAt);
      }
    }
  }

  // ---------------------------------------------------------------------------
  // The select query

  /** The select's owner filter: the rows owned by `uid`, in table order. */
  function OwnedBy(rows: seq<BookmarkItem>, uid: string): (r: seq<BookmarkItem>)
    ensures |r| <= |rows|
    ensures forall b :: b in r <==> b in rows && b.userId == uid
  {
    if rows == [] then []
    else if rows[0].userId == uid then [rows[0]] + OwnedBy(rows[1..], uid)
    else OwnedBy(rows[1..], uid)
  }

  /** Places `x` in front of the first row it is at least as new as. */
  function InsertByAge(x: BookmarkItem, t: seq<BookmarkItem>): (r: seq<BookmarkItem>)
    ensures multiset(r) == multiset(t) + multiset{x}
  {
    if t == [] || NoNewer(t[0], x) then
      [x] + t
    else
      assert t == [t[0]] + t[1..];
      [t[0]] + InsertByAge(x, t[1..])
  }

  /** Inserting into a newest-first list keeps it newest first. */
  lemma {:induction false} InsertByAgeNewestFirst(x: BookmarkItem, t: seq<BookmarkItem>)
    requires NewestFirst(t)
    ensures NewestFirst(InsertByAge(x, t))
  {
    if t == [] || NoNewer(t[0], x) {
      HeadBoundsAll(x, t);
      NewestFirstCons(x, t);
    } else {
      var r' := InsertByAge(x, t[1..]);
      InsertByAgeNewestFirst(x, t[1..]);
      LexTotal(x.createdAt, t[0].createdAt);
      forall e | e in r'
        ensures NoNewer(e, t[0])
      {
        assert e in multiset(t[1..]) + multiset{x};
        if e != x {
          var j :| 0 <= j < |t[1..]| && t[1..][j] == e;
          assert e == t[j + 1];
        }
      }
      NewestFirstCons(t[0], r');
    }
  }

  /** Sorts newest first; rows with equal timestamps keep their table order. */
  function SortByAge(s: seq<BookmarkItem>): (r: seq<BookmarkItem>)
    ensures NewestFirst(r)
    ensures multiset(r) == multiset(s)
  {
    if s == [] then []
    else
      assert s == [s[0]] + s[1..];
      var rest := SortByAge(s[1..]);
      InsertByAgeNewestFirst(s[0], rest);
      InsertByAge(s[0], rest)
  }

  /** The result of the dashboard's select: the rows owned by `uid`, newest first. */
  function SelectOwned(rows: seq<BookmarkItem>, uid: string): (r: seq<BookmarkItem>)
    ensures NewestFirst(r)
    ensures multiset(r) == multiset(OwnedBy(rows, uid))
    ensures forall b :: b in r <==> b in rows && b.userId == uid
  {
    var r := SortByAge(OwnedBy(rows, uid));
    assert forall b :: b in r <==> b in multiset(OwnedBy(rows, uid));
    r
  }

  // ---------------------------------------------------------------------------
  // Deleting

  /** The local list update after a delete: the list without the rows with that id. */
  function WithoutId(s: seq<BookmarkItem>, id: string): (r: seq<BookmarkItem>)
    ensures |r| <= |s|
    ensures forall b :: b in r <==> b in s && b.id != id
  {
    if s == [] then []
    else if s[0].id != id then [s[0]] + WithoutId(s[1..], id)
    else WithoutId(s[1..], id)
  }

  /** The remote delete: the table without the rows matching both the
      identifier and the owner. */
  function DeleteWhere(rows: seq<BookmarkItem>, id: string, uid: string): (r: seq<BookmarkItem>)
    ensures |r| <= |rows|
    ensures forall b :: b in r <==> b in rows && !(b.id == id && b.userId == uid)
  {
    if rows == [] then []
    else if !(rows[0].id == id && rows[0].userId == uid) then [rows[0]] + DeleteWhere(rows[1..], id, uid)
    else DeleteWhere(rows[1..], id, uid)
  }

  /** Filtering by id works piecewise, so it keeps the remaining rows in their order. */
  lemma {:induction false} WithoutIdAppend(a: seq<BookmarkItem>, b: seq<BookmarkItem>, id: string)
    ensures WithoutId(a + b, id) == WithoutId(a, id) + WithoutId(b, id)
  {
    if a == [] {
      assert a + b == b;
    } else {
      assert (a + b)[0] == a[0] && (a + b)[1..] == a[1..] + b;
      WithoutIdAppend(a[1..], b, id);
    }
  }

  /** The remote delete works piecewise, so it keeps the remaining rows in their order. */
  lemma {:induction false} DeleteWhereAppend(a: seq<BookmarkItem>, b: seq<BookmarkItem>, id: string, uid: string)
    ensures DeleteWhere(a + b, id, uid) == DeleteWhere(a, id, uid) + DeleteWhere(b, id, uid)
  {
    if a == [] {
      assert a + b == b;
    } else {
      assert (a + b)[0] == a[0] && (a + b)[1..] == a[1..] + b;
      DeleteWhereAppend(a[1..], b, id, uid);
    }
  }

  /** Removing the same id again changes nothing. */
  lemma {:induction false} WithoutIdIdempotent(s: seq<BookmarkItem>, id: string)
    ensures WithoutId(WithoutId(s, id), id) == WithoutId(s, id)
  {
    if s != [] {
      WithoutIdIdempotent(s[1..], id);
    }
  }

  /** Deleting the same row again changes nothing. */
  lemma {:induction false} DeleteWhereIdempotent(rows: seq<BookmarkItem>, id: string, uid: string)
    ensures DeleteWhere(DeleteWhere(rows, id, uid), id, uid) == DeleteWhere(rows, id, uid)
  {
    if rows != [] {
      DeleteWhereIdempotent(rows[1..], id, uid);
    }
  }

  /** The delete is scoped to its owner: every other user's rows are untouched,
      so a delete carrying the wrong owner removes nothing of the real owner's. */
  lemma {:induction false} DeleteLeavesOtherOwners(rows: seq<BookmarkItem>, id: string, uid: string, other: string)
    requires other != uid
    ensures OwnedBy(DeleteWhere(rows, id, uid), other) == OwnedBy(rows, other)
  {
    if rows != [] {
      DeleteLeavesOtherOwners(rows[1..], id, uid, other);
    }
  }

  /** Filtering a newest-first list keeps it newest first. */
  lemma {:induction false} WithoutIdNewestFirst(s: seq<BookmarkItem>, id: string)
    requires NewestFirst(s)
    ensures NewestFirst(WithoutId(s, id))
  {
    if s != [] {
      WithoutIdNewestFirst(s[1..], id);
      if s[0].id != id {
        forall e | e in WithoutId(s[1..], id)
          ensures NoNewer(e, s[0])
        {
          var j :| 0 <= j < |s[1..]| && s[1..][j] == e;
          assert e == s[j + 1];
        }
        NewestFirstCons(s[0], WithoutId(s[1..], id));
      }
    }
  }

  /** Dropping an id after inserting a row without it is inserting into the filtered list. */
  lemma {:induction false} WithoutIdInsertKept(x: BookmarkItem, t: seq<BookmarkItem>, id: string)
    requires NewestFirst(t) && x.id != id
    ensures NewestFirst(WithoutId(t, id))
    ensures WithoutId(InsertByAge(x, t), id) == InsertByAge(x, WithoutId(t, id))
  {
    WithoutIdNewestFirst(t, id);
    var w := WithoutId(t, id);
    if t == [] {
    } else if NoNewer(t[0], x) {
      HeadBoundsAll(x, t);
      InsertAtFront(x, w);
      assert InsertByAge(x, t) == [x] + t;
    } else {
      WithoutIdInsertKept(x, t[1..], id);
      assert InsertByAge(x, t) == [t[0]] + InsertByAge(x, t[1..]);
      assert t == [t[0]] + t[1..];
    }
  }

  /** A row at least as new as every row of a newest-first list goes in front. */
  lemma InsertAtFront(x: BookmarkItem, w: seq<BookmarkItem>)
    requires forall e :: e in w ==> NoNewer(e, x)
    ensures InsertByAge(x, w) == [x] + w
  {
    if w != [] {
      assert w[0] in w;
    }
  }

  /** Dropping an id after inserting a row with it is dropping it from the list alone. */
  lemma {:induction false} WithoutIdInsertDropped(x: BookmarkItem, t: seq<BookmarkItem>, id: string)
    requires NewestFirst(t) && x.id == id
    ensures WithoutId(InsertByAge(x, t), id) == WithoutId(t, id)
  {
    if t != [] && !NoNewer(t[0], x) {
      WithoutIdInsertDropped(x, t[1..], id);
      assert InsertByAge(x, t) == [t[0]] + InsertByAge(x, t[1..]);
    }
  }

  /** Filtering by id commutes with the newest-first sort. */
  lemma {:induction false} WithoutIdSort(s: seq<BookmarkItem>, id: string)
    ensures WithoutId(SortByAge(s), id) == SortByAge(WithoutId(s, id))
  {
    if s != [] {
      WithoutIdSort(s[1..], id);
      if s[0].id != id {
        WithoutIdInsertKept(s[0], SortByAge(s[1..]), id);
      } else {
        WithoutIdInsertDropped(s[0], SortByAge(s[1..]), id);
      }
    }
  }

  /** The owner's rows after the scoped delete are the owner's rows without the id. */
  lemma {:induction false} OwnedByDeleteWhere(rows: seq<BookmarkItem>, id: string, uid: string)
    ensures OwnedBy(DeleteWhere(rows, id, uid), uid) == WithoutId(OwnedBy(rows, uid), id)
  {
    if rows != [] {
      OwnedByDeleteWhere(rows[1..], id, uid);
    }
  }

  /** Delete convergence: removing the id from the fetched list locally gives
      exactly what a fresh select returns after the remote delete, so a later
      notification-triggered refetch neither resurrects the row nor changes the list. */
  lemma DeleteConverges(rows: seq<BookmarkItem>, id: string, uid: string)
    ensures WithoutId(SelectOwned(rows, uid), id) == SelectOwned(DeleteWhere(rows, id, uid), uid)
  {
    WithoutIdSort(OwnedBy(rows, uid), id);
    OwnedByDeleteWhere(rows, id, uid);
  }

  // ---------------------------------------------------------------------------
  // Inserting

  /** A row strictly newer than every row of `s` sorts to the front. */
  lemma {:induction false} SortNewestAppended(s: seq<BookmarkItem>, x: BookmarkItem)
    requires forall e :: e in s ==> !NoNewer(x, e)
    ensures SortByAge(s + [x]) == [x] + SortByAge(s)
  {
    if s == [] {
      assert SortByAge([x]) == InsertByAge(x, []);
    } else {
      assert (s + [x])[0] == s[0] && (s + [x])[1..] == s[1..] + [x];
      SortNewestAppended(s[1..], x);
      assert s[0] in s;
      InsertBehindNewer(s[0], x, SortByAge(s[1..]));
    }
  }

  /** Inserting `a` into a list headed by a strictly newer `x` leaves `x` in front. */
  lemma InsertBehindNewer(a: BookmarkItem, x: BookmarkItem, rest: seq<BookmarkItem>)
    requires !NoNewer(x, a)
    ensures InsertByAge(a, [x] + rest) == [x] + InsertByAge(a, rest)
  {
    assert ([x] + rest)[1..] == rest;
  }

  lemma {:induction false} OwnedByAppend(rows: seq<BookmarkItem>, x: BookmarkItem, uid: string)
    ensures OwnedBy(rows + [x], uid) == OwnedBy(rows, uid) + (if x.userId == uid then [x] else [])
  {
    if rows != [] {
      assert (rows + [x])[1..] == rows[1..] + [x];
      OwnedByAppend(rows[1..], x, uid);
    }
  }

  /** A row inserted for `uid` with a timestamp later than every existing one
      heads the next select for `uid`, ahead of the earlier list unchanged;
      a row inserted for another user does not appear in it. So inserting A,
      then B, then C yields [C, B, A]. */
  lemma SelectAfterInsert(rows: seq<BookmarkItem>, x: BookmarkItem, uid: string)
    requires forall e :: e in rows ==> !NoNewer(x, e)
    ensures SelectOwned(rows + [x], uid)
            == if x.userId == uid then [x] + SelectOwned(rows, uid) else SelectOwned(rows, uid)
  {
    OwnedByAppend(rows, x, uid);
    var owned := OwnedBy(rows, uid);
    assert SelectOwned(rows, uid) == SortByAge(owned);
    assert SelectOwned(rows + [x], uid) == SortByAge(OwnedBy(rows + [x], uid));
    if x.userId == uid {
      forall e | e in owned
        ensures !NoNewer(x, e)
      {
        assert e in rows;
      }
      SortNewestAppended(owned, x);
    } else {
      assert owned + [] == owned;
    }
  }

  // ---------------------------------------------------------------------------
  // Identifiers

  predicate UniqueIds(s: seq<BookmarkItem>) {
    forall i, j :: 0 <= i < j < |s| ==> s[i].id != s[j].id
  }

  predicate HasId(s: seq<BookmarkItem>, id: string) {
    exists b :: b in s && b.id == id
  }

  lemma UniqueIdsCons(a: BookmarkItem, s: seq<BookmarkItem>)
    requires UniqueIds(s) && !HasId(s, a.id)
    ensures UniqueIds([a] + s)
  {
    var r := [a] + s;
    forall i, j | 0 <= i < j < |r|
      ensures r[i].id != r[j].id
    {
      assert r[j] == s[j - 1];
      if i > 0 {
        assert r[i] == s[i - 1];
      }
    }
  }

  /** The scoped delete keeps identifiers unique. */
  lemma {:induction false} DeleteWhereUniqueIds(rows: seq<BookmarkItem>, id: string, uid: string)
    requires UniqueIds(rows)
    ensures UniqueIds(DeleteWhere(rows, id, uid))
  {
    if rows != [] {
      DeleteWhereUniqueIds(rows[1..], id, uid);
      if !(rows[0].id == id && rows[0].userId == uid) {
        var rest := DeleteWhere(rows[1..], id, uid);
        forall b | b in rest
          ensures b.id != rows[0].id
        {
          var j :| 0 <= j < |rows[1..]| && rows[1..][j] == b;
          assert rows[j + 1] == b;
        }
        UniqueIdsCons(rows[0], rest);
      }
    }
  }

  /** Inserting a row whose id is new keeps identifiers unique. */
  lemma UniqueIdsAppend(rows: seq<BookmarkItem>, x: BookmarkItem)
    requires UniqueIds(rows) && !HasId(rows, x.id)
    ensures UniqueIds(rows + [x])
  {
    var r := rows + [x];
    forall i, j | 0 <= i < j < |r|
      ensures r[i].id != r[j].id
    {
      assert r[i] == rows[i];
      if j == |rows| {
        assert rows[i] in rows;
      } else {
        assert r[j] == rows[j];
      }
    }
  }

  // ---------------------------------------------------------------------------
  // The table

  /** The remote `bookmarks` table. Identifiers are unique (primary key). */
  class Store {
    var rows: seq<BookmarkItem>

    ghost predicate Valid()
      reads this`rows
    {
      UniqueIds(rows)
    }

    constructor ()
      ensures Valid() && rows == []
    {
      rows := [];
    }

    /** The select of lines 63-67: the owner's rows, newest first, or nothing on error. */
    method Select(uid: string, outcome: Outcome) returns (r: Option<seq<BookmarkItem>>)
      ensures outcome.Err? ==> r.None?
      ensures outcome.Ok? ==> r.Some? && NewestFirst(r.value)
      ensures outcome.Ok? ==> r.Some? && forall b :: b in r.value <==> b in rows && b.userId == uid
      ensures outcome.Ok? ==> r == Some(SelectOwned(rows, uid))
    {
      if outcome.Ok? {
        r := Some(SelectOwned(rows, uid));
      } else {
        r := None;
      }
    }

    /** The insert of lines 95-99: one new row with the server-assigned id and
        timestamp, or an error and no change. The primary key refuses an id
        that is already taken. */
    method Insert(title: string, url: string, uid: string, outcome: InsertOutcome) returns (ok: bool)
      requires Valid()
      modifies this`rows
      ensures Valid()
      ensures ok <==> outcome.Inserted? && !HasId(old(rows), outcome.id)
      ensures ok ==> rows == old(rows) + [BookmarkItem(outcome.id, title, url, uid, outcome.createdAt)]
      ensures !ok ==> rows == old(rows)
    {
      ok := outcome.Inserted? && !HasId(rows, outcome.id);
      if ok {
        var row := BookmarkItem(outcome.id, title, url, uid, outcome.createdAt);
        UniqueIdsAppend(rows, row);
        rows := rows + [row];
      }
    }

    /** The delete of line 117: the rows matching both id and owner go, or an
        error and no change. */
    method Delete(id: string, uid: string, outcome: Outcome) returns (ok: bool)
      requires Valid()
      modifies this`rows
      ensures Valid()
      ensures ok <==> outcome.Ok?
      ensures rows == if ok then DeleteWhere(old(rows), id, uid) else old(rows)
    {
      ok := outcome.Ok?;
      if ok {
        DeleteWhereUniqueIds(rows, id, uid);
        rows := DeleteWhere(rows, id, uid);
      }
    }
  }
}
