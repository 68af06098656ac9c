/** The `expenses` table behind `DatabaseManager` (database.py), kept in
    memory: the rows in the order SQLite assigned their ids, and the
    `AUTOINCREMENT` counter that SQLite keeps in `sqlite_sequence`. */
module ExpenseDb {
  import opened Wrappers
  import opened Text
  import opened Decimals

  /** One row as `fetch_all` selects it: id, date, category, description, amount. */
  datatype Record = Record(id: nat, date: string, category: string, description: string, amount: Decimal)

  /** `a` comes before `b` under `ORDER BY date DESC, id DESC`: a later date
      text under SQLite's BINARY collation, or the same date and a larger id. */
  predicate ListedBefore(a: Record, b: Record) {
    LexLess(b.date, a.date) || (a.date == b.date && a.id > b.id)
  }

  /** No record is followed by one that should have been listed before it. */
  predicate IsListingOrder(s: seq<Record>) {
    forall i, j :: 0 <= i < j < |s| ==> !ListedBefore(s[j], s[i])
  }

  predicate UniqueIds(s: seq<Record>) {
    forall i, j :: 0 <= i < j < |s| ==> s[i].id != s[j].id
  }

  /** Rows in the order `AUTOINCREMENT` handed out their ids. */
  predicate IdsIncreasing(s: seq<Record>) {
    forall i, j :: 0 <= i < j < |s| ==> s[i].id < s[j].id
  }

  predicate HasId(s: seq<Record>, id: int) {
    exists k :: 0 <= k < |s| && s[k].id == id
  }

  lemma ListedBeforeIrreflexive(a: Record)
    ensures !ListedBefore(a, a)
  {
    LexLessIrreflexive(a.date);
  }

  lemma ListedBeforeTransitive(a: Record, b: Record, c: Record)
    requires ListedBefore(a, b) && ListedBefore(b, c)
    ensures ListedBefore(a, c)
  {
    if LexLess(b.date, a.date) && LexLess(c.date, b.date) {
      LexLessTransitive(c.date, b.date, a.date);
    }
  }

  /** Records with different (date, id) keys are always ordered one way or the other. */
  lemma ListedBeforeConnected(a: Record, b: Record)
    requires a.date != b.date || a.id != b.id
    ensures ListedBefore(a, b) || ListedBefore(b, a)
  {
    if a.date != b.date {
      LexLessTotal(a.date, b.date);
    }
  }

  /** "May be listed no later than" is transitive. */
  lemma NotListedBeforeStep(x: Record, y: Record, z: Record)
    requires !ListedBefore(y, x) && !ListedBefore(z, y)
    ensures !ListedBefore(z, x)
  {
    if ListedBefore(z, x) && (y.date != z.date || y.id != z.id) {
      ListedBeforeConnected(y, z);
      ListedBeforeTransitive(y, z, x);
    }
  }

  lemma MultisetTail(s: seq<Record>)
    requires s != []
    ensures s == [s[0]] + s[1..]
    ensures multiset(s[1..]) == multiset(s) - multiset{s[0]}
  {
    assert s == [s[0]] + s[1..];
  }

  /** A record that may precede the head of a listing may precede all of it. */
  lemma MayPrecedeAll(x: Record, s: seq<Record>)
    requires IsListingOrder(s) && s != [] && !ListedBefore(s[0], x)
    ensures forall j :: 0 <= j < |s| ==> !ListedBefore(s[j], x)
  {
    forall j | 0 < j < |s| ensures !ListedBefore(s[j], x) {
      NotListedBeforeStep(x, s[0], s[j]);
    }
  }

  /** The head of a listing, which must precede `x`, may precede the rest of
      the listing with `x` added. */
  lemma HeadMayPrecedeInsertion(x: Record, s: seq<Record>, t: seq<Record>)
    requires IsListingOrder(s) && s != [] && ListedBefore(s[0], x)
    requires multiset(t) == multiset(s[1..]) + multiset{x}
    ensures forall j :: 0 <= j < |t| ==> !ListedBefore(t[j], s[0])
  {
    forall j | 0 <= j < |t| ensures !ListedBefore(t[j], s[0]) {
      assert t[j] in multiset(t);
      if t[j] == x {
        if ListedBefore(x, s[0]) {
          ListedBeforeTransitive(s[0], x, s[0]);
          ListedBeforeIrreflexive(s[0]);
        }
      } else {
        assert t[j] in multiset(s[1..]);
        var k :| 0 <= k < |s[1..]| && s[1..][k] == t[j];
        assert s[k + 1] == t[j];
      }
    }
  }

  /** A record that may precede every record of a listing heads a listing. */
  lemma ConsListing(y: Record, t: seq<Record>)
    requires IsListingOrder(t)
    requires forall j :: 0 <= j < |t| ==> !ListedBefore(t[j], y)
    ensures IsListingOrder([y] + t)
  {
    var s := [y] + t;
    forall i, j | 0 <= i < j < |s| ensures !ListedBefore(s[j], s[i]) {
      assert s[j] == t[j - 1];
      if i > 0 {
        assert s[i] == t[i - 1];
      }
    }
  }

  /** Places `x` into a listing, ahead of the first record it need not follow. */
  function InsertListed(x: Record, s: seq<Record>): (r: seq<Record>)
    requires IsListingOrder(s)
    ensures IsListingOrder(r)
    ensures multiset(r) == multiset(s) + multiset{x}
  {
    if s == [] then
      [x]
    else if !ListedBefore(s[0], x) then
      MayPrecedeAll(x, s);
      ConsListing(x, s);
      [x] + s
    else
      var t := InsertListed(x, s[1..]);
      MultisetTail(s);
      HeadMayPrecedeInsertion(x, s, t);
      ConsListing(s[0], t);
      [s[0]] + t
  }

  /** `SELECT ... ORDER BY date DESC, id DESC` over the table's rows. */
  function Listing(rows: seq<Record>): (r: seq<Record>)
    ensures IsListingOrder(r)
    ensures multiset(r) == multiset(rows)
  {
    if rows == [] then
      []
    else
      assert rows == [rows[0]] + rows[1..];
      InsertListed(rows[0], Listing(rows[1..]))
  }

  /** Two order-respecting arrangements of the same rows start with the same row. */
  lemma ListingHeadsAgree(a: seq<Record>, b: seq<Record>)
    requires IsListingOrder(a) && IsListingOrder(b)
    requires multiset(a) == multiset(b) && UniqueIds(a) && a != []
    ensures b != [] && a[0] == b[0]
  {
    assert a[0] in multiset(b) && b[0] in multiset(a);
    var k :| 0 <= k < |b| && b[k] == a[0];
    var m :| 0 <= m < |a| && a[m] == b[0];
    if a[0] != b[0] {
      assert k > 0 && m > 0;
      assert !ListedBefore(a[m], a[0]) && !ListedBefore(b[k], b[0]);
      if a[0].date != b[0].date || a[0].id != b[0].id {
        ListedBeforeConnected(a[0], b[0]);
      }
      assert false;
    }
  }

  /** The listing is the only order-respecting arrangement of the rows: since
      ids are unique, `ORDER BY date DESC, id DESC` leaves SQLite no choice. */
  lemma {:induction false} ListingIsUnique(a: seq<Record>, b: seq<Record>)
    requires IsListingOrder(a) && IsListingOrder(b)
    requires multiset(a) == multiset(b) && UniqueIds(a)
    ensures a == b
  {
    if a == [] {
      assert |b| == |multiset(b)| == 0;
    } else {
      ListingHeadsAgree(a, b);
      MultisetTail(a);
      MultisetTail(b);
      ListingIsUnique(a[1..], b[1..]);
    }
  }

  lemma HasIdCons(s: seq<Record>, id: int)
    requires s != []
    ensures HasId(s, id) <==> s[0].id == id || HasId(s[1..], id)
  {
    if HasId(s, id) {
      var k :| 0 <= k < |s| && s[k].id == id;
      if k > 0 {
        assert s[1..][k - 1].id == id;
      }
    }
    if HasId(s[1..], id) {
      var k :| 0 <= k < |s[1..]| && s[1..][k].id == id;
      assert s[k + 1].id == id;
    }
  }

  /** `DELETE FROM expenses WHERE id = ?`: every row with that id goes, the
      others stay, in their order. */
  function RemoveId(s: seq<Record>, id: int): (r: seq<Record>)
    ensures forall x :: x in r <==> x in s && x.id != id
    ensures !HasId(r, id)
    ensures |r| < |s| <==> HasId(s, id)
    ensures |r| <= |s|
  {
    if s == [] then
      []
    else
      var t := RemoveId(s[1..], id);
      HasIdCons(s, id);
      assert s == [s[0]] + s[1..];
      (if s[0].id == id then [] else [s[0]]) + t
  }

  /** Deleting keeps the remaining rows in id order. */
  lemma {:induction false} RemoveIdKeepsIdsIncreasing(s: seq<Record>, id: int)
    requires IdsIncreasing(s)
    ensures IdsIncreasing(RemoveId(s, id))
  {
    if s != [] {
      RemoveIdKeepsIdsIncreasing(s[1..], id);
      var t := RemoveId(s[1..], id);
      forall k | 0 <= k < |t| ensures s[0].id < t[k].id {
        assert t[k] in s[1..];
      }
    }
  }

  /** Deleting an id no row carries changes nothing. */
  lemma {:induction false} RemoveAbsentId(s: seq<Record>, id: int)
    requires !HasId(s, id)
    ensures RemoveId(s, id) == s
  {
    if s != [] {
      forall k | 0 <= k < |s| - 1 ensures s[1..][k].id != id {
        assert s[1..][k] == s[k + 1];
      }
      RemoveAbsentId(s[1..], id);
      assert s == [s[0]] + s[1..];
    }
  }

  /** With unique ids, deleting the id of the row at `k` removes exactly that row. */
  lemma {:induction false} RemoveIdAt(s: seq<Record>, k: nat)
    requires UniqueIds(s) && k < |s|
    ensures RemoveId(s, s[k].id) == s[..k] + s[k + 1..]
  {
    var id := s[k].id;
    if k == 0 {
      forall j | 0 <= j < |s| - 1 ensures s[1..][j].id != id {
        assert s[1..][j] == s[j + 1];
      }
      RemoveAbsentId(s[1..], id);
    } else {
      assert s[0].id != id;
      assert UniqueIds(s[1..]);
      RemoveIdAt(s[1..], k - 1);
      assert s[1..][k - 1] == s[k];
      assert s[..k] == [s[0]] + s[1..][..k - 1];
      assert s[k + 1..] == s[1..][k..];
    }
  }

  /** Zero-padded date texts compare day by day. */
  lemma ExampleDatesOrder()
    ensures LexLess("2024-01-01", "2024-01-02")
    ensures !LexLess("2024-01-02", "2024-01-01")
    ensures !LexLess("2024-01-01", "2024-01-01")
  {
    LexLessConcat("2024-01-0", "1", "2024-01-0", "2");
    LexLessConcat("2024-01-0", "2", "2024-01-0", "1");
    LexLessIrreflexive("2024-01-01");
    LexLessIrreflexive("2024-01-0");
    assert "2024-01-0" + "1" == "2024-01-01" && "2024-01-0" + "2" == "2024-01-02";
  }

  lemma ListingOfTwo(x: Record, y: Record)
    requires ListedBefore(x, y)
    ensures Listing([x, y]) == [x, y]
  {
    assert [x, y][1..] == [y] && [y][1..] == [];
    ListedBeforeIrreflexive(x);
    if ListedBefore(y, x) {
      ListedBeforeTransitive(x, y, x);
    }
  }

  lemma InsertLast(x: Record, y: Record, z: Record)
    requires IsListingOrder([y, z])
    requires ListedBefore(y, x) && ListedBefore(z, x)
    ensures InsertListed(x, [y, z]) == [y, z, x]
  {
    assert [z][1..] == [];
    assert InsertListed(x, [z]) == [z] + InsertListed(x, []) == [z, x];
    assert [y, z][1..] == [z];
    assert InsertListed(x, [y, z]) == [y] + InsertListed(x, [z]);
  }

  /** A worked listing: dates 2024-01-01, 2024-01-02 and 2024-01-01
      inserted with ids 1, 2 and 3 are listed as 2 (01-02), 3 (01-01),
      1 (01-01). */
  lemma ListingExample(amount: Decimal)
    ensures var r1 := Record(1, "2024-01-01", "Food", "", amount);
            var r2 := Record(2, "2024-01-02", "Food", "", amount);
            var r3 := Record(3, "2024-01-01", "Food", "", amount);
            Listing([r1, r2, r3]) == [r2, r3, r1]
  {
    var r1 := Record(1, "2024-01-01", "Food", "", amount);
    var r2 := Record(2, "2024-01-02", "Food", "", amount);
    var r3 := Record(3, "2024-01-01", "Food", "", amount);
    ExampleDatesOrder();
    assert ListedBefore(r2, r3);
    assert ListedBefore(r2, r1) && ListedBefore(r3, r1);
    ListingOfTwo(r2, r3);
    InsertLast(r1, r2, r3);
    assert [r1, r2, r3][1..] == [r2, r3];
  }

  /** The table as `DatabaseManager` sees it through its SQL statements. */
  class ExpenseStore {
    /** Whether `CREATE TABLE IF NOT EXISTS expenses` has run. */
    var tableExists: bool
    /** The rows, in the order their ids were assigned. */
    var rows: seq<Record>
    /** The `AUTOINCREMENT` counter: the largest id ever assigned. */
    var lastId: nat
    /** Every id ever assigned, including those of deleted rows. */
    ghost var issued: set<nat>

    ghost predicate Valid()
      reads this
    {
      && (!tableExists ==> rows == [] && lastId == 0 && issued == {})
      && (forall id :: id in issued ==> 1 <= id <= lastId)
      && (forall k :: 0 <= k < |rows| ==> rows[k].id in issued)
      && IdsIncreasing(rows)
    }

    /** `DatabaseManager(db_name)` on a file that holds no table yet. */
    constructor ()
      ensures Valid()
      ensures !tableExists && rows == [] && lastId == 0 && issued == {}
    {
      tableExists, rows, lastId, issued := false, [], 0, {};
    }

    /** `_init_db`: creates the table and the `(date, category)` index only if
        they are missing, so existing rows and the counter are kept. */
    method Init()
      requires Valid()
      modifies this
      ensures Valid() && tableExists
      ensures rows == old(rows) && lastId == old(lastId) && issued == old(issued)
    {
      tableExists := true;
    }

    /** `insert_expense`: appends a row under the next `AUTOINCREMENT` id and
        returns that id; without the table the statement fails and `None`
        comes back. */
    method Insert(date: string, category: string, description: string, amount: Decimal) returns (id: Option<nat>)
      requires Valid()
      modifies this
      ensures Valid()
      ensures id.None? <==> !old(tableExists)
      ensures id.None? ==> rows == old(rows) && lastId == old(lastId) && issued == old(issued) && !tableExists
      ensures id.Some? ==>
        && id.value == old(lastId) + 1
        && rows == old(rows) + [Record(id.value, date, category, description, amount)]
        && lastId == id.value && issued == old(issued) + {id.value} && tableExists
      ensures id.Some? ==> id.value !in old(issued) && forall k :: k in old(issued) ==> k < id.value
      ensures id.Some? ==> forall k :: 0 <= k < |old(rows)| ==> old(rows)[k].id < id.value
    {
      if !tableExists {
        return None;
      }
      var next := lastId + 1;
      rows := rows + [Record(next, date, category, description, amount)];
      lastId := next;
      issued := issued + {next};
      id := Some(next);
    }

    /** `fetch_all`: every row, latest date text first (SQLite's code-point
        order) and, within a date text, the most recently added first. */
    method FetchAll() returns (r: seq<Record>)
      requires Valid()
      ensures r == Listing(rows)
      ensures IsListingOrder(r) && multiset(r) == multiset(rows)
      ensures rows == [] ==> r == []
    {
      r := Listing(rows);
    }

    /** `delete_expense`: removes the row with that id and reports whether
        SQLite's row count says one went. */
    method Delete(id: int) returns (removed: bool)
      requires Valid()
      modifies this
      ensures Valid()
      ensures removed <==> HasId(old(rows), id)
      ensures rows == RemoveId(old(rows), id)
      ensures tableExists == old(tableExists) && lastId == old(lastId) && issued == old(issued)
    {
      var remaining := RemoveId(rows, id);
      removed := |remaining| < |rows|;
      RemoveIdKeepsIdsIncreasing(rows, id);
      forall k | 0 <= k < |remaining| ensures remaining[k].id in issued {
        assert remaining[k] in rows;
      }
      rows := remaining;
    }
  }
}
