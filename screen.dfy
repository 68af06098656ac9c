/** `ExpenseScreen` and `ExpenseRow` (main.py) without the widgets: the
    form's four input texts, what the list container shows, and the calls
    the screen makes into the expense table. */
module Screen {
  import opened Wrappers
  import opened Digits
  import opened Decimals
  import opened Calendar
  import opened Validation
  import opened ExpenseDb
  import opened Export

  datatype Colour = Red | Green

  /** `ExpenseRow.__init__`: an amount above 100 is shown in red, any other
      in green. */
  function AmountColour(amount: Decimal): (c: Colour)
    ensures c == Red <==> amount.units > 100 * Pow10(amount.scale)
  {
    if Exceeds(amount, 100) then Red else Green
  }

  /** The colour depends on the amount's value, not on how it was written. */
  lemma AmountColourRespectsValue(a: Decimal, b: Decimal)
    requires SameValue(a, b)
    ensures AmountColour(a) == AmountColour(b)
  {
    ExceedsRespectsValue(a, b, 100);
  }

  /** The comparison is strict: exactly 100 is still green. */
  lemma ColourThreshold()
    ensures AmountColour(Decimal(100, 0)) == Green
    ensures AmountColour(Decimal(10000, 2)) == Green
    ensures AmountColour(Decimal(10001, 2)) == Red
  {
    assert Pow10(2) == 100 by {
      assert Pow10(1) == 10;
    }
  }

  /** One `ExpenseRow` widget: the record it shows and its amount's colour. */
  datatype RowView = RowView(record: Record, colour: Colour)

  /** The list container after `refresh_list`: the placeholder label when
      there is nothing to show, otherwise one row widget per record. */
  datatype ListView = EmptyState | Rows(rows: seq<RowView>)

  /** The `msg_type` argument of `show_message`: "success", "warning" or
      "error". */
  datatype Kind = SuccessKind | WarningKind | ErrorKind

  /** What `show_message` displays, and its kind. */
  datatype Message = Message(text: string, kind: Kind)

  /** How `add_expense` ends. */
  datatype AddOutcome = Rejected(error: ValidationError) | Added(id: nat) | InsertFailed

  function AddMessage(outcome: AddOutcome): (m: Message)
    ensures m.kind == SuccessKind <==> outcome.Added?
    ensures m.kind != SuccessKind ==> m.kind == ErrorKind
  {
    match outcome
    case Rejected(e) => Message(ErrorMessage(e), ErrorKind)
    case Added(_) => Message("Expense added successfully!", SuccessKind)
    case InsertFailed => Message("Error adding expense!", ErrorKind)
  }

  function DeleteMessage(deleted: bool): (m: Message)
    ensures m.kind == SuccessKind <==> deleted
    ensures !deleted ==> m.kind == ErrorKind
  {
    if deleted then Message("Expense deleted successfully!", SuccessKind)
    else Message("Error deleting expense!", ErrorKind)
  }

  const LoadedMessage := Message("App loaded successfully! Add your first expense.", SuccessKind)

  /** The message `export_csv` shows: a warning when there is nothing to
      export, otherwise the number of rows written and the file's name. */
  function ExportMessage(count: nat, filename: string): (m: Message)
    ensures m.kind == SuccessKind <==> count > 0
    ensures count == 0 ==> m.kind == WarningKind
  {
    if count == 0 then Message("No data to export!", WarningKind)
    else Message("Exported " + Padded(count, Width(count)) + " expenses to " + filename, SuccessKind)
  }

  /** The row widgets for `records`, in order. */
  function RowViews(records: seq<Record>): (views: seq<RowView>)
    ensures |views| == |records|
  {
    if records == [] then []
    else
      var last := records[|records| - 1];
      RowViews(records[..|records| - 1]) + [RowView(last, AmountColour(last.amount))]
  }

  function ViewOf(listing: seq<Record>): (v: ListView)
    ensures v == EmptyState <==> listing == []
    ensures v.Rows? ==> |v.rows| == |listing|
  {
    if listing == [] then EmptyState else Rows(RowViews(listing))
  }

  /** The records a list view shows, top to bottom. */
  function Shown(v: ListView): seq<Record> {
    match v
    case EmptyState => []
    case Rows(views) => seq(|views|, k requires 0 <= k < |views| => views[k].record)
  }

  /** Row widget `k` shows record `k`, coloured by its amount. */
  lemma {:induction false} RowViewAt(records: seq<Record>, k: nat)
    requires k < |records|
    ensures RowViews(records)[k] == RowView(records[k], AmountColour(records[k].amount))
  {
    if k < |records| - 1 {
      RowViewAt(records[..|records| - 1], k);
    }
  }

  /** The list shows exactly the listing: every stored row once, newest
      first, and the placeholder only when there are no rows. */
  lemma ViewShowsListing(rows: seq<Record>)
    ensures Shown(ViewOf(Listing(rows))) == Listing(rows)
    ensures ViewOf(Listing(rows)) == EmptyState <==> rows == []
    ensures multiset(Shown(ViewOf(Listing(rows)))) == multiset(rows)
  {
    var listing := Listing(rows);
    if listing != [] {
      var shown := Shown(ViewOf(listing));
      forall k | 0 <= k < |listing| ensures shown[k] == listing[k] {
        RowViewAt(listing, k);
      }
    } else {
      assert |multiset(rows)| == 0;
    }
  }

  /** The expense a stored row holds. */
  function ExpenseOf(r: Record): Expense {
    Expense(r.date, r.category, r.description, r.amount)
  }

  /** Every stored row passed the checks of `add_expense`. */
  predicate StoresOnlyValid(rows: seq<Record>) {
    forall r :: r in rows ==> IsValidExpense(ExpenseOf(r))
  }

  /** The table's schema only asks for values; the checks in front of every
      insert are what keep stored amounts positive and dates and categories
      filled in. */
  lemma StoredRowsPassedChecks(rows: seq<Record>, r: Record)
    requires StoresOnlyValid(rows) && r in rows
    ensures r.amount.units > 0 && r.date != [] && r.category != []
    ensures ParseDate(r.date).Some?
  {
    assert IsValidExpense(ExpenseOf(r));
  }

  /** The row widgets `refresh_list` adds, one per fetched record. */
  method BuildRowViews(listing: seq<Record>) returns (views: seq<RowView>)
    ensures views == RowViews(listing)
  {
    views := [];
    var i := 0;
    while i < |listing|
      invariant 0 <= i <= |listing|
      invariant views == RowViews(listing[..i])
    {
      assert listing[..i + 1][..i] == listing[..i];
      views := views + [RowView(listing[i], AmountColour(listing[i].amount))];
      i := i + 1;
    }
    assert listing[..i] == listing;
  }

  class ExpenseScreen {
    /** The table behind `database.db`. */
    const db: ExpenseStore
    /** The texts in the date, category, description and amount inputs. */
    var form: Form
    /** What the list container shows. */
    var shown: ListView
    /** The last message `show_message` displayed, if any. */
    var message: Option<Message>

    ghost predicate Valid()
      reads db
    {
      db.Valid() && StoresOnlyValid(db.rows)
    }

    /** The screen opens with today's date, written `YYYY-MM-DD`, in the date
        input and the other inputs and the list empty; the table is set up
        later. The default date passes the date check as today. */
    constructor (today: Date)
      requires IsValidDate(today)
      ensures Valid() && fresh(db)
      ensures form == Form(FormatDate(today), "", "", "") && shown == Rows([])
      ensures ParseDate(form.date) == Some(today)
      ensures !db.tableExists && db.rows == [] && message == None
    {
      ParseFormatDate(today);
      db := new ExpenseStore();
      form := Form(FormatDate(today), "", "", "");
      shown := Rows([]);
      message := None;
    }

    /** `refresh_list`: fetches the rows and shows one row widget each, or
        the placeholder when there are none. */
    method RefreshList()
      requires Valid()
      modifies this
      ensures Valid()
      ensures shown == ViewOf(Listing(db.rows))
      ensures form == old(form) && message == old(message)
    {
      var listing := db.FetchAll();
      if listing == [] {
        shown := EmptyState;
        return;
      }
      var views := BuildRowViews(listing);
      shown := Rows(views);
    }

    /** `initialize_app`: creates the table if it is missing, keeping any
        rows, then refreshes the list. */
    method InitializeApp()
      requires Valid()
      modifies this, db
      ensures Valid() && db.tableExists
      ensures db.rows == old(db.rows) && db.lastId == old(db.lastId)
      ensures db.issued == old(db.issued)
      ensures shown == ViewOf(Listing(db.rows))
      ensures form == old(form) && message == Some(LoadedMessage)
    {
      db.Init();
      RefreshList();
      message := Some(LoadedMessage);
    }

    /** The end of `add_expense` once the checks pass: inserts the expense;
        when an id comes back, clears the inputs other than the date and
        refreshes the list. */
    method Save(e: Expense) returns (outcome: AddOutcome)
      requires Valid() && IsValidExpense(e)
      modifies this, db
      ensures Valid()
      ensures db.tableExists == old(db.tableExists)
      ensures outcome.Added? || outcome == InsertFailed
      ensures outcome == InsertFailed <==> !old(db.tableExists)
      ensures outcome == InsertFailed ==>
                && db.rows == old(db.rows) && db.lastId == old(db.lastId) && db.issued == old(db.issued)
                && form == old(form) && shown == old(shown)
      ensures outcome.Added? ==>
                && outcome.id == old(db.lastId) + 1 && outcome.id !in old(db.issued)
                && db.rows == old(db.rows) + [Record(outcome.id, e.date, e.category, e.description, e.amount)]
                && db.lastId == outcome.id && db.issued == old(db.issued) + {outcome.id}
                && form == Form(old(form).date, "", "", "")
                && shown == ViewOf(Listing(db.rows))
      ensures message == Some(AddMessage(outcome))
    {
      var id := db.Insert(e.date, e.category, e.description, e.amount);
      if id.Some? && id.value != 0 {
        outcome := Added(id.value);
        form := Form(form.date, "", "", "");
        RefreshList();
      } else {
        outcome := InsertFailed;
      }
      message := Some(AddMessage(outcome));
    }

    /** The rest of `add_expense` once the checks have run: a broken rule
        is reported and changes nothing else; an accepted expense is saved. */
    method Submit(checked: Result<Expense, ValidationError>) returns (outcome: AddOutcome)
      requires Valid()
      requires checked.Success? ==> IsValidExpense(checked.value)
      modifies this, db
      ensures Valid()
      ensures db.tableExists == old(db.tableExists)
      ensures outcome.Rejected? <==> checked.Failure?
      ensures outcome.Rejected? ==> outcome.error == checked.error
      ensures outcome == InsertFailed <==> checked.Success? && !old(db.tableExists)
      ensures !outcome.Added? ==>
                && db.rows == old(db.rows) && db.lastId == old(db.lastId) && db.issued == old(db.issued)
                && form == old(form) && shown == old(shown)
      ensures outcome.Added? ==>
                var e := checked.value;
                && outcome.id == old(db.lastId) + 1 && outcome.id !in old(db.issued)
                && db.rows == old(db.rows) + [Record(outcome.id, e.date, e.category, e.description, e.amount)]
                && db.lastId == outcome.id && db.issued == old(db.issued) + {outcome.id}
                && form == Form(old(form).date, "", "", "")
                && shown == ViewOf(Listing(db.rows))
      ensures message == Some(AddMessage(outcome))
    {
      match checked
      case Failure(e) =>
        outcome := Rejected(e);
        message := Some(AddMessage(outcome));
      case Success(e) =>
        outcome := Save(e);
    }

    /** `add_expense`: a form that breaks a rule is refused with that rule's
        error and changes nothing; one that passes is saved. */
    method AddExpense() returns (outcome: AddOutcome)
      requires Valid()
      modifies this, db
      ensures Valid()
      ensures db.tableExists == old(db.tableExists)
      ensures outcome.Rejected? <==> Validate(old(form)).Failure?
      ensures outcome.Rejected? ==> outcome.error == Validate(old(form)).error
      ensures outcome == InsertFailed <==> Validate(old(form)).Success? && !old(db.tableExists)
      ensures !outcome.Added? ==>
                && db.rows == old(db.rows) && db.lastId == old(db.lastId) && db.issued == old(db.issued)
                && form == old(form) && shown == old(shown)
      ensures outcome.Added? ==>
                var e := Validate(old(form)).value;
                && outcome.id == old(db.lastId) + 1 && outcome.id !in old(db.issued)
                && db.rows == old(db.rows) + [Record(outcome.id, e.date, e.category, e.description, e.amount)]
                && db.lastId == outcome.id && db.issued == old(db.issued) + {outcome.id}
                && form == Form(old(form).date, "", "", "")
                && shown == ViewOf(Listing(db.rows))
      ensures message == Some(AddMessage(outcome))
    {
      outcome := Submit(Validate(form));
    }

    /** `ExpenseRow.delete_expense`: deletes the row with that id; when one
        went, the list is refreshed. */
    method DeleteExpense(id: int) returns (deleted: bool)
      requires Valid()
      modifies this, db
      ensures Valid()
      ensures deleted <==> HasId(old(db.rows), id)
      ensures db.rows == RemoveId(old(db.rows), id)
      ensures db.tableExists == old(db.tableExists) && db.lastId == old(db.lastId) && db.issued == old(db.issued)
      ensures deleted ==> shown == ViewOf(Listing(db.rows))
      ensures !deleted ==> shown == old(shown)
      ensures form == old(form) && message == Some(DeleteMessage(deleted))
    {
      deleted := db.Delete(id);
      if deleted {
        RefreshList();
      }
      message := Some(DeleteMessage(deleted));
    }

    /** `export_csv` up to the writer: refused when there are no rows,
        otherwise the table for the listing, which reads back as the
        listing itself. `filename` is the timestamped name the file gets. */
    method ExportCsv(clock: nat -> string, filename: string) returns (r: Result<seq<seq<Cell>>, ExportError>)
      requires Valid()
      modifies this
      ensures Valid() && form == old(form) && shown == old(shown)
      ensures r.Failure? <==> db.rows == []
      ensures r.Success? ==> r.value == ExportTable(Listing(db.rows), clock)
      ensures r.Success? ==> DecodeTable(r.value) == Some(Listing(db.rows))
      ensures message == Some(ExportMessage(|db.rows|, filename))
    {
      var listing := db.FetchAll();
      r := BuildExport(listing, clock);
      ExportRoundTrip(listing, clock);
      message := Some(ExportMessage(|listing|, filename));
    }
  }
}
