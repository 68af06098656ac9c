/** The input checks of `ExpenseScreen.add_expense` (main.py): four text
    fields are stripped, then four rules run in a fixed order and the first
    one that fails decides the outcome. */
module Validation {
  import opened Wrappers
  import opened Text
  import opened Calendar
  import opened Decimals

  /** The four text inputs of the form, as typed. */
  datatype Form = Form(date: string, category: string, description: string, amount: string)

  /** The four rules, in the order they are checked. */
  datatype ValidationError = MissingField | BadDateFormat | NotANumber | NonPositiveAmount

  /** What reaches `insert_expense`: the stripped texts and the parsed amount. */
  datatype Expense = Expense(date: string, category: string, description: string, amount: Decimal)

  /** Position of a rule in the checking order. */
  function Rank(e: ValidationError): nat {
    match e
    case MissingField => 0
    case BadDateFormat => 1
    case NotANumber => 2
    case NonPositiveAmount => 3
  }

  /** Whether the stripped date, category and amount texts break a rule,
      judging that rule on its own. */
  predicate Breaks(date: string, category: string, amountText: string, e: ValidationError) {
    match e
    case MissingField => date == [] || category == [] || amountText == []
    case BadDateFormat => ParseDate(date).None?
    case NotANumber => ParseDecimal(amountText).None?
    case NonPositiveAmount =>
      ParseDecimal(amountText).Some? && !IsPositive(ParseDecimal(amountText).value)
  }

  /** Whether the form, once stripped, breaks a rule. */
  predicate Violates(f: Form, e: ValidationError) {
    Breaks(Strip(f.date), Strip(f.category), Strip(f.amount), e)
  }

  /** An expense the checks let through: stripped, a real calendar date,
      a category, and an amount above zero. */
  predicate IsValidExpense(e: Expense) {
    && IsStripped(e.date) && ParseDate(e.date).Some?
    && IsStripped(e.category) && e.category != []
    && IsStripped(e.description)
    && IsPositive(e.amount)
  }

  /** The four rules, in order, on the stripped texts of the checked fields;
      the description is not among them. */
  function Check(date: string, category: string, amountText: string): (r: Result<Decimal, ValidationError>)
    ensures r.Success? ==> ParseDate(date).Some? && category != [] && IsPositive(r.value)
    ensures r.Success? ==> ParseDecimal(amountText) == Some(r.value)
  {
    if date == [] || category == [] || amountText == [] then
      Failure(MissingField)
    else if ParseDate(date).None? then
      Failure(BadDateFormat)
    else
      match ParseDecimal(amountText)
      case None => Failure(NotANumber)
      case Some(amount) =>
        if !IsPositive(amount) then Failure(NonPositiveAmount)
        else Success(amount)
  }

  /** `add_expense` up to the call to `insert_expense`. */
  function Validate(f: Form): (r: Result<Expense, ValidationError>)
    ensures r.Success? ==> IsValidExpense(r.value)
    ensures r.Success? ==> r.value.description == Strip(f.description)
  {
    var date, category, description := Strip(f.date), Strip(f.category), Strip(f.description);
    match Check(date, category, Strip(f.amount))
    case Failure(e) => Failure(e)
    case Success(amount) => Success(Expense(date, category, description, amount))
  }

  /** `Check` reports the first rule, in checking order, that its texts break. */
  lemma {:induction false} CheckReportsFirstBrokenRule(date: string, category: string, amountText: string, e: ValidationError)
    ensures Check(date, category, amountText) == Failure(e) <==>
              Breaks(date, category, amountText, e)
              && forall e' :: Rank(e') < Rank(e) ==> !Breaks(date, category, amountText, e')
  {
    if Check(date, category, amountText) == Failure(e) {
      forall e' | Rank(e') < Rank(e) ensures !Breaks(date, category, amountText, e') {
      }
    }
    if Breaks(date, category, amountText, e)
       && forall e' :: Rank(e') < Rank(e) ==> !Breaks(date, category, amountText, e') {
      match e
      case MissingField =>
      case BadDateFormat =>
        assert !Breaks(date, category, amountText, MissingField);
      case NotANumber =>
        assert !Breaks(date, category, amountText, MissingField);
        assert !Breaks(date, category, amountText, BadDateFormat);
      case NonPositiveAmount =>
        assert !Breaks(date, category, amountText, MissingField);
        assert !Breaks(date, category, amountText, BadDateFormat);
        assert !Breaks(date, category, amountText, NotANumber);
    }
  }

  /** The outcome is the first rule, in checking order, that the form breaks. */
  lemma {:induction false} ReportsFirstBrokenRule(f: Form, e: ValidationError)
    ensures Validate(f) == Failure(e) <==>
              Violates(f, e) && forall e' :: Rank(e') < Rank(e) ==> !Violates(f, e')
  {
    CheckReportsFirstBrokenRule(Strip(f.date), Strip(f.category), Strip(f.amount), e);
  }

  /** `Check` accepts exactly the texts that break no rule. */
  lemma {:induction false} CheckAcceptsWhenNoRuleBroken(date: string, category: string, amountText: string)
    ensures Check(date, category, amountText).Success? <==>
              forall e :: !Breaks(date, category, amountText, e)
  {
    if forall e :: !Breaks(date, category, amountText, e) {
      assert !Breaks(date, category, amountText, MissingField);
      assert !Breaks(date, category, amountText, BadDateFormat);
      assert !Breaks(date, category, amountText, NotANumber);
      assert !Breaks(date, category, amountText, NonPositiveAmount);
    }
    if Check(date, category, amountText).Success? {
      forall e ensures !Breaks(date, category, amountText, e) {
      }
    }
  }

  /** A form is accepted exactly when it breaks no rule, and then the expense
      carries the stripped fields and the amount's value. */
  lemma {:induction false} AcceptsWhenNoRuleBroken(f: Form)
    ensures Validate(f).Success? <==> forall e :: !Violates(f, e)
    ensures Validate(f).Success? ==>
              && Validate(f).value.date == Strip(f.date)
              && Validate(f).value.category == Strip(f.category)
              && Some(Validate(f).value.amount) == ParseDecimal(Strip(f.amount))
  {
    var date, category, amountText := Strip(f.date), Strip(f.category), Strip(f.amount);
    CheckAcceptsWhenNoRuleBroken(date, category, amountText);
    assert (forall e :: !Violates(f, e)) <==> (forall e :: !Breaks(date, category, amountText, e)) by {
      forall e ensures Violates(f, e) == Breaks(date, category, amountText, e) {
      }
    }
  }

  /** The description is never checked: whatever it holds, even nothing, the
      outcome is the same apart from the stored description itself. */
  lemma {:induction false} DescriptionNeverRejects(f: Form, d: string)
    ensures Validate(f).Failure? <==> Validate(f.(description := d)).Failure?
    ensures Validate(f).Failure? ==> Validate(f.(description := d)) == Validate(f)
    ensures Validate(f).Success? ==>
              Validate(f.(description := d)) == Success(Validate(f).value.(description := Strip(d)))
  {
  }

  /** `Check` lets through texts that break none of the rules. */
  lemma CheckAccepts(date: string, category: string, amountText: string, amount: Decimal)
    requires date != [] && ParseDate(date).Some? && category != []
    requires ParseDecimal(amountText) == Some(amount) && IsPositive(amount)
    ensures Check(date, category, amountText) == Success(amount)
  {
  }

  /** The outcome depends on the fields only through their stripped texts. */
  lemma ValidateSeesStrippedFields(f: Form, g: Form)
    requires Strip(f.date) == Strip(g.date) && Strip(f.category) == Strip(g.category)
    requires Strip(f.description) == Strip(g.description) && Strip(f.amount) == Strip(g.amount)
    ensures Validate(f) == Validate(g)
  {
  }

  /** The text that writes an accepted expense back into the form. */
  function FormOf(e: Expense): Form {
    Form(e.date, e.category, e.description, FormatDecimal(e.amount))
  }

  /** A form whose fields have nothing to strip is validated as typed. */
  lemma ValidateOfStripped(f: Form, amount: Decimal)
    requires IsStripped(f.date) && IsStripped(f.category) && IsStripped(f.description) && IsStripped(f.amount)
    requires Check(f.date, f.category, f.amount) == Success(amount)
    ensures Validate(f) == Success(Expense(f.date, f.category, f.description, amount))
  {
    StripOfStripped(f.date);
    StripOfStripped(f.category);
    StripOfStripped(f.description);
    StripOfStripped(f.amount);
  }

  /** Every valid expense is what the checks make of some form: the ones they
      accept are exactly the valid expenses. */
  lemma {:induction false} ValidExpenseRoundTrip(e: Expense)
    requires IsValidExpense(e)
    ensures Validate(FormOf(e)) == Success(e)
  {
    var t := FormatDecimal(e.amount);
    FormatDecimalIsStripped(e.amount);
    ParseFormatDecimal(e.amount);
    CheckAccepts(e.date, e.category, t, e.amount);
    ValidateOfStripped(FormOf(e), e.amount);
  }

  /** Whitespace typed around stripped fields does not change the outcome. */
  lemma {:induction false} SurroundingWhitespaceIgnored(f: Form, pre: string, post: string)
    requires AllSpace(pre) && AllSpace(post)
    requires IsStripped(f.date) && IsStripped(f.category) && IsStripped(f.description) && IsStripped(f.amount)
    ensures Validate(Form(pre + f.date + post, pre + f.category + post,
                          pre + f.description + post, pre + f.amount + post)) == Validate(f)
  {
    var g := Form(pre + f.date + post, pre + f.category + post,
                  pre + f.description + post, pre + f.amount + post);
    StripPadded(pre, f.date, post);
    StripPadded(pre, f.category, post);
    StripPadded(pre, f.description, post);
    StripPadded(pre, f.amount, post);
    StripOfStripped(f.date);
    StripOfStripped(f.category);
    StripOfStripped(f.description);
    StripOfStripped(f.amount);
    ValidateSeesStrippedFields(g, f);
  }

  /** The message `add_expense` shows for each rule. */
  function ErrorMessage(e: ValidationError): (m: string)
    ensures m != []
  {
    match e
    case MissingField => "Please fill all required fields!"
    case BadDateFormat => "Invalid date format! Use YYYY-MM-DD"
    case NotANumber => "Amount must be a valid number!"
    case NonPositiveAmount => "Amount must be positive!"
  }

  /** Each rule has its own message, so the message tells which rule broke. */
  lemma ErrorMessagesDistinct(a: ValidationError, b: ValidationError)
    requires ErrorMessage(a) == ErrorMessage(b)
    ensures a == b
  {
  }
}
