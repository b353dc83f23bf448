/** The products page of the browser client: the checks `onSubmit` runs on
    the form before it calls the API, what the form shows afterwards, and
    how `onDelete` updates the displayed list. React state, rendering and
    the fetch calls are replaced by plain values: the parsed numbers and
    the outcome of each API call are parameters. */
module ProductsPage {
  import opened Optional
  import opened Text
  import opened Catalog
  import Api

  /** A JavaScript number as `Number(text)` yields it. */
  datatype JsNumber = NaN | Infinity(negative: bool) | Finite(value: real)

  predicate IsNaN(n: JsNumber) {
    n.NaN?
  }

  /** `n < 0`; any comparison with NaN is false. */
  predicate IsBelowZero(n: JsNumber) {
    match n
    case NaN => false
    case Infinity(negative) => negative
    case Finite(v) => v < 0.0
  }

  /** `Number.isInteger(n)`: finite with no fractional part. */
  predicate IsInteger(n: JsNumber) {
    n.Finite? && n.value == n.value.Floor as real
  }

  /** The failures the form checks report, each with the message shown. */
  datatype FormError = NameRequired | PriceInvalid | StockInvalid {
    function Message(): string {
      match this
      case NameRequired => "Name is required"
      case PriceInvalid => "Price must be a number >= 0."
      case StockInvalid => "Stock must be an integer >= 0."
    }
  }

  const CreateFailed: string := "Create faied."
  const DeleteFailed: string := "Delete failed."

  /** The three text inputs. */
  datatype Form = Form(name: string, price: string, stock: string)

  /** The form as it starts, and as it is reset after a create. */
  const EmptyForm: Form := Form("", "0", "0")

  /** What `createProduct` is called with. */
  datatype CreateInput = CreateInput(name: string, price: JsNumber, stock: int)

  datatype Checked = Invalid(error: FormError) | Valid(input: CreateInput)

  predicate PriceOk(price: JsNumber) {
    !IsNaN(price) && !IsBelowZero(price)
  }

  predicate StockOk(stock: JsNumber) {
    IsInteger(stock) && !IsBelowZero(stock)
  }

  /** Every check the form fails, in the order they are written. The name
      check is stated directly (a name of white space only) rather than
      through `Trim`. */
  function Failures(form: Form, price: JsNumber, stock: JsNumber): (msgs: seq<FormError>)
    ensures msgs == [] <==> !AllSpace(EcmaScript, form.name) && PriceOk(price) && StockOk(stock)
  {
    var name := if AllSpace(EcmaScript, form.name) then [NameRequired] else [];
    var priceMsgs := if PriceOk(price) then [] else [PriceInvalid];
    var stockMsgs := if StockOk(stock) then [] else [StockInvalid];
    assert |name + priceMsgs + stockMsgs| == |name| + |priceMsgs| + |stockMsgs|;
    name + priceMsgs + stockMsgs
  }

  /** The whole number an integral `Number` holds. */
  function WholeValue(n: JsNumber): (k: int)
    requires IsInteger(n)
    ensures n == Finite(k as real)
    ensures k >= 0 <==> !IsBelowZero(n)
  {
    n.value.Floor
  }

  /** The checks of `onSubmit`, given `Number(form.price)` and
      `Number(form.stock)`. */
  function Check(form: Form, price: JsNumber, stock: JsNumber): (c: Checked)
    ensures c.Valid? ==>
      && c.input.name != []
      && StrippedTo(EcmaScript, form.name, c.input.name)
      && c.input.price == price
      && PriceOk(price)
      && stock == Finite(c.input.stock as real)
      && c.input.stock >= 0
  {
    var trimmed := Trim(EcmaScript, form.name);
    if trimmed == [] then Invalid(NameRequired)
    else if IsNaN(price) || IsBelowZero(price) then Invalid(PriceInvalid)
    else if !IsInteger(stock) || IsBelowZero(stock) then Invalid(StockInvalid)
    else Valid(CreateInput(trimmed, price, WholeValue(stock)))
  }

  /** First failure wins: the form is accepted exactly when no check
      fails, and otherwise only the first failing check is reported. */
  lemma FirstFailureWins(form: Form, price: JsNumber, stock: JsNumber)
    ensures Check(form, price, stock).Valid? <==> Failures(form, price, stock) == []
    ensures Check(form, price, stock).Invalid? ==>
      Check(form, price, stock).error == Failures(form, price, stock)[0]
  {
    var blank := AllSpace(EcmaScript, form.name);
    assert Trim(EcmaScript, form.name) == [] <==> blank;
    var f := Failures(form, price, stock);
    var stockErrors := if StockOk(stock) then [] else [StockInvalid];
    var c := Check(form, price, stock);
    if blank {
      assert c == Invalid(NameRequired) && f[0] == NameRequired;
    } else if !PriceOk(price) {
      assert f == [PriceInvalid] + stockErrors;
      assert c == Invalid(PriceInvalid);
    } else if !StockOk(stock) {
      assert f == [StockInvalid];
      assert c == Invalid(StockInvalid);
    } else {
      assert f == [] && c.Valid?;
    }
  }

  /** How the `createProduct` call ended: it returned, or it threw an error
      whose message may be missing. */
  datatype CallOutcome = Succeeded | Threw(message: Option<string>)

  /** The page after `onSubmit`: the form, the error shown under it, and
      the call made to `createProduct`, if any. */
  datatype Submitted = Submitted(form: Form, formError: Option<string>, call: Option<CreateInput>)

  /** `onSubmit`. `outcome` is how `createProduct` ends; it is consulted
      only when the form passes its checks. */
  function OnSubmit(form: Form, price: JsNumber, stock: JsNumber, outcome: CallOutcome): (s: Submitted)
    ensures s.call.Some? <==> Failures(form, price, stock) == []
    ensures s.call.None? ==> s == Submitted(form, Some(Failures(form, price, stock)[0].Message()), None)
    ensures s.call.Some? ==> s.call.value.name == Trim(EcmaScript, form.name)
    ensures s.call.Some? ==>
      s.call.value.price == price && stock == Finite(s.call.value.stock as real)
    ensures s.call.Some? && outcome.Succeeded? ==> s.form == EmptyForm && s.formError.None?
    ensures s.call.Some? && outcome.Threw? ==>
      s.form == form && s.formError == Some(outcome.message.OrElse(CreateFailed))
  {
    FirstFailureWins(form, price, stock);
    match Check(form, price, stock)
    case Invalid(e) => Submitted(form, Some(e.Message()), None)
    case Valid(input) =>
      match outcome
      case Succeeded => Submitted(EmptyForm, None, Some(input))
      case Threw(msg) => Submitted(form, Some(msg.OrElse(CreateFailed)), Some(input))
  }

  /** `prev.filter((x) => x.id !== id)`. */
  function Without(items: seq<Entry>, id: Guid): (r: seq<Entry>)
    ensures forall e :: e in r <==> e in items && e.id != id
    ensures |r| <= |items|
    ensures (forall e :: e in items ==> e.id != id) ==> r == items
  {
    if items == [] then []
    else if items[0].id != id then [items[0]] + Without(items[1..], id)
    else Without(items[1..], id)
  }

  /** Filtering keeps order: filtering a concatenation concatenates the
      filtered parts. */
  lemma {:induction false} WithoutConcat(a: seq<Entry>, b: seq<Entry>, id: Guid)
    ensures Without(a + b, id) == Without(a, id) + Without(b, id)
  {
    if a != [] {
      assert (a + b)[0] == a[0];
      assert (a + b)[1..] == a[1..] + b;
      WithoutConcat(a[1..], b, id);
      if a[0].id != id {
        assert Without(a + b, id) == [a[0]] + Without(a[1..] + b, id);
        assert Without(a, id) == [a[0]] + Without(a[1..], id);
      } else {
        assert Without(a + b, id) == Without(a[1..] + b, id);
        assert Without(a, id) == Without(a[1..], id);
      }
    } else {
      assert a + b == b;
    }
  }

  /** Filtering twice by the same id is filtering once. */
  lemma WithoutIdempotent(items: seq<Entry>, id: Guid)
    ensures Without(Without(items, id), id) == Without(items, id)
  {
  }

  /** The page after `onDelete`: the list, whether `deleteProduct` was
      called, and the alert shown, if any. */
  datatype Deleted = Deleted(items: seq<Entry>, called: bool, alert: Option<string>)

  /** `onDelete`: `confirmed` is the answer to the confirmation dialog and
      `outcome` how `deleteProduct` ends. */
  function OnDelete(items: seq<Entry>, id: Guid, confirmed: bool, outcome: CallOutcome): (d: Deleted)
    ensures !confirmed ==> d == Deleted(items, false, None)
    ensures confirmed ==> d.called
    ensures confirmed && outcome.Succeeded? ==>
      && d.alert.None?
      && (forall e :: e in d.items <==> e in items && e.id != id)
      && d.items == Without(items, id)
    ensures confirmed && outcome.Threw? ==>
      d.items == items && d.alert == Some(outcome.message.OrElse(DeleteFailed))
  {
    if !confirmed then Deleted(items, false, None)
    else match outcome
      case Succeeded => Deleted(Without(items, id), true, None)
      case Threw(msg) => Deleted(items, true, Some(msg.OrElse(DeleteFailed)))
  }

  /** NEXT LINE (U+0085) on its own. */
  const NelName: string := [0x85 as char]

  /** The client and the server disagree on white space: a name that is a
      single NEXT LINE passes the page's check, since ECMAScript does not
      count it as white space, but the API refuses it with 400. */
  lemma NelNamePassesClientFailsServer(store: Store, newId: Guid, now: Instant)
    ensures Check(Form(NelName, "0", "0"), Finite(0.0), Finite(0.0)).Valid?
    ensures Api.HandleCreate(store, Api.ProductCreateDto(Some(NelName), 0.0, 0), newId, now).response.status
      == Api.StatusBadRequest
  {
    assert !IsSpace(EcmaScript, NelName[0]);
    assert !AllSpace(EcmaScript, NelName);
    assert PriceOk(Finite(0.0)) && StockOk(Finite(0.0));
    assert Trim(EcmaScript, NelName) != [];
    assert IsSpace(DotNet, NelName[0]);
    assert IsNullOrWhiteSpace(Some(NelName));
  }
}
