/**
  The document hook run before a sales order or sales invoice is saved:
  on a new draft it aborts the save at the first discount that exceeds the
  acting user's ceiling.
 */
module Hook {
  import opened Fields
  import opened Resolver
  import opened Checks

  datatype LineItem = LineItem(
    discountPercentage: Option<real>,
    discountAmount: Option<real>,
    priceListRate: Option<real>,
    qty: Option<real>)

  /** A sales document: its state (0 is draft), whether it has never been
      saved, its company, its lines and its document-level discount fields. */
  datatype SalesDoc = SalesDoc(
    docstatus: int,
    isLocal: bool,
    company: Option<string>,
    items: seq<LineItem>,
    additionalDiscountPercentage: Option<real>,
    discountAmount: Option<real>,
    baseGrandTotal: Option<real>)

  /** The user-facing error that aborts the save. */
  datatype Abort = Abort(title: string, message: Message)

  const LimitExceededTitle: string := "Discount Limit Exceeded"

  /** The hook looks at a document at all: a new draft saved by someone
      other than the administrator. */
  predicate Active(doc: SalesDoc, session: string) {
    doc.docstatus == 0 && doc.isLocal && session != Administrator
  }

  /** The line's percentage, when set, exceeds the ceiling. */
  predicate ItemPercentageExceeds(item: LineItem, limit: real) {
    Truthy(item.discountPercentage) && item.discountPercentage.value > limit
  }

  /** The line's amount, price and quantity are all set, the price and
      quantity are positive, and the amount's share of the line's list value
      exceeds the ceiling. */
  predicate ItemAmountExceeds(item: LineItem, limit: real) {
    && Truthy(item.discountAmount) && Truthy(item.priceListRate) && Truthy(item.qty)
    && item.priceListRate.value > 0.0 && item.qty.value > 0.0
    && item.priceListRate.value * item.qty.value > 0.0
    && PercentOf(item.discountAmount.value, item.priceListRate.value * item.qty.value) > limit
  }

  predicate ItemExceeds(item: LineItem, limit: real) {
    ItemPercentageExceeds(item, limit) || ItemAmountExceeds(item, limit)
  }

  /** The document's additional percentage, when set, exceeds the ceiling. */
  predicate InvoicePercentageExceeds(doc: SalesDoc, limit: real) {
    Truthy(doc.additionalDiscountPercentage) && doc.additionalDiscountPercentage.value > limit
  }

  /** The document's discount amount and grand total are both set and the
      amount's share of the pre-discount total exceeds the ceiling. */
  predicate InvoiceAmountExceeds(doc: SalesDoc, limit: real) {
    && Truthy(doc.discountAmount) && Truthy(doc.baseGrandTotal)
    && (doc.baseGrandTotal.value > 0.0 || doc.discountAmount.value > 0.0)
    && doc.baseGrandTotal.value + doc.discountAmount.value > 0.0
    && PercentOf(doc.discountAmount.value, doc.baseGrandTotal.value + doc.discountAmount.value) > limit
  }

  predicate DocumentExceeds(doc: SalesDoc, limit: real) {
    InvoicePercentageExceeds(doc, limit) || InvoiceAmountExceeds(doc, limit)
  }

  /** Walks the lines in order and finds the first one over the item
      ceiling; within a line the percentage is tested before the amount,
      and either one stops the walk. */
  function FirstOverLimit(items: seq<LineItem>, limit: real): (r: Option<nat>)
    ensures r.Some? ==> r.value < |items| && ItemExceeds(items[r.value], limit)
    ensures r.Some? ==> forall j :: 0 <= j < r.value ==> !ItemExceeds(items[j], limit)
    ensures r.None? ==> forall j :: 0 <= j < |items| ==> !ItemExceeds(items[j], limit)
    decreases |items|
  {
    if items == [] then None
    else if ItemPercentageExceeds(items[0], limit) then Some(0)
    else if ItemAmountExceeds(items[0], limit) then Some(0)
    else match FirstOverLimit(items[1..], limit)
      case None => None
      case Some(k) => Some(k + 1)
  }

  /** Tests the document-level percentage, then the document-level amount. */
  function CheckDocument(doc: SalesDoc, limit: real): Save<Abort> {
    if InvoicePercentageExceeds(doc, limit) then Throws(Abort(LimitExceededTitle, InvoiceLimit(limit)))
    else if InvoiceAmountExceeds(doc, limit) then Throws(Abort(LimitExceededTitle, InvoiceLimit(limit)))
    else Proceeds
  }

  /** The hook. The lines are checked only when an item ceiling applies and
      the document-level fields only when an invoice ceiling applies; line
      violations are found before document-level ones. */
  function ValidateUserDiscount(doc: SalesDoc, store: Store, session: string): (r: Save<Abort>)
    ensures !Active(doc, session) ==> r == Proceeds
    ensures r.Throws? ==> r.error.title == LimitExceededTitle
    ensures var limits := ResolveLimits(store, session, doc.company);
      r.Throws? <==>
        && Active(doc, session)
        && (|| (limits.item.Some? && exists i :: 0 <= i < |doc.items| && ItemExceeds(doc.items[i], limits.item.value))
            || (limits.invoice.Some? && DocumentExceeds(doc, limits.invoice.value)))
    ensures var limits := ResolveLimits(store, session, doc.company);
      r.Throws? ==>
        r.error.message ==
          if limits.item.Some? && exists i :: 0 <= i < |doc.items| && ItemExceeds(doc.items[i], limits.item.value)
          then ItemLimit(limits.item.value)
          else InvoiceLimit(limits.invoice.ValueOr(0.0))
  {
    if doc.docstatus != 0 then Proceeds
    else if !doc.isLocal then Proceeds
    else if session == Administrator then Proceeds
    else
      var limits := ResolveLimits(store, session, doc.company);
      if limits.item.Some? && FirstOverLimit(doc.items, limits.item.value).Some? then
        Throws(Abort(LimitExceededTitle, ItemLimit(limits.item.value)))
      else if limits.invoice.Some? then CheckDocument(doc, limits.invoice.value)
      else Proceeds
  }

  /** Without an item ceiling the lines are not looked at: the verdict is
      the one for the same document with no lines. */
  lemma AbsentItemLimitSkipsLines(doc: SalesDoc, store: Store, session: string)
    requires ResolveLimits(store, session, doc.company).item.None?
    ensures ValidateUserDiscount(doc, store, session) == ValidateUserDiscount(doc.(items := []), store, session)
  {
  }

  /** Without an invoice ceiling the document-level fields are not looked
      at: the verdict is the one for the same document with them cleared. */
  lemma AbsentInvoiceLimitSkipsDocumentFields(doc: SalesDoc, store: Store, session: string)
    requires ResolveLimits(store, session, doc.company).invoice.None?
    ensures ValidateUserDiscount(doc, store, session) ==
      ValidateUserDiscount(doc.(additionalDiscountPercentage := None, discountAmount := None, baseGrandTotal := None), store, session)
  {
  }

  /** The standalone check `c` rejects with message `m`. */
  predicate RejectedWith(c: CheckResult, m: Message) {
    !c.isValid && c.message == m
  }

  /** One of the two item checks rejects the line with message `m`. */
  predicate LineRejectedWith(store: Store, session: string, company: Option<string>, item: LineItem, m: Message) {
    || RejectedWith(ValidateItemDiscountPercentage(store, session, None, company, item.discountPercentage), m)
    || RejectedWith(ValidateItemDiscountAmount(store, session, None, company, item.discountAmount, item.priceListRate, item.qty), m)
  }

  /** Whenever the hook aborts, a standalone check asked about the same
      user, company and field rejects that field with the same message: the
      first line over the item ceiling when there is one, else the
      document's percentage or amount. */
  lemma RejectionAgreesWithChecks(doc: SalesDoc, store: Store, session: string)
    requires ValidateUserDiscount(doc, store, session).Throws?
    ensures var limits := ResolveLimits(store, session, doc.company);
      var m := ValidateUserDiscount(doc, store, session).error.message;
      var first := if limits.item.Some? then FirstOverLimit(doc.items, limits.item.value) else None;
      if first.Some? then LineRejectedWith(store, session, doc.company, doc.items[first.value], m)
      else
        || RejectedWith(ValidateInvoiceDiscountPercentage(store, session, None, doc.company, doc.additionalDiscountPercentage), m)
        || RejectedWith(ValidateInvoiceDiscountAmount(store, session, None, doc.company, doc.discountAmount, doc.baseGrandTotal), m)
  {
    var limits := ResolveLimits(store, session, doc.company);
    var first := if limits.item.Some? then FirstOverLimit(doc.items, limits.item.value) else None;
    if first.Some? {
      LineRejectionAgrees(doc, store, session, doc.items[first.value]);
    } else {
      DocumentRejectionAgrees(doc, store, session);
    }
  }

  /** A line over a present item ceiling of an active hook is rejected by
      one of the standalone item checks with the item message. */
  lemma LineRejectionAgrees(doc: SalesDoc, store: Store, session: string, item: LineItem)
    requires Active(doc, session)
    requires var limit := ResolveLimits(store, session, doc.company).item;
      limit.Some? && ItemExceeds(item, limit.value)
    ensures LineRejectedWith(store, session, doc.company, item, ItemLimit(ResolveLimits(store, session, doc.company).item.value))
  {
    var limit := ResolveLimits(store, session, doc.company).item;
    assert Ceiling(ItemScope, store, session, None, doc.company) == limit;
  }

  /** Document fields over a present invoice ceiling of an active hook are
      rejected by one of the standalone invoice checks with the invoice
      message. */
  lemma DocumentRejectionAgrees(doc: SalesDoc, store: Store, session: string)
    requires Active(doc, session)
    requires var limit := ResolveLimits(store, session, doc.company).invoice;
      limit.Some? && DocumentExceeds(doc, limit.value)
    ensures var m := InvoiceLimit(ResolveLimits(store, session, doc.company).invoice.value);
      || RejectedWith(ValidateInvoiceDiscountPercentage(store, session, None, doc.company, doc.additionalDiscountPercentage), m)
      || RejectedWith(ValidateInvoiceDiscountAmount(store, session, None, doc.company, doc.discountAmount, doc.baseGrandTotal), m)
  {
    var limit := ResolveLimits(store, session, doc.company).invoice;
    assert Ceiling(InvoiceScope, store, session, None, doc.company) == limit;
  }

  /** A line the active hook lets through under a non-negative item ceiling
      (or none) passes both standalone item checks. */
  lemma LineAcceptanceAgrees(doc: SalesDoc, store: Store, session: string, item: LineItem)
    requires Active(doc, session)
    requires var limit := ResolveLimits(store, session, doc.company).item;
      limit.Some? ==> limit.value >= 0.0 && !ItemExceeds(item, limit.value)
    ensures ValidateItemDiscountPercentage(store, session, None, doc.company, item.discountPercentage).isValid
    ensures ValidateItemDiscountAmount(store, session, None, doc.company, item.discountAmount, item.priceListRate, item.qty).isValid
  {
    var limit := ResolveLimits(store, session, doc.company).item;
    assert Ceiling(ItemScope, store, session, None, doc.company) == limit;
    if limit.Some? {
      LineShareWithin(item, limit.value);
    }
  }

  /** A line whose amount does not exceed a non-negative ceiling has, when
      its price and quantity are positive, a share of its list value within
      the ceiling, an unset amount counting as 0. */
  lemma LineShareWithin(item: LineItem, limit: real)
    requires limit >= 0.0 && !ItemAmountExceeds(item, limit)
    ensures var price := item.priceListRate.ValueOr(0.0);
      var quantity := item.qty.ValueOr(0.0);
      price > 0.0 && quantity > 0.0 ==> PercentOf(item.discountAmount.ValueOr(0.0), price * quantity) <= limit
  {
    var price := item.priceListRate.ValueOr(0.0);
    var quantity := item.qty.ValueOr(0.0);
    if price > 0.0 && quantity > 0.0 {
      PositiveProduct(price, quantity);
      if !Truthy(item.discountAmount) {
        assert PercentOf(item.discountAmount.ValueOr(0.0), price * quantity) == 0.0;
      } else {
        assert Truthy(item.priceListRate) && Truthy(item.qty);
        assert price == item.priceListRate.value && quantity == item.qty.value;
        assert item.discountAmount.ValueOr(0.0) == item.discountAmount.value;
        assert PercentOf(item.discountAmount.value, price * quantity) <= limit;
      }
    }
  }

  /** The document-level fields the active hook lets through under a
      non-negative invoice ceiling (or none) pass the standalone percentage
      check, and the amount check too when the grand total is set. */
  lemma DocumentAcceptanceAgrees(doc: SalesDoc, store: Store, session: string)
    requires Active(doc, session)
    requires var limit := ResolveLimits(store, session, doc.company).invoice;
      limit.Some? ==> limit.value >= 0.0 && !DocumentExceeds(doc, limit.value)
    ensures ValidateInvoiceDiscountPercentage(store, session, None, doc.company, doc.additionalDiscountPercentage).isValid
    ensures Truthy(doc.baseGrandTotal) ==>
      ValidateInvoiceDiscountAmount(store, session, None, doc.company, doc.discountAmount, doc.baseGrandTotal).isValid
  {
    var limit := ResolveLimits(store, session, doc.company).invoice;
    assert Ceiling(InvoiceScope, store, session, None, doc.company) == limit;
    var total := doc.baseGrandTotal.ValueOr(0.0) + doc.discountAmount.ValueOr(0.0);
    if limit.Some? && total > 0.0 && !Truthy(doc.discountAmount) {
      assert PercentOf(doc.discountAmount.ValueOr(0.0), total) == 0.0;
    }
  }

  /** Conversely, when an active hook lets a document through and the
      ceilings are not negative (as settings that passed their save-time
      check guarantee), every standalone check accepts every line and the
      document-level percentage, and accepts the document-level amount
      whenever the grand total is set. */
  lemma AcceptanceAgreesWithChecks(doc: SalesDoc, store: Store, session: string)
    requires Active(doc, session)
    requires ValidateUserDiscount(doc, store, session) == Proceeds
    requires var limits := ResolveLimits(store, session, doc.company);
      limits.item.ValueOr(0.0) >= 0.0 && limits.invoice.ValueOr(0.0) >= 0.0
    ensures forall i :: 0 <= i < |doc.items| ==>
      && ValidateItemDiscountPercentage(store, session, None, doc.company, doc.items[i].discountPercentage).isValid
      && ValidateItemDiscountAmount(store, session, None, doc.company, doc.items[i].discountAmount,
                                    doc.items[i].priceListRate, doc.items[i].qty).isValid
    ensures ValidateInvoiceDiscountPercentage(store, session, None, doc.company, doc.additionalDiscountPercentage).isValid
    ensures Truthy(doc.baseGrandTotal) ==>
      ValidateInvoiceDiscountAmount(store, session, None, doc.company, doc.discountAmount, doc.baseGrandTotal).isValid
  {
    forall i | 0 <= i < |doc.items|
      ensures ValidateItemDiscountPercentage(store, session, None, doc.company, doc.items[i].discountPercentage).isValid
      ensures ValidateItemDiscountAmount(store, session, None, doc.company, doc.items[i].discountAmount,
                                         doc.items[i].priceListRate, doc.items[i].qty).isValid
    {
      LineAcceptanceAgrees(doc, store, session, doc.items[i]);
    }
    DocumentAcceptanceAgrees(doc, store, session);
  }

  /** The converse stops short of a grand total that is not set: the hook
      then skips the document-level amount, while the standalone invoice
      amount check measures the discount as 100 percent of the pre-discount
      total and rejects it under a ceiling of 10 percent. */
  lemma UnsetGrandTotalSkipsAmountCheck()
    ensures var store := Loaded(Settings.Config(None, [Settings.Row(Some("u"), None, Some(10.0))]));
      var doc := SalesDoc(0, true, None, [], None, Some(50.0), None);
      && ValidateUserDiscount(doc, store, "u") == Proceeds
      && !ValidateInvoiceDiscountAmount(store, "u", None, None, Some(50.0), None).isValid
  {
    var store := Loaded(Settings.Config(None, [Settings.Row(Some("u"), None, Some(10.0))]));
    assert ResolveLimits(store, "u", None) == Limits(None, Some(10.0));
  }

  /** The same gap on a realistic document: a discount that takes the whole
      total leaves a grand total of 0, which the hook reads as "not set". Under
      a ceiling of 10 percent the hook then lets a discount of 100 on a total
      of 100 through, while it stops a discount of 90 on the same total; the
      standalone invoice amount check rejects both. */
  lemma FullDiscountSkipsAmountCheck()
    ensures var store := Loaded(Settings.Config(None, [Settings.Row(Some("u"), None, Some(10.0))]));
      var full := SalesDoc(0, true, None, [], None, Some(100.0), Some(0.0));
      var partial := SalesDoc(0, true, None, [], None, Some(90.0), Some(10.0));
      && ValidateUserDiscount(full, store, "u") == Proceeds
      && ValidateUserDiscount(partial, store, "u") == Throws(Abort(LimitExceededTitle, InvoiceLimit(10.0)))
      && !ValidateInvoiceDiscountAmount(store, "u", None, None, Some(100.0), Some(0.0)).isValid
      && !ValidateInvoiceDiscountAmount(store, "u", None, None, Some(90.0), Some(10.0)).isValid
  {
    var store := Loaded(Settings.Config(None, [Settings.Row(Some("u"), None, Some(10.0))]));
    var full := SalesDoc(0, true, None, [], None, Some(100.0), Some(0.0));
    var partial := SalesDoc(0, true, None, [], None, Some(90.0), Some(10.0));
    assert ResolveLimits(store, "u", None) == Limits(None, Some(10.0));
    assert ValidateUserDiscount(full, store, "u") == Proceeds by {
      assert !InvoiceAmountExceeds(full, 10.0);
    }
    assert ValidateUserDiscount(partial, store, "u") == Throws(Abort(LimitExceededTitle, InvoiceLimit(10.0))) by {
      assert PercentOf(90.0, 100.0) == 90.0;
      assert InvoiceAmountExceeds(partial, 10.0);
    }
    assert Ceiling(InvoiceScope, store, "u", None, None) == Some(10.0) by {
      assert "u" != Administrator by { assert |"u"| != |Administrator|; }
    }
    WholeTotalDiscounted(store, "u", None, None, 100.0, Some(0.0));
    assert !ValidateInvoiceDiscountAmount(store, "u", None, None, Some(90.0), Some(10.0)).isValid by {
      assert PercentOf(90.0, 10.0 + 90.0) == 90.0;
    }
  }
}
