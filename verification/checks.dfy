/**
  The four standalone discount checks: item or invoice scope, judged on a
  percentage or on an amount turned into a percentage. They never abort;
  each returns a structured verdict.
 */
module Checks {
  import opened Fields
  import opened Resolver

  datatype Scope = ItemScope | InvoiceScope

  /** The message of a verdict: empty, or the ceiling that was exceeded in
      the scope it belongs to. */
  datatype Message = NoMessage | ItemLimit(limit: real) | InvoiceLimit(limit: real)

  /** The verdict of a check. `calculatedPercentage` is reported only by the
      amount checks; the percentage checks always leave it `None`. */
  datatype CheckResult = CheckResult(isValid: bool, message: Message, maxAllowed: Option<real>, calculatedPercentage: Option<real>)

  /** The verdict when no ceiling applies. */
  const Unlimited: CheckResult := CheckResult(true, NoMessage, None, None)

  function LimitMessage(scope: Scope, limit: real): Message {
    match scope
    case ItemScope => ItemLimit(limit)
    case InvoiceScope => InvoiceLimit(limit)
  }

  function ScopeLimit(limits: Limits, scope: Scope): Option<real> {
    match scope
    case ItemScope => limits.item
    case InvoiceScope => limits.invoice
  }

  /** The user a check is about: the one passed in, else the session user. */
  function EffectiveUser(user: Option<string>, session: string): string {
    if TruthyText(user) then user.value else session
  }

  /** The ceiling that applies to a check: none for the administrator,
      otherwise the resolved ceiling of the check's scope. */
  function Ceiling(scope: Scope, store: Store, session: string, user: Option<string>, company: Option<string>): Option<real> {
    var u := EffectiveUser(user, session);
    if u == Administrator then None else ScopeLimit(ResolveLimits(store, u, company), scope)
  }

  /** Compares a percentage with a present ceiling; equality is allowed. */
  function Judge(scope: Scope, limit: real, percentage: real, calculated: Option<real>): CheckResult {
    if percentage > limit then CheckResult(false, LimitMessage(scope, limit), Some(limit), calculated)
    else CheckResult(true, NoMessage, Some(limit), calculated)
  }

  /** The shared shape of the two percentage checks. */
  function CheckPercentage(scope: Scope, store: Store, session: string, user: Option<string>,
                           company: Option<string>, discountPercentage: Option<real>): CheckResult
  {
    var u := EffectiveUser(user, session);
    if u == Administrator then Unlimited
    else match ScopeLimit(ResolveLimits(store, u, company), scope)
      case None => Unlimited
      case Some(limit) => Judge(scope, limit, OrZero(discountPercentage), None)
  }

  /** The percentage that `amount` is of `base`. */
  function PercentOf(amount: real, base: real): real
    requires base != 0.0
  {
    amount / base * 100.0
  }

  lemma PositiveProduct(x: real, y: real)
    requires x > 0.0 && y > 0.0
    ensures x * y > 0.0
  {
    assert x * y > 0.0 * y;
  }

  /** The base an item discount amount is measured against: the line's list
      price times its quantity, or nothing when either is not positive. */
  function ItemBase(priceListRate: Option<real>, qty: Option<real>): (r: Option<real>)
    ensures r.Some? <==> priceListRate.ValueOr(0.0) > 0.0 && qty.ValueOr(0.0) > 0.0
    ensures r.Some? ==> r.value > 0.0 && r.value == priceListRate.ValueOr(0.0) * qty.ValueOr(0.0)
  {
    var price := OrZero(priceListRate);
    var quantity := OrZero(qty);
    if price <= 0.0 || quantity <= 0.0 then None
    else
      PositiveProduct(price, quantity);
      var total := price * quantity;
      if total <= 0.0 then None else Some(total)
  }

  /** The base an invoice discount amount is measured against: the grand
      total before the discount (grand total plus the discount), or nothing
      when that is not positive. */
  function InvoiceBase(discountAmount: Option<real>, baseGrandTotal: Option<real>): (r: Option<real>)
    ensures r.Some? <==> baseGrandTotal.ValueOr(0.0) + discountAmount.ValueOr(0.0) > 0.0
    ensures r.Some? ==> r.value == baseGrandTotal.ValueOr(0.0) + discountAmount.ValueOr(0.0)
  {
    var amount := OrZero(discountAmount);
    var grandTotal := OrZero(baseGrandTotal);
    if grandTotal <= 0.0 && amount <= 0.0 then None
    else
      var total := grandTotal + amount;
      if total <= 0.0 then None else Some(total)
  }

  /** The shared shape of the two amount checks; a missing base counts as a
      zero discount. */
  function CheckAmount(scope: Scope, store: Store, session: string, user: Option<string>,
                       company: Option<string>, discountAmount: Option<real>, base: Option<real>): CheckResult
    requires base.Some? ==> base.value > 0.0
  {
    var u := EffectiveUser(user, session);
    if u == Administrator then Unlimited
    else match ScopeLimit(ResolveLimits(store, u, company), scope)
      case None => Unlimited
      case Some(limit) =>
        match base
        case None => CheckResult(true, NoMessage, Some(limit), Some(0.0))
        case Some(b) =>
          var percentage := PercentOf(OrZero(discountAmount), b);
          Judge(scope, limit, percentage, Some(percentage))
  }

  /** A verdict's message is empty exactly when it is valid, and otherwise
      names the ceiling it reports in the given scope. */
  predicate MessageFits(r: CheckResult, scope: Scope) {
    && (r.isValid <==> r.message == NoMessage)
    && (!r.isValid ==> r.maxAllowed.Some? && r.message == LimitMessage(scope, r.maxAllowed.value))
  }

  function ValidateItemDiscountPercentage(store: Store, session: string, user: Option<string>,
                                          company: Option<string>, discountPercentage: Option<real>): (r: CheckResult)
    ensures EffectiveUser(user, session) == Administrator ==> r == Unlimited
    ensures Ceiling(ItemScope, store, session, user, company).None? ==> r == Unlimited
    ensures var c := Ceiling(ItemScope, store, session, user, company);
      c.Some? ==>
        && r.maxAllowed == c
        && r.calculatedPercentage.None?
        && (r.isValid <==> discountPercentage.ValueOr(0.0) <= c.value)
    ensures MessageFits(r, ItemScope)
  {
    CheckPercentage(ItemScope, store, session, user, company, discountPercentage)
  }

  function ValidateItemDiscountAmount(store: Store, session: string, user: Option<string>, company: Option<string>,
                                      discountAmount: Option<real>, priceListRate: Option<real>, qty: Option<real>): (r: CheckResult)
    ensures EffectiveUser(user, session) == Administrator ==> r == Unlimited
    ensures Ceiling(ItemScope, store, session, user, company).None? ==> r == Unlimited
    ensures var c := Ceiling(ItemScope, store, session, user, company);
      var price := priceListRate.ValueOr(0.0);
      var quantity := qty.ValueOr(0.0);
      c.Some? ==>
        && r.maxAllowed == c
        && ((price <= 0.0 || quantity <= 0.0) ==> r.isValid && r.calculatedPercentage == Some(0.0))
        && ((price > 0.0 && quantity > 0.0) ==>
              && r.calculatedPercentage == Some(PercentOf(discountAmount.ValueOr(0.0), price * quantity))
              && (r.isValid <==> r.calculatedPercentage.value <= c.value))
    ensures MessageFits(r, ItemScope)
  {
    CheckAmount(ItemScope, store, session, user, company, discountAmount, ItemBase(priceListRate, qty))
  }

  function ValidateInvoiceDiscountPercentage(store: Store, session: string, user: Option<string>,
                                             company: Option<string>, discountPercentage: Option<real>): (r: CheckResult)
    ensures EffectiveUser(user, session) == Administrator ==> r == Unlimited
    ensures Ceiling(InvoiceScope, store, session, user, company).None? ==> r == Unlimited
    ensures var c := Ceiling(InvoiceScope, store, session, user, company);
      c.Some? ==>
        && r.maxAllowed == c
        && r.calculatedPercentage.None?
        && (r.isValid <==> discountPercentage.ValueOr(0.0) <= c.value)
    ensures MessageFits(r, InvoiceScope)
  {
    CheckPercentage(InvoiceScope, store, session, user, company, discountPercentage)
  }

  function ValidateInvoiceDiscountAmount(store: Store, session: string, user: Option<string>, company: Option<string>,
                                         discountAmount: Option<real>, baseGrandTotal: Option<real>): (r: CheckResult)
    ensures EffectiveUser(user, session) == Administrator ==> r == Unlimited
    ensures Ceiling(InvoiceScope, store, session, user, company).None? ==> r == Unlimited
    ensures var c := Ceiling(InvoiceScope, store, session, user, company);
      var amount := discountAmount.ValueOr(0.0);
      var grandTotal := baseGrandTotal.ValueOr(0.0);
      c.Some? ==>
        && r.maxAllowed == c
        && (grandTotal + amount <= 0.0 ==> r.isValid && r.calculatedPercentage == Some(0.0))
        && (grandTotal + amount > 0.0 ==>
              && r.calculatedPercentage == Some(PercentOf(amount, grandTotal + amount))
              && (r.isValid <==> r.calculatedPercentage.value <= c.value))
    ensures MessageFits(r, InvoiceScope)
  {
    CheckAmount(InvoiceScope, store, session, user, company, discountAmount, InvoiceBase(discountAmount, baseGrandTotal))
  }

  // Facts about the ratio `amount / base * 100` used by the amount checks.

  lemma DivOfMul(q: real, b: real)
    requires b > 0.0
    ensures (q * b) / b == q
  {
  }

  lemma PercentOfShare(p: real, b: real)
    requires b > 0.0
    ensures PercentOf(p * b / 100.0, b) == p
  {
    assert p * b / 100.0 == (p / 100.0) * b;
    DivOfMul(p / 100.0, b);
  }

  lemma ShareAtMostWhole(a: real, t: real)
    requires 0.0 < a <= t
    ensures 0.0 < PercentOf(a, t) <= 100.0
    ensures a < t ==> PercentOf(a, t) < 100.0
  {
    assert a / t * t == a;
  }

  lemma ShareMonotone(x: real, y: real, b: real)
    requires x <= y && b > 0.0
    ensures PercentOf(x, b) <= PercentOf(y, b)
  {
    assert x / b * b == x;
    assert y / b * b == y;
  }

  /** A user without a row of their own passes all four checks, with no
      ceiling reported. */
  lemma NoEntryAllValid(store: Store, session: string, user: Option<string>, company: Option<string>,
                        percentage: Option<real>, amount: Option<real>, priceListRate: Option<real>,
                        qty: Option<real>, baseGrandTotal: Option<real>)
    requires store.Loaded? ==>
      forall i :: 0 <= i < |store.config.table| ==> store.config.table[i].user != Some(EffectiveUser(user, session))
    ensures ValidateItemDiscountPercentage(store, session, user, company, percentage) == Unlimited
    ensures ValidateItemDiscountAmount(store, session, user, company, amount, priceListRate, qty) == Unlimited
    ensures ValidateInvoiceDiscountPercentage(store, session, user, company, percentage) == Unlimited
    ensures ValidateInvoiceDiscountAmount(store, session, user, company, amount, baseGrandTotal) == Unlimited
  {
    NoEntryUnrestricted(store, EffectiveUser(user, session), company);
  }

  /** Lowering a discount percentage never turns an accepted one into a
      rejected one. */
  lemma PercentageMonotone(scope: Scope, store: Store, session: string, user: Option<string>,
                           company: Option<string>, lower: Option<real>, higher: Option<real>)
    requires lower.ValueOr(0.0) <= higher.ValueOr(0.0)
    requires CheckPercentage(scope, store, session, user, company, higher).isValid
    ensures CheckPercentage(scope, store, session, user, company, lower).isValid
  {
  }

  /** For a line with a positive price and quantity, the item amount check
      is the item percentage check applied to the percentage the amount
      amounts to. */
  lemma ItemAmountIsPercentageOfLine(store: Store, session: string, user: Option<string>, company: Option<string>,
                                     discountAmount: Option<real>, priceListRate: Option<real>, qty: Option<real>)
    requires priceListRate.ValueOr(0.0) > 0.0 && qty.ValueOr(0.0) > 0.0
    requires Ceiling(ItemScope, store, session, user, company).Some?
    ensures var byAmount := ValidateItemDiscountAmount(store, session, user, company, discountAmount, priceListRate, qty);
      var byPercentage := ValidateItemDiscountPercentage(store, session, user, company, byAmount.calculatedPercentage);
      && byAmount.calculatedPercentage.Some?
      && byAmount.isValid == byPercentage.isValid
      && byAmount.message == byPercentage.message
      && byAmount.maxAllowed == byPercentage.maxAllowed
  {
  }

  /** Round trip: granting `percentage` percent of a line's list value as an
      amount is measured back as exactly `percentage`, and judged as that
      percentage would be. */
  lemma ItemAmountRoundTrip(store: Store, session: string, user: Option<string>, company: Option<string>,
                            percentage: real, price: real, quantity: real)
    requires price > 0.0 && quantity > 0.0
    requires Ceiling(ItemScope, store, session, user, company).Some?
    ensures var amount := percentage * (price * quantity) / 100.0;
      var byAmount := ValidateItemDiscountAmount(store, session, user, company, Some(amount), Some(price), Some(quantity));
      && byAmount.calculatedPercentage == Some(percentage)
      && byAmount.isValid == ValidateItemDiscountPercentage(store, session, user, company, Some(percentage)).isValid
  {
    PositiveProduct(price, quantity);
    PercentOfShare(percentage, price * quantity);
  }

  /** Round trip: a discount of `percentage` percent taken off a pre-discount
      total leaves a grand total from which the invoice amount check
      measures exactly `percentage` back. The base is the total before the
      discount, not the grand total after it. */
  lemma InvoiceAmountRoundTrip(store: Store, session: string, user: Option<string>, company: Option<string>,
                               percentage: real, totalBeforeDiscount: real)
    requires totalBeforeDiscount > 0.0
    requires Ceiling(InvoiceScope, store, session, user, company).Some?
    ensures var amount := percentage * totalBeforeDiscount / 100.0;
      var byAmount := ValidateInvoiceDiscountAmount(store, session, user, company,
                                                    Some(amount), Some(totalBeforeDiscount - amount));
      && byAmount.calculatedPercentage == Some(percentage)
      && byAmount.isValid == ValidateInvoiceDiscountPercentage(store, session, user, company, Some(percentage)).isValid
  {
    var amount := percentage * totalBeforeDiscount / 100.0;
    assert (totalBeforeDiscount - amount) + amount == totalBeforeDiscount;
    PercentOfShare(percentage, totalBeforeDiscount);
  }

  /** A positive invoice discount on a non-negative grand total is a share
      of the pre-discount total: above 0 and at most 100 percent, and below
      100 percent once anything is left to pay. */
  lemma InvoiceAmountShareBounded(store: Store, session: string, user: Option<string>, company: Option<string>,
                                  amount: real, grandTotal: real)
    requires amount > 0.0 && grandTotal >= 0.0
    requires Ceiling(InvoiceScope, store, session, user, company).Some?
    ensures var r := ValidateInvoiceDiscountAmount(store, session, user, company, Some(amount), Some(grandTotal));
      && r.calculatedPercentage.Some?
      && 0.0 < r.calculatedPercentage.value <= 100.0
      && (grandTotal > 0.0 ==> r.calculatedPercentage.value < 100.0)
  {
    ShareAtMostWhole(amount, grandTotal + amount);
  }

  /** A discount that takes the whole total, leaving a grand total of 0 or
      none at all, measures as exactly 100 percent, so it passes only under a
      ceiling of 100. */
  lemma WholeTotalDiscounted(store: Store, session: string, user: Option<string>, company: Option<string>,
                             amount: real, grandTotal: Option<real>)
    requires amount > 0.0 && !Truthy(grandTotal)
    requires Ceiling(InvoiceScope, store, session, user, company).Some?
    ensures var r := ValidateInvoiceDiscountAmount(store, session, user, company, Some(amount), grandTotal);
      && r.calculatedPercentage == Some(100.0)
      && (r.isValid <==> Ceiling(InvoiceScope, store, session, user, company).value >= 100.0)
  {
    assert grandTotal.ValueOr(0.0) + amount == amount;
    assert amount / amount == 1.0;
  }

  /** A larger discount amount on the same line is never judged more
      leniently. */
  lemma ItemAmountMonotone(store: Store, session: string, user: Option<string>, company: Option<string>,
                           lower: real, higher: real, priceListRate: Option<real>, qty: Option<real>)
    requires lower <= higher
    requires ValidateItemDiscountAmount(store, session, user, company, Some(higher), priceListRate, qty).isValid
    ensures ValidateItemDiscountAmount(store, session, user, company, Some(lower), priceListRate, qty).isValid
  {
    var base := ItemBase(priceListRate, qty);
    if base.Some? {
      ShareMonotone(lower, higher, base.value);
    }
  }
}
