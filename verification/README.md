# User discount ceilings — a Dafny model

This project models the discount-ceiling policy of the `user_max_discount`
application for a business suite. An administrator records, per user, a maximum
item-level discount percentage and a maximum invoice-level discount percentage.
The settings may be scoped to one company. The policy then decides whether a
proposed discount stays within the acting user's ceiling. The model covers five
parts:

- **Settings validation** (`Settings`): the save-time check of the "User
  Discount" singleton. It refuses a table in which a non-empty user appears
  twice, or in which a set percentage of a row with a non-empty user lies
  outside [0, 100]. A row with an empty user is not checked at all.
- **Limit resolution** (`Resolver`): the item and invoice ceilings of a user
  for a company. An absent ceiling means unrestricted. A failed load fails
  open.
- **Standalone checks** (`Checks`): item or invoice scope, by percentage or by
  amount. Each returns a structured verdict: validity, message, ceiling, and
  (for amount checks) the derived percentage. A check called without a user,
  or with an empty one, judges the session user.
- **Document hook** (`Hook`): the pre-save hook on sales orders and invoices.
  On a new draft it aborts the save at the first discount over the ceiling,
  with the title "Discount Limit Exceeded".
- **Field values** (`Fields`): fields may be missing and are read with the
  host language's truthiness. A missing number and a zero both mean "not
  set", and so do a missing text and an empty one.

Numbers are exact rationals (`real`). The settings singleton is a `Store`
parameter, either `Loaded(config)` or `LoadFailed`. The session user is a
`string` parameter. A save either `Proceeds` or `Throws` an error value; the
type is `Save`. Messages are the datatype `Message`: `NoMessage`, `ItemLimit(l)`
or `InvoiceLimit(l)`.

The percentage checks return no `calculated_percentage` key at all. The model
gives them a `calculatedPercentage` field that is always `None`.

The amount checks' guards for an impossible base are kept as written: a product
of two positive numbers is never `<= 0`, and a base of `grand_total + amount`
that passes the first guard is handled by the second. `ItemBase` and
`InvoiceBase` state what the guards amount to.

### The hook against the standalone checks

`Hook.RejectionAgreesWithChecks` shows one direction: every abort of the hook
is matched by a standalone check. That check is asked about the same user,
company and field, and it rejects with the same message. The field is the
first line over the item ceiling when there is one, else a document-level
field.

The converse, `Hook.AcceptanceAgreesWithChecks`, needs two conditions:
- the resolved ceilings are not negative, which settings that passed
  validation guarantee (`Resolver.AcceptedLimitsInRange`);
- the document's grand total is set.

The hook tests the document-level amount only when both `discount_amount` and
`base_grand_total` are set, and a grand total of 0 counts as not set. The
standalone invoice amount check, given a grand total of 0 or none and a
positive amount, measures the discount as 100 percent. It rejects it under any
ceiling below 100 (`Checks.WholeTotalDiscounted`).
`Hook.UnsetGrandTotalSkipsAmountCheck` gives a concrete document for which the
two disagree. `Hook.FullDiscountSkipsAmountCheck` gives the realistic case: a
discount that takes the whole total leaves a grand total of 0. Under a ceiling
of 10 percent the hook then accepts a discount of 100 on a total of 100, but
stops a discount of 90 on the same total.

## Model

| member | source | states |
|---|---|---|
| `Fields.OrZero` | user_max_discount/user_max_discount/doctype/user_discount/user_discount.py:111 | reading a field "if set, else 0" is the same as taking its value or 0: a stored zero and a missing value read alike |
| `Settings.ValidateAccepts` | user_max_discount/user_max_discount/doctype/user_discount/user_discount.py:11-37 | the settings save passes exactly when no non-empty user appears on two rows and every set bound of a row with a non-empty user lies in [0, 100] |
| `Settings.ValidateReportsFirstOffence` | user_max_discount/user_max_discount/doctype/user_discount/user_discount.py:14-37 | the first row that breaks acceptability decides the error and names its user; a repeated user is reported as a duplicate before its bounds are looked at, and the item bound is reported before the invoice bound |
| `Settings.ValidateFailsAtFirstOffence` | user_max_discount/user_max_discount/doctype/user_discount/user_discount.py:14-37 | the save fails with the error that the first offending row raises against the users listed before it |
| `Settings.RejectedHasFirstOffence` | user_max_discount/user_max_discount/doctype/user_discount/user_discount.py:14-37 | an unacceptable table has a first offending row, so `Settings.ValidateReportsFirstOffence` describes every rejected save |
| `Settings.UnlistedRowIgnored` | user_max_discount/user_max_discount/doctype/user_discount/user_discount.py:14-15 | a row with an empty user does not change the verdict wherever it is inserted, even when its bounds are outside [0, 100] |
| `Settings.ValidateRowsPass` | user_max_discount/user_max_discount/doctype/user_discount/user_discount.py:13-37 | once an accepted prefix has been walked, with its users remembered, the remaining walk passes exactly when the whole table is acceptable |
| `Settings.ValidateRowsFirst` | user_max_discount/user_max_discount/doctype/user_discount/user_discount.py:13-37 | the walk fails with the error of the first row that raises one after an accepted prefix, whatever rows follow |
| `Settings.AcceptedSnoc` | user_max_discount/user_max_discount/doctype/user_discount/user_discount.py:15-37 | an acceptable table stays acceptable after one more row exactly when that row raises no error against the users already listed |
| `Resolver.FindUser` | user_max_discount/user_max_discount/doctype/user_discount/user_discount.py:62-63 | the search returns the first row whose user equals the argument, or reports that no row does |
| `Resolver.StoredBound` | user_max_discount/user_max_discount/doctype/user_discount/user_discount.py:65-66 | a stored bound of 0 becomes "no ceiling"; any other stored value, or none, is kept as it is |
| `Resolver.ResolveLimits` | user_max_discount/user_max_discount/doctype/user_discount/user_discount.py:54-75 | a failed load and settings scoped to another company both give no ceilings; a resolved ceiling is never 0; any ceiling at all comes from a row of that user |
| `Resolver.NoEntryUnrestricted` | user_max_discount/user_max_discount/doctype/user_discount/user_discount.py:69-70 | a user without a row is unrestricted for every company |
| `Resolver.FirstMatchWins` | user_max_discount/user_max_discount/doctype/user_discount/user_discount.py:62-67 | when the settings apply, the first row of the user supplies both ceilings, each dropped when unset or 0; later rows of the same user are ignored |
| `Resolver.CompanyOnlyFilters` | user_max_discount/user_max_discount/doctype/user_discount/user_discount.py:57-59 | unless the caller's company and the settings' company are both set and differ, the company has no effect on the result |
| `Resolver.AcceptedLimitsInRange` | user_max_discount/user_max_discount/doctype/user_discount/user_discount.py:62-67 | for settings that passed their save-time check, every ceiling resolved for a non-empty user is above 0 and at most 100 |
| `Checks.ItemBase` | user_max_discount/user_max_discount/doctype/user_discount/user_discount.py:160-168 | an item amount has a base exactly when the list price and the quantity (unset read as 0) are both positive, and the base is then price × quantity, which is positive |
| `Checks.InvoiceBase` | user_max_discount/user_max_discount/doctype/user_discount/user_discount.py:264-273 | an invoice amount has a base exactly when grand total plus discount (unset read as 0) is positive, and the base is then that sum |
| `Checks.ValidateItemDiscountPercentage` | user_max_discount/user_max_discount/doctype/user_discount/user_discount.py:95-120 | the administrator and a user with no item ceiling get a valid verdict with no ceiling; otherwise the verdict carries the ceiling and is valid exactly when the percentage (unset read as 0) is at most the ceiling; a rejection carries the item message with the ceiling, an acceptance the empty message |
| `Checks.ValidateItemDiscountAmount` | user_max_discount/user_max_discount/doctype/user_discount/user_discount.py:143-181 | as the item percentage check, except that a non-positive price or quantity is valid with derived percentage 0, and otherwise the derived percentage is amount / (price × quantity) × 100 and the verdict is valid exactly when it is at most the ceiling |
| `Checks.ValidateInvoiceDiscountPercentage` | user_max_discount/user_max_discount/doctype/user_discount/user_discount.py:201-226 | the invoice-scope counterpart of the item percentage check, with the invoice message |
| `Checks.ValidateInvoiceDiscountAmount` | user_max_discount/user_max_discount/doctype/user_discount/user_discount.py:248-286 | with an invoice ceiling: a non-positive grand total plus amount is valid with derived percentage 0; otherwise the derived percentage is amount / (grand total + amount) × 100 and the verdict is valid exactly when it is at most the ceiling |
| `Checks.NoEntryAllValid` | user_max_discount/user_max_discount/doctype/user_discount/user_discount.py:102-108 | a user without a row passes all four checks with no ceiling reported, for every company |
| `Checks.PercentageMonotone` | user_max_discount/user_max_discount/doctype/user_discount/user_discount.py:111-120 | lowering a percentage never turns an accepted discount into a rejected one |
| `Checks.ItemAmountIsPercentageOfLine` | user_max_discount/user_max_discount/doctype/user_discount/user_discount.py:170-181 | for a line with positive price and quantity, the amount check gives the same validity, message and ceiling as the percentage check applied to the derived percentage |
| `Checks.ItemAmountRoundTrip` | user_max_discount/user_max_discount/doctype/user_discount/user_discount.py:166-170 | granting p percent of price × quantity as an amount is measured back as exactly p, and judged as p would be |
| `Checks.InvoiceAmountRoundTrip` | user_max_discount/user_max_discount/doctype/user_discount/user_discount.py:270-275 | taking p percent off a pre-discount total, with the rest as grand total, is measured back as exactly p: the base is the total before the discount |
| `Checks.InvoiceAmountShareBounded` | user_max_discount/user_max_discount/doctype/user_discount/user_discount.py:267-275 | a positive invoice discount on a non-negative grand total measures above 0 and at most 100 percent, and below 100 once the grand total is positive |
| `Checks.ItemAmountMonotone` | user_max_discount/user_max_discount/doctype/user_discount/user_discount.py:158-181 | on the same line, a smaller discount amount is accepted whenever a larger one is |
| `Hook.FirstOverLimit` | user_max_discount/user_max_discount/doctype/user_discount/user_discount.py:314-338 | the walk over the lines finds the first line whose set percentage, or whose fully set amount on a positive price and quantity, exceeds the item ceiling; no earlier line exceeds it, and when none is found no line exceeds it |
| `Hook.ValidateUserDiscount` | user_max_discount/user_max_discount/doctype/user_discount/user_discount.py:289-366 | never aborts a submitted or cancelled document, one already saved, or the administrator's; otherwise aborts exactly when a line exceeds a present item ceiling or a document-level field exceeds a present invoice ceiling; the abort carries the fixed title and the item message when a line exceeds, else the invoice message |
| `Hook.AbsentItemLimitSkipsLines` | user_max_discount/user_max_discount/doctype/user_discount/user_discount.py:310-314 | with no item ceiling, the verdict equals the verdict for the same document without lines |
| `Hook.AbsentInvoiceLimitSkipsDocumentFields` | user_max_discount/user_max_discount/doctype/user_discount/user_discount.py:340-345 | with no invoice ceiling, the verdict equals the verdict for the same document with its document-level discount fields cleared |
| `Hook.RejectionAgreesWithChecks` | user_max_discount/user_max_discount/doctype/user_discount/user_discount.py:314-366 | every abort of the hook is matched by a standalone check with the same message: one of the item checks rejects the first line over the item ceiling if there is one, else one of the invoice checks rejects the document |
| `Hook.LineRejectionAgrees` | user_max_discount/user_max_discount/doctype/user_discount/user_discount.py:314-338 | a line over a present item ceiling is rejected, with the item message, by the standalone item percentage check or the item amount check |
| `Hook.DocumentRejectionAgrees` | user_max_discount/user_max_discount/doctype/user_discount/user_discount.py:341-366 | document fields over a present invoice ceiling are rejected, with the invoice message, by the standalone invoice percentage check or the invoice amount check |
| `Hook.LineAcceptanceAgrees` | user_max_discount/user_max_discount/doctype/user_discount/user_discount.py:314-338 | a line the hook accepts under a non-negative item ceiling passes both standalone item checks |
| `Hook.DocumentAcceptanceAgrees` | user_max_discount/user_max_discount/doctype/user_discount/user_discount.py:341-366 | document fields the hook accepts under a non-negative invoice ceiling pass the invoice percentage check, and the invoice amount check when the grand total is set |
| `Hook.AcceptanceAgreesWithChecks` | user_max_discount/user_max_discount/doctype/user_discount/user_discount.py:311-366 | a document the active hook accepts under non-negative ceilings passes every standalone check on every line and on its percentage, and on its amount when the grand total is set |
| `Checks.WholeTotalDiscounted` | user_max_discount/user_max_discount/doctype/user_discount/user_discount.py:264-278 | an invoice discount that leaves a grand total of 0 or none measures exactly 100 percent, and is valid exactly when the ceiling is at least 100 |
| `Hook.UnsetGrandTotalSkipsAmountCheck` | user_max_discount/user_max_discount/doctype/user_discount/user_discount.py:354-358 | a concrete document with an unset grand total passes the hook while the standalone invoice amount check rejects its amount |
| `Hook.FullDiscountSkipsAmountCheck` | user_max_discount/user_max_discount/doctype/user_discount/user_discount.py:354-366 | under a 10 percent ceiling the hook accepts a discount of 100 that leaves a grand total of 0, yet rejects a discount of 90 on the same pre-discount total; the standalone check rejects both |

## Left out

- The browser form handlers `public/js/sales_order.js` and `public/js/sales_invoice.js` are not modelled. They only make remote calls to the four checks, show pop-ups and reset fields to 0.
- Error logging in the resolver's failure path is not modelled. Any exception inside the lookup is modelled as the `LoadFailed` store.
- Message text is not modelled: translation, bold markup and the printing of a number inside `{0}%`. A message is the ceiling and its scope.
- Floating-point behaviour is not modelled, nor the string parsing and rounding of `flt`. Numbers are exact rationals, and inputs arrive already as optional numbers.
- Document storage, `doc.get`, the `__islocal` marker and hook registration are not modelled. A document is a record with a draft status, a "never saved" flag, a company, lines and three discount fields. The hook's unused `method` argument is dropped.
- A table that is `None` in the settings is modelled as an empty sequence, which is how both loops treat it.
