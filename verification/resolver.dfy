/**
  The limit resolver: which item-level and invoice-level ceilings apply to
  a user working for a company. An absent ceiling means "unrestricted".
 */
module Resolver {
  import opened Fields
  import opened Settings

  /** Loading the singleton settings record either yields it or fails. */
  datatype Store = LoadFailed | Loaded(config: Config)

  /** The two ceilings, in percent; `None` is unrestricted. */
  datatype Limits = Limits(item: Option<real>, invoice: Option<real>)

  const Unrestricted: Limits := Limits(None, None)

  /** The settings are scoped to another company: both the caller and the
      settings name a company, and the names differ. */
  predicate OtherCompany(configured: Option<string>, company: Option<string>) {
    TruthyText(company) && TruthyText(configured) && configured.value != company.value
  }

  /** The index of the first row whose user is exactly `user`. */
  function FindUser(rows: seq<Row>, user: string): (r: Option<nat>)
    ensures r.Some? ==> r.value < |rows| && rows[r.value].user == Some(user)
    ensures r.Some? ==> forall j :: 0 <= j < r.value ==> rows[j].user != Some(user)
    ensures r.None? ==> forall j :: 0 <= j < |rows| ==> rows[j].user != Some(user)
    decreases |rows|
  {
    if rows == [] then None
    else if rows[0].user == Some(user) then Some(0)
    else match FindUser(rows[1..], user)
      case None => None
      case Some(k) => Some(k + 1)
  }

  /** A stored bound read as a ceiling: a stored 0 (or nothing) means no
      ceiling, not a ceiling of 0. */
  function StoredBound(x: Option<real>): (r: Option<real>)
    ensures r == (if x == Some(0.0) then None else x)
  {
    if Truthy(x) then Some(x.value) else None
  }

  /** The ceilings for `user` under `company`. A failed load fails open. */
  function ResolveLimits(store: Store, user: string, company: Option<string>): (r: Limits)
    ensures store.LoadFailed? ==> r == Unrestricted
    ensures store.Loaded? && OtherCompany(store.config.company, company) ==> r == Unrestricted
    ensures r.item != Some(0.0) && r.invoice != Some(0.0)
    ensures r != Unrestricted ==>
      store.Loaded? && exists i :: 0 <= i < |store.config.table| && store.config.table[i].user == Some(user)
  {
    match store
    case LoadFailed => Unrestricted
    case Loaded(config) =>
      if OtherCompany(config.company, company) then Unrestricted
      else match FindUser(config.table, user)
        case None => Unrestricted
        case Some(i) => Limits(StoredBound(config.table[i].itemPercentage), StoredBound(config.table[i].invoicePercentage))
  }

  /** A user with no row of their own is unrestricted, whatever the company. */
  lemma NoEntryUnrestricted(store: Store, user: string, company: Option<string>)
    requires store.Loaded? ==> forall i :: 0 <= i < |store.config.table| ==> store.config.table[i].user != Some(user)
    ensures ResolveLimits(store, user, company) == Unrestricted
  {
  }

  /** When the settings apply, the first row for the user supplies both
      ceilings, and later rows for the same user are never consulted. */
  lemma FirstMatchWins(config: Config, user: string, company: Option<string>, i: nat)
    requires !OtherCompany(config.company, company)
    requires i < |config.table| && config.table[i].user == Some(user)
    requires forall j :: 0 <= j < i ==> config.table[j].user != Some(user)
    ensures var row := config.table[i];
      ResolveLimits(Loaded(config), user, company) ==
        Limits(if Truthy(row.itemPercentage) then row.itemPercentage else None,
               if Truthy(row.invoicePercentage) then row.invoicePercentage else None)
  {
    var k := FindUser(config.table, user);
    assert k.Some? by {
      assert config.table[i].user == Some(user);
    }
  }

  /** The company only ever switches the settings off: when it does not,
      the result is the same as asking without a company. */
  lemma CompanyOnlyFilters(store: Store, user: string, company: Option<string>)
    requires !(store.Loaded? && OtherCompany(store.config.company, company))
    ensures ResolveLimits(store, user, company) == ResolveLimits(store, user, None)
  {
  }

  /** Settings that passed their save-time check give every user with a
      non-empty name ceilings strictly above 0 and at most 100. */
  lemma AcceptedLimitsInRange(config: Config, user: string, company: Option<string>)
    requires Validate(config) == Proceeds
    requires user != ""
    ensures var r := ResolveLimits(Loaded(config), user, company);
      && (r.item.Some? ==> 0.0 < r.item.value <= 100.0)
      && (r.invoice.Some? ==> 0.0 < r.invoice.value <= 100.0)
  {
    ValidateAccepts(config);
    var k := FindUser(config.table, user);
    if !OtherCompany(config.company, company) && k.Some? {
      assert Listed(config.table[k.value]);
    }
  }
}
