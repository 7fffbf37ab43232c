/**
  The "User Discount" settings record: an optional company and a table of
  per-user discount ceilings, together with the check that runs every time
  the record is saved.
 */
module Settings {
  import opened Fields

  /** One row of the settings table. */
  datatype Row = Row(user: Option<string>, itemPercentage: Option<real>, invoicePercentage: Option<real>)

  /** The singleton settings record. */
  datatype Config = Config(company: Option<string>, table: seq<Row>)

  /** Why a save of the settings record is refused; each names the offending user. */
  datatype ConfigError =
    | DuplicateUser(user: string)
    | ItemPercentageOutOfRange(user: string)
    | InvoicePercentageOutOfRange(user: string)

  /** A row takes part in validation only when its user is set. */
  predicate Listed(row: Row) {
    TruthyText(row.user)
  }

  /** An unset bound is always fine; a set one must lie in [0, 100]. */
  predicate InPercentRange(x: Option<real>) {
    !Truthy(x) || (0.0 <= x.value && x.value <= 100.0)
  }

  /** The users of the listed rows of `rows`. */
  function UsersOf(rows: seq<Row>): set<string> {
    set i | 0 <= i < |rows| && Listed(rows[i]) :: rows[i].user.value
  }

  /** The error, if any, that `row` raises when the users in `seen` came
      before it: the duplicate test comes first, then the item bound, then
      the invoice bound. */
  function RowError(row: Row, seen: set<string>): Option<ConfigError> {
    if !Listed(row) then None
    else if row.user.value in seen then Some(DuplicateUser(row.user.value))
    else if !InPercentRange(row.itemPercentage) then Some(ItemPercentageOutOfRange(row.user.value))
    else if !InPercentRange(row.invoicePercentage) then Some(InvoicePercentageOutOfRange(row.user.value))
    else None
  }

  /** Walks `rows` in order, remembering the users listed so far in `seen`,
      and stops at the first row that raises an error. */
  function ValidateRows(rows: seq<Row>, seen: set<string>): Save<ConfigError>
    decreases |rows|
  {
    if rows == [] then Proceeds
    else match RowError(rows[0], seen)
      case Some(e) => Throws(e)
      case None => ValidateRows(rows[1..], if Listed(rows[0]) then seen + {rows[0].user.value} else seen)
  }

  /** The save-time check of the settings record. */
  function Validate(config: Config): Save<ConfigError> {
    ValidateRows(config.table, {})
  }

  /** What an acceptable table is: no set user appears on two rows, and the
      set bounds of every row with a set user lie in [0, 100]. Rows without
      a user are not constrained at all. */
  ghost predicate Accepted(rows: seq<Row>) {
    && (forall i, j :: 0 <= i < j < |rows| && Listed(rows[i]) ==> rows[i].user != rows[j].user)
    && (forall i :: 0 <= i < |rows| && Listed(rows[i]) ==>
          InPercentRange(rows[i].itemPercentage) && InPercentRange(rows[i].invoicePercentage))
  }

  lemma UsersOfSnoc(rows: seq<Row>, r: Row)
    ensures UsersOf(rows + [r]) == UsersOf(rows) + (if Listed(r) then {r.user.value} else {})
  {
    var rs := rows + [r];
    forall u | u in UsersOf(rs)
      ensures u in UsersOf(rows) + (if Listed(r) then {r.user.value} else {})
    {
      var i :| 0 <= i < |rs| && Listed(rs[i]) && rs[i].user.value == u;
      if i < |rows| {
        assert rs[i] == rows[i];
      }
    }
    forall u | u in UsersOf(rows)
      ensures u in UsersOf(rs)
    {
      var i :| 0 <= i < |rows| && Listed(rows[i]) && rows[i].user.value == u;
      assert rs[i] == rows[i];
    }
    if Listed(r) {
      assert rs[|rows|] == r;
    }
  }

  /** Extending an accepted table by one row keeps it accepted exactly when
      that row raises no error after the earlier rows. */
  lemma AcceptedSnoc(rows: seq<Row>, r: Row)
    ensures Accepted(rows + [r]) <==> Accepted(rows) && RowError(r, UsersOf(rows)).None?
  {
    var rs := rows + [r];
    assert forall i :: 0 <= i < |rows| ==> rs[i] == rows[i];
    assert rs[|rows|] == r;
    if Accepted(rs) && Listed(r) {
      forall i | 0 <= i < |rows| && Listed(rows[i])
        ensures rows[i].user.value != r.user.value
      {
        assert rs[i].user != rs[|rows|].user;
      }
    }
    if Accepted(rows) && RowError(r, UsersOf(rows)).None? {
      forall i, j | 0 <= i < j < |rs| && Listed(rs[i])
        ensures rs[i].user != rs[j].user
      {
        if j == |rows| && Listed(r) {
          assert rows[i].user.value in UsersOf(rows);
        }
      }
    }
  }

  lemma {:induction false} AcceptedPrefix(rows: seq<Row>, k: nat)
    requires Accepted(rows) && k <= |rows|
    ensures Accepted(rows[..k])
  {
    assert forall i :: 0 <= i < k ==> rows[..k][i] == rows[i];
  }

  /** One step of the walk over a row that raises no error. */
  lemma ValidateRowsStep(rows: seq<Row>, seen: set<string>)
    requires rows != [] && RowError(rows[0], seen).None?
    ensures ValidateRows(rows, seen) == ValidateRows(rows[1..], seen + (if Listed(rows[0]) then {rows[0].user.value} else {}))
  {
    if !Listed(rows[0]) {
      assert seen + {} == seen;
    }
  }

  /** Once the rows in `done` are accepted and `seen` holds their users,
      walking the remaining rows passes exactly when the whole table is
      accepted. */
  lemma {:induction false} ValidateRowsPass(done: seq<Row>, rest: seq<Row>)
    requires Accepted(done)
    ensures ValidateRows(rest, UsersOf(done)) == Proceeds <==> Accepted(done + rest)
    decreases |rest|
  {
    if rest == [] {
      assert done + rest == done;
    } else {
      var r := rest[0];
      AcceptedSnoc(done, r);
      assert done + rest == (done + [r]) + rest[1..];
      if RowError(r, UsersOf(done)).Some? {
        if Accepted(done + rest) {
          assert (done + rest)[..|done| + 1] == done + [r];
          AcceptedPrefix(done + rest, |done| + 1);
        }
      } else {
        UsersOfSnoc(done, r);
        assert ValidateRows(rest, UsersOf(done)) == ValidateRows(rest[1..], UsersOf(done + [r])) by {
          ValidateRowsStep(rest, UsersOf(done));
        }
        ValidateRowsPass(done + [r], rest[1..]);
      }
    }
  }

  /** If the rows of `mid` raise no error after `done` and row `bad` does,
      the walk over `mid`, `bad` and whatever follows fails with `bad`'s error. */
  lemma {:induction false} ValidateRowsFirst(done: seq<Row>, mid: seq<Row>, bad: Row, tail: seq<Row>)
    requires Accepted(done + mid)
    requires RowError(bad, UsersOf(done + mid)).Some?
    ensures ValidateRows(mid + [bad] + tail, UsersOf(done)) == Throws(RowError(bad, UsersOf(done + mid)).value)
    decreases |mid|
  {
    if mid == [] {
      assert done + mid == done;
      assert mid + [bad] + tail == [bad] + tail;
    } else {
      var r := mid[0];
      var rs := mid + [bad] + tail;
      assert rs[0] == r;
      assert rs[1..] == mid[1..] + [bad] + tail;
      assert done + mid == (done + [r]) + mid[1..];
      assert (done + mid)[..|done| + 1] == done + [r];
      AcceptedPrefix(done + mid, |done| + 1);
      AcceptedSnoc(done, r);
      UsersOfSnoc(done, r);
      ValidateRowsStep(rs, UsersOf(done));
      ValidateRowsFirst(done + [r], mid[1..], bad, tail);
    }
  }

  /** A save is accepted exactly when the table is acceptable. */
  lemma ValidateAccepts(config: Config)
    ensures Validate(config) == Proceeds <==> Accepted(config.table)
  {
    assert UsersOf([]) == {};
    ValidateRowsPass([], config.table);
    assert [] + config.table == config.table;
  }

  /** A table that is not acceptable has a first offending row. */
  lemma {:induction false} RejectedHasFirstOffence(rows: seq<Row>)
    requires !Accepted(rows)
    ensures exists i :: 0 <= i < |rows| && Accepted(rows[..i]) && !Accepted(rows[..i + 1])
    decreases |rows|
  {
    var n := |rows| - 1;
    assert rows[..n + 1] == rows;
    if Accepted(rows[..n]) {
      assert 0 <= n < |rows| && Accepted(rows[..n]) && !Accepted(rows[..n + 1]);
    } else {
      RejectedHasFirstOffence(rows[..n]);
      var i :| 0 <= i < n && Accepted(rows[..n][..i]) && !Accepted(rows[..n][..i + 1]);
      assert rows[..n][..i] == rows[..i];
      assert rows[..n][..i + 1] == rows[..i + 1];
    }
  }

  /** The first offending row decides the error: a repeated user is
      reported as a duplicate even when its bounds are also wrong, then an
      item bound outside [0, 100], then an invoice bound. */
  lemma ValidateReportsFirstOffence(config: Config, i: nat)
    requires i < |config.table|
    requires Accepted(config.table[..i]) && !Accepted(config.table[..i + 1])
    ensures Listed(config.table[i])
    ensures var row := config.table[i]; var u := row.user.value;
      && (u in UsersOf(config.table[..i]) ==> Validate(config) == Throws(DuplicateUser(u)))
      && (u !in UsersOf(config.table[..i]) && !InPercentRange(row.itemPercentage) ==>
            Validate(config) == Throws(ItemPercentageOutOfRange(u)))
      && (u !in UsersOf(config.table[..i]) && InPercentRange(row.itemPercentage) ==>
            !InPercentRange(row.invoicePercentage) && Validate(config) == Throws(InvoicePercentageOutOfRange(u)))
  {
    ValidateFailsAtFirstOffence(config, i);
  }

  /** The walk over the whole table fails with the first offending row's error. */
  lemma ValidateFailsAtFirstOffence(config: Config, i: nat)
    requires i < |config.table|
    requires Accepted(config.table[..i]) && !Accepted(config.table[..i + 1])
    ensures RowError(config.table[i], UsersOf(config.table[..i])).Some?
    ensures Validate(config) == Throws(RowError(config.table[i], UsersOf(config.table[..i])).value)
  {
    var t := config.table;
    var pre := t[..i];
    assert RowError(t[i], UsersOf(pre)).Some? by {
      assert t[..i + 1] == pre + [t[i]];
      AcceptedSnoc(pre, t[i]);
    }
    assert Validate(config) == ValidateRows(pre + [t[i]] + t[i + 1..], UsersOf([])) by {
      assert UsersOf([]) == {};
      assert pre + [t[i]] + t[i + 1..] == t;
    }
    assert [] + pre == pre;
    ValidateRowsFirst([], pre, t[i], t[i + 1..]);
  }

  lemma {:induction false} ValidateRowsSkipsUnlisted(before: seq<Row>, r: Row, after: seq<Row>, seen: set<string>)
    requires !Listed(r)
    ensures ValidateRows(before + [r] + after, seen) == ValidateRows(before + after, seen)
    decreases |before|
  {
    if before == [] {
      assert before + [r] + after == [r] + after;
      assert ([r] + after)[1..] == after;
      assert before + after == after;
    } else {
      assert (before + [r] + after)[0] == before[0];
      assert (before + after)[0] == before[0];
      assert (before + [r] + after)[1..] == before[1..] + [r] + after;
      assert (before + after)[1..] == before[1..] + after;
      var seen' := if Listed(before[0]) then seen + {before[0].user.value} else seen;
      ValidateRowsSkipsUnlisted(before[1..], r, after, seen');
    }
  }

  /** A row without a user is ignored entirely, even when its bounds lie
      outside [0, 100]: inserting it anywhere does not change the verdict. */
  lemma UnlistedRowIgnored(company: Option<string>, before: seq<Row>, r: Row, after: seq<Row>)
    requires !Listed(r)
    ensures Validate(Config(company, before + [r] + after)) == Validate(Config(company, before + after))
  {
    ValidateRowsSkipsUnlisted(before, r, after, {});
  }
}
