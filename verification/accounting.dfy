/** The ledger builder of `lib/stream/export/Accounting.js`: the command
    handlers `account`, `sheet-column` and `sheet-row`, which validate a start
    event's attributes and then fail, warn or extend the ledger, and the
    one-time sort (`sealEntries`) that every query runs first.

    A handler is a function from the ledger and the start event's attribute
    map to a `Result`: `Failure` is a thrown exception, a warning is appended
    to `warnings` and processing goes on. */
module Accounting {
  import opened Results
  import opened Strings
  import opened Sorting
  import opened EventData
  import opened Seqs

  /** A declared account: its path and every attribute it was declared with. */
  datatype Account = Account(path: string, attrs: Attrs)

  /** The `type` attribute of a sheet column. */
  datatype ColumnKind = DateColumn | LabelColumn | ValueColumn | OtherColumn

  /** A sheet column; `accountSpec` is the `account` attribute ("" if absent). */
  datatype Column = Column(name: string, kind: ColumnKind, accountSpec: string, attrs: Attrs)

  /** A sheet: its columns in declaration order and the number of the last row read. */
  datatype Sheet = Sheet(name: string, columns: seq<Column>, nthRow: int)

  /** One signed amount assigned to one account inside an entry. */
  datatype Posting = Posting(account: string, amount: real)

  /** A ledger entry (`title` is the source's `label`); `assignment` maps account names to amounts, in insertion order. */
  datatype Entry = Entry(sheet: string, row: int, date: Time, title: string, assignment: seq<Posting>)

  /** The non-fatal conditions the handlers report with `this.warn`. */
  datatype Warning =
    | InvalidAccountName(path: string)
    | UnknownSheet(sheet: string)
    | InvalidAccountPrefix(sheet: string, column: string)
    | InvalidAccount(account: string, sheet: string, column: string, row: int)
    | InvalidColumnType(sheet: string, column: string)

  /** The exceptions the handlers and queries throw. */
  datatype Error =
    | DuplicateAccount(path: string)
    | DuplicateAccountNumber(number: string)
    | MissingColumnName(sheet: string)
    | InvalidAccountSpec(spec: string, sheet: string, column: string)
    | MissingSheetAttribute
    | MissingCell(column: string, sheet: string, row: int)
    | InvalidAmount(value: string, sheet: string, column: string, row: int)
    | NoDateOrLabel(sheet: string, row: int)
    | NoAssignment(sheet: string, row: int)
    | UnmatchedAggregate(path: string)
    | UnknownAccount(path: string)

  /** The builder's state. `accounts` keeps declaration order (the order of
      `Object.keys(this.accounts)`); `accountNumbers` maps a number to a path. */
  datatype Ledger = Ledger(
    accounts: seq<Account>,
    accountNumbers: map<string, string>,
    sheets: map<string, Sheet>,
    entries: seq<Entry>,
    sealedEntries: bool,
    warnings: seq<Warning>)

  /** The state built by the constructor. */
  const EmptyLedger := Ledger([], map[], map[], [], false, [])

  ////////////////////////////////////////////////////////////////////////////
  // Accounts

  predicate Declared(accounts: seq<Account>, path: string) {
    exists i :: 0 <= i < |accounts| && accounts[i].path == path
  }

  /** `this.accounts[path]`. */
  function FindAccount(accounts: seq<Account>, path: string): (r: Option<Account>)
    ensures r.Some? <==> Declared(accounts, path)
    ensures r.Some? ==> r.value in accounts && r.value.path == path
  {
    if accounts == [] then None
    else if accounts[0].path == path then Some(accounts[0])
    else FindAccount(accounts[1..], path)
  }

  /** `isAccountValid(account, andConcrete)`: declared, and when `andConcrete`
      is set, not an aggregate (`/`-terminated) name. */
  predicate IsAccountValid(l: Ledger, account: string, andConcrete: bool) {
    !(andConcrete && EndsWith(account, '/')) && Declared(l.accounts, account)
  }

  ////////////////////////////////////////////////////////////////////////////
  // Postings of one entry

  /** `entry.assignment[account]`. */
  function Lookup(ps: seq<Posting>, account: string): Option<real> {
    if ps == [] then None
    else if ps[0].account == account then Some(ps[0].amount)
    else Lookup(ps[1..], account)
  }

  predicate DistinctAccounts(ps: seq<Posting>) {
    forall i, j :: 0 <= i < j < |ps| ==> ps[i].account != ps[j].account
  }

  /** The sum of every amount of an entry. */
  function Sum(ps: seq<Posting>): real {
    if ps == [] then 0.0 else ps[0].amount + Sum(ps[1..])
  }

  /** `entry.assignment[account] = amount`: overwrites in place or appends. */
  function Assign(ps: seq<Posting>, account: string, amount: real): (r: seq<Posting>)
    ensures Lookup(r, account) == Some(amount)
    ensures forall b :: b != account ==> Lookup(r, b) == Lookup(ps, b)
    ensures |r| == if Lookup(ps, account).Some? then |ps| else |ps| + 1
    ensures forall i :: 0 <= i < |r| ==> r[i].account == account || r[i] in ps
  {
    if ps == [] then [Posting(account, amount)]
    else if ps[0].account == account then [Posting(account, amount)] + ps[1..]
    else
      var tail := Assign(ps[1..], account, amount);
      assert forall i :: 0 <= i < |tail| ==> tail[i].account == account || tail[i] in ps[1..];
      [ps[0]] + tail
  }

  /** An entry never holds two amounts for one account. */
  lemma {:induction false} AssignDistinct(ps: seq<Posting>, account: string, amount: real)
    ensures DistinctAccounts(ps) ==> DistinctAccounts(Assign(ps, account, amount))
  {
    var r := Assign(ps, account, amount);
    if ps == [] || !DistinctAccounts(ps) {
    } else if ps[0].account == account {
      forall i, j | 0 <= i < j < |r| ensures r[i].account != r[j].account {
        assert r[j] == ps[j];
        if i > 0 {
          assert r[i] == ps[i];
        }
      }
    } else {
      var tail := Assign(ps[1..], account, amount);
      AssignDistinct(ps[1..], account, amount);
      assert r == [ps[0]] + tail;
      forall j | 0 <= j < |tail| ensures tail[j].account != ps[0].account {
        if tail[j].account != account {
          assert tail[j] in ps[1..];
          var k :| 0 <= k < |ps[1..]| && ps[1..][k] == tail[j];
          assert ps[k + 1] == tail[j];
        }
      }
      forall i, j | 0 <= i < j < |r| ensures r[i].account != r[j].account {
        assert r[j] == tail[j - 1];
        if i > 0 {
          assert r[i] == tail[i - 1];
        }
      }
    }
  }

  /** Assigning replaces the account's previous amount in the entry's sum. */
  lemma {:induction false} SumAssign(ps: seq<Posting>, account: string, amount: real)
    ensures Sum(Assign(ps, account, amount)) == Sum(ps) - Lookup(ps, account).GetOr(0.0) + amount
  {
    if ps != [] && ps[0].account != account {
      SumAssign(ps[1..], account, amount);
    } else if ps != [] {
      assert ([Posting(account, amount)] + ps[1..])[1..] == ps[1..];
    }
  }

  ////////////////////////////////////////////////////////////////////////////
  // The ledger's invariant

  predicate ValidAccountPath(path: string) {
    |path| > 0 && path[0] == '/'
  }

  /** `/^[-+*]/`: a value column's account spec starts with a sign or `*`. */
  predicate ValidAccountSpec(spec: string) {
    |spec| > 0 && spec[0] in "+-*"
  }

  predicate ValidSheet(name: string, s: Sheet) {
    && s.name == name
    && s.nthRow >= 1
    && DistinctNames(s.columns)
    && (forall i :: 0 <= i < |s.columns| ==> s.columns[i].name != "")
    && (forall i :: 0 <= i < |s.columns| ==>
          s.columns[i].kind == ValueColumn ==> ValidAccountSpec(s.columns[i].accountSpec))
  }

  predicate ValidEntry(e: Entry) {
    && e.title != ""
    && e.assignment != []
    && DistinctAccounts(e.assignment)
    && (forall i :: 0 <= i < |e.assignment| ==> e.assignment[i].account != "")
  }

  /** What the commands maintain: unique, `/`-rooted account paths, numbers
      that name declared accounts, well-formed sheets and entries. */
  predicate Valid(l: Ledger) {
    && (forall i, j :: 0 <= i < j < |l.accounts| ==> l.accounts[i].path != l.accounts[j].path)
    && (forall i :: 0 <= i < |l.accounts| ==> ValidAccountPath(l.accounts[i].path))
    && (forall n :: n in l.accountNumbers ==> Declared(l.accounts, l.accountNumbers[n]))
    && (forall name :: name in l.sheets ==> ValidSheet(name, l.sheets[name]))
    && (forall i :: 0 <= i < |l.entries| ==> ValidEntry(l.entries[i]))
  }

  /** The constructor's state satisfies the invariant the commands keep. */
  lemma {:induction false} EmptyLedgerValid()
    ensures Valid(EmptyLedger)
  {
  }

  ////////////////////////////////////////////////////////////////////////////
  // command_account

  /** Declares an account: a path not starting with `/` only warns, a
      duplicate path or number is fatal, otherwise exactly the account (and
      its number, if any) is added. */
  function CommandAccount(l: Ledger, attrs: Attrs): (r: Result<Ledger, Error>)
    ensures !Has(attrs, "path") ==> r == Success(l)
    ensures Has(attrs, "path") && !ValidAccountPath(attrs["path"]) ==>
      r == Success(l.(warnings := l.warnings + [InvalidAccountName(attrs["path"])]))
    ensures r.Failure? <==>
      && Has(attrs, "path") && ValidAccountPath(attrs["path"])
      && (Declared(l.accounts, attrs["path"])
          || (Has(attrs, "number") && Has(l.accountNumbers, attrs["number"])))
    ensures r.Success? && Has(attrs, "path") && ValidAccountPath(attrs["path"]) ==>
      && r.value.accounts == l.accounts + [Account(attrs["path"], attrs)]
      && r.value.accountNumbers.Keys ==
           l.accountNumbers.Keys + (if Has(attrs, "number") then {attrs["number"]} else {})
      && (Has(attrs, "number") ==> r.value.accountNumbers[attrs["number"]] == attrs["path"])
      && (forall n :: n in l.accountNumbers && !(Has(attrs, "number") && n == attrs["number"]) ==>
            r.value.accountNumbers[n] == l.accountNumbers[n])
      && r.value.(accounts := l.accounts, accountNumbers := l.accountNumbers) == l
  {
    if !Has(attrs, "path") then Success(l)
    else
      var path := attrs["path"];
      if path[0] != '/' then Success(l.(warnings := l.warnings + [InvalidAccountName(path)]))
      else if FindAccount(l.accounts, path).Some? then Failure(DuplicateAccount(path))
      else if Has(attrs, "number") && Has(l.accountNumbers, attrs["number"]) then
        Failure(DuplicateAccountNumber(attrs["number"]))
      else
        Success(l.(
          accounts := l.accounts + [Account(path, attrs)],
          accountNumbers :=
            if Has(attrs, "number") then l.accountNumbers[attrs["number"] := path]
            else l.accountNumbers))
  }

  /** Declaring an account keeps the ledger valid. */
  lemma {:induction false} CommandAccountValid(l: Ledger, attrs: Attrs)
    requires Valid(l)
    requires CommandAccount(l, attrs).Success?
    ensures Valid(CommandAccount(l, attrs).value)
  {
    var r := CommandAccount(l, attrs).value;
    if Has(attrs, "path") && ValidAccountPath(attrs["path"]) {
      var path := attrs["path"];
      var last := |l.accounts|;
      assert r.accounts == l.accounts + [Account(path, attrs)];
      assert r.sheets == l.sheets && r.entries == l.entries;
      forall i, j | 0 <= i < j < |r.accounts| ensures r.accounts[i].path != r.accounts[j].path {
        assert r.accounts[i] == l.accounts[i];
        if j == last {
          assert !Declared(l.accounts, path);
        } else {
          assert r.accounts[j] == l.accounts[j];
        }
      }
      forall i | 0 <= i < |r.accounts| ensures ValidAccountPath(r.accounts[i].path) {
        if i < last {
          assert r.accounts[i] == l.accounts[i];
        }
      }
      forall n | n in r.accountNumbers
        ensures Declared(r.accounts, r.accountNumbers[n])
      {
        if Has(attrs, "number") && n == attrs["number"] {
          assert r.accounts[last].path == path;
        } else {
          var i :| 0 <= i < |l.accounts| && l.accounts[i].path == l.accountNumbers[n];
          assert r.accounts[i] == l.accounts[i];
        }
      }
    }
  }

  /** Once declared, an account is valid for postings (if not `/`-terminated). */
  lemma {:induction false} CommandAccountDeclares(l: Ledger, attrs: Attrs)
    requires Has(attrs, "path") && ValidAccountPath(attrs["path"])
    requires CommandAccount(l, attrs).Success?
    ensures IsAccountValid(CommandAccount(l, attrs).value, attrs["path"], false)
    ensures FindAccount(CommandAccount(l, attrs).value.accounts, attrs["path"]).Some?
  {
    var r := CommandAccount(l, attrs).value;
    assert r.accounts[|r.accounts| - 1].path == attrs["path"];
  }

  ////////////////////////////////////////////////////////////////////////////
  // command_sheet_column

  function KindOf(attrs: Attrs): ColumnKind {
    if "type" !in attrs then OtherColumn
    else if attrs["type"] == "date" then DateColumn
    else if attrs["type"] == "label" then LabelColumn
    else if attrs["type"] == "value" then ValueColumn
    else OtherColumn
  }

  function ColumnOf(attrs: Attrs): Column
    requires "column" in attrs
  {
    Column(attrs["column"], KindOf(attrs), if "account" in attrs then attrs["account"] else "", attrs)
  }

  /** `columns[c.name] = c`: the slot of that name is replaced in place, or
      added last; no other slot changes. */
  function SetColumn(cols: seq<Column>, c: Column): (r: seq<Column>)
    ensures c in r
    ensures forall d :: d in cols && d.name != c.name ==> d in r
    ensures forall d :: d in r ==> d == c || d in cols
  {
    if cols == [] then [c]
    else if cols[0].name == c.name then
      var r := [c] + cols[1..];
      assert forall d :: d in cols[1..] ==> d in r;
      r
    else
      var tail := SetColumn(cols[1..], c);
      assert forall i :: 0 <= i < |tail| ==> tail[i] == c || tail[i] in cols[1..];
      [cols[0]] + tail
  }

  /** Setting a column replaces the one of the same name or appends it: the
      count grows exactly when the name is new. */
  lemma {:induction false} SetColumnLength(cols: seq<Column>, c: Column)
    ensures |SetColumn(cols, c)| == if exists i :: 0 <= i < |cols| && cols[i].name == c.name then |cols| else |cols| + 1
  {
    if cols != [] && cols[0].name != c.name {
      SetColumnLength(cols[1..], c);
      if exists i :: 0 <= i < |cols| && cols[i].name == c.name {
        var i :| 0 <= i < |cols| && cols[i].name == c.name;
        assert cols[1..][i - 1].name == c.name;
      } else {
        assert forall i :: 0 <= i < |cols[1..]| ==> cols[1..][i] == cols[i + 1];
      }
    } else if cols != [] {
      assert cols[0].name == c.name;
    }
  }

  /** Columns keep distinct names, and the one named like `c` is `c`. */
  lemma {:induction false} SetColumnDistinct(cols: seq<Column>, c: Column)
    requires DistinctNames(cols)
    ensures DistinctNames(SetColumn(cols, c))
    ensures forall i :: 0 <= i < |SetColumn(cols, c)| && SetColumn(cols, c)[i].name == c.name ==> SetColumn(cols, c)[i] == c
  {
    var r := SetColumn(cols, c);
    if cols == [] {
    } else if cols[0].name == c.name {
      forall i, j | 0 <= i < j < |r| ensures r[i].name != r[j].name {
        assert r[j] == cols[j];
        if i > 0 {
          assert r[i] == cols[i];
        }
      }
    } else {
      var tail := SetColumn(cols[1..], c);
      SetColumnDistinct(cols[1..], c);
      DistinctNamesCons(cols, c, tail);
      assert r == [cols[0]] + tail;
      forall i | 0 <= i < |r| && r[i].name == c.name ensures r[i] == c {
        assert r[i] == tail[i - 1];
      }
    }
  }

  /** No two columns share a name. */
  predicate DistinctNames(cols: seq<Column>) {
    forall i, j :: 0 <= i < j < |cols| ==> cols[i].name != cols[j].name
  }

  /** A column differently named from `c` and from every other column can
      head a run made of `c` and those other columns. */
  lemma {:induction false} DistinctNamesCons(cols: seq<Column>, c: Column, tail: seq<Column>)
    requires cols != [] && cols[0].name != c.name
    requires forall d :: d in tail ==> d == c || d in cols[1..]
    requires DistinctNames(cols) ==> DistinctNames(tail)
    ensures DistinctNames(cols) ==> DistinctNames([cols[0]] + tail)
  {
    if DistinctNames(cols) {
      var r := [cols[0]] + tail;
      forall j | 0 <= j < |tail| ensures tail[j].name != cols[0].name {
        if tail[j] != c {
          assert tail[j] in cols[1..];
          var k :| 0 <= k < |cols[1..]| && cols[1..][k] == tail[j];
          assert cols[k + 1] == tail[j];
        }
      }
      forall i, j | 0 <= i < j < |r| ensures r[i].name != r[j].name {
        assert r[j] == tail[j - 1];
        if i > 0 {
          assert r[i] == tail[i - 1];
        }
      }
    }
  }

  /** Declares one column of a sheet: a missing `column` or a value column
      whose account spec lacks its `+`/`-`/`*` prefix is fatal; otherwise the
      sheet is created (with `nthRow` 1) if needed and that one column set. */
  function CommandSheetColumn(l: Ledger, attrs: Attrs): (r: Result<Ledger, Error>)
    ensures !Has(attrs, "sheet") ==> r == Success(l)
    ensures r.Failure? <==>
      && Has(attrs, "sheet")
      && (!Has(attrs, "column") || (KindOf(attrs) == ValueColumn && !ValidAccountSpec(ColumnOf(attrs).accountSpec)))
    ensures r.Success? && Has(attrs, "sheet") ==>
      var name := attrs["sheet"];
      var before := if name in l.sheets then l.sheets[name] else Sheet(name, [], 1);
      && r.value.sheets.Keys == l.sheets.Keys + {name}
      && r.value.sheets[name] == before.(columns := SetColumn(before.columns, ColumnOf(attrs)))
      && (forall s :: s in l.sheets && s != name ==> r.value.sheets[s] == l.sheets[s])
      && r.value.(sheets := l.sheets) == l
  {
    if !Has(attrs, "sheet") then Success(l)
    else if !Has(attrs, "column") then Failure(MissingColumnName(attrs["sheet"]))
    else
      var column := ColumnOf(attrs);
      if column.kind == ValueColumn && !ValidAccountSpec(column.accountSpec) then
        Failure(InvalidAccountSpec(column.accountSpec, attrs["sheet"], column.name))
      else
        var name := attrs["sheet"];
        var sheet := if name in l.sheets then l.sheets[name] else Sheet(name, [], 1);
        Success(l.(sheets := l.sheets[name := sheet.(columns := SetColumn(sheet.columns, column))]))
  }

  /** Declaring a column keeps the ledger valid. */
  lemma {:induction false} CommandSheetColumnValid(l: Ledger, attrs: Attrs)
    requires Valid(l)
    requires CommandSheetColumn(l, attrs).Success?
    ensures Valid(CommandSheetColumn(l, attrs).value)
  {
    if Has(attrs, "sheet") {
      var r := CommandSheetColumn(l, attrs).value;
      var name := attrs["sheet"];
      var s := r.sheets[name];
      var c := ColumnOf(attrs);
      var before := if name in l.sheets then l.sheets[name] else Sheet(name, [], 1);
      SetColumnDistinct(before.columns, c);
      forall i | 0 <= i < |s.columns|
        ensures s.columns[i].name != ""
        ensures s.columns[i].kind == ValueColumn ==> ValidAccountSpec(s.columns[i].accountSpec)
      {
        assert s.columns[i] in s.columns;
      }
    }
  }

  ////////////////////////////////////////////////////////////////////////////
  // command_sheet_row

  /** The entry under construction while a row's columns are read. */
  datatype Draft = Draft(date: Option<Time>, title: Option<string>, assignment: seq<Posting>, warnings: seq<Warning>)

  /** One label cell: `entry.label = entry.label ? entry.label + "\n" : ""; entry.label += value`. */
  function AppendLabel(title: Option<string>, value: string): string {
    (if title.Some? && title.value != "" then title.value + "\n" else "") + value
  }

  /** The label after a run of label cells. */
  function FoldLabel(title: Option<string>, values: seq<string>): Option<string>
    decreases |values|
  {
    if values == [] then title else FoldLabel(Some(AppendLabel(title, values[0])), values[1..])
  }

  /** The values of a row's label columns, in column order. */
  function LabelValues(cols: seq<Column>, row: Attrs): seq<string> {
    if cols == [] then []
    else (if cols[0].kind == LabelColumn && cols[0].name in row then [row[cols[0].name]] else [])
         + LabelValues(cols[1..], row)
  }

  /** The account a value column posts to: the rest of its spec, or for `*X`
      the row's field `X`; "" means that no posting is made. */
  function TargetAccount(spec: string, row: Attrs): string {
    if spec == [] then ""
    else if spec[0] == '*' then (if Has(row, spec[1..]) then row[spec[1..]] else "")
    else spec[1..]
  }

  /** The amount of a value cell before its sign prefix is applied: an
      empty cell is minus the postings so far, anything else is parsed. */
  function CellAmount(value: string, assignment: seq<Posting>, parseAmount: string -> Option<real>): Option<real> {
    if value == "" then Some(-Sum(assignment)) else parseAmount(value)
  }

  /** One value cell: computes the amount, applies the account spec's
      prefix and records the posting. */
  function FillValue(l: Ledger, sheet: string, rowNo: int, col: Column, row: Attrs, value: string,
                     d: Draft, parseAmount: string -> Option<real>): (r: Result<Draft, Error>)
    ensures r.Failure? <==> CellAmount(value, d.assignment, parseAmount).None?
    ensures r.Success? ==>
      var amount := CellAmount(value, d.assignment, parseAmount).value;
      var spec := col.accountSpec;
      var target := TargetAccount(spec, row);
      && r.value.date == d.date && r.value.title == d.title
      && (target == "" ==> r.value.assignment == d.assignment)
      && (target != "" ==>
            && Lookup(r.value.assignment, target) == Some(if spec[0] == '-' then -amount else amount)
            && forall b :: b != target ==> Lookup(r.value.assignment, b) == Lookup(d.assignment, b))
      && r.value.warnings == d.warnings
           + (if ValidAccountSpec(spec) then [] else [InvalidAccountPrefix(sheet, col.name)])
           + (if target != "" && !IsAccountValid(l, target, true) then [InvalidAccount(target, sheet, col.name, rowNo)] else [])
    ensures r.Success? ==>
      && |r.value.assignment| >= |d.assignment|
      && (DistinctAccounts(d.assignment) ==> DistinctAccounts(r.value.assignment))
      && forall i :: 0 <= i < |r.value.assignment| ==>
           r.value.assignment[i] in d.assignment || r.value.assignment[i].account == TargetAccount(col.accountSpec, row) != ""
  {
    var amount := CellAmount(value, d.assignment, parseAmount);
    if amount.None? then Failure(InvalidAmount(value, sheet, col.name, rowNo))
    else
      var spec := col.accountSpec;
      var signed := if spec != [] && spec[0] == '-' then -amount.value else amount.value;
      var prefixWarnings := if ValidAccountSpec(spec) then [] else [InvalidAccountPrefix(sheet, col.name)];
      var account := TargetAccount(spec, row);
      if account == "" then Success(d.(warnings := d.warnings + prefixWarnings))
      else
        var validity := if IsAccountValid(l, account, true) then [] else [InvalidAccount(account, sheet, col.name, rowNo)];
        AssignDistinct(d.assignment, account, signed);
        Success(d.(assignment := Assign(d.assignment, account, signed),
                   warnings := d.warnings + prefixWarnings + validity))
  }

  /** The prefix `-` negates an amount; `+` and `*` keep it. */
  function Signed(spec: string, amount: real): real {
    if spec != [] && spec[0] == '-' then -amount else amount
  }

  /** `col` is a value column that posts to account `b`. */
  predicate Targets(col: Column, row: Attrs, b: string) {
    col.kind == ValueColumn && b != "" && TargetAccount(col.accountSpec, row) == b
  }

  /** The parsed amount of a present, non-empty cell. */
  function CellValue(col: Column, row: Attrs, parseAmount: string -> Option<real>): Option<real> {
    if col.name in row && row[col.name] != "" then parseAmount(row[col.name]) else None
  }

  /** A cell that stops the row: it is missing, or it is a non-empty value
      cell that is not a number. */
  predicate CellFails(col: Column, row: Attrs, parseAmount: string -> Option<real>) {
    col.name !in row || (col.kind == ValueColumn && row[col.name] != "" && parseAmount(row[col.name]).None?)
  }

  predicate RowFails(cols: seq<Column>, row: Attrs, parseAmount: string -> Option<real>) {
    exists i :: 0 <= i < |cols| && CellFails(cols[i], row, parseAmount)
  }

  /** Some value column of the row names an account to post to. */
  predicate PostsSomething(cols: seq<Column>, row: Attrs) {
    exists i :: 0 <= i < |cols| && cols[i].kind == ValueColumn && TargetAccount(cols[i].accountSpec, row) != ""
  }

  /** The last column of a kind. */
  function LastOfKind(cols: seq<Column>, kind: ColumnKind): (r: Option<Column>)
    ensures r.Some? <==> HasKind(cols, kind)
    ensures r.Some? ==> exists i :: 0 <= i < |cols| && cols[i] == r.value && cols[i].kind == kind &&
                                    forall j :: i < j < |cols| ==> cols[j].kind != kind
  {
    if cols == [] then None
    else
      var t := LastOfKind(cols[1..], kind);
      if t.Some? then
        var i :| 0 <= i < |cols[1..]| && cols[1..][i] == t.value && cols[1..][i].kind == kind &&
                 forall j :: i < j < |cols[1..]| ==> cols[1..][j].kind != kind;
        assert cols[i + 1] == t.value;
        assert forall j :: i + 1 < j < |cols| ==> cols[j] == cols[1..][j - 1];
        t
      else
        assert forall j :: 0 < j < |cols| ==> cols[j] == cols[1..][j - 1];
        if cols[0].kind == kind then Some(cols[0]) else None
  }

  /** The last column posting to account `b`. */
  function LastTarget(cols: seq<Column>, row: Attrs, b: string): (r: Option<Column>)
    ensures r.Some? <==> exists i :: 0 <= i < |cols| && Targets(cols[i], row, b)
    ensures r.Some? ==> exists i :: 0 <= i < |cols| && cols[i] == r.value && Targets(cols[i], row, b) &&
                                    forall j :: i < j < |cols| ==> !Targets(cols[j], row, b)
  {
    if cols == [] then None
    else
      var t := LastTarget(cols[1..], row, b);
      if t.Some? then
        var i :| 0 <= i < |cols[1..]| && cols[1..][i] == t.value && Targets(cols[1..][i], row, b) &&
                 forall j :: i < j < |cols[1..]| ==> !Targets(cols[1..][j], row, b);
        assert cols[i + 1] == t.value;
        assert forall j :: i + 1 < j < |cols| ==> cols[j] == cols[1..][j - 1];
        t
      else
        assert forall j :: 0 < j < |cols| ==> cols[j] == cols[1..][j - 1];
        if Targets(cols[0], row, b) then Some(cols[0]) else None
  }

  /** The warnings one cell raises when it does not fail: a value column with
      a bad prefix or naming an undeclared account, and a column of unknown
      type. */
  function CellWarnings(l: Ledger, sheet: string, rowNo: int, col: Column, row: Attrs): seq<Warning> {
    match col.kind
    case ValueColumn =>
      var target := TargetAccount(col.accountSpec, row);
      (if ValidAccountSpec(col.accountSpec) then [] else [InvalidAccountPrefix(sheet, col.name)])
      + (if target != "" && !IsAccountValid(l, target, true) then [InvalidAccount(target, sheet, col.name, rowNo)] else [])
    case OtherColumn => [InvalidColumnType(sheet, col.name)]
    case _ => []
  }

  /** The warnings of a row's cells, in column order. */
  function RowWarnings(l: Ledger, sheet: string, rowNo: int, cols: seq<Column>, row: Attrs): seq<Warning>
    decreases |cols|
  {
    if cols == [] then [] else CellWarnings(l, sheet, rowNo, cols[0], row) + RowWarnings(l, sheet, rowNo, cols[1..], row)
  }

  /** One cell of a row, by the column's type. */
  function FillColumn(l: Ledger, sheet: string, rowNo: int, col: Column, row: Attrs, d: Draft,
                      parseDate: string -> Time, parseAmount: string -> Option<real>): (r: Result<Draft, Error>)
    ensures r.Failure? <==> CellFails(col, row, parseAmount)
    ensures r.Success? ==>
      && r.value.date == (if col.kind == DateColumn then Some(parseDate(row[col.name])) else d.date)
      && (forall b :: !Targets(col, row, b) ==> Lookup(r.value.assignment, b) == Lookup(d.assignment, b))
      && (forall b :: Targets(col, row, b) ==> Lookup(r.value.assignment, b).Some?)
      && (forall b :: Targets(col, row, b) && CellValue(col, row, parseAmount).Some? ==>
            Lookup(r.value.assignment, b) == Some(Signed(col.accountSpec, CellValue(col, row, parseAmount).value)))
      && r.value.title == (if col.kind == LabelColumn then Some(AppendLabel(d.title, row[col.name])) else d.title)
      && r.value.warnings == d.warnings + CellWarnings(l, sheet, rowNo, col, row)
      && |r.value.assignment| >= |d.assignment|
      && (DistinctAccounts(d.assignment) ==> DistinctAccounts(r.value.assignment))
      && forall i :: 0 <= i < |r.value.assignment| ==>
           r.value.assignment[i] in d.assignment || r.value.assignment[i].account != ""
  {
    if col.name !in row then Failure(MissingCell(col.name, sheet, rowNo))
    else
      var value := row[col.name];
      match col.kind
      case DateColumn => Success(d.(date := Some(parseDate(value))))
      case LabelColumn => Success(d.(title := Some(AppendLabel(d.title, value))))
      case ValueColumn => FillValue(l, sheet, rowNo, col, row, value, d, parseAmount)
      case OtherColumn => Success(d.(warnings := d.warnings + [InvalidColumnType(sheet, col.name)]))
  }

  predicate HasKind(cols: seq<Column>, kind: ColumnKind) {
    exists i :: 0 <= i < |cols| && cols[i].kind == kind
  }

  /** How the facts `FillColumns` reports about a column list split into
      the first column and the rest. */
  lemma {:induction false} ColumnsCons(cols: seq<Column>, row: Attrs)
    requires cols != []
    ensures cols[0].kind == LabelColumn && cols[0].name in row ==>
      && LabelValues(cols, row) != []
      && LabelValues(cols, row)[0] == row[cols[0].name]
      && LabelValues(cols, row)[1..] == LabelValues(cols[1..], row)
    ensures !(cols[0].kind == LabelColumn && cols[0].name in row) ==> LabelValues(cols, row) == LabelValues(cols[1..], row)
    ensures HasKind(cols, DateColumn) == (cols[0].kind == DateColumn || HasKind(cols[1..], DateColumn))
    ensures (exists i :: 0 <= i < |cols| && cols[i].name !in row) ==>
              cols[0].name !in row || exists i :: 0 <= i < |cols[1..]| && cols[1..][i].name !in row
  {
    var rest := LabelValues(cols[1..], row);
    if cols[0].kind == LabelColumn && cols[0].name in row {
      assert ([row[cols[0].name]] + rest)[1..] == rest;
    } else {
      assert LabelValues(cols, row) == [] + rest;
    }
    if HasKind(cols[1..], DateColumn) {
      var i :| 0 <= i < |cols[1..]| && cols[1..][i].kind == DateColumn;
      assert cols[i + 1].kind == DateColumn;
    }
    if exists i :: 0 <= i < |cols| && cols[i].name !in row {
      var i :| 0 <= i < |cols| && cols[i].name !in row;
      if i > 0 { assert cols[1..][i - 1] == cols[i]; }
    }
  }

  /** Reads a row's cells column by column; any missing cell is fatal. */
  function FillColumns(l: Ledger, sheet: string, rowNo: int, cols: seq<Column>, row: Attrs, d: Draft,
                       parseDate: string -> Time, parseAmount: string -> Option<real>): (r: Result<Draft, Error>)
    ensures (exists i :: 0 <= i < |cols| && cols[i].name !in row) ==> r.Failure?
    ensures r.Success? ==>
      && (r.value.date.Some? <==> d.date.Some? || HasKind(cols, DateColumn))
      && r.value.title == FoldLabel(d.title, LabelValues(cols, row))
      && (DistinctAccounts(d.assignment) ==> DistinctAccounts(r.value.assignment))
      && ((forall i :: 0 <= i < |d.assignment| ==> d.assignment[i].account != "") ==>
            (forall i :: 0 <= i < |r.value.assignment| ==> r.value.assignment[i].account != ""))
      && |r.value.assignment| >= |d.assignment|
    decreases |cols|
  {
    if cols == [] then Success(d)
    else
      var next :- FillColumn(l, sheet, rowNo, cols[0], row, d, parseDate, parseAmount);
      var r := FillColumns(l, sheet, rowNo, cols[1..], row, next, parseDate, parseAmount);
      ColumnsCons(cols, row);
      r
  }

  /** A row's cells are read without failure exactly when none of them
      fails on its own. */
  lemma {:induction false} FillColumnsOutcome(l: Ledger, sheet: string, rowNo: int, cols: seq<Column>, row: Attrs, d: Draft,
                                              parseDate: string -> Time, parseAmount: string -> Option<real>)
    ensures FillColumns(l, sheet, rowNo, cols, row, d, parseDate, parseAmount).Failure? <==> RowFails(cols, row, parseAmount)
    decreases |cols|
  {
    if cols != [] {
      assert RowFails(cols, row, parseAmount) <==>
             CellFails(cols[0], row, parseAmount) || RowFails(cols[1..], row, parseAmount) by {
        if RowFails(cols, row, parseAmount) {
          var i :| 0 <= i < |cols| && CellFails(cols[i], row, parseAmount);
          if i > 0 { assert cols[i] == cols[1..][i - 1]; }
        }
        if RowFails(cols[1..], row, parseAmount) {
          var i :| 0 <= i < |cols[1..]| && CellFails(cols[1..][i], row, parseAmount);
          assert cols[1..][i] == cols[i + 1];
        }
      }
      var next := FillColumn(l, sheet, rowNo, cols[0], row, d, parseDate, parseAmount);
      if next.Success? {
        FillColumnsOutcome(l, sheet, rowNo, cols[1..], row, next.value, parseDate, parseAmount);
      }
    }
  }

  /** The entry's date is the parsed text of the last date cell. */
  lemma {:induction false} FillColumnsDate(l: Ledger, sheet: string, rowNo: int, cols: seq<Column>, row: Attrs, d: Draft,
                                           parseDate: string -> Time, parseAmount: string -> Option<real>)
    requires FillColumns(l, sheet, rowNo, cols, row, d, parseDate, parseAmount).Success?
    ensures var c := LastOfKind(cols, DateColumn);
      var date := FillColumns(l, sheet, rowNo, cols, row, d, parseDate, parseAmount).value.date;
      && (c.None? ==> date == d.date)
      && (c.Some? ==> c.value.name in row && date == Some(parseDate(row[c.value.name])))
    decreases |cols|
  {
    if cols != [] {
      var next := FillColumn(l, sheet, rowNo, cols[0], row, d, parseDate, parseAmount).value;
      FillColumnsDate(l, sheet, rowNo, cols[1..], row, next, parseDate, parseAmount);
    }
  }

  /** Each account receives the signed amount of the last value cell that
      posts to it; an account no cell posts to keeps its amount. */
  lemma {:induction false} FillColumnsPostings(l: Ledger, sheet: string, rowNo: int, cols: seq<Column>, row: Attrs, d: Draft,
                                               parseDate: string -> Time, parseAmount: string -> Option<real>)
    requires FillColumns(l, sheet, rowNo, cols, row, d, parseDate, parseAmount).Success?
    ensures var ps := FillColumns(l, sheet, rowNo, cols, row, d, parseDate, parseAmount).value.assignment;
      forall b :: LastTarget(cols, row, b).None? ==> Lookup(ps, b) == Lookup(d.assignment, b)
    ensures var ps := FillColumns(l, sheet, rowNo, cols, row, d, parseDate, parseAmount).value.assignment;
      forall b :: LastTarget(cols, row, b).Some? ==> Lookup(ps, b).Some?
    ensures var ps := FillColumns(l, sheet, rowNo, cols, row, d, parseDate, parseAmount).value.assignment;
      forall b :: LastTarget(cols, row, b).Some? && CellValue(LastTarget(cols, row, b).value, row, parseAmount).Some? ==>
        Lookup(ps, b) == Some(Signed(LastTarget(cols, row, b).value.accountSpec,
                                     CellValue(LastTarget(cols, row, b).value, row, parseAmount).value))
    decreases |cols|
  {
    if cols != [] {
      var next := FillColumn(l, sheet, rowNo, cols[0], row, d, parseDate, parseAmount).value;
      FillColumnsPostings(l, sheet, rowNo, cols[1..], row, next, parseDate, parseAmount);
    }
  }

  /** A row posts something exactly when the draft already did or some value
      column names an account. */
  lemma {:induction false} FillColumnsPosts(l: Ledger, sheet: string, rowNo: int, cols: seq<Column>, row: Attrs, d: Draft,
                                            parseDate: string -> Time, parseAmount: string -> Option<real>)
    requires FillColumns(l, sheet, rowNo, cols, row, d, parseDate, parseAmount).Success?
    ensures FillColumns(l, sheet, rowNo, cols, row, d, parseDate, parseAmount).value.assignment != [] <==>
            d.assignment != [] || PostsSomething(cols, row)
  {
    var ps := FillColumns(l, sheet, rowNo, cols, row, d, parseDate, parseAmount).value.assignment;
    FillColumnsPostings(l, sheet, rowNo, cols, row, d, parseDate, parseAmount);
    if PostsSomething(cols, row) {
      var i :| 0 <= i < |cols| && cols[i].kind == ValueColumn && TargetAccount(cols[i].accountSpec, row) != "";
      var b := TargetAccount(cols[i].accountSpec, row);
      assert Targets(cols[i], row, b);
      assert Lookup(ps, b).Some?;
    }
    if ps != [] {
      var b := ps[0].account;
      assert Lookup(ps, b).Some?;
      if LastTarget(cols, row, b).Some? {
        var i :| 0 <= i < |cols| && Targets(cols[i], row, b);
        assert cols[i].kind == ValueColumn && TargetAccount(cols[i].accountSpec, row) != "";
      } else {
        assert Lookup(d.assignment, b).Some?;
      }
    }
  }

  /** A row's warnings are those of its cells, in column order. */
  lemma {:induction false} FillColumnsWarnings(l: Ledger, sheet: string, rowNo: int, cols: seq<Column>, row: Attrs, d: Draft,
                                               parseDate: string -> Time, parseAmount: string -> Option<real>)
    requires FillColumns(l, sheet, rowNo, cols, row, d, parseDate, parseAmount).Success?
    ensures FillColumns(l, sheet, rowNo, cols, row, d, parseDate, parseAmount).value.warnings ==
            d.warnings + RowWarnings(l, sheet, rowNo, cols, row)
    decreases |cols|
  {
    if cols != [] {
      var next := FillColumn(l, sheet, rowNo, cols[0], row, d, parseDate, parseAmount).value;
      var here := CellWarnings(l, sheet, rowNo, cols[0], row);
      var later := RowWarnings(l, sheet, rowNo, cols[1..], row);
      assert next.warnings == d.warnings + here;
      FillColumnsWarnings(l, sheet, rowNo, cols[1..], row, next, parseDate, parseAmount);
      assert RowWarnings(l, sheet, rowNo, cols, row) == here + later;
      ConcatAssoc(d.warnings, here, later);
    }
  }

  /** The entry one row of a sheet makes, numbered `n`, with the warnings
      its cells raised (`RowEntryFacts` says what it is). */
  function RowEntry(l: Ledger, sheet: Sheet, n: int, row: Attrs, parseDate: string -> Time,
                    parseAmount: string -> Option<real>): Result<(Entry, seq<Warning>), Error>
  {
    var d :- FillColumns(l, sheet.name, n, sheet.columns, row, Draft(None, None, [], []), parseDate, parseAmount);
    if d.date.None? || d.title.None? || d.title.value == "" then Failure(NoDateOrLabel(sheet.name, n))
    else if d.assignment == [] then Failure(NoAssignment(sheet.name, n))
    else Success((Entry(sheet.name, n, d.date.value, d.title.value, d.assignment), d.warnings))
  }

  /** A row's entry is well-formed. */
  lemma {:induction false} RowEntryValid(l: Ledger, sheet: Sheet, n: int, row: Attrs, parseDate: string -> Time,
                                         parseAmount: string -> Option<real>)
    requires RowEntry(l, sheet, n, row, parseDate, parseAmount).Success?
    ensures ValidEntry(RowEntry(l, sheet, n, row, parseDate, parseAmount).value.0)
  {
  }

  /** A row fails exactly when a cell is missing, an amount does not parse,
      the sheet has no date column, the label comes out empty or nothing is
      posted. Otherwise its entry carries the sheet's name and the row
      number, the joined label, the date of the last date column, and for
      each account the signed amount of the last value column naming it;
      the row's warnings are those of its cells, in column order. */
  lemma {:induction false} RowEntryFacts(l: Ledger, sheet: Sheet, n: int, row: Attrs, parseDate: string -> Time,
                                         parseAmount: string -> Option<real>)
    ensures var r := RowEntry(l, sheet, n, row, parseDate, parseAmount);
      r.Failure? <==>
        || RowFails(sheet.columns, row, parseAmount)
        || !HasKind(sheet.columns, DateColumn)
        || FoldLabel(None, LabelValues(sheet.columns, row)).GetOr("") == ""
        || !PostsSomething(sheet.columns, row)
    ensures var r := RowEntry(l, sheet, n, row, parseDate, parseAmount);
      r.Success? ==>
        var e := r.value.0;
        && e.sheet == sheet.name
        && e.row == n
        && Some(e.title) == FoldLabel(None, LabelValues(sheet.columns, row))
        && ValidEntry(e)
        && r.value.1 == RowWarnings(l, sheet.name, n, sheet.columns, row)
    ensures var r := RowEntry(l, sheet, n, row, parseDate, parseAmount);
      r.Success? ==>
        var e := r.value.0;
        var dateColumn := LastOfKind(sheet.columns, DateColumn);
        && dateColumn.Some? && dateColumn.value.name in row
        && e.date == parseDate(row[dateColumn.value.name])
        && (forall b :: LastTarget(sheet.columns, row, b).None? ==> Lookup(e.assignment, b).None?)
        && (forall b :: LastTarget(sheet.columns, row, b).Some? ==> Lookup(e.assignment, b).Some?)
        && (forall b :: LastTarget(sheet.columns, row, b).Some? &&
                        CellValue(LastTarget(sheet.columns, row, b).value, row, parseAmount).Some? ==>
              Lookup(e.assignment, b) == Some(Signed(LastTarget(sheet.columns, row, b).value.accountSpec,
                                                     CellValue(LastTarget(sheet.columns, row, b).value, row, parseAmount).value)))
  {
    var start := Draft(None, None, [], []);
    FillColumnsOutcome(l, sheet.name, n, sheet.columns, row, start, parseDate, parseAmount);
    if FillColumns(l, sheet.name, n, sheet.columns, row, start, parseDate, parseAmount).Success? {
      FillColumnsDate(l, sheet.name, n, sheet.columns, row, start, parseDate, parseAmount);
      FillColumnsPostings(l, sheet.name, n, sheet.columns, row, start, parseDate, parseAmount);
      FillColumnsPosts(l, sheet.name, n, sheet.columns, row, start, parseDate, parseAmount);
      FillColumnsWarnings(l, sheet.name, n, sheet.columns, row, start, parseDate, parseAmount);
    }
  }

  /** Reads one row of a sheet. A missing `sheet` attribute is fatal and an
      unknown sheet only warns; on a known sheet the row fails exactly when
      its entry does, and otherwise exactly that entry, numbered with the
      sheet's incremented row counter, is appended after all the others; the
      ledger stays valid. */
  function CommandSheetRow(l: Ledger, row: Attrs, parseDate: string -> Time,
                           parseAmount: string -> Option<real>): (r: Result<Ledger, Error>)
    ensures !Has(row, "sheet") ==> r.Failure?
    ensures Valid(l) && r.Success? ==> Valid(r.value)
    ensures Has(row, "sheet") && row["sheet"] !in l.sheets ==>
      r == Success(l.(warnings := l.warnings + [UnknownSheet(row["sheet"])]))
    ensures Has(row, "sheet") && row["sheet"] in l.sheets ==>
      var sheet := l.sheets[row["sheet"]];
      var made := RowEntry(l, sheet, sheet.nthRow + 1, row, parseDate, parseAmount);
      && (r.Failure? <==> made.Failure?)
      && (r.Success? ==>
            && |r.value.entries| == |l.entries| + 1
            && r.value.entries[..|l.entries|] == l.entries
            && r.value.entries[|l.entries|] == made.value.0
            && r.value.warnings == l.warnings + made.value.1
            && r.value.sheets == l.sheets[row["sheet"] := sheet.(nthRow := sheet.nthRow + 1)]
            && r.value.accounts == l.accounts
            && r.value.accountNumbers == l.accountNumbers
            && r.value.sealedEntries == l.sealedEntries)
  {
    if !Has(row, "sheet") then Failure(MissingSheetAttribute)
    else
      var name := row["sheet"];
      if name !in l.sheets then Success(l.(warnings := l.warnings + [UnknownSheet(name)]))
      else
        var sheet := l.sheets[name];
        var made :- RowEntry(l, sheet, sheet.nthRow + 1, row, parseDate, parseAmount);
        var r := l.(
          sheets := l.sheets[name := sheet.(nthRow := sheet.nthRow + 1)],
          entries := l.entries + [made.0],
          warnings := l.warnings + made.1);
        RowEntryValid(l, sheet, sheet.nthRow + 1, row, parseDate, parseAmount);
        AddEntryValid(l, name, made.0, r);
        Success(r)
  }

  /** Counting a row of a declared sheet and appending a well-formed entry
      keeps the ledger valid. */
  lemma {:induction false} AddEntryValid(l: Ledger, name: string, e: Entry, r: Ledger)
    requires name in l.sheets && ValidEntry(e)
    requires r.accounts == l.accounts && r.accountNumbers == l.accountNumbers
    requires r.sheets == l.sheets[name := l.sheets[name].(nthRow := l.sheets[name].nthRow + 1)]
    requires r.entries == l.entries + [e]
    ensures Valid(l) ==> Valid(r)
  {
    if Valid(l) {
      forall i | 0 <= i < |r.entries| ensures ValidEntry(r.entries[i]) {
        if i < |l.entries| {
          assert r.entries[i] == l.entries[i];
        }
      }
    }
  }

  /** The label joins the label cells with newlines, except that empty cells
      before the first non-empty one are swallowed (`entry.label ? … : ""`). */
  function DropLeadingEmpty(values: seq<string>): (r: seq<string>)
    ensures r != [] ==> r[0] != ""
  {
    if values == [] then [] else if values[0] == "" then DropLeadingEmpty(values[1..]) else values
  }

  lemma {:induction false} FoldLabelFrom(x: string, values: seq<string>)
    ensures FoldLabel(Some(x), values) == Some(Join(DropLeadingEmpty([x] + values), '\n'))
    decreases |values|
  {
    if values != [] {
      var v := values[0];
      var rest := values[1..];
      var y := AppendLabel(Some(x), v);
      assert values == [v] + rest;
      assert FoldLabel(Some(x), values) == FoldLabel(Some(y), rest);
      FoldLabelFrom(y, rest);
      if x == "" {
        assert y == v;
        assert ([x] + values)[1..] == values;
      } else {
        assert y == x + "\n" + v;
        assert DropLeadingEmpty([y] + rest) == [y] + rest;
        assert DropLeadingEmpty([x] + values) == [x] + values;
        assert ([x] + values)[1..] == values;
        assert Join([x] + values, '\n') == x + "\n" + Join(values, '\n');
        if rest != [] {
          assert Join(values, '\n') == v + "\n" + Join(rest, '\n');
          assert ([y] + rest)[1..] == rest;
          assert Join([y] + rest, '\n') == y + "\n" + Join(rest, '\n');
          assert (x + "\n" + v) + "\n" + Join(rest, '\n') == x + "\n" + (v + "\n" + Join(rest, '\n'));
        }
      }
    }
  }

  /** Label cells are joined with `"\n"`, leading empty cells dropped; with
      no non-empty label cell the label is empty and the row is refused. */
  lemma {:induction false} LabelJoin(values: seq<string>)
    requires values != []
    ensures FoldLabel(None, values) == Some(Join(DropLeadingEmpty(values), '\n'))
    ensures FoldLabel(None, values) == Some("") <==> forall i :: 0 <= i < |values| ==> values[i] == ""
  {
    assert AppendLabel(None, values[0]) == values[0];
    assert FoldLabel(None, values) == FoldLabel(Some(values[0]), values[1..]);
    FoldLabelFrom(values[0], values[1..]);
    assert [values[0]] + values[1..] == values;
    AllEmptyDrop(values);
    var dropped := DropLeadingEmpty(values);
    if dropped != [] {
      assert Join(dropped, '\n') != "" by {
        JoinFirst(dropped);
      }
    }
  }

  lemma {:induction false} AllEmptyDrop(values: seq<string>)
    ensures DropLeadingEmpty(values) == [] <==> forall i :: 0 <= i < |values| ==> values[i] == ""
  {
    if values != [] {
      AllEmptyDrop(values[1..]);
    }
  }

  lemma {:induction false} JoinFirst(parts: seq<string>)
    requires parts != []
    ensures parts[0] <= Join(parts, '\n')
  {
  }

  /** An empty cell under a `+` (or `*`) column posting to an account not yet
      in the entry balances the entry: its postings then sum to zero. */
  lemma {:induction false} EmptyCellBalances(l: Ledger, sheet: string, rowNo: int, col: Column, row: Attrs, d: Draft,
                          parseAmount: string -> Option<real>)
    requires col.accountSpec != [] && col.accountSpec[0] in "+*"
    requires TargetAccount(col.accountSpec, row) != ""
    requires Lookup(d.assignment, TargetAccount(col.accountSpec, row)).None?
    ensures FillValue(l, sheet, rowNo, col, row, "", d, parseAmount).Success?
    ensures Sum(FillValue(l, sheet, rowNo, col, row, "", d, parseAmount).value.assignment) == 0.0
  {
    SumAssign(d.assignment, TargetAccount(col.accountSpec, row), -Sum(d.assignment));
  }

  /** Under a `-` column the sign flip also applies to an empty cell: it
      posts plus the sum so far, doubling the imbalance instead of clearing it. */
  lemma {:induction false} EmptyCellOnMinusColumn(l: Ledger, sheet: string, rowNo: int, col: Column, row: Attrs, d: Draft,
                               parseAmount: string -> Option<real>)
    requires col.accountSpec != [] && col.accountSpec[0] == '-'
    requires TargetAccount(col.accountSpec, row) != ""
    requires Lookup(d.assignment, TargetAccount(col.accountSpec, row)).None?
    ensures FillValue(l, sheet, rowNo, col, row, "", d, parseAmount).Success?
    ensures Sum(FillValue(l, sheet, rowNo, col, row, "", d, parseAmount).value.assignment) == 2.0 * Sum(d.assignment)
  {
    SumAssign(d.assignment, TargetAccount(col.accountSpec, row), Sum(d.assignment));
  }

  ////////////////////////////////////////////////////////////////////////////
  // sealEntries

  /** The comparator of `sealEntries`, as an order on entries. */
  predicate ByDate(a: Entry, b: Entry) {
    a.date <= b.date
  }

  lemma {:induction false} ByDateIsTotalPreorder()
    ensures IsTotalPreorder(ByDate)
  {
  }

  /** Sorts the entries by date on the first call only; later calls change nothing. */
  function SealEntries(l: Ledger): (r: Ledger)
    ensures r.sealedEntries
    ensures multiset(r.entries) == multiset(l.entries)
    ensures !l.sealedEntries ==> SortedBy(r.entries, ByDate)
    ensures l.sealedEntries ==> r == l
    ensures r.(entries := l.entries, sealedEntries := l.sealedEntries) == l
  {
    if l.sealedEntries then l
    else
      ByDateIsTotalPreorder();
      l.(entries := SortBy(l.entries, ByDate), sealedEntries := true)
  }

  /** Sealing twice is sealing once. */
  lemma {:induction false} SealEntriesIdempotent(l: Ledger)
    ensures SealEntries(SealEntries(l)) == SealEntries(l)
  {
  }

  /** Sealing keeps the ledger valid. */
  lemma {:induction false} SealEntriesValid(l: Ledger)
    requires Valid(l)
    ensures Valid(SealEntries(l))
  {
    var r := SealEntries(l);
    forall i | 0 <= i < |r.entries|
      ensures ValidEntry(r.entries[i])
    {
      assert r.entries[i] in multiset(l.entries);
    }
  }
}
