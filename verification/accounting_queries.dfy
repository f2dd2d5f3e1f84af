/** The read side of `lib/stream/export/Accounting.js`: the account list with
    its synthesized aggregate ancestors, account resolution (concrete or
    `/`-terminated aggregate), the entries touching an account with their
    running balance, the account's totals, and label formatting. The entry
    queries work on the sealed (date-ordered) entry list. */
module AccountingQueries {
  import opened Results
  import opened Strings
  import opened Seqs
  import opened Sorting
  import opened EventData
  import opened Accounting

  ////////////////////////////////////////////////////////////////////////////
  // formatLabel

  function Count(s: string, c: char): nat {
    if s == [] then 0 else (if s[0] == c then 1 else 0) + Count(s[1..], c)
  }

  /** `label.replace(/\n/g, "<br/>")`. */
  function BreakLines(s: string): (r: string)
    ensures '\n' !in r
    ensures |r| == |s| + 4 * Count(s, '\n')
    ensures '\n' !in s ==> r == s
  {
    if s == [] then []
    else
      var tail := BreakLines(s[1..]);
      assert '\n' !in s ==> '\n' !in s[1..] && s == [s[0]] + s[1..];
      (if s[0] == '\n' then "<br/>" else [s[0]]) + tail
  }

  /** `formatLabel(label, mode)`: in `html` mode every newline becomes `<br/>`;
      any other mode leaves the label as it is. */
  function FormatLabel(text: string, mode: string): (r: string)
    ensures mode != "html" ==> r == text
    ensures mode == "html" ==> '\n' !in r && |r| == |text| + 4 * Count(text, '\n')
  {
    if mode == "html" then BreakLines(text) else text
  }

  /** Line breaking works piece by piece. */
  lemma {:induction false} BreakLinesAppend(x: string, y: string)
    ensures BreakLines(x + y) == BreakLines(x) + BreakLines(y)
    decreases |x|
  {
    if x == [] {
      assert x + y == y;
    } else {
      assert (x + y)[0] == x[0];
      assert (x + y)[1..] == x[1..] + y;
      BreakLinesAppend(x[1..], y);
    }
  }

  lemma {:induction false} BreakLinesLine(a: string, b: string)
    requires '\n' !in a
    ensures BreakLines(a + "\n" + b) == a + "<br/>" + BreakLines(b)
  {
    BreakLinesAppend(a + "\n", b);
    BreakLinesAppend(a, "\n");
    assert BreakLines("\n") == "<br/>" by {
      assert "\n"[1..] == [];
    }
  }

  /** A multi-line label renders as its lines separated by `<br/>`. */
  lemma {:induction false} FormatLabelLines(a: string, b: string)
    requires '\n' !in a
    ensures FormatLabel(a + "\n" + b, "html") == a + "<br/>" + FormatLabel(b, "html")
  {
    BreakLinesLine(a, b);
  }

  ////////////////////////////////////////////////////////////////////////////
  // getAccounts

  /** One row of the account list: a declared account (`account` is `Some`) or
      a synthesized `/`-terminated ancestor, with the display split of its path. */
  datatype AccountItem = AccountItem(path: string, commonPath: string, relativePath: string, account: Option<Account>)

  /** The number of leading path segments two paths share. */
  function CommonPrefixLength(a: seq<string>, b: seq<string>): (n: nat)
    ensures n <= |a| && n <= |b|
    ensures a[..n] == b[..n]
    ensures n < |a| && n < |b| ==> a[n] != b[n]
  {
    if a == [] || b == [] || a[0] != b[0] then 0
    else
      var n := 1 + CommonPrefixLength(a[1..], b[1..]);
      assert a[..n] == [a[0]] + a[1..][..n - 1];
      assert b[..n] == [b[0]] + b[1..][..n - 1];
      n
  }

  /** The ancestor item made of the first `i2` segments. */
  function AncestorItem(parts: seq<string>, i2: nat): AccountItem
    requires 1 <= i2 <= |parts|
  {
    AccountItem(
      Join(parts[..i2], '/') + "/",
      if i2 > 1 then Join(parts[..i2 - 1], '/') + "/" else "",
      parts[i2 - 1] + "/",
      None)
  }

  /** The ancestor items for segment counts `from` up to (excluding)
      `|parts|`, in increasing order. */
  function Ancestors(parts: seq<string>, from: nat): (r: seq<AccountItem>)
    requires from >= 1
    ensures |r| == if from < |parts| then |parts| - from else 0
  {
    var n := if from < |parts| then |parts| - from else 0;
    seq(n, k requires 0 <= k < n => AncestorItem(parts, from + k))
  }

  /** The ancestor item at each position. */
  lemma {:induction false} AncestorsAt(parts: seq<string>, from: nat)
    requires from >= 1
    ensures forall k :: 0 <= k < |Ancestors(parts, from)| ==> Ancestors(parts, from)[k] == AncestorItem(parts, from + k)
  {
  }

  function AccountRow(a: Account, parts: seq<string>): AccountItem
    requires |parts| >= 1
  {
    AccountItem(a.path, Join(parts[..|parts| - 1], '/') + "/", parts[|parts| - 1], Some(a))
  }

  /** The loop of `getAccounts`; `lastParts` is the previous account's split path. */
  function AccountItems(accounts: seq<Account>, lastParts: seq<string>): seq<AccountItem>
  {
    if accounts == [] then []
    else
      var parts := Split(accounts[0].path, '/');
      var i := CommonPrefixLength(parts, lastParts);
      Ancestors(parts, i + 1) + [AccountRow(accounts[0], parts)] + AccountItems(accounts[1..], parts)
  }

  /** `getAccounts()`: declared accounts in declaration order, each preceded
      by the ancestors it does not share with the account before it. */
  function GetAccounts(l: Ledger): seq<AccountItem> {
    AccountItems(l.accounts, [])
  }

  /** The listing of a run of accounts starts with the synthesized ancestors
      of the first account: one `/`-terminated item per segment count beyond
      the segments it shares with the previous account and short of its whole
      path, in increasing order; then the account's own item; then the
      listing of the remaining accounts. */
  lemma {:induction false} AccountItemsBlock(accounts: seq<Account>, lastParts: seq<string>)
    requires accounts != []
    ensures var parts := Split(accounts[0].path, '/');
      var c := CommonPrefixLength(parts, lastParts);
      var n := if c + 1 < |parts| then |parts| - c - 1 else 0;
      var items := AccountItems(accounts, lastParts);
      && |items| > n
      && (forall k :: 0 <= k < n ==>
            items[k].account.None? && items[k].path == Join(parts[..c + 1 + k], '/') + "/")
      && items[n].account == Some(accounts[0]) && items[n].path == accounts[0].path
      && items[n + 1..] == AccountItems(accounts[1..], parts)
  {
    var parts := Split(accounts[0].path, '/');
    var c := CommonPrefixLength(parts, lastParts);
    AccountItemsHead(accounts, lastParts);
    AroundAt(Ancestors(parts, c + 1), AccountRow(accounts[0], parts), AccountItems(accounts[1..], parts));
    AncestorPaths(parts, c + 1);
  }

  /** One step of the `getAccounts` loop. */
  lemma {:induction false} AccountItemsHead(accounts: seq<Account>, lastParts: seq<string>)
    requires accounts != []
    ensures var parts := Split(accounts[0].path, '/');
      AccountItems(accounts, lastParts) ==
        Ancestors(parts, CommonPrefixLength(parts, lastParts) + 1) + [AccountRow(accounts[0], parts)]
        + AccountItems(accounts[1..], parts)
  {
  }

  /** Every synthesized ancestor item is the `/`-terminated path of its
      first segments and lists no account. */
  lemma {:induction false} AncestorPaths(parts: seq<string>, from: nat)
    requires from >= 1
    ensures forall k :: 0 <= k < |Ancestors(parts, from)| ==>
      && Ancestors(parts, from)[k].account.None?
      && Ancestors(parts, from)[k].path == Join(parts[..from + k], '/') + "/"
  {
    AncestorsAt(parts, from);
  }

  /** The declared accounts listed in a run of items, in order. */
  function Listed(items: seq<AccountItem>): seq<Account> {
    if items == [] then []
    else (if items[0].account.Some? then [items[0].account.value] else []) + Listed(items[1..])
  }

  lemma {:induction false} ListedAppend(a: seq<AccountItem>, b: seq<AccountItem>)
    ensures Listed(a + b) == Listed(a) + Listed(b)
  {
    if a == [] {
      assert a + b == b;
    } else {
      var head := if a[0].account.Some? then [a[0].account.value] else [];
      assert (a + b)[0] == a[0];
      assert (a + b)[1..] == a[1..] + b;
      ListedAppend(a[1..], b);
      assert Listed(a + b) == head + (Listed(a[1..]) + Listed(b));
      ConcatAssoc(head, Listed(a[1..]), Listed(b));
    }
  }

  /** Synthesized ancestor rows list no declared account. */
  lemma {:induction false} AncestorsUnlisted(parts: seq<string>, from: nat)
    requires from >= 1
    ensures Listed(Ancestors(parts, from)) == []
  {
    AncestorsAt(parts, from);
    ListedNone(Ancestors(parts, from));
  }

  /** Rows that all lack an account list none. */
  lemma {:induction false} ListedNone(items: seq<AccountItem>)
    requires forall k :: 0 <= k < |items| ==> items[k].account.None?
    ensures Listed(items) == []
  {
    if items != [] {
      ListedNone(items[1..]);
    }
  }

  /** What every synthesized ancestor row satisfies. */
  predicate AncestorOk(item: AccountItem, parts: seq<string>) {
    && item.commonPath + item.relativePath == item.path
    && item.account.None?
    && EndsWith(item.path, '/')
    && item.path <= Join(parts, '/')
  }

  lemma {:induction false} AncestorsFacts(parts: seq<string>, from: nat)
    requires from >= 1
    ensures forall k :: 0 <= k < |Ancestors(parts, from)| ==> AncestorOk(Ancestors(parts, from)[k], parts)
  {
    var items := Ancestors(parts, from);
    AncestorsAt(parts, from);
    forall k | 0 <= k < |items| ensures AncestorOk(items[k], parts) {
      AncestorItemFacts(parts, from + k);
    }
  }

  /** One ancestor item: its parent path and last segment make up its path,
      which ends with `/` and starts the joined path. */
  lemma {:induction false} AncestorItemFacts(parts: seq<string>, from: nat)
    requires 1 <= from < |parts|
    ensures var item := AncestorItem(parts, from);
      && item.commonPath + item.relativePath == item.path
      && EndsWith(item.path, '/')
      && item.path <= Join(parts, '/')
  {
    var item := AncestorItem(parts, from);
    var head := Join(parts[..from], '/');
    assert item.path == head + "/";
    if from > 1 {
      assert parts[..from] == parts[..from - 1] + [parts[from - 1]];
      JoinSnoc(parts[..from - 1], parts[from - 1], '/');
      assert item.commonPath + item.relativePath == Join(parts[..from - 1], '/') + "/" + parts[from - 1] + "/";
    } else {
      assert parts[..from] == [parts[0]];
    }
    assert parts == parts[..from] + parts[from..];
    JoinAppend(parts[..from], parts[from..], '/');
    assert Join(parts, '/') == item.path + Join(parts[from..], '/');
  }

  /** An account's own row splits its path into parent and last segment. */
  lemma {:induction false} AccountRowSplits(a: Account)
    requires ValidAccountPath(a.path)
    ensures |Split(a.path, '/')| >= 2
    ensures var row := AccountRow(a, Split(a.path, '/'));
      row.commonPath + row.relativePath == row.path == a.path
  {
    var parts := Split(a.path, '/');
    JoinSplit(a.path, '/');
    assert parts == [""] + Split(a.path[1..], '/');
    assert parts == parts[..|parts| - 1] + [parts[|parts| - 1]];
    JoinSnoc(parts[..|parts| - 1], parts[|parts| - 1], '/');
  }

  /** Declared accounts appear in the list once each, in declaration order. */
  lemma {:induction false} AccountItemsListed(accounts: seq<Account>, lastParts: seq<string>)
    ensures Listed(AccountItems(accounts, lastParts)) == accounts
  {
    if accounts != [] {
      var a := accounts[0];
      var parts := Split(a.path, '/');
      var anc := Ancestors(parts, CommonPrefixLength(parts, lastParts) + 1);
      var row := AccountRow(a, parts);
      AccountItemsListed(accounts[1..], parts);
      AncestorsUnlisted(parts, CommonPrefixLength(parts, lastParts) + 1);
      ListedAppend(anc, [row]);
      ListedAppend(anc + [row], AccountItems(accounts[1..], parts));
      assert accounts == [a] + accounts[1..];
    }
  }

  /** What every row of the account list satisfies. */
  predicate ItemOk(item: AccountItem, accounts: seq<Account>) {
    && item.commonPath + item.relativePath == item.path
    && (item.account.Some? ==> item.path == item.account.value.path)
    && (item.account.None? ==> EndsWith(item.path, '/') && exists i :: 0 <= i < |accounts| && item.path <= accounts[i].path)
  }

  /** Each item's `commonPath + relativePath` is its path, and every
      synthesized item is a `/`-terminated prefix of a declared path. */
  lemma {:induction false} AccountItemsOk(accounts: seq<Account>, lastParts: seq<string>)
    requires forall i :: 0 <= i < |accounts| ==> ValidAccountPath(accounts[i].path)
    ensures forall k :: 0 <= k < |AccountItems(accounts, lastParts)| ==> ItemOk(AccountItems(accounts, lastParts)[k], accounts)
  {
    if accounts != [] {
      var a := accounts[0];
      var parts := Split(a.path, '/');
      var anc := Ancestors(parts, CommonPrefixLength(parts, lastParts) + 1);
      var row := AccountRow(a, parts);
      var rest := AccountItems(accounts[1..], parts);
      AccountItemsOk(accounts[1..], parts);
      AncestorsFacts(parts, CommonPrefixLength(parts, lastParts) + 1);
      AccountRowSplits(a);
      JoinSplit(a.path, '/');
      forall k | 0 <= k < |anc|
        ensures ItemOk(anc[k], accounts)
      {
        assert AncestorOk(anc[k], parts);
        assert anc[k].path <= accounts[0].path;
      }
      assert ItemOk(row, accounts);
      forall k | 0 <= k < |rest|
        ensures ItemOk(rest[k], accounts)
      {
        assert ItemOk(rest[k], accounts[1..]);
        if rest[k].account.None? {
          var j :| 0 <= j < |accounts[1..]| && rest[k].path <= accounts[1..][j].path;
          assert accounts[1..][j] == accounts[j + 1];
        }
      }
      ItemsOkConcat(anc, row, rest, accounts);
    }
  }

  lemma {:induction false} ItemsOkConcat(x: seq<AccountItem>, row: AccountItem, y: seq<AccountItem>, accounts: seq<Account>)
    requires forall k :: 0 <= k < |x| ==> ItemOk(x[k], accounts)
    requires ItemOk(row, accounts)
    requires forall k :: 0 <= k < |y| ==> ItemOk(y[k], accounts)
    ensures forall k :: 0 <= k < |x + [row] + y| ==> ItemOk((x + [row] + y)[k], accounts)
  {
    forall k | 0 <= k < |x + [row] + y|
      ensures ItemOk((x + [row] + y)[k], accounts)
    {
      if k < |x| {
        assert (x + [row] + y)[k] == x[k];
      } else if k > |x| {
        assert (x + [row] + y)[k] == y[k - |x| - 1];
      }
    }
  }

  /** `getAccounts` of a valid ledger lists each declared account exactly
      once, in declaration order, with a consistent display split. */
  lemma {:induction false} GetAccountsFacts(l: Ledger)
    requires Valid(l)
    ensures Listed(GetAccounts(l)) == l.accounts
    ensures forall k :: 0 <= k < |GetAccounts(l)| ==>
      GetAccounts(l)[k].commonPath + GetAccounts(l)[k].relativePath == GetAccounts(l)[k].path
    ensures forall k :: 0 <= k < |GetAccounts(l)| && GetAccounts(l)[k].account.None? ==>
      EndsWith(GetAccounts(l)[k].path, '/')
  {
    AccountItemsListed(l.accounts, []);
    AccountItemsOk(l.accounts, []);
  }

  ////////////////////////////////////////////////////////////////////////////
  // getAccount and isAccountValid

  /** A resolved account: a concrete declared account, or an aggregate with
      the declared accounts under its prefix (keyed by their relative path). */
  datatype AccountRef =
    | Aggregate(path: string, members: seq<(string, Account)>)
    | Concrete(account: Account)

  /** `matchAccount`: a prefix test for an aggregate, equality otherwise. */
  predicate MatchAccount(ref: AccountRef, name: string) {
    match ref
    case Aggregate(p, _) => p <= name
    case Concrete(a) => name == a.path
  }

  /** `matchEntry`: some account of the entry's assignment matches. */
  predicate MatchEntry(ref: AccountRef, e: Entry) {
    exists i :: 0 <= i < |e.assignment| && MatchAccount(ref, e.assignment[i].account)
  }

  /** The declared accounts under `prefix`, keyed by the rest of their path. */
  function Members(accounts: seq<Account>, prefix: string): (r: seq<(string, Account)>)
    ensures forall m :: m in r ==> m.1 in accounts && prefix <= m.1.path && m.1.path == prefix + m.0
    ensures forall a :: a in accounts && prefix <= a.path ==> (a.path[|prefix|..], a) in r
    ensures r == [] <==> forall i :: 0 <= i < |accounts| ==> !(prefix <= accounts[i].path)
  {
    if accounts == [] then []
    else
      var a := accounts[0];
      var tail := Members(accounts[1..], prefix);
      assert forall b :: b in accounts ==> b == a || b in accounts[1..];
      if prefix <= a.path then
        assert a.path == prefix + a.path[|prefix|..];
        [(a.path[|prefix|..], a)] + tail
      else
        assert forall i :: 1 <= i < |accounts| ==> accounts[i] == accounts[1..][i - 1];
        tail
  }

  /** `getAccount(path)`: a `/`-terminated path is an aggregate and fails
      when it covers no declared account; any other path must be declared. */
  function GetAccount(l: Ledger, path: string): (r: Result<AccountRef, Error>)
    ensures EndsWith(path, '/') ==>
      && (r.Success? <==> exists i :: 0 <= i < |l.accounts| && path <= l.accounts[i].path)
      && (r.Success? ==> r.value.Aggregate? && r.value.path == path)
      && (r.Success? ==> r.value.members == Members(l.accounts, path))
    ensures !EndsWith(path, '/') ==>
      && (r.Success? <==> Declared(l.accounts, path))
      && (r.Success? ==> r.value.Concrete? && r.value.account in l.accounts)
    ensures r.Success? ==>
      forall name :: MatchAccount(r.value, name) <==> (if EndsWith(path, '/') then path <= name else name == path)
  {
    if EndsWith(path, '/') then
      var members := Members(l.accounts, path);
      if members == [] then Failure(UnmatchedAggregate(path)) else Success(Aggregate(path, members))
    else
      match FindAccount(l.accounts, path)
      case None => Failure(UnknownAccount(path))
      case Some(a) => Success(Concrete(a))
  }

  /** `isAccountValid(path, true)` holds exactly for the paths that are not
      aggregates and that `getAccount` resolves, and such a path resolves
      to its own account. */
  lemma {:induction false} ValidAccountResolves(l: Ledger, path: string)
    ensures IsAccountValid(l, path, true) <==> !EndsWith(path, '/') && GetAccount(l, path).Success?
    ensures IsAccountValid(l, path, true) ==>
      && GetAccount(l, path).value.Concrete?
      && GetAccount(l, path).value.account.path == path
  {
  }

  ////////////////////////////////////////////////////////////////////////////
  // getAccountEntries

  /** An entry as seen from one account: the matching postings' net value,
      split into debit (negative postings) and credit, and the running balance. */
  datatype AccountLine = AccountLine(entry: Entry, debit: real, credit: real, value: real, balance: real)

  /** The sum of an entry's postings to matching accounts. */
  function MatchedValue(ps: seq<Posting>, ref: AccountRef): real {
    if ps == [] then 0.0
    else (if MatchAccount(ref, ps[0].account) then ps[0].amount else 0.0) + MatchedValue(ps[1..], ref)
  }

  function MatchedDebit(ps: seq<Posting>, ref: AccountRef): (r: real)
    ensures r >= 0.0
  {
    if ps == [] then 0.0
    else (if MatchAccount(ref, ps[0].account) && ps[0].amount < 0.0 then -ps[0].amount else 0.0)
         + MatchedDebit(ps[1..], ref)
  }

  function MatchedCredit(ps: seq<Posting>, ref: AccountRef): (r: real)
    ensures r >= 0.0
  {
    if ps == [] then 0.0
    else (if MatchAccount(ref, ps[0].account) && ps[0].amount >= 0.0 then ps[0].amount else 0.0)
         + MatchedCredit(ps[1..], ref)
  }

  /** Credit minus debit is the net value: the split loses nothing. */
  lemma {:induction false} CreditMinusDebit(ps: seq<Posting>, ref: AccountRef)
    ensures MatchedCredit(ps, ref) - MatchedDebit(ps, ref) == MatchedValue(ps, ref)
  {
    if ps != [] {
      CreditMinusDebit(ps[1..], ref);
    }
  }

  /** The sum of the values of a run of lines. */
  function LinesValue(lines: seq<AccountLine>): real {
    if lines == [] then 0.0 else lines[0].value + LinesValue(lines[1..])
  }

  /** The `map` of `getAccountEntries`, with `opening` the balance so far. */
  function Annotate(es: seq<Entry>, ref: AccountRef, opening: real): (r: seq<AccountLine>)
    ensures |r| == |es|
    ensures forall k :: 0 <= k < |r| ==>
      && r[k].entry == es[k]
      && r[k].value == MatchedValue(es[k].assignment, ref)
      && r[k].debit == MatchedDebit(es[k].assignment, ref)
      && r[k].credit == MatchedCredit(es[k].assignment, ref)
      && r[k].credit - r[k].debit == r[k].value
      && r[k].debit >= 0.0 && r[k].credit >= 0.0
      && r[k].balance == opening + LinesValue(r[..k + 1])
  {
    if es == [] then []
    else
      var e := es[0];
      var v := MatchedValue(e.assignment, ref);
      CreditMinusDebit(e.assignment, ref);
      var line := AccountLine(e, MatchedDebit(e.assignment, ref), MatchedCredit(e.assignment, ref), v, opening + v);
      var tail := Annotate(es[1..], ref, opening + v);
      RunningBalanceCons(line, tail, opening);
      [line] + tail
  }

  /** Prepending a line whose balance is the opening plus its value keeps
      every balance equal to the opening plus the values so far. */
  lemma {:induction false} RunningBalanceCons(line: AccountLine, tail: seq<AccountLine>, opening: real)
    requires line.balance == opening + line.value
    requires forall k :: 0 <= k < |tail| ==> tail[k].balance == line.balance + LinesValue(tail[..k + 1])
    ensures forall k :: 0 <= k < |[line] + tail| ==> ([line] + tail)[k].balance == opening + LinesValue(([line] + tail)[..k + 1])
  {
    var r := [line] + tail;
    forall k | 0 <= k < |r|
      ensures r[k].balance == opening + LinesValue(r[..k + 1])
    {
      if k == 0 {
        assert r[..1] == [line];
      } else {
        assert r[k] == tail[k - 1];
        assert r[..k + 1][1..] == tail[..k];
      }
    }
  }

  /** The entries of the sealed ledger that touch the account, in sealed order. */
  function MatchingEntries(l: Ledger, ref: AccountRef): seq<Entry> {
    Filter(SealEntries(l).entries, (e: Entry) => MatchEntry(ref, e))
  }

  /** Exactly the ledger's entries that touch the account, and in date order
      when this query is the one that seals the ledger. */
  lemma {:induction false} MatchingEntriesFacts(l: Ledger, ref: AccountRef)
    ensures forall e :: e in MatchingEntries(l, ref) <==> e in l.entries && MatchEntry(ref, e)
    ensures !l.sealedEntries ==> SortedBy(MatchingEntries(l, ref), ByDate)
  {
    var sealed := SealEntries(l).entries;
    assert forall e :: e in sealed <==> e in l.entries by {
      assert multiset(sealed) == multiset(l.entries);
      forall e ensures e in sealed <==> e in l.entries {
        assert e in sealed <==> e in multiset(sealed);
        assert e in l.entries <==> e in multiset(l.entries);
      }
    }
    if !l.sealedEntries {
      FilterSorted(sealed, (e: Entry) => MatchEntry(ref, e), ByDate);
    }
  }

  /** `getAccountEntries(path)`: seals the ledger, then lists one line per
      sealed entry touching the account, in sealed order, each with its
      debit, credit, net value and running balance. */
  function GetAccountEntries(l: Ledger, path: string): (r: Result<(Ledger, seq<AccountLine>), Error>)
    ensures r.Success? <==> GetAccount(l, path).Success?
    ensures r.Success? ==> r.value.0 == SealEntries(l)
    ensures r.Success? ==>
      var ref := GetAccount(l, path).value;
      var lines := r.value.1;
      && |lines| == |MatchingEntries(l, ref)|
      && forall k :: 0 <= k < |lines| ==>
           && lines[k].entry == MatchingEntries(l, ref)[k]
           && lines[k].debit == MatchedDebit(lines[k].entry.assignment, ref) >= 0.0
           && lines[k].credit == MatchedCredit(lines[k].entry.assignment, ref) >= 0.0
           && lines[k].credit - lines[k].debit == lines[k].value
           && lines[k].value == MatchedValue(lines[k].entry.assignment, ref)
           && lines[k].balance == LinesValue(lines[..k + 1])
  {
    var ref :- GetAccount(l, path);
    Success((SealEntries(l), Annotate(MatchingEntries(l, ref), ref, 0.0)))
  }

  /** Aggregate containment: an entry listed for a concrete account is also
      listed for any aggregate whose prefix covers that account. */
  lemma {:induction false} AggregateContainsConcrete(l: Ledger, aggregate: string, account: string)
    requires EndsWith(aggregate, '/') && !EndsWith(account, '/')
    requires aggregate <= account && Declared(l.accounts, account)
    ensures GetAccount(l, account).Success? && GetAccount(l, aggregate).Success?
    ensures forall e :: e in MatchingEntries(l, GetAccount(l, account).value) ==>
                        e in MatchingEntries(l, GetAccount(l, aggregate).value)
  {
    var i :| 0 <= i < |l.accounts| && l.accounts[i].path == account;
    assert aggregate <= l.accounts[i].path;
    var concrete := GetAccount(l, account).value;
    var agg := GetAccount(l, aggregate).value;
    MatchingEntriesFacts(l, concrete);
    MatchingEntriesFacts(l, agg);
    forall e | e in MatchingEntries(l, concrete)
      ensures e in MatchingEntries(l, agg)
    {
      var p :| 0 <= p < |e.assignment| && MatchAccount(concrete, e.assignment[p].account);
      assert MatchAccount(agg, e.assignment[p].account);
    }
  }

  ////////////////////////////////////////////////////////////////////////////
  // getAccountStats

  datatype Stats = Stats(debit: real, credit: real, balance: real, entries: nat)

  /** The sum of the matching values of a run of entries. */
  function ValueSum(es: seq<Entry>, ref: AccountRef): real {
    if es == [] then 0.0 else MatchedValue(es[0].assignment, ref) + ValueSum(es[1..], ref)
  }

  /** The sum of the negative matching values of a run of entries, negated. */
  function DebitSum(es: seq<Entry>, ref: AccountRef): real {
    if es == [] then 0.0
    else (if MatchedValue(es[0].assignment, ref) < 0.0 then -MatchedValue(es[0].assignment, ref) else 0.0)
         + DebitSum(es[1..], ref)
  }

  /** The sum of the non-negative matching values of a run of entries. */
  function CreditSum(es: seq<Entry>, ref: AccountRef): real {
    if es == [] then 0.0
    else (if MatchedValue(es[0].assignment, ref) < 0.0 then 0.0 else MatchedValue(es[0].assignment, ref))
         + CreditSum(es[1..], ref)
  }

  /** The `forEach` of `getAccountStats`: a negative net value counts as
      debit, any other as credit. */
  function Accumulate(es: seq<Entry>, ref: AccountRef, acc: Stats): (r: Stats)
    ensures r.balance - acc.balance == (r.credit - acc.credit) - (r.debit - acc.debit)
    ensures r.debit >= acc.debit && r.credit >= acc.credit
    ensures r.entries == acc.entries + |es|
    ensures r.balance == acc.balance + ValueSum(es, ref)
    ensures r.debit == acc.debit + DebitSum(es, ref)
    ensures r.credit == acc.credit + CreditSum(es, ref)
  {
    if es == [] then acc
    else
      var v := MatchedValue(es[0].assignment, ref);
      var next := if v < 0.0 then acc.(debit := acc.debit - v) else acc.(credit := acc.credit + v);
      Accumulate(es[1..], ref, next.(balance := acc.balance + v, entries := acc.entries + 1))
  }

  /** The lines' values add up to the entries' matching values. */
  lemma {:induction false} LinesValueIsValueSum(es: seq<Entry>, ref: AccountRef, opening: real)
    ensures LinesValue(Annotate(es, ref, opening)) == ValueSum(es, ref)
  {
    LinesValueOfValues(Annotate(es, ref, opening), es, ref);
  }

  /** Lines carrying the matched values of the entries, in order, add up to
      the entries' value sum. */
  lemma {:induction false} LinesValueOfValues(lines: seq<AccountLine>, es: seq<Entry>, ref: AccountRef)
    requires |lines| == |es|
    requires forall k :: 0 <= k < |lines| ==> lines[k].value == MatchedValue(es[k].assignment, ref)
    ensures LinesValue(lines) == ValueSum(es, ref)
  {
    if lines != [] {
      LinesValueOfValues(lines[1..], es[1..], ref);
    }
  }

  /** `getAccountStats(path)`: debit, credit, balance and entry count of the
      sealed entries touching the account. */
  function GetAccountStats(l: Ledger, path: string): (r: Result<(Ledger, Stats), Error>)
    ensures r.Success? <==> GetAccount(l, path).Success?
    ensures r.Success? ==> r.value.0 == SealEntries(l)
    ensures r.Success? ==>
      var ref := GetAccount(l, path).value;
      var stats := r.value.1;
      && stats.debit == DebitSum(MatchingEntries(l, ref), ref)
      && stats.credit == CreditSum(MatchingEntries(l, ref), ref)
      && stats.balance == stats.credit - stats.debit
      && stats.debit >= 0.0 && stats.credit >= 0.0
      && stats.entries == |GetAccountEntries(l, path).value.1|
      && stats.balance == LinesValue(GetAccountEntries(l, path).value.1)
  {
    var ref :- GetAccount(l, path);
    var es := MatchingEntries(l, ref);
    LinesValueIsValueSum(es, ref, 0.0);
    Success((SealEntries(l), Accumulate(es, ref, Stats(0.0, 0.0, 0.0, 0))))
  }

  /** The reported balance is the running balance of the last listed entry. */
  lemma {:induction false} StatsBalanceIsLastBalance(l: Ledger, path: string)
    requires GetAccount(l, path).Success?
    requires |GetAccountEntries(l, path).value.1| > 0
    ensures GetAccountStats(l, path).value.1.balance ==
      GetAccountEntries(l, path).value.1[|GetAccountEntries(l, path).value.1| - 1].balance
  {
    var lines := GetAccountEntries(l, path).value.1;
    assert lines[..|lines|] == lines;
  }
}
