/**
 * The scrubber itself (Scrub.c): a book holds the account, split and
 * transaction arenas, the cooperative abort flag, the scrub nesting depth
 * and the progress reports, and the scrub routines change them in place.
 */
module Scrub {
  import opened Numeric
  import opened Commodities
  import opened Ledger
  import opened AccountLookup
  import opened CurrencyVote
  import opened Cleanups
  import opened Orphans
  import opened Balance
  import opened CurrencyScrub

  /** A call of the progress callback: a report, or (NULL, -1) for "done". */
  datatype Progress = Report(account: string, current: nat, total: nat, percent: int) | Done

  /** (100 * current) / total in unsigned arithmetic, the percentage a walker reports */
  function Percent(current: nat, total: nat): int
    requires total > 0
  {
    (100 * current) / total
  }

  /** The report a walker makes before split `i` of `total`: one before every tenth split. */
  function ReportAt(name: string, i: nat, total: nat): seq<Progress>
    requires i < total
  {
    if i % 10 == 0 then [Report(name, i, total, Percent(i, total))] else []
  }

  /**
   * The reports a walker's loop makes over the first `n` of `total` splits
   * of account `name`: one before every tenth split, starting with the
   * first, giving the split's position and (100 * position) / total.
   */
  function Reports(name: string, n: nat, total: nat): seq<Progress>
    requires n <= total
  {
    if n == 0 then [] else Reports(name, n - 1, total) + ReportAt(name, n - 1, total)
  }

  /** `n` "done" reports. */
  function Dones(n: nat): (r: seq<Progress>)
    ensures |r| == n && forall i | 0 <= i < n :: r[i] == Done
  {
    if n == 0 then [] else Dones(n - 1) + [Done]
  }

  /**
   * One report per ten splits, rounded up; the k-th names split 10k, and
   * its percentage lies in [0, 100).
   */
  lemma {:induction false} ReportsBounds(name: string, n: nat, total: nat)
    requires n <= total
    ensures var r := Reports(name, n, total);
            && |r| == (n + 9) / 10
            && forall k | 0 <= k < |r| :: r[k].Report? && r[k].current == 10 * k && 0 <= r[k].percent < 100
  {
    if n > 0 {
      ReportsBounds(name, n - 1, total);
      CountStep(n - 1);
      if (n - 1) % 10 == 0 {
        PercentBelow(n - 1, total);
      }
    }
  }

  lemma CountStep(c: nat)
    ensures (c + 10) / 10 == (c + 9) / 10 + (if c % 10 == 0 then 1 else 0)
    ensures c % 10 == 0 ==> c == 10 * ((c + 9) / 10)
  {
    var q, m := c / 10, c % 10;
    assert c == 10 * q + m;
    assert (c + 10) / 10 == q + 1;
    if m == 0 {
      assert (c + 9) / 10 == q;
    } else {
      assert (c + 9) / 10 == q + 1;
    }
  }

  lemma PercentBelow(c: nat, total: nat)
    requires c < total
    ensures 0 <= Percent(c, total) < 100
  {
    DivBelow(100 * c, total);
  }

  lemma DivBelow(x: nat, total: nat)
    requires total > 0 && x < 100 * total
    ensures x / total < 100
  {
  }

  /** The splits posted to account `acc`. */
  ghost function SplitsOf(splits: Splits, acc: AccountId): set<SplitId>
  {
    set s | s in splits && splits[s].account == Some(acc)
  }

  /** Repairing the transaction of every split on the account's split list repairs the account. */
  lemma RepairedFromList(s0: Splits, s1: Splits, trans: Transactions, acc: AccountId, list: seq<SplitId>)
    requires AllIn(list, s0) && forall s | s in s0 && s0[s].account == Some(acc) :: s in list
    requires forall k | 0 <= k < |list| :: Repaired(s1, trans, ParentOf(s0, trans, list[k]))
    ensures RepairedIn(s0, s1, trans, {acc})
  {
    forall s | s in s0 && s0[s].account.Some? && s0[s].account.value in {acc}
      ensures Repaired(s1, trans, ParentOf(s0, trans, s))
    {
      var k :| 0 <= k < |list| && list[k] == s;
    }
  }

  /** A list without repeats holding exactly the elements of a set is as long as the set is large. */
  lemma {:induction false} DistinctCard<T>(list: seq<T>, elems: set<T>)
    requires Distinct(list) && (forall i | 0 <= i < |list| :: list[i] in elems) && (forall x | x in elems :: x in list)
    ensures |list| == |elems|
  {
    if list != [] {
      var rest := list[1..];
      forall x | x in elems - {list[0]} ensures x in rest {
        var k :| 0 <= k < |list| && list[k] == x;
        assert k != 0;
        assert rest[k - 1] == x;
      }
      forall i | 0 <= i < |rest| ensures rest[i] in elems - {list[0]} {
        assert rest[i] == list[i + 1];
      }
      DistinctCard(rest, elems - {list[0]});
    }
  }

  /** A split's account and parent transaction exist. */
  ghost predicate SplitRefsOk(accts: Accounts, splits: Splits, trans: Transactions)
  {
    forall s | s in splits ::
      (splits[s].account.Some? ==> splits[s].account.value in accts) &&
      (splits[s].parent.Some? ==> splits[s].parent.value in trans)
  }

  /** A transaction lists each of its splits once, and each names it as parent. */
  ghost predicate TransListsOk(splits: Splits, trans: Transactions)
  {
    forall t | t in trans ::
      AllIn(trans[t].splits, splits) && Distinct(trans[t].splits) &&
      forall i | 0 <= i < |trans[t].splits| :: splits[trans[t].splits[i]].parent == Some(t)
  }

  /**
   * The book's consistency: the account tree is closed, every reference of
   * a split resolves, every transaction lists its own splits once, and the
   * identifier counters are fresh.
   */
  ghost predicate BookOk(accts: Accounts, splits: Splits, trans: Transactions, root: AccountId, nextAccount: nat, nextSplit: nat)
  {
    && TreeOk(accts, nextAccount) && root in accts
    && SplitRefsOk(accts, splits, trans)
    && TransListsOk(splits, trans)
    && (forall s | s in splits :: s < nextSplit)
  }

  /** The transactions after split `s` is destroyed. */
  function DropFromTrans(trans: Transactions, splits: Splits, s: SplitId): Transactions
    requires s in splits
    requires splits[s].parent.Some? ==> splits[s].parent.value in trans
  {
    var t := splits[s].parent;
    if t.Some? then trans[t.value := trans[t.value].(splits := Without(trans[t.value].splits, s))] else trans
  }

  /** Destroying a split keeps the book consistent. */
  lemma DestroyOk(accts: Accounts, splits: Splits, trans: Transactions, root: AccountId, nextAccount: nat, nextSplit: nat, s: SplitId)
    requires BookOk(accts, splits, trans, root, nextAccount, nextSplit) && s in splits
    ensures BookOk(accts, splits - {s}, DropFromTrans(trans, splits, s), root, nextAccount, nextSplit)
  {
    var t := splits[s].parent;
    var trans' := DropFromTrans(trans, splits, s);
    var splits' := splits - {s};
    forall u | u in trans'
      ensures AllIn(trans'[u].splits, splits') && Distinct(trans'[u].splits)
      ensures forall i | 0 <= i < |trans'[u].splits| :: splits'[trans'[u].splits[i]].parent == Some(u)
    {
      forall i | 0 <= i < |trans'[u].splits|
        ensures trans'[u].splits[i] in splits' && splits'[trans'[u].splits[i]].parent == Some(u)
      {
        var x := trans'[u].splits[i];
        assert x in trans[u].splits;
        assert x != s;
      }
    }
  }

  /** Adding a fresh split to a transaction keeps the book consistent. */
  lemma NewSplitOk(accts: Accounts, splits: Splits, trans: Transactions, root: AccountId, nextAccount: nat, nextSplit: nat,
                   t: TransId, a: AccountId)
    requires BookOk(accts, splits, trans, root, nextAccount, nextSplit) && t in trans && a in accts
    ensures BookOk(accts, splits[nextSplit := Split(Some(t), Some(a), Zero(), Zero())],
                   trans[t := trans[t].(splits := trans[t].splits + [nextSplit])],
                   root, nextAccount, nextSplit + 1)
  {
    var s := nextSplit;
    var S := splits[s := Split(Some(t), Some(a), Zero(), Zero())];
    var T := trans[t := trans[t].(splits := trans[t].splits + [s])];
    assert s !in splits;
    forall u | u in T
      ensures AllIn(T[u].splits, S) && Distinct(T[u].splits)
      ensures forall i | 0 <= i < |T[u].splits| :: S[T[u].splits[i]].parent == Some(u)
    {
      if u == t {
        assert forall i | 0 <= i < |trans[t].splits| :: trans[t].splits[i] != s;
      }
    }
  }

  /** Changing the numbers of a split keeps the book consistent. */
  lemma NumbersOk(accts: Accounts, splits: Splits, trans: Transactions, root: AccountId, nextAccount: nat, nextSplit: nat,
                  s: SplitId, amount: Numeric, value: Numeric)
    requires BookOk(accts, splits, trans, root, nextAccount, nextSplit) && s in splits
    ensures BookOk(accts, splits[s := splits[s].(amount := amount, value := value)], trans, root, nextAccount, nextSplit)
  {
    var S := splits[s := splits[s].(amount := amount, value := value)];
    forall t | t in trans
      ensures forall i | 0 <= i < |trans[t].splits| :: S[trans[t].splits[i]].parent == Some(t)
    {
    }
  }

  /** Replacing an account by one with the same place in the tree keeps the book consistent. */
  lemma AccountOk(accts: Accounts, splits: Splits, trans: Transactions, root: AccountId, nextAccount: nat, nextSplit: nat,
                  a: AccountId, acct: Account)
    requires BookOk(accts, splits, trans, root, nextAccount, nextSplit) && a in accts
    requires acct.parent == accts[a].parent && acct.children == accts[a].children
    ensures BookOk(accts[a := acct], splits, trans, root, nextAccount, nextSplit)
  {
  }

  /** Filling in accounts keeps every split's parent, account and numbers. */
  /**
   * The number repair of xaccSplitScrub on split `s` of a transaction in
   * currency `cur`, in the state `f` that the orphan repair left: a split
   * still without an account is left alone; otherwise its numbers become
   * ScrubNumbers of them, and its account gets ScrubCommodity.
   */
  ghost function ScrubbedIn(f: Fix, s: SplitId, cur: Option<Commodity>): Fix
    requires s in f.splits
  {
    var o := f.splits[s];
    if o.account.None? || o.account.value !in f.accounts then f
    else
      var acct := f.accounts[o.account.value];
      var r := ScrubNumbers(o.amount, o.value, acct.commodity, cur, SplitScu(acct, cur));
      Fix(f.accounts[o.account.value := ScrubCommodity(acct)], f.next, f.splits[s := o.(amount := r.amount, value := r.value)])
  }

  /** Every account that had a commodity keeps it, and keeps its SCU. */
  ghost predicate CommoditiesKept(before: Accounts, after: Accounts)
  {
    before.Keys <= after.Keys &&
    forall a | a in before && before[a].commodity.Some? ::
      after[a].commodity == before[a].commodity && AccountSCU(after[a]) == AccountSCU(before[a])
  }

  lemma CommoditiesKeptTransitive(a: Accounts, b: Accounts, c: Accounts)
    requires CommoditiesKept(a, b) && CommoditiesKept(b, c)
    ensures CommoditiesKept(a, c)
  {
  }

  /** xaccAccountScrubCommodity only gives a commodity to an account without one. */
  lemma ScrubCommodityKeeps(accts: Accounts, a: AccountId)
    requires a in accts
    ensures CommoditiesKept(accts, accts[a := ScrubCommodity(accts[a])])
  {
  }

  /**
   * The orphan repair only adds accounts and a child to an existing one,
   * so every account that had a commodity keeps it and its SCU.
   */
  lemma OrphanRepairKeepsCommodities(accts: Accounts, next: nat, splits: Splits, ids: seq<SplitId>, cur: Option<Commodity>,
                                     bookRoot: AccountId, abort: bool)
    requires TreeOk(accts, next) && bookRoot in accts && AllIn(ids, splits)
    requires forall i | 0 <= i < |ids| :: splits[ids[i]].account.Some? ==> splits[ids[i]].account.value in accts
    ensures CommoditiesKept(accts, TransOrphansFixed(accts, next, splits, ids, cur, bookRoot, abort).accounts)
  {
    if !abort {
      var r := OrphanRoot(accts, splits, ids, bookRoot);
      if cur.Some? && HasOrphan(splits, ids) {
        var g := GetOrMake(accts, next, bookRoot, r, cur, OrphanName(cur), Bank, false, true);
        if Lookup(accts, r, Some(OrphanName(cur)), Bank, cur) == [] {
          assert g.1 == Construct(accts, next, bookRoot, r, cur, OrphanName(cur), Bank, false);
        } else {
          assert g.1 == accts;
        }
      }
    }
  }

  /** A number, or zero when it is invalid, as xaccSplitScrub makes it. */
  function OrZero(n: Numeric): (r: Numeric)
    ensures IsValid(r) && (IsValid(n) ==> r == n)
  {
    if IsValid(n) then n else Zero()
  }

  /**
   * What the xaccSplitScrub calls of a scrub pass leave split `x` with,
   * against the state `s0`, `A0` the pass started from: its value made
   * valid, and its amount either made valid or replaced by the value; when
   * its account had a commodity, exactly ScrubNumbers of its old numbers.
   */
  ghost predicate SplitScrubbed(A0: Accounts, s0: Splits, T: Transactions, splits: Splits, x: SplitId)
  {
    x in s0 && x in splits &&
    var o, n := s0[x], splits[x];
    && n.value == OrZero(o.value)
    && (n.amount == OrZero(o.amount) || n.amount == n.value)
    && (o.parent.Some? && o.parent.value in T && o.account.Some? && o.account.value in A0 && A0[o.account.value].commodity.Some? ==>
          var acct, cur := A0[o.account.value], T[o.parent.value].currency;
          Numbers(n.amount, n.value) == ScrubNumbers(o.amount, o.value, acct.commodity, cur, SplitScu(acct, cur)))
  }

  /**
   * After xaccSplitScrub on the first `i` splits of `list`: each of them
   * that had a transaction and an account is SplitScrubbed, and every split
   * not among them keeps its numbers.
   */
  ghost predicate ScrubbedExactly(A0: Accounts, s0: Splits, T: Transactions, splits: Splits, list: seq<SplitId>, i: nat)
  {
    i <= |list| && AllIn(list, s0) && s0.Keys == splits.Keys &&
    (forall k | 0 <= k < i && s0[list[k]].parent.Some? && s0[list[k]].account.Some? :: SplitScrubbed(A0, s0, T, splits, list[k])) &&
    (forall x | x in s0 && x !in list[..i] :: splits[x].amount == s0[x].amount && splits[x].value == s0[x].value)
  }

  /**
   * xaccSplitScrub on split `x`, posted to an account when the pass
   * started: whether or not an earlier call of the pass already scrubbed
   * it, it ends SplitScrubbed.
   */
  lemma ScrubbedSelf(A0: Accounts, s0: Splits, T: Transactions, A1: Accounts, s1: Splits, s2: Splits, x: SplitId, again: bool)
    requires x in s0 && x in s1 && x in s2 && CommoditiesKept(A0, A1)
    requires s0[x].parent.Some? && s0[x].account.Some?
    requires s1[x].parent == s0[x].parent && s1[x].account == s0[x].account
    requires s1[x].parent.value in T && s1[x].account.value in A1
    requires again ==> SplitScrubbed(A0, s0, T, s1, x)
    requires !again ==> s1[x].amount == s0[x].amount && s1[x].value == s0[x].value
    requires var m := s1[x];
             var acct, cur := A1[m.account.value], T[m.parent.value].currency;
             Numbers(s2[x].amount, s2[x].value) == ScrubNumbers(m.amount, m.value, acct.commodity, cur, SplitScu(acct, cur))
    ensures SplitScrubbed(A0, s0, T, s2, x)
  {
    var o, m := s0[x], s1[x];
    var a, cur := o.account.value, T[o.parent.value].currency;
    if a in A0 && A0[a].commodity.Some? {
      ScrubNumbersIdempotent(o.amount, o.value, A0[a].commodity, cur, SplitScu(A0[a], cur));
    }
  }

  /**
   * One more xaccSplitScrub, on `list[i]`, extends ScrubbedExactly by one
   * split, as long as accounts with a commodity keep it.
   */
  lemma {:induction false} ScrubbedExactlyStep(A0: Accounts, s0: Splits, T: Transactions, A1: Accounts, s1: Splits, s2: Splits,
                                               list: seq<SplitId>, i: nat)
    requires ScrubbedExactly(A0, s0, T, s1, list, i) && i < |list|
    requires CommoditiesKept(A0, A1) && NumbersKept(s0, s1)
    requires NumbersKept(s1, s2) && OthersNumbersKept(s1, s2, list[i])
    requires var o := s1[list[i]];
             o.parent.Some? && o.account.Some? ==>
               && o.parent.value in T && o.account.value in A1
               && var acct, cur := A1[o.account.value], T[o.parent.value].currency;
                  Numbers(s2[list[i]].amount, s2[list[i]].value) == ScrubNumbers(o.amount, o.value, acct.commodity, cur, SplitScu(acct, cur))
    ensures ScrubbedExactly(A0, s0, T, s2, list, i + 1)
  {
    var x := list[i];
    assert list[..i + 1] == list[..i] + [x];
    if s0[x].parent.Some? && s0[x].account.Some? {
      var again := x in list[..i];
      if again {
        var k :| 0 <= k < i && list[k] == x;
      }
      ScrubbedSelf(A0, s0, T, A1, s1, s2, x, again);
    }
    forall k | 0 <= k < i + 1 && s0[list[k]].parent.Some? && s0[list[k]].account.Some?
      ensures SplitScrubbed(A0, s0, T, s2, list[k])
    {
      if list[k] != x {
        assert SplitScrubbed(A0, s0, T, s1, list[k]);
      }
    }
  }

  /** Filling in accounts changes no split's numbers. */
  lemma OthersKept(before: Splits, after: Splits)
    requires OnlyAccountsFilled(before, after)
    ensures forall x | x in before :: after[x].amount == before[x].amount && after[x].value == before[x].value
    ensures forall s :: OthersNumbersKept(before, after, s)
  {
    forall x | x in before ensures after[x].amount == before[x].amount && after[x].value == before[x].value {
      assert after[x] == before[x].(account := after[x].account);
    }
  }

  lemma FilledKeepsNumbers(before: Splits, after: Splits)
    requires OnlyAccountsFilled(before, after)
    ensures NumbersKept(before, after)
  {
    forall s | s in before ensures after[s].amount == before[s].amount && after[s].value == before[s].value {
      assert after[s] == before[s].(account := after[s].account);
    }
  }

  /**
   * What get_balance_split and get_trading_split do once they know the
   * account `a`: the first split of transaction `t` posted to `a`, nothing
   * changed; or, when there is none, a new split `n` of zero amount and
   * value, in `t` and `a`, added at the end of `t`.  The result is that
   * split, the splits, the transactions and the next free split identifier.
   */
  function FindOrAdd(splits: Splits, trans: Transactions, n: nat, t: TransId, a: AccountId): (r: (SplitId, Splits, Transactions, nat))
    requires t in trans && AllIn(trans[t].splits, splits) && forall s | s in splits :: s < n
    ensures r.0 in r.1 && r.1[r.0].account == Some(a) && t in r.2 && r.0 in r.2[t].splits
    ensures forall s | s in r.1 :: s < r.3
    ensures r.1.Keys == splits.Keys + {r.0} && r.2.Keys == trans.Keys && r.2[t].currency == trans[t].currency
    ensures forall u | u in trans && u != t :: r.2[u] == trans[u]
    ensures forall s | s in splits :: r.1[s] == splits[s]
    ensures (r.0 in splits && r.1 == splits && r.2 == trans && r.3 == n) ||
            (r.0 == n && r.1 == splits[n := Split(Some(t), Some(a), Zero(), Zero())] &&
             r.2 == trans[t := trans[t].(splits := trans[t].splits + [n])] && r.3 == n + 1 &&
             forall i | 0 <= i < |trans[t].splits| :: splits[trans[t].splits[i]].account != Some(a))
  {
    var found := FindSplitByAccount(splits, trans[t].splits, a);
    if found.Some? then (found.value, splits, trans, n)
    else (n, splits[n := Split(Some(t), Some(a), Zero(), Zero())], trans[t := trans[t].(splits := trans[t].splits + [n])], n + 1)
  }

  /** The search for a split in account `a` sees a split added at the end only when no earlier one is in `a`. */
  lemma {:induction false} FindSplitAppend(splits: Splits, ids: seq<SplitId>, x: SplitId, a: AccountId)
    requires AllIn(ids, splits) && x in splits
    ensures FindSplitByAccount(splits, ids + [x], a) ==
            if FindSplitByAccount(splits, ids, a).Some? then FindSplitByAccount(splits, ids, a)
            else if splits[x].account == Some(a) then Some(x) else None
  {
    if ids != [] {
      assert (ids + [x])[1..] == ids[1..] + [x];
      FindSplitAppend(splits, ids[1..], x, a);
    }
  }

  /** The search reads nothing but the accounts of the listed splits. */
  lemma {:induction false} FindSplitFrame(s0: Splits, s1: Splits, ids: seq<SplitId>, a: AccountId)
    requires AllIn(ids, s0) && AllIn(ids, s1)
    requires forall i | 0 <= i < |ids| :: s1[ids[i]].account == s0[ids[i]].account
    ensures FindSplitByAccount(s1, ids, a) == FindSplitByAccount(s0, ids, a)
  {
    if ids != [] {
      FindSplitFrame(s0, s1, ids[1..], a);
    }
  }

  /**
   * Looking for the split in account `a` a second time finds the one the
   * first look found or added, and adds nothing: a transaction never gets
   * two balancing splits in one account this way.
   */
  lemma FindOrAddIdempotent(splits: Splits, trans: Transactions, n: nat, t: TransId, a: AccountId)
    requires t in trans && AllIn(trans[t].splits, splits) && forall s | s in splits :: s < n
    ensures var r := FindOrAdd(splits, trans, n, t, a);
            AllIn(r.2[t].splits, r.1) && (forall s | s in r.1 :: s < r.3) &&
            FindOrAdd(r.1, r.2, r.3, t, a) == r
  {
    var r := FindOrAdd(splits, trans, n, t, a);
    var ids := trans[t].splits;
    if r.0 == n && n !in splits {
      assert forall i | 0 <= i < |ids| :: ids[i] != n;
      FindSplitFrame(splits, r.1, ids, a);
      FindSplitAppend(r.1, ids, n, a);
    }
  }

  /** Between two states of the split map, only the amount and value of split `b` may differ. */
  ghost predicate OnlyNumbersOf(before: Splits, after: Splits, b: SplitId)
  {
    b in before && after.Keys == before.Keys &&
    (forall x | x in before && x != b :: after[x] == before[x]) &&
    after[b].parent == before[b].parent && after[b].account == before[b].account
  }

  /**
   * add_balance_split balances the values: when they lie on the grid of the
   * currency fraction `d`, the split found or added in account `a`, its
   * value reduced by the value sum and nothing else changed, brings the
   * value sum of the transaction to exactly zero.
   */
  lemma BalanceSplitZeroes(s0: Splits, T0: Transactions, n0: nat, s1: Splits, s2: Splits, T1: Transactions,
                           t: TransId, a: AccountId, bs: SplitId, d: nat)
    requires t in T0 && ValuesOnGrid(s0, T0[t].splits, d) && forall s | s in s0 :: s < n0
    requires var f := FindOrAdd(s0, T0, n0, t, a); bs == f.0 && s1 == f.1 && T1 == f.2
    requires OnlyNumbersOf(s1, s2, bs) && Distinct(T1[t].splits)
    requires var v := SubRound(s1[bs].value, ValueSum(s0, T0[t].splits), d);
             s2[bs].value == if IsValid(v) then v else Zero()
    ensures AllIn(T1[t].splits, s2) && IsZero(ValueSum(s2, T1[t].splits))
  {
    var ids0 := T0[t].splits;
    ValueSumOnGrid(s0, ids0, d);
    BalancingZeroesValue(s0, s2, ids0, T1[t].splits, bs, d);
  }

  /**
   * gnc_transaction_balance_trading_more_splits reverses the value of one
   * split `x` of transaction `t`: when the values lie on the grid of the
   * currency fraction `d`, the split found or added in the trading account
   * `a`, its value reduced by the value of `x` and nothing else changed,
   * takes exactly the value of `x` out of the value imbalance (also when
   * it is `x` itself).
   */
  lemma ReversingSplitMovesValue(s0: Splits, T0: Transactions, n0: nat, s1: Splits, s2: Splits, T1: Transactions,
                                 t: TransId, a: AccountId, bs: SplitId, x: SplitId, d: nat)
    requires t in T0 && ValuesOnGrid(s0, T0[t].splits, d) && forall s | s in s0 :: s < n0
    requires x in T0[t].splits
    requires var f := FindOrAdd(s0, T0, n0, t, a); bs == f.0 && s1 == f.1 && T1 == f.2
    requires OnlyNumbersOf(s1, s2, bs) && Distinct(T1[t].splits)
    requires var v := SubRound(s1[bs].value, s0[x].value, d);
             s2[bs].value == if IsValid(v) then v else Zero()
    ensures AllIn(T1[t].splits, s2) && Add(ValueSum(s2, T1[t].splits), s0[x].value) == ValueSum(s0, T0[t].splits)
  {
    var ids0 := T0[t].splits;
    assert s1[x] == s0[x];
    if bs in s0 {
      ValueReversedInPlace(s0, s2, ids0, bs, x, d);
    } else {
      assert Distinct(ids0) by {
        assert forall i | 0 <= i < |ids0| :: ids0[i] == T1[t].splits[i];
      }
      ValueReversedAppended(s0, s2, ids0, bs, x, d);
    }
  }

  /**
   * gnc_transaction_balance_trading balances the amounts of one commodity:
   * when the amounts in `c` lie on the grid of its fraction, the split
   * found or added in the trading account `a` of commodity `c`, its amount
   * reduced by their sum and nothing else changed, brings the amounts in
   * `c` to exactly zero.
   */
  lemma TradingSplitZeroes(A0: Accounts, s0: Splits, T0: Transactions, n0: nat, A1: Accounts, s1: Splits, s2: Splits,
                           T1: Transactions, t: TransId, a: AccountId, bs: SplitId, c: Option<Commodity>)
    requires t in T0 && AmountsOnGrid(A0, s0, T0[t].splits, c, Fraction(c)) && forall s | s in s0 :: s < n0
    requires forall s | s in s0 && s0[s].account.Some? :: s0[s].account.value in A0
    requires var f := FindOrAdd(s0, T0, n0, t, a); bs == f.0 && s1 == f.1 && T1 == f.2
    requires OnlyNumbersOf(s1, s2, bs) && Distinct(T1[t].splits) && Grown(A0, A1) && a in A1 && A1[a].commodity == c
    requires var v := SubRound(s1[bs].amount, AmountSumIn(A0, s0, T0[t].splits, c), Fraction(c));
             s2[bs].amount == if IsValid(v) then v else Zero()
    ensures AllIn(T1[t].splits, s2) && IsZero(AmountSumIn(A1, s2, T1[t].splits, c))
  {
    var ids0, d := T0[t].splits, Fraction(c);
    AmountSumOnGrid(A0, s0, ids0, c, d);
    if bs in s0 {
      var k :| 0 <= k < |ids0| && ids0[k] == bs;
    }
    assert AmountsKeptBut(A0, A1, s0, s2, ids0, bs);
    BalancingZeroesAmount(A0, A1, s0, s2, ids0, T1[t].splits, bs, c, d);
  }

  /**
   * The step balance_trading takes for one commodity `c`, stated on the
   * book before (`A0`, `s0`, `T0`) and after (`A1`, `s2`, `T1`) it: when
   * the imbalance handed in is the amount sum in `c`, those amounts lie on
   * the grid of `c` and the trading account found is in exactly `c`, the
   * amounts in `c` then sum to zero.
   */
  lemma TradingStepZeroes(A0: Accounts, s0: Splits, T0: Transactions, root: AccountId, nA: nat, n0: nat,
                          A1: Accounts, s1: Splits, s2: Splits, T1: Transactions,
                          t: TransId, a: AccountId, bs: SplitId, m: Monetary)
    requires BookOk(A0, s0, T0, root, nA, n0) && t in T0
    requires var ta := TradingAccount(A0, nA, root, m.commodity); a == ta.0 && A1 == ta.1[a := ScrubCommodity(ta.1[a])]
    requires var f := FindOrAdd(s0, T0, n0, t, a); bs == f.0 && s1 == f.1 && T1 == f.2
    requires OnlyNumbersOf(s1, s2, bs) && Distinct(T1[t].splits)
    requires var ta := TradingAccount(A0, nA, root, m.commodity).1;
             var cur := T0[t].currency;
             var na := SubRound(s1[bs].amount, m.amount, Fraction(m.commodity));
             (Equal(cur, m.commodity) || !Equiv(ta[a].commodity, cur)) ==> s2[bs].amount == if IsValid(na) then na else Zero()
    requires var c, ids := m.commodity, T0[t].splits;
             && c.Some? && AmountsOnGrid(A0, s0, ids, c, Fraction(c))
             && m.amount == AmountSumIn(A0, s0, ids, c)
             && (Equal(T0[t].currency, c) || !Equiv(c, T0[t].currency))
             && a in A1 && A1[a].commodity == c
    ensures AllIn(T1[t].splits, s2) && IsZero(AmountSumIn(A1, s2, T1[t].splits, m.commodity))
  {
    var c, ta := m.commodity, TradingAccount(A0, nA, root, m.commodity);
    assert ta.1[a].commodity.Some?;
    assert ScrubCommodity(ta.1[a]) == ta.1[a];
    SelfUpdate(ta.1, a);
    TradingSplitZeroes(A0, s0, T0, n0, A1, s1, s2, T1, t, a, bs, c);
  }

  /** Writing back a map's own entry leaves the map as it was. */
  lemma SelfUpdate<K, V>(m: map<K, V>, k: K)
    requires k in m
    ensures m[k := m[k]] == m
  {
  }

  /** The book slot recording that the colour scrub has run. */
  const ColorScrubbedKey := "remove-color-not-set-slots"

  /**
   * The colour scrub's run-once slot reads "true".  The boolean the source
   * stores there is kept by the KVP layer as the string "true".
   */
  predicate RunOnceDone(slots: map<string, KvpValue>)
  {
    ColorScrubbedKey in slots && slots[ColorScrubbedKey] == KString("true")
  }

  class Book {
    var accounts: Accounts
    var splits: Splits
    var transactions: Transactions
    /** the book's root account (gnc_book_get_root_account) */
    const root: AccountId
    /** the book option xaccTransUseTradingAccounts reads */
    const useTradingAccounts: bool
    /** abort_now */
    var abortNow: bool
    /** scrub_depth */
    var scrubDepth: int
    /** the calls made to the progress callback, oldest first */
    var progress: seq<Progress>
    /** the book's KVP slots */
    var bookSlots: map<string, KvpValue>
    var nextAccount: nat
    var nextSplit: nat

    ghost predicate Valid()
      reads this
    {
      BookOk(accounts, splits, transactions, root, nextAccount, nextSplit)
    }

    /** A book holding only its root account. */
    constructor (rootCurrency: Option<Commodity>, trading: bool)
      ensures Valid()
      ensures accounts.Keys == {root} && accounts[root].kind == Root && accounts[root].commodity == rootCurrency
      ensures splits == map[] && transactions == map[]
      ensures useTradingAccounts == trading && !abortNow && scrubDepth == 0 && progress == []
    {
      root := 0;
      accounts := map[0 := Account("Root Account", Root, rootCurrency, Fraction(rootCurrency), false, None, false, None, [], map[], None)];
      splits := map[];
      transactions := map[];
      useTradingAccounts := trading;
      abortNow := false;
      scrubDepth := 0;
      progress := [];
      bookSlots := map[];
      nextAccount := 1;
      nextSplit := 0;
    }

    /** gnc_set_abort_scrub */
    method SetAbortScrub(abort: bool)
      modifies this`abortNow
      ensures abortNow == abort
    {
      abortNow := abort;
    }

    /** gnc_get_abort_scrub */
    method GetAbortScrub() returns (abort: bool)
      ensures abort == abortNow
    {
      abort := abortNow;
    }

    /** gnc_get_ongoing_scrub: a scrub is running while the depth is positive. */
    method GetOngoingScrub() returns (ongoing: bool)
      ensures ongoing <==> scrubDepth > 0
    {
      ongoing := scrubDepth > 0;
    }

    /** xaccSplitSetAccount: post split `s` to account `a`. */
    method SetSplitAccount(s: SplitId, a: AccountId)
      requires Valid() && s in splits && a in accounts
      modifies this`splits
      ensures Valid()
      ensures splits == old(splits)[s := old(splits)[s].(account := Some(a))]
    {
      splits := splits[s := splits[s].(account := Some(a))];
    }

    /**
     * xaccAccountGetSplitList: the splits posted to account `acc`, each once.
     * The engine keeps them sorted by date, which the model does not have;
     * here they come in an unspecified order.
     */
    method GetSplitList(acc: AccountId) returns (list: seq<SplitId>)
      ensures Distinct(list) && AllIn(list, splits)
      ensures forall i | 0 <= i < |list| :: splits[list[i]].account == Some(acc)
      ensures forall s | s in splits && splits[s].account == Some(acc) :: s in list
    {
      var rest := splits.Keys;
      list := [];
      while rest != {}
        invariant rest <= splits.Keys && Distinct(list)
        invariant forall i | 0 <= i < |list| :: list[i] in splits && list[i] !in rest && splits[list[i]].account == Some(acc)
        invariant forall s | s in splits && s !in rest && splits[s].account == Some(acc) :: s in list
        decreases |rest|
      {
        var s :| s in rest;
        if splits[s].account == Some(acc) {
          list := list + [s];
        }
        rest := rest - {s};
      }
    }

    /**
     * xaccMallocSplit, xaccSplitSetParent and xaccSplitSetAccount: a new
     * split of zero amount and value in transaction `t` and account `a`.
     */
    method NewSplit(t: TransId, a: AccountId) returns (s: SplitId)
      requires Valid() && t in transactions && a in accounts
      modifies this`splits, this`transactions, this`nextSplit
      ensures Valid()
      ensures s !in old(splits) && s == old(nextSplit) && nextSplit == old(nextSplit) + 1
      ensures splits == old(splits)[s := Split(Some(t), Some(a), Zero(), Zero())]
      ensures transactions == old(transactions)[t := old(transactions)[t].(splits := old(transactions)[t].splits + [s])]
    {
      NewSplitOk(accounts, splits, transactions, root, nextAccount, nextSplit, t, a);
      s := nextSplit;
      nextSplit := nextSplit + 1;
      splits := splits[s := Split(Some(t), Some(a), Zero(), Zero())];
      transactions := transactions[t := transactions[t].(splits := transactions[t].splits + [s])];
    }

    /** xaccSplitDestroy: the split leaves its transaction and the book. */
    method DestroySplit(s: SplitId)
      requires Valid() && s in splits
      modifies this`splits, this`transactions
      ensures Valid()
      ensures splits == old(splits) - {s}
      ensures transactions == DropFromTrans(old(transactions), old(splits), s)
    {
      DestroyOk(accounts, splits, transactions, root, nextAccount, nextSplit, s);
      var sp := splits[s];
      if sp.parent.Some? {
        var t := sp.parent.value;
        transactions := transactions[t := transactions[t].(splits := Without(transactions[t].splits, s))];
      }
      splits := splits - {s};
    }

    /**
     * TransScrubOrphansFast(trans, r): post every split of transaction `t`
     * that has no account to the Orphan account of the transaction currency
     * under `r`; nothing happens when the abort flag is set or the
     * transaction has no currency.
     */
    method TransScrubOrphansFast(t: TransId, r: AccountId)
      requires Valid() && t in transactions && r in accounts
      modifies this`accounts, this`nextAccount, this`splits
      ensures Valid() && old(accounts).Keys <= accounts.Keys
      ensures abortNow ==> Fix(accounts, nextAccount, splits) == Fix(old(accounts), old(nextAccount), old(splits))
      ensures !abortNow ==>
                Fix(accounts, nextAccount, splits) ==
                OrphansFixed(old(accounts), old(nextAccount), old(splits), transactions[t].splits, transactions[t].currency, r, root)
    {
      var cur := transactions[t].currency;
      if cur.None? {
        return;
      }
      // The loop stops at the first split when the abort flag is set; the
      // flag cannot change while it runs, so it is tested once, up front.
      if abortNow {
        return;
      }
      var ids := transactions[t].splits;
      ghost var g := GetOrMake(accounts, nextAccount, root, r, cur, OrphanName(cur), Bank, false, true);
      FixedSoFarComplete(accounts, nextAccount, splits, ids, cur, r, root);
      assert Distinct(ids) && AllIn(ids, splits);
      PostOrphans(ids, r, cur.value, accounts, nextAccount, splits, g);
    }

    /**
     * The loop of TransScrubOrphansFast over the split list `ids` of one
     * transaction, when the abort flag is clear: posts every orphan among
     * `ids` as PostOrphan does.
     */
    method PostOrphans(ids: seq<SplitId>, r: AccountId, cur: Commodity, ghost a0: Accounts, ghost n0: nat, ghost s0: Splits,
                       ghost g: (AccountId, Accounts, nat))
      requires Valid() && r in accounts && Distinct(ids)
      requires TreeOk(a0, n0) && root in a0 && r in a0 && AllIn(ids, s0)
      requires g == GetOrMake(a0, n0, root, r, Some(cur), OrphanName(Some(cur)), Bank, false, true)
      requires Fix(accounts, nextAccount, splits) == FixedSoFar(a0, n0, s0, ids, 0, g) && !abortNow
      modifies this`accounts, this`nextAccount, this`splits
      ensures Valid()
      ensures Fix(accounts, nextAccount, splits) == FixedSoFar(a0, n0, s0, ids, |ids|, g)
    {
      var i := 0;
      while i < |ids|
        invariant 0 <= i <= |ids|
        invariant Valid() && r in accounts
        invariant Fix(accounts, nextAccount, splits) == FixedSoFar(a0, n0, s0, ids, i, g)
      {
        PostOrphan(ids, i, r, cur, a0, n0, s0, g);
        i := i + 1;
      }
    }

    /**
     * One step of TransScrubOrphansFast's loop, on split `ids[i]`: a split
     * that has an account is skipped; an orphan is posted to the Orphan
     * account of `cur` under `r`.  The ghost parameters are the state on
     * entry to the loop and the bucket get-or-make gives on entry.
     */
    method PostOrphan(ids: seq<SplitId>, i: nat, r: AccountId, cur: Commodity, ghost a0: Accounts, ghost n0: nat,
                      ghost s0: Splits, ghost g: (AccountId, Accounts, nat))
      requires Valid() && r in accounts && i < |ids| && Distinct(ids)
      requires TreeOk(a0, n0) && root in a0 && r in a0 && AllIn(ids, s0)
      requires g == GetOrMake(a0, n0, root, r, Some(cur), OrphanName(Some(cur)), Bank, false, true)
      requires Fix(accounts, nextAccount, splits) == FixedSoFar(a0, n0, s0, ids, i, g)
      modifies this`accounts, this`nextAccount, this`splits
      ensures Valid()
      ensures Fix(accounts, nextAccount, splits) == FixedSoFar(a0, n0, s0, ids, i + 1, g)
    {
      var s := ids[i];
      FixedSoFarSnoc(a0, n0, s0, ids, i, Some(cur), r, root);
      if splits[s].account.Some? {
        return;
      }
      var orph := GetOrMakeAccount(r, Some(cur), OrphanName(Some(cur)), Bank, false, true);
      SetSplitAccount(s, orph);
    }

    /**
     * xaccTransScrubOrphans: repair the orphans of transaction `t` under the
     * root of the first split that has an account, or under the book's root
     * when none has one.
     */
    method TransScrubOrphans(t: TransId)
      requires Valid() && t in transactions
      modifies this`accounts, this`nextAccount, this`splits
      ensures Valid() && old(accounts).Keys <= accounts.Keys
      ensures abortNow ==> Fix(accounts, nextAccount, splits) == Fix(old(accounts), old(nextAccount), old(splits))
      ensures !abortNow ==>
                Fix(accounts, nextAccount, splits) ==
                OrphansFixed(old(accounts), old(nextAccount), old(splits), transactions[t].splits, transactions[t].currency,
                             OrphanRoot(old(accounts), old(splits), transactions[t].splits, root), root)
    {
      var ids := transactions[t].splits;
      assert forall i | 0 <= i < |ids| :: ids[i] in splits;
      var i := 0;
      while i < |ids|
        invariant 0 <= i <= |ids|
        invariant accounts == old(accounts) && splits == old(splits) && nextAccount == old(nextAccount)
        invariant forall k | 0 <= k < i :: splits[ids[k]].account.None?
        invariant OrphanRoot(accounts, splits, ids, root) == OrphanRoot(accounts, splits, ids[i..], root)
      {
        if abortNow {
          break;
        }
        DropStep(ids, i);
        var acc := splits[ids[i]].account;
        if acc.Some? {
          TransScrubOrphansFast(t, RootOf(accounts, acc.value));
          return;
        }
        i := i + 1;
      }
      TransScrubOrphansFast(t, root);
    }

    /**
     * xaccAccountTreeScrubOrphans: "done" reported at once when the abort
     * flag is set; then, one level deeper, xaccAccountScrubOrphans on the
     * account and on each of its descendants, as the tree stood on entry.
     */
    method TreeScrubOrphans(acc: AccountId)
      requires Valid() && acc in accounts
      modifies this`accounts, this`nextAccount, this`splits, this`progress, this`scrubDepth
      ensures Valid() && scrubDepth == old(scrubDepth)
      ensures OnlyAccountsFilled(old(splits), splits) && old(accounts).Keys <= accounts.Keys
      ensures abortNow ==> accounts == old(accounts) && nextAccount == old(nextAccount) && splits == old(splits)
      ensures !abortNow ==> RepairedIn(old(splits), splits, transactions, {acc} + set d | d in Descendants(old(accounts), acc))
      ensures |progress| > |old(progress)| && progress[..|old(progress)|] == old(progress)
      ensures abortNow ==> progress[|old(progress)|] == Done
      ensures progress[|progress| - 1] == Done
    {
      if abortNow {
        progress := progress + [Done];
      }
      scrubDepth := scrubDepth + 1;
      OrphansOfTree(acc);
      scrubDepth := scrubDepth - 1;
    }

    /** xaccAccountScrubOrphans on `acc` and then on each of its descendants, as the tree stood on entry. */
    method OrphansOfTree(acc: AccountId)
      requires Valid() && acc in accounts
      modifies this`accounts, this`nextAccount, this`splits, this`progress, this`scrubDepth
      ensures Valid() && scrubDepth == old(scrubDepth)
      ensures OnlyAccountsFilled(old(splits), splits) && old(accounts).Keys <= accounts.Keys
      ensures abortNow ==> accounts == old(accounts) && nextAccount == old(nextAccount) && splits == old(splits)
      ensures !abortNow ==> RepairedIn(old(splits), splits, transactions, {acc} + set d | d in Descendants(old(accounts), acc))
      ensures |progress| > |old(progress)| && progress[..|old(progress)|] == old(progress)
      ensures progress[|progress| - 1] == Done
    {
      var ds := Descendants(accounts, acc);
      AccountScrubOrphans(acc);
      ghost var s1, p1 := splits, progress;
      OrphansOfEach(ds);
      if !abortNow {
        FilledKeepsRepairedIn(old(splits), s1, splits, transactions, {acc});
        RepairedInRebase(old(splits), s1, splits, transactions, set d | d in ds);
      }
      FilledTransitive(old(splits), s1, splits);
      assert progress[..|old(progress)|] == p1[..|old(progress)|];
    }

    /**
     * gnc_account_foreach_descendant with xaccAccountScrubOrphans: the
     * account walker on each account of `ds` in turn.
     */
    method OrphansOfEach(ds: seq<AccountId>)
      requires Valid() && AllIn(ds, accounts)
      modifies this`accounts, this`nextAccount, this`splits, this`progress, this`scrubDepth
      ensures Valid() && scrubDepth == old(scrubDepth)
      ensures OnlyAccountsFilled(old(splits), splits) && old(accounts).Keys <= accounts.Keys
      ensures abortNow ==> accounts == old(accounts) && nextAccount == old(nextAccount) && splits == old(splits)
      ensures !abortNow ==> RepairedIn(old(splits), splits, transactions, set d | d in ds)
      ensures |progress| >= |old(progress)| && progress[..|old(progress)|] == old(progress)
      ensures ds == [] ==> progress == old(progress)
      ensures ds != [] ==> |progress| > |old(progress)| && progress[|progress| - 1] == Done
    {
      ghost var done: set<AccountId> := {};
      var i := 0;
      while i < |ds|
        invariant 0 <= i <= |ds| && AllIn(ds, accounts)
        invariant Valid() && scrubDepth == old(scrubDepth)
        invariant OnlyAccountsFilled(old(splits), splits) && old(accounts).Keys <= accounts.Keys
        invariant abortNow ==> accounts == old(accounts) && nextAccount == old(nextAccount) && splits == old(splits)
        invariant done == set j | 0 <= j < i :: ds[j]
        invariant !abortNow ==> RepairedIn(old(splits), splits, transactions, done)
        invariant |progress| >= |old(progress)| && progress[..|old(progress)|] == old(progress)
        invariant i == 0 ==> progress == old(progress)
        invariant i > 0 ==> |progress| > |old(progress)| && progress[|progress| - 1] == Done
      {
        ghost var s1, p1 := splits, progress;
        AccountScrubOrphans(ds[i]);
        if !abortNow {
          FilledKeepsRepairedIn(old(splits), s1, splits, transactions, done);
          RepairedInRebase(old(splits), s1, splits, transactions, {ds[i]});
        }
        FilledTransitive(old(splits), s1, splits);
        assert progress[..|old(progress)|] == p1[..|old(progress)|];
        done := done + {ds[i]};
        i := i + 1;
      }
      assert done == set d | d in ds by {
        forall d | d in ds ensures d in done {
          var j :| 0 <= j < |ds| && ds[j] == d;
        }
      }
    }

    /**
     * xaccAccountScrubOrphans: for each split of the account's list, as it
     * is on entry, repair the orphans of its transaction under the account's
     * root, reporting progress before every tenth split and stopping at such
     * a report when the abort flag is set; then report "done".
     */
    method AccountScrubOrphans(acc: AccountId)
      requires Valid() && acc in accounts
      modifies this`accounts, this`nextAccount, this`splits, this`progress, this`scrubDepth
      ensures Valid() && scrubDepth == old(scrubDepth)
      ensures OnlyAccountsFilled(old(splits), splits) && old(accounts).Keys <= accounts.Keys
      ensures abortNow ==> accounts == old(accounts) && nextAccount == old(nextAccount) && splits == old(splits)
      ensures !abortNow ==> RepairedIn(old(splits), splits, transactions, {acc})
      ensures var total := |SplitsOf(old(splits), acc)|;
              progress == old(progress) + Reports(old(accounts)[acc].name, if abortNow && total > 0 then 1 else if abortNow then 0 else total, total) + [Done]
    {
      scrubDepth := scrubDepth + 1;
      var name := accounts[acc].name;
      var list := GetSplitList(acc);
      DistinctCard(list, SplitsOf(splits, acc));
      ghost var s0 := splits;
      OrphanPasses(acc, name, list);
      if !abortNow {
        RepairedFromList(s0, splits, transactions, acc, list);
      }
      progress := progress + [Done];
      scrubDepth := scrubDepth - 1;
    }

    /**
     * The loop of xaccAccountScrubOrphans over the split list `list` of
     * account `acc` (named `name`): a report before every tenth split, a stop
     * at such a report when the abort flag is set, and an OrphanPass for
     * every split reached.
     */
    method OrphanPasses(acc: AccountId, name: string, list: seq<SplitId>)
      requires Valid() && acc in accounts && AllIn(list, splits)
      modifies this`accounts, this`nextAccount, this`splits, this`progress
      ensures Valid() && OnlyAccountsFilled(old(splits), splits) && old(accounts).Keys <= accounts.Keys
      ensures abortNow ==> accounts == old(accounts) && nextAccount == old(nextAccount) && splits == old(splits)
      ensures !abortNow ==> forall k | 0 <= k < |list| :: Repaired(splits, transactions, ParentOf(old(splits), transactions, list[k]))
      ensures progress == old(progress) + Reports(name, if abortNow && |list| > 0 then 1 else if abortNow then 0 else |list|, |list|)
    {
      var total := |list|;
      var i := 0;
      while i < total
        invariant 0 <= i <= total
        invariant abortNow ==> i == 0 && accounts == old(accounts) && nextAccount == old(nextAccount) && splits == old(splits)
        invariant Valid() && acc in accounts
        invariant OnlyAccountsFilled(old(splits), splits) && old(accounts).Keys <= accounts.Keys
        invariant RepairedUpTo(splits, transactions, old(splits), list, i)
        invariant progress == old(progress) + Reports(name, i, total)
      {
        var stop := ReportProgress(name, i, total);
        if stop {
          break;
        }
        OrphanPass(list, i, acc, old(splits));
        i := i + 1;
      }
    }

    /**
     * The progress step of a walker's loop before split `i` of `total`: the
     * report before every tenth split, and at such a report the answer to
     * whether the abort flag asks the walker to stop.
     */
    method ReportProgress(name: string, i: nat, total: nat) returns (stop: bool)
      requires i < total
      modifies this`progress
      ensures progress == old(progress) + ReportAt(name, i, total)
      ensures stop <==> i % 10 == 0 && abortNow
    {
      stop := false;
      if i % 10 == 0 {
        progress := progress + [Report(name, i, total, Percent(i, total))];
        stop := abortNow;
      }
    }

    /**
     * One pass of xaccAccountScrubOrphans's loop: TransScrubOrphansFast on
     * the transaction of split `list[i]` under the account's root.  It only
     * fills in accounts, repairs that transaction and keeps repaired those
     * of the splits before it.
     */
    method OrphanPass(list: seq<SplitId>, i: nat, acc: AccountId, ghost s0: Splits)
      requires Valid() && acc in accounts && i < |list| && !abortNow
      requires OnlyAccountsFilled(s0, splits) && RepairedUpTo(splits, transactions, s0, list, i)
      modifies this`accounts, this`nextAccount, this`splits
      ensures Valid() && old(accounts).Keys <= accounts.Keys
      ensures OnlyAccountsFilled(s0, splits) && RepairedUpTo(splits, transactions, s0, list, i + 1)
    {
      ghost var a1, n1, s1 := accounts, nextAccount, splits;
      var t := ParentOf(splits, transactions, list[i]);
      assert t == ParentOf(s0, transactions, list[i]);
      if t.Some? {
        var r := RootOf(accounts, acc);
        TransScrubOrphansFast(t.value, r);
        OrphansFixedRepairs(a1, n1, s1, transactions[t.value].splits, transactions[t.value].currency, r, root);
      }
      FilledTransitive(s0, s1, splits);
      FilledKeepsRepairedUpTo(s1, splits, transactions, s0, list, i);
    }

    /**
     * The number repairs of xaccSplitScrub on split `s`, posted to account
     * `a`, of transaction `t`: invalid numbers become zero; an account
     * without a commodity is given one by xaccAccountScrubCommodity, but
     * the commodity read before that decides; when it is equivalent to the
     * transaction currency, an amount that differs from the value at the
     * smaller of the two precisions is replaced by the value.
     */
    method ScrubSplitNumbers(s: SplitId, a: AccountId, t: TransId)
      requires Valid() && s in splits && a in accounts && t in transactions
      modifies this`accounts, this`splits
      ensures Valid()
      ensures var acct := old(accounts)[a];
              var cur := transactions[t].currency;
              var r := ScrubNumbers(old(splits)[s].amount, old(splits)[s].value, acct.commodity, cur, SplitScu(acct, cur));
              && accounts == old(accounts)[a := ScrubCommodity(acct)]
              && splits == old(splits)[s := old(splits)[s].(amount := r.amount, value := r.value)]
    {
      var value := splits[s].value;
      if !IsValid(value) {
        value := Zero();
        NumbersOk(accounts, splits, transactions, root, nextAccount, nextSplit, s, splits[s].amount, value);
        splits := splits[s := splits[s].(value := value)];
      }
      var amount := splits[s].amount;
      if !IsValid(amount) {
        amount := Zero();
        NumbersOk(accounts, splits, transactions, root, nextAccount, nextSplit, s, amount, value);
        splits := splits[s := splits[s].(amount := amount)];
      }
      var currency := transactions[t].currency;
      var accCommodity := accounts[a].commodity;
      if accCommodity.None? {
        AccountOk(accounts, splits, transactions, root, nextAccount, nextSplit, a, ScrubCommodity(accounts[a]));
        accounts := accounts[a := ScrubCommodity(accounts[a])];
      }
      if accCommodity.None? || !Equiv(accCommodity, currency) {
        return;
      }
      var scu := SplitScu(accounts[a], currency);
      if Same(amount, value, scu) {
        return;
      }
      NumbersOk(accounts, splits, transactions, root, nextAccount, nextSplit, s, value, value);
      splits := splits[s := splits[s].(amount := value)];
    }

    /**
     * xaccSplitScrub: a split without a transaction is left alone; an
     * orphan first has the orphans of its transaction repaired and is left
     * alone if it is still an orphan; otherwise its numbers are repaired as
     * ScrubSplitNumbers does.
     */
    method SplitScrub(s: SplitId)
      requires Valid() && s in splits
      modifies this`accounts, this`nextAccount, this`splits
      ensures Valid() && old(accounts).Keys <= accounts.Keys
      ensures NumbersKept(old(splits), splits)
      ensures old(splits)[s].parent.None? ==> accounts == old(accounts) && splits == old(splits)
      ensures splits[s].parent.Some? && splits[s].account.Some? ==> NumbersValid(splits[s])
      ensures old(splits)[s].parent.Some? && old(splits)[s].account.Some? ==>
                var a := old(splits)[s].account.value;
                var cur := transactions[old(splits)[s].parent.value].currency;
                var r := ScrubNumbers(old(splits)[s].amount, old(splits)[s].value, old(accounts)[a].commodity, cur,
                                      SplitScu(old(accounts)[a], cur));
                && accounts == old(accounts)[a := ScrubCommodity(old(accounts)[a])] && nextAccount == old(nextAccount)
                && splits == old(splits)[s := old(splits)[s].(amount := r.amount, value := r.value)]
      ensures old(splits)[s].parent.Some? && old(splits)[s].account.None? ==>
                var tr := transactions[old(splits)[s].parent.value];
                Fix(accounts, nextAccount, splits) ==
                ScrubbedIn(TransOrphansFixed(old(accounts), old(nextAccount), old(splits), tr.splits, tr.currency, root, abortNow), s, tr.currency)
      ensures OthersNumbersKept(old(splits), splits, s)
      ensures CommoditiesKept(old(accounts), accounts)
    {
      var t := splits[s].parent;
      if t.None? {
        return;
      }
      var account := splits[s].account;
      if account.None? {
        ScrubOrphanSplit(s, t.value);
      } else {
        ScrubCommodityKeeps(accounts, account.value);
        ScrubSplitNumbers(s, account.value, t.value);
      }
    }

    /**
     * xaccSplitScrub on an orphan `s` of transaction `t`: the orphans of
     * `t` are repaired; a split still without an account is then left
     * alone, otherwise its numbers are repaired against the account it was
     * given.  No other split's numbers change.
     */
    method ScrubOrphanSplit(s: SplitId, t: TransId)
      requires Valid() && s in splits && t in transactions && splits[s].parent == Some(t) && splits[s].account.None?
      modifies this`accounts, this`nextAccount, this`splits
      ensures Valid() && old(accounts).Keys <= accounts.Keys && NumbersKept(old(splits), splits)
      ensures splits[s].account.Some? ==> NumbersValid(splits[s])
      ensures var tr := transactions[t];
              Fix(accounts, nextAccount, splits) ==
              ScrubbedIn(TransOrphansFixed(old(accounts), old(nextAccount), old(splits), tr.splits, tr.currency, root, abortNow), s, tr.currency)
      ensures OthersNumbersKept(old(splits), splits, s)
      ensures CommoditiesKept(old(accounts), accounts)
    {
      var account := AdoptOrphan(s, t);
      OthersKept(old(splits), splits);
      ghost var f := Fix(accounts, nextAccount, splits);
      if account.Some? {
        ScrubCommodityKeeps(accounts, account.value);
        CommoditiesKeptTransitive(old(accounts), f.accounts, accounts[account.value := ScrubCommodity(accounts[account.value])]);
        ghost var acct, cur := accounts[account.value], transactions[t].currency;
        ScrubSplitNumbers(s, account.value, t);
        ScrubbedOneKept(f.splits, s, acct.commodity, cur, SplitScu(acct, cur));
        NumbersKeptTransitive(old(splits), f.splits, splits);
        OthersNumbersKeptTransitive(old(splits), f.splits, splits, s);
        assert Fix(accounts, nextAccount, splits) == ScrubbedIn(f, s, transactions[t].currency);
      }
    }

    /**
     * The orphan branch of xaccSplitScrub: xaccTransScrubOrphans on the
     * split's transaction, then the split's account read again.
     */
    method AdoptOrphan(s: SplitId, t: TransId) returns (account: Option<AccountId>)
      requires Valid() && s in splits && t in transactions
      modifies this`accounts, this`nextAccount, this`splits
      ensures Valid() && old(accounts).Keys <= accounts.Keys && NumbersKept(old(splits), splits)
      ensures s in splits && account == splits[s].account && (account.Some? ==> account.value in accounts)
      ensures OnlyAccountsFilled(old(splits), splits)
      ensures var tr := transactions[t];
              Fix(accounts, nextAccount, splits) ==
              TransOrphansFixed(old(accounts), old(nextAccount), old(splits), tr.splits, tr.currency, root, abortNow)
      ensures CommoditiesKept(old(accounts), accounts)
    {
      ghost var ids := transactions[t].splits;
      assert forall i | 0 <= i < |ids| :: ids[i] in splits;
      OrphanRepairKeepsCommodities(accounts, nextAccount, splits, ids, transactions[t].currency, root, abortNow);
      TransScrubOrphans(t);
      FilledKeepsNumbers(old(splits), splits);
      account := splits[s].account;
    }

    /**
     * xaccSplitScrub on every split of `list` in turn.  Every split of the
     * list that had a transaction and an account comes out SplitScrubbed:
     * its value made valid, its amount made valid or replaced by the value,
     * and exactly ScrubNumbers of its old numbers when its account had a
     * commodity.  No split outside the list changes its numbers, and no
     * account loses its commodity.
     */
    method ScrubSplitsIn(list: seq<SplitId>)
      requires Valid() && AllIn(list, splits)
      modifies this`accounts, this`nextAccount, this`splits
      ensures Valid() && old(accounts).Keys <= accounts.Keys && NumbersKept(old(splits), splits)
      ensures ScrubbedUpTo(old(splits), splits, list, |list|)
      ensures CommoditiesKept(old(accounts), accounts)
      ensures forall k | 0 <= k < |list| && old(splits)[list[k]].parent.Some? && old(splits)[list[k]].account.Some? ::
                SplitScrubbed(old(accounts), old(splits), transactions, splits, list[k])
      ensures forall x | x in old(splits) && x !in list :: splits[x].amount == old(splits)[x].amount && splits[x].value == old(splits)[x].value
    {
      var i := 0;
      while i < |list|
        invariant 0 <= i <= |list|
        invariant Valid() && old(accounts).Keys <= accounts.Keys && NumbersKept(old(splits), splits)
        invariant ScrubbedUpTo(old(splits), splits, list, i)
        invariant CommoditiesKept(old(accounts), accounts)
        invariant ScrubbedExactly(old(accounts), old(splits), transactions, splits, list, i)
      {
        ScrubStep(list, i, old(splits), old(accounts));
        i := i + 1;
      }
      assert list[..|list|] == list;
    }

    /** One step of ScrubSplitsIn: xaccSplitScrub on `list[i]`. */
    method ScrubStep(list: seq<SplitId>, i: nat, ghost s0: Splits, ghost A0: Accounts)
      requires Valid() && i < |list| && NumbersKept(s0, splits) && ScrubbedUpTo(s0, splits, list, i)
      requires CommoditiesKept(A0, accounts) && ScrubbedExactly(A0, s0, transactions, splits, list, i)
      modifies this`accounts, this`nextAccount, this`splits
      ensures Valid() && old(accounts).Keys <= accounts.Keys && NumbersKept(s0, splits)
      ensures ScrubbedUpTo(s0, splits, list, i + 1)
      ensures CommoditiesKept(A0, accounts) && ScrubbedExactly(A0, s0, transactions, splits, list, i + 1)
    {
      ghost var A1, s1 := accounts, splits;
      SplitScrub(list[i]);
      NumbersKeptTransitive(s0, s1, splits);
      ScrubbedUpToKept(s0, s1, splits, list, i);
      CommoditiesKeptTransitive(A0, A1, accounts);
      ScrubbedExactlyStep(A0, s0, transactions, A1, s1, splits, list, i);
    }

    /**
     * xaccTransScrubSplits (part of the transaction engine, not of this
     * model's source): xaccSplitScrub on every split of transaction `t`.
     */
    method TransScrubSplits(t: TransId)
      requires Valid() && t in transactions
      modifies this`accounts, this`nextAccount, this`splits
      ensures Valid() && old(accounts).Keys <= accounts.Keys && NumbersKept(old(splits), splits)
      ensures ScrubbedUpTo(old(splits), splits, transactions[t].splits, |transactions[t].splits|)
    {
      ScrubSplitsIn(transactions[t].splits);
    }

    /**
     * xaccAccountScrubSplits: xaccSplitScrub on every split of the account,
     * inside one more level of scrub depth; nothing when the abort flag is
     * set (the loop stops before its first split, and the flag cannot
     * change while it runs).
     */
    method AccountScrubSplits(acc: AccountId)
      requires Valid() && acc in accounts
      modifies this`accounts, this`nextAccount, this`splits, this`scrubDepth
      ensures Valid() && scrubDepth == old(scrubDepth) && old(accounts).Keys <= accounts.Keys
      ensures NumbersKept(old(splits), splits)
      ensures abortNow ==> accounts == old(accounts) && nextAccount == old(nextAccount) && splits == old(splits)
      ensures !abortNow ==> NumbersValidIn(old(splits), splits, {acc})
      ensures !abortNow ==> forall x | x in old(splits) && old(splits)[x].parent.Some? && old(splits)[x].account == Some(acc) ::
                              SplitScrubbed(old(accounts), old(splits), transactions, splits, x)
      ensures forall x | x in old(splits) && old(splits)[x].account != Some(acc) ::
                splits[x].amount == old(splits)[x].amount && splits[x].value == old(splits)[x].value
    {
      scrubDepth := scrubDepth + 1;
      var list := GetSplitList(acc);
      if !abortNow {
        ScrubSplitsIn(list);
        forall x | x in old(splits) && old(splits)[x].parent.Some? && old(splits)[x].account.Some? && old(splits)[x].account.value in {acc}
          ensures x in splits && NumbersValid(splits[x]) && SplitScrubbed(old(accounts), old(splits), transactions, splits, x)
        {
          var k :| 0 <= k < |list| && list[k] == x;
        }
      }
      scrubDepth := scrubDepth - 1;
    }

    /**
     * xaccAccountTreeScrubSplits: xaccAccountScrubSplits on the account and
     * then on each of its descendants, as the tree stood on entry.
     */
    method TreeScrubSplits(acc: AccountId)
      requires Valid() && acc in accounts
      modifies this`accounts, this`nextAccount, this`splits, this`scrubDepth
      ensures Valid() && scrubDepth == old(scrubDepth) && old(accounts).Keys <= accounts.Keys
      ensures NumbersKept(old(splits), splits)
      ensures abortNow ==> accounts == old(accounts) && nextAccount == old(nextAccount) && splits == old(splits)
      ensures !abortNow ==> NumbersValidIn(old(splits), splits, {acc} + set d | d in Descendants(old(accounts), acc))
    {
      var ds := Descendants(accounts, acc);
      AccountScrubSplits(acc);
      ghost var done: set<AccountId> := {acc};
      var i := 0;
      while i < |ds|
        invariant 0 <= i <= |ds| && AllIn(ds, accounts)
        invariant Valid() && scrubDepth == old(scrubDepth) && old(accounts).Keys <= accounts.Keys
        invariant NumbersKept(old(splits), splits)
        invariant abortNow ==> accounts == old(accounts) && nextAccount == old(nextAccount) && splits == old(splits)
        invariant done == {acc} + set j | 0 <= j < i :: ds[j]
        invariant !abortNow ==> NumbersValidIn(old(splits), splits, done)
      {
        ghost var s1 := splits;
        AccountScrubSplits(ds[i]);
        NumbersKeptTransitive(old(splits), s1, splits);
        if !abortNow {
          NumbersValidInKept(old(splits), s1, splits, done);
        }
        done := done + {ds[i]};
        i := i + 1;
      }
      assert done == {acc} + set d | d in ds by {
        forall d | d in ds ensures d in done {
          var j :| 0 <= j < |ds| && ds[j] == d;
        }
      }
    }

    /** find_root_currency */
    method FindRootCurrency() returns (rc: Option<Commodity>)
      requires Valid()
      ensures rc == RootCurrency(accounts, root)
    {
      rc := accounts[root].commodity;
      if rc.None? {
        var children := accounts[root].children;
        var i := 0;
        while i < |children| && rc.None?
          invariant 0 <= i <= |children|
          invariant rc.None? ==> FirstIncomeCommodity(accounts, children) == FirstIncomeCommodity(accounts, children[i..])
          invariant rc.Some? ==> rc == FirstIncomeCommodity(accounts, children)
        {
          DropStep(children, i);
          if accounts[children[i]].kind == Income {
            rc := accounts[children[i]].commodity;
          }
          i := i + 1;
        }
      }
    }

    /** find_root_currency_account_in_list */
    method FindRootCurrencyAccountInList(list: seq<AccountId>) returns (r: Option<AccountId>)
      requires Valid() && AllIn(list, accounts)
      ensures r == FirstWithCommodity(accounts, list, RootCurrency(accounts, root))
    {
      var rc := FindRootCurrency();
      var i := 0;
      while i < |list|
        invariant 0 <= i <= |list|
        invariant FirstWithCommodity(accounts, list, rc) == FirstWithCommodity(accounts, list[i..], rc)
      {
        DropStep(list, i);
        if Equiv(accounts[list[i]].commodity, rc) {
          return Some(list[i]);
        }
        i := i + 1;
      }
      return None;
    }

    /** find_account_matching_name_in_list */
    method FindAccountMatchingNameInList(list: seq<AccountId>, name: string) returns (r: Option<AccountId>)
      requires Valid() && AllIn(list, accounts)
      ensures r == FirstWithName(accounts, list, name)
    {
      var i := 0;
      while i < |list|
        invariant 0 <= i <= |list|
        invariant FirstWithName(accounts, list, name) == FirstWithName(accounts, list[i..], name)
      {
        DropStep(list, i);
        if accounts[list[i]].name == name {
          return Some(list[i]);
        }
        i := i + 1;
      }
      return None;
    }

    /** construct_account */
    method ConstructAccount(r: AccountId, currency: Option<Commodity>, name: string, kind: AccountType, placeholder: bool)
      returns (acc: AccountId)
      requires Valid() && r in accounts
      modifies this`accounts, this`nextAccount
      ensures Valid()
      ensures acc == old(nextAccount) && nextAccount == acc + 1
      ensures accounts == Construct(old(accounts), old(nextAccount), root, r, currency, name, kind, placeholder)
    {
      var rc := FindRootCurrency();
      var com := if currency.Some? then currency else rc;
      acc := nextAccount;
      var account := Account(name, kind, com, Fraction(com), false, None, placeholder, Some(r), [], map[], None);
      ghost var grown := Construct(accounts, acc, root, r, currency, name, kind, placeholder);
      accounts := accounts[r := accounts[r].(children := accounts[r].children + [acc])][acc := account];
      assert accounts == grown;
      nextAccount := nextAccount + 1;
    }

    /** xaccScrubUtilityGetOrMakeAccount */
    method GetOrMakeAccount(r: AccountId, currency: Option<Commodity>, name: string, kind: AccountType,
                            placeholder: bool, checkName: bool) returns (acc: AccountId)
      requires Valid() && r in accounts
      modifies this`accounts, this`nextAccount
      ensures Valid()
      ensures (acc, accounts, nextAccount) == GetOrMake(old(accounts), old(nextAccount), root, r, currency, name, kind, placeholder, checkName)
    {
      var list := Lookup(accounts, r, if checkName then Some(name) else None, kind, currency);
      if list == [] {
        acc := ConstructAccount(r, currency, name, kind, placeholder);
        return;
      }
      acc := PickAccount(list, currency, name);
    }

    /**
     * The choice xaccScrubUtilityGetOrMakeAccount makes among the accounts
     * its lookup found: with several and no currency asked for, the first in
     * the root currency; failing that, the first with the wanted name;
     * failing that, the first.
     */
    method PickAccount(list: seq<AccountId>, currency: Option<Commodity>, name: string) returns (acc: AccountId)
      requires Valid() && AllIn(list, accounts) && list != []
      ensures acc == Pick(accounts, root, list, currency, name)
    {
      var found: Option<AccountId> := None;
      if |list| > 1 {
        if currency.None? {
          found := FindRootCurrencyAccountInList(list);
        }
        if found.None? {
          found := FindAccountMatchingNameInList(list, name);
        }
      }
      acc := if found.Some? then found.value else list[0];
    }

    /**
     * xaccTransSetCurrency (part of the transaction engine, not of this
     * model's source): a NULL commodity is ignored; otherwise only the
     * transaction's currency changes.
     */
    method SetTransCurrency(t: TransId, c: Option<Commodity>)
      requires Valid() && t in transactions
      modifies this`transactions
      ensures Valid()
      ensures c.None? ==> transactions == old(transactions)
      ensures c.Some? ==> transactions == old(transactions)[t := old(transactions)[t].(currency := c)]
    {
      if c.None? {
        return;
      }
      transactions := transactions[t := transactions[t].(currency := c)];
      assert forall u | u in transactions :: transactions[u].splits == old(transactions)[u].splits;
    }

    /**
     * xaccTransScrubCurrency: the orphans of transaction `t` are repaired
     * first; then a transaction whose currency is not a currency takes the
     * common currency and has its amounts aligned, or, without a common
     * currency, the commodity of its first split that has an account.
     */
    method TransScrubCurrency(t: TransId)
      requires Valid() && t in transactions
      modifies this`accounts, this`nextAccount, this`splits, this`transactions
      ensures Valid() && old(accounts).Keys <= accounts.Keys && transactions.Keys == old(transactions).Keys
      ensures var tr := old(transactions)[t];
              var f := TransOrphansFixed(old(accounts), old(nextAccount), old(splits), tr.splits, tr.currency, root, abortNow);
              var r := ScrubCurrencyOf(f.accounts, f.splits, tr.splits, tr.currency);
              && accounts == f.accounts && nextAccount == f.next && splits == r.splits
              && transactions == old(transactions)[t := tr.(currency := r.currency)]
    {
      TransScrubOrphans(t);
      ScrubCurrencyAfterOrphans(t);
    }

    /**
     * xaccTransScrubCurrency once the orphans are repaired: a transaction
     * whose currency is a currency is left as it is; otherwise it takes the
     * currency its splits have in common, with the amounts aligned, or
     * else the commodity of its first posted split.
     */
    method ScrubCurrencyAfterOrphans(t: TransId)
      requires Valid() && t in transactions
      modifies this`splits, this`transactions
      ensures Valid()
      ensures var tr := old(transactions)[t];
              var r := ScrubCurrencyOf(accounts, old(splits), tr.splits, tr.currency);
              splits == r.splits && transactions == old(transactions)[t := tr.(currency := r.currency)]
    {
      var ids := transactions[t].splits;
      var currency := transactions[t].currency;
      if currency.Some? && IsCurrency(currency.value) {
        return;
      }
      currency := CommonCurrency(accounts, splits, ids);
      if currency.Some? {
        SetTransCurrency(t, currency);
        AlignAmounts(ids, currency.value);
      } else {
        CurrencyOfFirstPosted(t);
      }
    }

    /**
     * The amounts pass of xaccTransScrubCurrency over the split list `ids`:
     * a split whose amount differs from its value, posted to an account of
     * exactly the commodity `c`, takes its value as its amount.
     */
    method AlignAmounts(ids: seq<SplitId>, c: Commodity)
      requires Valid() && AllIn(ids, splits)
      modifies this`splits
      ensures Valid()
      ensures splits == MatchAmounts(accounts, old(splits), ids, |ids|, c)
    {
      var i := 0;
      while i < |ids|
        invariant 0 <= i <= |ids| && Valid() && AllIn(ids, splits)
        invariant splits == MatchAmounts(accounts, old(splits), ids, i, c)
      {
        var sp := splits[ids[i]];
        if !NumEqual(sp.amount, sp.value) {
          var accCurrency := if sp.account.Some? then accounts[sp.account.value].commodity else None;
          if accCurrency == Some(c) {
            NumbersOk(accounts, splits, transactions, root, nextAccount, nextSplit, ids[i], sp.value, sp.value);
            splits := splits[ids[i] := sp.(amount := sp.value)];
          }
        }
        i := i + 1;
      }
    }

    /**
     * The fallback of xaccTransScrubCurrency when no common currency is
     * found: transaction `t` takes the commodity of the account of its first
     * split that has one; with no such split, or when that account has no
     * commodity, it keeps its currency.
     */
    method CurrencyOfFirstPosted(t: TransId)
      requires Valid() && t in transactions
      modifies this`transactions
      ensures Valid()
      ensures var ids := old(transactions)[t].splits;
              var p := FirstPosted(splits, ids);
              transactions == if p.None? || SplitCommodity(accounts, splits[p.value]).None? then old(transactions)
                              else old(transactions)[t := old(transactions)[t].(currency := SplitCommodity(accounts, splits[p.value]))]
    {
      var ids := transactions[t].splits;
      var i := 0;
      while i < |ids|
        invariant 0 <= i <= |ids| && transactions == old(transactions)
        invariant FirstPosted(splits, ids) == FirstPosted(splits, ids[i..])
      {
        DropStep(ids, i);
        var sp := splits[ids[i]];
        if sp.account.Some? {
          SetTransCurrency(t, accounts[sp.account.value].commodity);
          return;
        }
        i := i + 1;
      }
    }

    /**
     * The collecting loop of xaccTransClearTradingSplits: the splits of
     * transaction `t` posted to TRADING accounts, each once, most recent
     * first.
     */
    method TradingSplitsOf(t: TransId) returns (trading: seq<SplitId>)
      requires Valid() && t in transactions
      ensures Distinct(trading)
      ensures forall k | 0 <= k < |trading| ::
                trading[k] in transactions[t].splits && trading[k] in splits && InTrading(accounts, splits[trading[k]])
      ensures forall i | 0 <= i < |transactions[t].splits| ::
                InTrading(accounts, splits[transactions[t].splits[i]]) ==> transactions[t].splits[i] in trading
    {
      var ids := transactions[t].splits;
      trading := [];
      var i := 0;
      while i < |ids|
        invariant 0 <= i <= |ids| && Distinct(trading)
        invariant forall k | 0 <= k < |trading| :: trading[k] in ids[..i]
        invariant forall k | 0 <= k < |trading| :: trading[k] in splits && InTrading(accounts, splits[trading[k]])
        invariant forall j | 0 <= j < i :: InTrading(accounts, splits[ids[j]]) ==> ids[j] in trading
      {
        TakeSnoc(ids, i);
        var sp := splits[ids[i]];
        if sp.account.Some? && accounts[sp.account.value].kind == Trading {
          assert ids[i] !in ids[..i];
          trading := [ids[i]] + trading;
        }
        i := i + 1;
      }
      assert ids[..i] == ids;
    }

    /**
     * The destroying step of xaccTransClearTradingSplits: xaccSplitDestroy
     * on each split of `trading`, all of them splits of transaction `t`.
     */
    method DestroyEach(t: TransId, trading: seq<SplitId>)
      requires Valid() && t in transactions && Distinct(trading)
      requires forall k | 0 <= k < |trading| :: trading[k] in transactions[t].splits
      modifies this`splits, this`transactions
      ensures Valid()
      ensures var gone := set k | 0 <= k < |trading| :: trading[k];
              && splits == old(splits) - gone
              && transactions == old(transactions)[t := old(transactions)[t].(splits := Remove(old(transactions)[t].splits, gone))]
    {
      ghost var ids := transactions[t].splits;
      ghost var gone: set<SplitId> := {};
      RemoveNothing(ids);
      var k := 0;
      while k < |trading|
        invariant 0 <= k <= |trading| && Valid() && t in transactions
        invariant forall j | 0 <= j < |trading| :: trading[j] in gone <==> j < k
        invariant forall y | y in gone :: y in trading
        invariant splits == old(splits) - gone
        invariant transactions == old(transactions)[t := old(transactions)[t].(splits := Remove(ids, gone))]
      {
        var x := trading[k];
        assert x !in gone;
        ghost var j :| 0 <= j < |ids| && ids[j] == x;
        assert old(splits)[x].parent == Some(t);
        DestroyOne(t, x, ids, gone, old(splits), old(transactions));
        forall j | 0 <= j < |trading|
          ensures trading[j] in gone + {x} <==> j < k + 1
        {
          if j != k {
            assert trading[j] != x;
          }
        }
        gone := gone + {x};
        k := k + 1;
      }
      assert gone == set j | 0 <= j < |trading| :: trading[j];
    }

    /**
     * One step of DestroyEach: split `x` of transaction `t` is destroyed,
     * the splits of `gone` having been destroyed already.  `s0` and `T0` are
     * the splits and transactions before the first step, `ids` the
     * transaction's split list then.
     */
    method DestroyOne(t: TransId, x: SplitId, ghost ids: seq<SplitId>, ghost gone: set<SplitId>, ghost s0: Splits,
                      ghost T0: Transactions)
      requires Valid() && t in T0 && ids == T0[t].splits && x in s0 && x !in gone && s0[x].parent == Some(t)
      requires splits == s0 - gone && transactions == T0[t := T0[t].(splits := Remove(ids, gone))]
      modifies this`splits, this`transactions
      ensures Valid()
      ensures splits == s0 - (gone + {x}) && transactions == T0[t := T0[t].(splits := Remove(ids, gone + {x}))]
    {
      DestroySplit(x);
      RemoveMore(ids, gone, x);
    }

    /**
     * xaccTransClearTradingSplits: every split of transaction `t` posted to
     * a TRADING account is destroyed, and no other; the transaction keeps
     * the rest in order.
     */
    method ClearTradingSplits(t: TransId)
      requires Valid() && t in transactions
      modifies this`splits, this`transactions
      ensures Valid()
      ensures var ids := old(transactions)[t].splits;
              && splits == old(splits) - TradingIn(accounts, old(splits), ids)
              && transactions == old(transactions)[t := old(transactions)[t].(splits := NonTrading(accounts, old(splits), ids))]
    {
      ghost var ids := transactions[t].splits;
      var trading := TradingSplitsOf(t);
      ghost var gone := set k | 0 <= k < |trading| :: trading[k];
      assert gone == TradingIn(accounts, splits, ids);
      RemoveTrading(accounts, splits, ids, gone);
      if trading == [] {
        assert gone == {};
        RemoveNothing(ids);
        assert old(transactions)[t := old(transactions)[t].(splits := ids)] == old(transactions);
        return;
      }
      DestroyEach(t, trading);
    }

    /**
     * The tail of get_balance_split and get_trading_split: the first split
     * of transaction `t` posted to account `a`, or a new one made there.
     */
    method SplitInAccount(t: TransId, a: AccountId) returns (bs: SplitId)
      requires Valid() && t in transactions && a in accounts
      modifies this`splits, this`transactions, this`nextSplit
      ensures Valid()
      ensures (bs, splits, transactions, nextSplit) == FindOrAdd(old(splits), old(transactions), old(nextSplit), t, a)
    {
      var found := FindSplitByAccount(splits, transactions[t].splits, a);
      if found.Some? {
        return found.value;
      }
      bs := NewSplit(t, a);
    }

    /**
     * get_balance_split(trans, r, account, commodity): the split of
     * transaction `t` in the account BalanceAccount names, found or made.
     */
    method GetBalanceSplit(t: TransId, r: Option<AccountId>, account: Option<AccountId>, commodity: Option<Commodity>)
      returns (bs: SplitId)
      requires Valid() && t in transactions
      requires r.Some? ==> r.value in accounts
      requires account.Some? ==> account.value in accounts
      modifies this`accounts, this`nextAccount, this`splits, this`transactions, this`nextSplit
      ensures Valid()
      ensures var b := BalanceAccount(old(accounts), old(nextAccount), root, r, account, commodity);
              && accounts == b.1 && nextAccount == b.2
              && (bs, splits, transactions, nextSplit) == FindOrAdd(old(splits), old(transactions), old(nextSplit), t, b.0)
    {
      var acc: AccountId;
      if account.Some? && Equiv(commodity, accounts[account.value].commodity) {
        acc := account.value;
      } else {
        var rt := if r.Some? then r.value else root;
        acc := GetOrMakeAccount(rt, commodity, ImbalanceName(commodity), Bank, false, true);
      }
      bs := SplitInAccount(t, acc);
    }

    /**
     * add_balance_split: the balancing split of transaction `t` takes its
     * value minus `imbalance`, rounded half up at the currency fraction, and
     * that value as its amount too when its account is in the transaction
     * currency; then xaccSplitScrub runs on it.  The ghost results name the
     * split, its account and the splits before its numbers were set.
     */
    method AddBalanceSplit(t: TransId, imbalance: Numeric, r: Option<AccountId>, account: Option<AccountId>)
      returns (ghost bs: SplitId, ghost a: AccountId, ghost s1: Splits)
      requires Valid() && t in transactions
      requires r.Some? ==> r.value in accounts
      requires account.Some? ==> account.value in accounts
      modifies this`accounts, this`nextAccount, this`splits, this`transactions, this`nextSplit
      ensures Valid()
      ensures var cur := old(transactions)[t].currency;
              var b := BalanceAccount(old(accounts), old(nextAccount), root, r, account, cur);
              && a == b.0 && accounts == b.1[a := ScrubCommodity(b.1[a])]
              && (bs, s1, transactions, nextSplit) == FindOrAdd(old(splits), old(transactions), old(nextSplit), t, a)
              && (Equiv(cur, b.1[a].commodity) ==> splits[bs].amount == splits[bs].value)
      ensures OnlyNumbersOf(s1, splits, bs)
      ensures old(accounts).Keys <= accounts.Keys && transactions.Keys == old(transactions).Keys
      ensures forall u | u in old(transactions) && u != t :: transactions[u] == old(transactions)[u]
      ensures transactions[t].currency == old(transactions)[t].currency
      ensures var v := SubRound(s1[bs].value, imbalance, Fraction(transactions[t].currency));
              splits[bs].value == if IsValid(v) then v else Zero()
      ensures var cur := old(transactions)[t].currency;
              var acct := BalanceAccount(old(accounts), old(nextAccount), root, r, account, cur).1[a];
              var v := SubRound(s1[bs].value, imbalance, Fraction(cur));
              var n := ScrubNumbers(if Equiv(cur, acct.commodity) then v else s1[bs].amount, v, acct.commodity, cur, SplitScu(acct, cur));
              splits == s1[bs := s1[bs].(amount := n.amount, value := n.value)]
    {
      var cur := transactions[t].currency;
      var b := GetBalanceSplit(t, r, account, cur);
      var acc := splits[b].account.value;
      bs, a, s1 := b, acc, splits;
      var newValue := SubRound(splits[b].value, imbalance, Fraction(cur));
      SetNumbers(b, if Equiv(cur, accounts[acc].commodity) then newValue else splits[b].amount, newValue);
    }

    /**
     * The tail of add_balance_split and of the trading balancers on split
     * `b`: its amount and value set, then xaccSplitScrub on it, so that the
     * split ends with ScrubNumbers of the numbers set.  An amount equal to
     * the value stays equal to it; an amount in an account whose commodity
     * is missing or not equivalent to the transaction currency is kept as
     * set; in an equivalent one, an amount that differs from the value at
     * the scu becomes the value.
     */
    method SetNumbers(b: SplitId, amount: Numeric, value: Numeric)
      requires Valid() && b in splits && splits[b].parent.Some? && splits[b].account.Some?
      modifies this`accounts, this`nextAccount, this`splits
      ensures Valid() && OnlyNumbersOf(old(splits), splits, b)
      ensures var a := old(splits)[b].account.value;
              var cur := transactions[old(splits)[b].parent.value].currency;
              var r := ScrubNumbers(amount, value, old(accounts)[a].commodity, cur, SplitScu(old(accounts)[a], cur));
              splits == old(splits)[b := old(splits)[b].(amount := r.amount, value := r.value)]
      ensures var a := old(splits)[b].account.value;
              && accounts == old(accounts)[a := ScrubCommodity(old(accounts)[a])] && nextAccount == old(nextAccount)
              && (old(accounts)[a].commodity.None? || !Equiv(old(accounts)[a].commodity, transactions[old(splits)[b].parent.value].currency) ==>
                    splits[b].amount == if IsValid(amount) then amount else Zero())
      ensures splits[b].value == if IsValid(value) then value else Zero()
      ensures amount == value ==> splits[b].amount == splits[b].value
    {
      NumbersOk(accounts, splits, transactions, root, nextAccount, nextSplit, b, amount, value);
      splits := splits[b := splits[b].(amount := amount, value := value)];
      SplitScrub(b);
    }

    /**
     * gnc_transaction_balance_no_trading: a transaction whose values do not
     * sum to zero gets a balancing split for the difference.  When every
     * value lies on the grid of the currency fraction, the values then sum
     * to exactly zero.
     */
    method BalanceNoTrading(t: TransId, r: Option<AccountId>, account: Option<AccountId>)
      requires Valid() && t in transactions
      requires r.Some? ==> r.value in accounts
      requires account.Some? ==> account.value in accounts
      modifies this`accounts, this`nextAccount, this`splits, this`transactions, this`nextSplit
      ensures Valid() && old(accounts).Keys <= accounts.Keys && transactions.Keys == old(transactions).Keys
      ensures forall u | u in old(transactions) && u != t :: transactions[u] == old(transactions)[u]
      ensures transactions[t].currency == old(transactions)[t].currency
      ensures ValuesOnGrid(old(splits), old(transactions)[t].splits, Fraction(old(transactions)[t].currency)) ==>
                IsZero(ValueSum(splits, transactions[t].splits))
    {
      var imbalance := ValueSum(splits, transactions[t].splits);
      if IsZero(imbalance) {
        return;
      }
      ghost var ids0 := transactions[t].splits;
      ghost var d := Fraction(transactions[t].currency);
      ghost var bs, a, s1 := AddBalanceSplit(t, imbalance, r, account);
      if ValuesOnGrid(old(splits), ids0, d) {
        BalanceSplitZeroes(old(splits), old(transactions), old(nextSplit), s1, splits, transactions, t, a, bs, d);
      }
    }

    /**
     * get_trading_split(trans, base, commodity): the split of transaction
     * `t` in the trading account of `commodity` (Trading, then its
     * namespace, then its mnemonic, each found or made under the book
     * root), found or made.  The root currency the source looks up there is
     * never used and is left out.
     */
    method GetTradingSplit(t: TransId, commodity: Option<Commodity>) returns (bs: SplitId)
      requires Valid() && t in transactions
      modifies this`accounts, this`nextAccount, this`splits, this`transactions, this`nextSplit
      ensures Valid()
      ensures var ta := TradingAccount(old(accounts), old(nextAccount), root, commodity);
              && accounts == ta.1 && nextAccount == ta.2
              && (bs, splits, transactions, nextSplit) == FindOrAdd(old(splits), old(transactions), old(nextSplit), t, ta.0)
    {
      var trading := GetOrMakeAccount(root, None, "Trading", Trading, true, false);
      var ns := GetOrMakeAccount(trading, None, Namespace(commodity), Trading, true, true);
      var acc := GetOrMakeAccount(ns, commodity, Mnemonic(commodity), Trading, false, false);
      bs := SplitInAccount(t, acc);
    }

    /**
     * One pass of gnc_transaction_balance_trading's loop, for the imbalance
     * `m`: the trading split of its commodity takes its amount minus the
     * imbalance, rounded at the commodity fraction; its value becomes that
     * amount when the commodity is the transaction currency, and otherwise
     * its value minus the value sum of the splits in that commodity, rounded
     * at the currency fraction; then xaccSplitScrub runs on it.  The ghost
     * results name the split, its account and the splits before its
     * numbers were set.
     */
    method TradingStep(t: TransId, m: Monetary) returns (ghost bs: SplitId, ghost a: AccountId, ghost s1: Splits)
      requires Valid() && t in transactions
      modifies this`accounts, this`nextAccount, this`splits, this`transactions, this`nextSplit
      ensures Valid()
      ensures var ta := TradingAccount(old(accounts), old(nextAccount), root, m.commodity);
              && a == ta.0 && accounts == ta.1[a := ScrubCommodity(ta.1[a])] && nextAccount == ta.2
              && (bs, s1, transactions, nextSplit) == FindOrAdd(old(splits), old(transactions), old(nextSplit), t, a)
      ensures OnlyNumbersOf(s1, splits, bs)
      ensures old(accounts).Keys <= accounts.Keys && transactions.Keys == old(transactions).Keys
      ensures forall u | u in old(transactions) && u != t :: transactions[u] == old(transactions)[u]
      ensures transactions[t].currency == old(transactions)[t].currency
      ensures var ta := TradingAccount(old(accounts), old(nextAccount), root, m.commodity).1;
              var cur := transactions[t].currency;
              var na := SubRound(s1[bs].amount, m.amount, Fraction(m.commodity));
              var nv := if Equal(cur, m.commodity) then na
                        else SubRound(s1[bs].value, CommodityValueSum(ta, s1, transactions[t].splits, m.commodity), Fraction(cur));
              && splits[bs].value == (if IsValid(nv) then nv else Zero())
              && (Equal(cur, m.commodity) || !Equiv(ta[a].commodity, cur) ==> splits[bs].amount == if IsValid(na) then na else Zero())
      ensures var ta := TradingAccount(old(accounts), old(nextAccount), root, m.commodity).1;
              var cur := transactions[t].currency;
              var na := SubRound(s1[bs].amount, m.amount, Fraction(m.commodity));
              var nv := if Equal(cur, m.commodity) then na
                        else SubRound(s1[bs].value, CommodityValueSum(ta, s1, transactions[t].splits, m.commodity), Fraction(cur));
              splits[bs].amount == ScrubNumbers(na, nv, ta[a].commodity, cur, SplitScu(ta[a], cur)).amount
    {
      var b := GetTradingSplit(t, m.commodity);
      bs, a, s1 := b, splits[b].account.value, splits;
      SetTradingNumbers(t, b, m);
    }

    /** The numbers TradingStep gives the trading split `b` of transaction `t`. */
    method SetTradingNumbers(t: TransId, b: SplitId, m: Monetary)
      requires Valid() && t in transactions && b in splits && splits[b].parent == Some(t) && splits[b].account.Some?
      modifies this`accounts, this`nextAccount, this`splits
      ensures Valid() && OnlyNumbersOf(old(splits), splits, b)
      ensures var a := old(splits)[b].account.value;
              accounts == old(accounts)[a := ScrubCommodity(old(accounts)[a])] && nextAccount == old(nextAccount)
      ensures var cur := transactions[t].currency;
              var na := SubRound(old(splits)[b].amount, m.amount, Fraction(m.commodity));
              var nv := if Equal(cur, m.commodity) then na
                        else SubRound(old(splits)[b].value, CommodityValueSum(old(accounts), old(splits), transactions[t].splits, m.commodity), Fraction(cur));
              && splits[b].value == (if IsValid(nv) then nv else Zero())
              && (Equal(cur, m.commodity) || !Equiv(old(accounts)[old(splits)[b].account.value].commodity, cur) ==>
                    splits[b].amount == if IsValid(na) then na else Zero())
      ensures var acct, cur := old(accounts)[old(splits)[b].account.value], transactions[t].currency;
              var na := SubRound(old(splits)[b].amount, m.amount, Fraction(m.commodity));
              var nv := if Equal(cur, m.commodity) then na
                        else SubRound(old(splits)[b].value, CommodityValueSum(old(accounts), old(splits), transactions[t].splits, m.commodity), Fraction(cur));
              splits[b].amount == ScrubNumbers(na, nv, acct.commodity, cur, SplitScu(acct, cur)).amount
    {
      var c := m.commodity;
      var txnCurr := transactions[t].currency;
      var newAmount := SubRound(splits[b].amount, m.amount, Fraction(c));
      var newValue := newAmount;
      if !Equal(txnCurr, c) {
        var valImbalance := CommodityValueSum(accounts, splits, transactions[t].splits, c);
        newValue := SubRound(splits[b].value, valImbalance, Fraction(txnCurr));
      }
      SetNumbers(b, newAmount, newValue);
    }

    /**
     * TradingStep for the imbalance `m` of commodity `c`, with what it
     * achieves: when `m` is the sum of the amounts in `c`, those amounts lie
     * on the grid of the fraction of `c`, and the trading account found is
     * in exactly `c`, the amounts in `c` then sum to zero, unless `c` is
     * equivalent to the transaction currency without being equal to it.
     */
    method BalanceCommodity(t: TransId, m: Monetary)
      requires Valid() && t in transactions
      modifies this`accounts, this`nextAccount, this`splits, this`transactions, this`nextSplit
      ensures Valid() && old(accounts).Keys <= accounts.Keys && transactions.Keys == old(transactions).Keys
      ensures forall u | u in old(transactions) && u != t :: transactions[u] == old(transactions)[u]
      ensures transactions[t].currency == old(transactions)[t].currency
      ensures var c, ids := m.commodity, old(transactions)[t].splits;
              var cur := old(transactions)[t].currency;
              && c.Some? && AmountsOnGrid(old(accounts), old(splits), ids, c, Fraction(c))
              && m.amount == AmountSumIn(old(accounts), old(splits), ids, c)
              && (Equal(cur, c) || !Equiv(c, cur))
              && (var a := TradingAccount(old(accounts), old(nextAccount), root, c).0; a in accounts && accounts[a].commodity == c)
              ==> IsZero(AmountSumIn(accounts, splits, transactions[t].splits, c))
    {
      ghost var A0, s0, T0, nA, n0 := accounts, splits, transactions, nextAccount, nextSplit;
      ghost var bs, a, s1 := TradingStep(t, m);
      var c := m.commodity;
      if c.Some? && AmountsOnGrid(A0, s0, T0[t].splits, c, Fraction(c)) && m.amount == AmountSumIn(A0, s0, T0[t].splits, c)
         && (Equal(T0[t].currency, c) || !Equiv(c, T0[t].currency)) && accounts[a].commodity == c {
        TradingStepZeroes(A0, s0, T0, root, nA, n0, accounts, s1, splits, transactions, t, a, bs, m);
      }
    }

    /**
     * gnc_transaction_balance_trading: a BalanceCommodity step for each
     * commodity whose amounts do not balance, as the transaction stood on
     * entry.  A transaction whose amounts balance in every commodity is
     * left as it was.
     */
    method BalanceTrading(t: TransId)
      requires Valid() && t in transactions
      modifies this`accounts, this`nextAccount, this`splits, this`transactions, this`nextSplit
      ensures Valid() && old(accounts).Keys <= accounts.Keys && transactions.Keys == old(transactions).Keys
      ensures forall u | u in old(transactions) && u != t :: transactions[u] == old(transactions)[u]
      ensures transactions[t].currency == old(transactions)[t].currency
      ensures AmountImbalance(old(accounts), old(splits), old(transactions)[t].splits) == [] ==>
                accounts == old(accounts) && nextAccount == old(nextAccount) && splits == old(splits)
                && transactions == old(transactions) && nextSplit == old(nextSplit)
    {
      var imbalances := AmountImbalance(accounts, splits, transactions[t].splits);
      if imbalances == [] {
        return;
      }
      var i := 0;
      while i < |imbalances|
        invariant 0 <= i <= |imbalances|
        invariant Valid() && t in transactions && old(accounts).Keys <= accounts.Keys
        invariant transactions.Keys == old(transactions).Keys
        invariant forall u | u in old(transactions) && u != t :: transactions[u] == old(transactions)[u]
        invariant transactions[t].currency == old(transactions)[t].currency
      {
        BalanceCommodity(t, imbalances[i]);
        i := i + 1;
      }
    }

    /**
     * One pass of gnc_transaction_balance_trading_more_splits's loop, for
     * split `x` of transaction `t` with account commodity `c`: the value of
     * the trading split of `c` is reduced by the value of `x`, rounded at
     * the currency fraction, its amount left to SplitScrub.
     */
    method ReversingStep(t: TransId, x: SplitId, c: Option<Commodity>) returns (ghost bs: SplitId, ghost s1: Splits)
      requires Valid() && t in transactions && x in transactions[t].splits
      modifies this`accounts, this`nextAccount, this`splits, this`transactions, this`nextSplit
      ensures Valid()
      ensures var ta := TradingAccount(old(accounts), old(nextAccount), root, c);
              && accounts == ta.1[ta.0 := ScrubCommodity(ta.1[ta.0])] && nextAccount == ta.2
              && (bs, s1, transactions, nextSplit) == FindOrAdd(old(splits), old(transactions), old(nextSplit), t, ta.0)
      ensures OnlyNumbersOf(s1, splits, bs)
      ensures old(accounts).Keys <= accounts.Keys && transactions.Keys == old(transactions).Keys
      ensures forall u | u in old(transactions) && u != t :: transactions[u] == old(transactions)[u]
      ensures transactions[t].currency == old(transactions)[t].currency
      ensures var v := SubRound(s1[bs].value, old(splits)[x].value, Fraction(old(transactions)[t].currency));
              splits[bs].value == if IsValid(v) then v else Zero()
      ensures var ta := TradingAccount(old(accounts), old(nextAccount), root, c);
              var acct, cur := ta.1[ta.0], old(transactions)[t].currency;
              var v := SubRound(s1[bs].value, old(splits)[x].value, Fraction(cur));
              splits[bs].amount == ScrubNumbers(s1[bs].amount, v, acct.commodity, cur, SplitScu(acct, cur)).amount
    {
      var reversed := splits[x].value;
      var b := GetTradingSplit(t, c);
      bs, s1 := b, splits;
      SetReversingValue(t, b, reversed);
    }

    /**
     * ReversingStep takes the value of `x` out of the value imbalance of
     * transaction `t` when the values lie on the grid of its currency
     * fraction.
     */
    method ReverseValue(t: TransId, x: SplitId, c: Option<Commodity>)
      requires Valid() && t in transactions && x in transactions[t].splits
      modifies this`accounts, this`nextAccount, this`splits, this`transactions, this`nextSplit
      ensures Valid() && old(accounts).Keys <= accounts.Keys && transactions.Keys == old(transactions).Keys
      ensures forall u | u in old(transactions) && u != t :: transactions[u] == old(transactions)[u]
      ensures transactions[t].currency == old(transactions)[t].currency
      ensures var ids, d := old(transactions)[t].splits, Fraction(old(transactions)[t].currency);
              ValuesOnGrid(old(splits), ids, d) ==>
                Add(ValueSum(splits, transactions[t].splits), old(splits)[x].value) == ValueSum(old(splits), ids)
    {
      ghost var s0, T0, n0, ta := splits, transactions, nextSplit, TradingAccount(accounts, nextAccount, root, c);
      ghost var bs, s1 := ReversingStep(t, x, c);
      ghost var d := Fraction(T0[t].currency);
      if ValuesOnGrid(s0, T0[t].splits, d) {
        ReversingSplitMovesValue(s0, T0, n0, s1, splits, transactions, t, ta.0, bs, x, d);
      }
    }

    /**
     * The numbers ReversingStep gives the trading split `b` of transaction
     * `t`, which reverses the value `reversed` of another split.
     */
    method SetReversingValue(t: TransId, b: SplitId, reversed: Numeric)
      requires Valid() && t in transactions && b in splits && splits[b].parent == Some(t) && splits[b].account.Some?
      modifies this`accounts, this`nextAccount, this`splits
      ensures Valid() && OnlyNumbersOf(old(splits), splits, b)
      ensures var a := old(splits)[b].account.value;
              accounts == old(accounts)[a := ScrubCommodity(old(accounts)[a])] && nextAccount == old(nextAccount)
      ensures var v := SubRound(old(splits)[b].value, reversed, Fraction(transactions[t].currency));
              splits[b].value == if IsValid(v) then v else Zero()
      ensures var acct, cur := old(accounts)[old(splits)[b].account.value], transactions[t].currency;
              var v := SubRound(old(splits)[b].value, reversed, Fraction(cur));
              splits[b].amount == ScrubNumbers(old(splits)[b].amount, v, acct.commodity, cur, SplitScu(acct, cur)).amount
    {
      var newValue := SubRound(splits[b].value, reversed, Fraction(transactions[t].currency));
      SetNumbers(b, splits[b].amount, newValue);
    }

    /**
     * gnc_transaction_balance_trading_more_splits: for each split of the
     * transaction as it stood on entry, still in it, with a nonzero value,
     * a zero amount and an account commodity, a ReverseValue step.
     */
    method BalanceTradingMoreSplits(t: TransId)
      requires Valid() && t in transactions
      modifies this`accounts, this`nextAccount, this`splits, this`transactions, this`nextSplit
      ensures Valid() && old(accounts).Keys <= accounts.Keys && transactions.Keys == old(transactions).Keys
      ensures forall u | u in old(transactions) && u != t :: transactions[u] == old(transactions)[u]
      ensures transactions[t].currency == old(transactions)[t].currency
    {
      var ids := transactions[t].splits;
      var i := 0;
      while i < |ids|
        invariant 0 <= i <= |ids|
        invariant Valid() && t in transactions && old(accounts).Keys <= accounts.Keys
        invariant transactions.Keys == old(transactions).Keys
        invariant forall u | u in old(transactions) && u != t :: transactions[u] == old(transactions)[u]
        invariant transactions[t].currency == old(transactions)[t].currency
      {
        var x := ids[i];
        if x in transactions[t].splits && !IsZero(splits[x].value) && IsZero(splits[x].amount) {
          var c := SplitCommodity(accounts, splits[x]);
          if c.Some? {
            ReverseValue(t, x, c);
          }
        }
        i := i + 1;
      }
    }

    /**
     * The trading-account half of xaccTransScrubImbalance: a balancing
     * split for a nonzero value imbalance, then the trading splits of
     * gnc_transaction_balance_trading, then, when the values still do not
     * sum to zero, the reversing splits of
     * gnc_transaction_balance_trading_more_splits.
     */
    method BalanceWithTrading(t: TransId, r: Option<AccountId>, account: Option<AccountId>)
      requires Valid() && t in transactions
      requires r.Some? ==> r.value in accounts
      requires account.Some? ==> account.value in accounts
      modifies this`accounts, this`nextAccount, this`splits, this`transactions, this`nextSplit
      ensures Valid() && old(accounts).Keys <= accounts.Keys && transactions.Keys == old(transactions).Keys
      ensures forall u | u in old(transactions) && u != t :: transactions[u] == old(transactions)[u]
      ensures transactions[t].currency == old(transactions)[t].currency
    {
      var imbalance := ValueSum(splits, transactions[t].splits);
      if !IsZero(imbalance) {
        ghost var bs, a, s1 := AddBalanceSplit(t, imbalance, r, account);
      }
      BalanceTrading(t);
      if IsZero(ValueSum(splits, transactions[t].splits)) {
        return;
      }
      BalanceTradingMoreSplits(t);
    }

    /**
     * The first steps of xaccTransScrubImbalance: xaccTransScrubSplits and
     * xaccTransClearTradingSplits.  Values on the grid of the currency
     * fraction stay there.
     */
    method ScrubAndClear(t: TransId)
      requires Valid() && t in transactions
      modifies this`accounts, this`nextAccount, this`splits, this`transactions
      ensures Valid() && old(accounts).Keys <= accounts.Keys && transactions.Keys == old(transactions).Keys
      ensures forall u | u in old(transactions) && u != t :: transactions[u] == old(transactions)[u]
      ensures transactions[t].currency == old(transactions)[t].currency && nextSplit == old(nextSplit)
      ensures var d := Fraction(old(transactions)[t].currency);
              ValuesOnGrid(old(splits), old(transactions)[t].splits, d) ==> ValuesOnGrid(splits, transactions[t].splits, d)
    {
      ghost var ids0, d := transactions[t].splits, Fraction(transactions[t].currency);
      TransScrubSplits(t);
      ghost var s1 := splits;
      ClearTradingSplits(t);
      if ValuesOnGrid(old(splits), ids0, d) {
        OnGridKept(old(splits), ids0, s1, ids0, d);
        OnGridKept(s1, ids0, splits, transactions[t].splits, d);
      }
    }

    /**
     * xaccTransScrubImbalance: the splits of transaction `t` are scrubbed
     * and its trading splits removed; a transaction that then balances is
     * left so.  Otherwise, without trading accounts, one balancing split
     * takes up the value imbalance: when the values lie on the grid of the
     * currency fraction, the values then sum to exactly zero.  With trading
     * accounts, BalanceWithTrading.
     */
    method TransScrubImbalance(t: TransId, r: Option<AccountId>, account: Option<AccountId>)
      requires Valid() && t in transactions
      requires r.Some? ==> r.value in accounts
      requires account.Some? ==> account.value in accounts
      modifies this`accounts, this`nextAccount, this`splits, this`transactions, this`nextSplit
      ensures Valid() && old(accounts).Keys <= accounts.Keys && transactions.Keys == old(transactions).Keys
      ensures forall u | u in old(transactions) && u != t :: transactions[u] == old(transactions)[u]
      ensures transactions[t].currency == old(transactions)[t].currency
      ensures !useTradingAccounts && ValuesOnGrid(old(splits), old(transactions)[t].splits, Fraction(old(transactions)[t].currency)) ==>
                IsZero(ValueSum(splits, transactions[t].splits))
    {
      ScrubAndClear(t);
      if IsBalanced(accounts, splits, transactions[t].splits, useTradingAccounts) {
        return;
      }
      if !useTradingAccounts {
        BalanceNoTrading(t, r, account);
        return;
      }
      BalanceWithTrading(t, r, account);
    }

    /**
     * The work xaccAccountScrubImbalance does for split `x` of account
     * `acc`: TransScrubOrphansFast, xaccTransScrubCurrency and
     * xaccTransScrubImbalance on its transaction, with the root of `acc`.
     * A split an earlier pass destroyed, or one without a transaction, is
     * passed over.
     */
    method ImbalancePass(x: SplitId, acc: AccountId)
      requires Valid() && acc in accounts
      modifies this`accounts, this`nextAccount, this`splits, this`transactions, this`nextSplit
      ensures Valid() && old(accounts).Keys <= accounts.Keys && transactions.Keys == old(transactions).Keys
      ensures x !in old(splits) || old(splits)[x].parent.None? ==>
                accounts == old(accounts) && nextAccount == old(nextAccount) && splits == old(splits)
                && transactions == old(transactions) && nextSplit == old(nextSplit)
    {
      if x !in splits || splits[x].parent.None? {
        return;
      }
      var t := splits[x].parent.value;
      var r := RootOf(accounts, acc);
      TransScrubOrphansFast(t, r);
      TransScrubCurrency(t);
      TransScrubImbalance(t, Some(RootOf(accounts, acc)), None);
    }

    /**
     * The loop of xaccAccountScrubImbalance over the split list `list` of
     * account `acc` (named `name`): it stops before any work when the abort
     * flag is set; otherwise a report before every tenth split and an
     * ImbalancePass for each.
     */
    method ImbalancePasses(acc: AccountId, name: string, list: seq<SplitId>)
      requires Valid() && acc in accounts
      modifies this`accounts, this`nextAccount, this`splits, this`transactions, this`nextSplit, this`progress
      ensures Valid() && old(accounts).Keys <= accounts.Keys && transactions.Keys == old(transactions).Keys
      ensures abortNow ==> accounts == old(accounts) && nextAccount == old(nextAccount) && splits == old(splits)
                           && transactions == old(transactions) && nextSplit == old(nextSplit)
      ensures progress == old(progress) + if abortNow then [] else Reports(name, |list|, |list|)
    {
      var total := |list|;
      var i := 0;
      while i < total
        invariant 0 <= i <= total
        invariant abortNow ==> i == 0 && accounts == old(accounts) && nextAccount == old(nextAccount) && splits == old(splits)
                               && transactions == old(transactions) && nextSplit == old(nextSplit)
        invariant Valid() && acc in accounts && old(accounts).Keys <= accounts.Keys
        invariant transactions.Keys == old(transactions).Keys
        invariant progress == old(progress) + Reports(name, i, total)
      {
        if abortNow {
          break;
        }
        var stop := ReportProgress(name, i, total);
        ImbalancePass(list[i], acc);
        i := i + 1;
      }
    }

    /**
     * xaccAccountScrubImbalance: the imbalance passes over the account's
     * split list as it is on entry, inside one more level of scrub depth,
     * then a "done" report.  With the abort flag set only "done" is
     * reported.
     */
    method AccountScrubImbalance(acc: AccountId)
      requires Valid() && acc in accounts
      modifies this`accounts, this`nextAccount, this`splits, this`transactions, this`nextSplit, this`progress, this`scrubDepth
      ensures Valid() && scrubDepth == old(scrubDepth) && old(accounts).Keys <= accounts.Keys
      ensures transactions.Keys == old(transactions).Keys
      ensures abortNow ==> accounts == old(accounts) && nextAccount == old(nextAccount) && splits == old(splits)
                           && transactions == old(transactions) && nextSplit == old(nextSplit)
      ensures var total := |SplitsOf(old(splits), acc)|;
              progress == old(progress) + (if abortNow then [] else Reports(old(accounts)[acc].name, total, total)) + [Done]
      ensures |progress| > |old(progress)| && progress[..|old(progress)|] == old(progress) && progress[|progress| - 1] == Done
    {
      scrubDepth := scrubDepth + 1;
      var name := accounts[acc].name;
      var list := GetSplitList(acc);
      DistinctCard(list, SplitsOf(splits, acc));
      ImbalancePasses(acc, name, list);
      progress := progress + [Done];
      scrubDepth := scrubDepth - 1;
    }

    /**
     * xaccAccountTreeScrubImbalance: a "done" report first when the abort
     * flag is set, then, inside one more level of scrub depth,
     * xaccAccountScrubImbalance on the account and on each of its
     * descendants, as the tree stood on entry.
     */
    method TreeScrubImbalance(acc: AccountId)
      requires Valid() && acc in accounts
      modifies this`accounts, this`nextAccount, this`splits, this`transactions, this`nextSplit, this`progress, this`scrubDepth
      ensures Valid() && scrubDepth == old(scrubDepth) && old(accounts).Keys <= accounts.Keys
      ensures transactions.Keys == old(transactions).Keys
      ensures abortNow ==> accounts == old(accounts) && nextAccount == old(nextAccount) && splits == old(splits)
                           && transactions == old(transactions) && nextSplit == old(nextSplit)
      ensures |progress| > |old(progress)| && progress[..|old(progress)|] == old(progress)
      ensures progress[|progress| - 1] == Done
      ensures abortNow ==> progress == old(progress) + [Done, Done] + Dones(|Descendants(old(accounts), acc)|)
    {
      if abortNow {
        progress := progress + [Done];
      }
      ghost var p0 := progress;
      scrubDepth := scrubDepth + 1;
      ImbalanceOfTree(acc);
      assert progress[..|old(progress)|] == p0[..|old(progress)|];
      scrubDepth := scrubDepth - 1;
    }

    /** xaccAccountScrubImbalance on `acc` and then on each of its descendants, as the tree stood on entry. */
    method ImbalanceOfTree(acc: AccountId)
      requires Valid() && acc in accounts
      modifies this`accounts, this`nextAccount, this`splits, this`transactions, this`nextSplit, this`progress, this`scrubDepth
      ensures Valid() && scrubDepth == old(scrubDepth) && old(accounts).Keys <= accounts.Keys
      ensures transactions.Keys == old(transactions).Keys
      ensures abortNow ==> accounts == old(accounts) && nextAccount == old(nextAccount) && splits == old(splits)
                           && transactions == old(transactions) && nextSplit == old(nextSplit)
      ensures |progress| > |old(progress)| && progress[..|old(progress)|] == old(progress)
      ensures progress[|progress| - 1] == Done
      ensures abortNow ==> progress == old(progress) + [Done] + Dones(|Descendants(old(accounts), acc)|)
    {
      var ds := Descendants(accounts, acc);
      AccountScrubImbalance(acc);
      ghost var p1 := progress;
      ImbalanceOfEach(ds);
      assert progress[..|old(progress)|] == p1[..|old(progress)|];
    }

    /**
     * gnc_account_foreach_descendant with xaccAccountScrubImbalance: the
     * account walker on each account of `ds` in turn.
     */
    method ImbalanceOfEach(ds: seq<AccountId>)
      requires Valid() && AllIn(ds, accounts)
      modifies this`accounts, this`nextAccount, this`splits, this`transactions, this`nextSplit, this`progress, this`scrubDepth
      ensures Valid() && scrubDepth == old(scrubDepth) && old(accounts).Keys <= accounts.Keys
      ensures transactions.Keys == old(transactions).Keys
      ensures abortNow ==> accounts == old(accounts) && nextAccount == old(nextAccount) && splits == old(splits)
                           && transactions == old(transactions) && nextSplit == old(nextSplit)
      ensures |progress| >= |old(progress)| && progress[..|old(progress)|] == old(progress)
      ensures ds == [] ==> progress == old(progress)
      ensures ds != [] ==> |progress| > |old(progress)| && progress[|progress| - 1] == Done
      ensures abortNow ==> progress == old(progress) + Dones(|ds|)
    {
      var i := 0;
      while i < |ds|
        invariant 0 <= i <= |ds| && AllIn(ds, accounts)
        invariant Valid() && scrubDepth == old(scrubDepth) && old(accounts).Keys <= accounts.Keys
        invariant transactions.Keys == old(transactions).Keys
        invariant abortNow ==> accounts == old(accounts) && nextAccount == old(nextAccount) && splits == old(splits)
                               && transactions == old(transactions) && nextSplit == old(nextSplit)
        invariant |progress| >= |old(progress)| && progress[..|old(progress)|] == old(progress)
        invariant i == 0 ==> progress == old(progress)
        invariant i > 0 ==> |progress| > |old(progress)| && progress[|progress| - 1] == Done
        invariant abortNow ==> progress == old(progress) + Dones(i)
      {
        ghost var p1 := progress;
        AccountScrubImbalance(ds[i]);
        assert progress[..|old(progress)|] == p1[..|old(progress)|];
        i := i + 1;
      }
    }

    /**
     * scrub_account_commodity_helper: xaccAccountScrubCommodity and
     * xaccAccountDeleteOldData on account `a`, inside one more level of
     * scrub depth.
     */
    method AccountCommodityCleanup(a: AccountId)
      requires Valid() && a in accounts
      modifies this`accounts, this`scrubDepth
      ensures Valid() && scrubDepth == old(scrubDepth)
      ensures accounts == old(accounts)[a := DeleteOldData(ScrubCommodity(old(accounts)[a]))]
    {
      scrubDepth := scrubDepth + 1;
      var acct := DeleteOldData(ScrubCommodity(accounts[a]));
      AccountOk(accounts, splits, transactions, root, nextAccount, nextSplit, a, acct);
      accounts := accounts[a := acct];
      scrubDepth := scrubDepth - 1;
    }

    /** AccountCommodityCleanup on each account of `list` in turn. */
    method CommodityCleanups(list: seq<AccountId>)
      requires Valid() && AllIn(list, accounts)
      modifies this`accounts, this`scrubDepth
      ensures Valid() && scrubDepth == old(scrubDepth) && accounts.Keys == old(accounts).Keys
      ensures forall a | a in old(accounts) ::
                accounts[a] == if a in list then DeleteOldData(ScrubCommodity(old(accounts)[a])) else old(accounts)[a]
    {
      var i := 0;
      while i < |list|
        invariant 0 <= i <= |list|
        invariant Valid() && scrubDepth == old(scrubDepth) && accounts.Keys == old(accounts).Keys
        invariant forall a | a in old(accounts) ::
                    accounts[a] == if a in list[..i] then DeleteOldData(ScrubCommodity(old(accounts)[a])) else old(accounts)[a]
      {
        TakeSnoc(list, i);
        AccountCommodityCleanup(list[i]);
        i := i + 1;
      }
      assert list[..i] == list;
    }

    /**
     * xaccAccountTreeForEachTransaction with scrub_trans_currency_helper:
     * xaccTransScrubCurrency on each transaction with a split in an account
     * of `tree`.
     */
    method CurrencyOfTree(tree: seq<AccountId>)
      requires Valid()
      modifies this`accounts, this`nextAccount, this`splits, this`transactions
      ensures Valid() && transactions.Keys == old(transactions).Keys && old(accounts).Keys <= accounts.Keys
    {
      var ts := set s | s in splits && splits[s].account.Some? && splits[s].account.value in tree && splits[s].parent.Some?
                      :: splits[s].parent.value;
      CurrencyOfEach(ts);
    }

    /** scrub_trans_currency_helper on each transaction of `ts`, in no particular order. */
    method CurrencyOfEach(ts: set<TransId>)
      requires Valid() && forall t | t in ts :: t in transactions
      modifies this`accounts, this`nextAccount, this`splits, this`transactions
      ensures Valid() && transactions.Keys == old(transactions).Keys && old(accounts).Keys <= accounts.Keys
    {
      var rest := ts;
      while rest != {}
        invariant Valid() && transactions.Keys == old(transactions).Keys
        invariant old(accounts).Keys <= accounts.Keys
        invariant forall t | t in rest :: t in transactions
        decreases rest
      {
        var t :| t in rest;
        TransScrubCurrency(t);
        rest := rest - {t};
      }
    }

    /**
     * xaccAccountTreeScrubCommodities: inside one more level of scrub
     * depth, xaccTransScrubCurrency on every transaction with a split in
     * the tree of `acc`, then the commodity cleanup on `acc` and each of
     * its descendants, as the tree stood on entry.  `mid` is the account
     * map between the two passes: every account of the tree ends up with
     * its commodity scrubbed and no legacy currency left.
     */
    method TreeScrubCommodities(acc: AccountId) returns (ghost mid: Accounts)
      requires Valid() && acc in accounts
      modifies this`accounts, this`nextAccount, this`splits, this`transactions, this`scrubDepth
      ensures Valid() && scrubDepth == old(scrubDepth) && transactions.Keys == old(transactions).Keys
      ensures old(accounts).Keys <= mid.Keys == accounts.Keys
      ensures forall a | a in mid ::
                accounts[a] == if a == acc || a in Descendants(old(accounts), acc) then DeleteOldData(ScrubCommodity(mid[a])) else mid[a]
      ensures forall a | a == acc || a in Descendants(old(accounts), acc) :: accounts[a].oldCurrency.None?
    {
      scrubDepth := scrubDepth + 1;
      var tree := [acc] + Descendants(accounts, acc);
      CurrencyOfTree(tree);
      mid := accounts;
      CommodityCleanups(tree);
      scrubDepth := scrubDepth - 1;
    }

    /** xaccAccountScrubKvp on account `acc`, inside one more level of scrub depth. */
    method AccountScrubKvp(acc: AccountId)
      requires Valid() && acc in accounts
      modifies this`accounts, this`scrubDepth
      ensures Valid() && scrubDepth == old(scrubDepth)
      ensures accounts == old(accounts)[acc := old(accounts)[acc].(slots := ScrubKvp(old(accounts)[acc].slots))]
    {
      scrubDepth := scrubDepth + 1;
      var acct := accounts[acc].(slots := ScrubKvp(accounts[acc].slots));
      AccountOk(accounts, splits, transactions, root, nextAccount, nextSplit, acc, acct);
      accounts := accounts[acc := acct];
      scrubDepth := scrubDepth - 1;
    }

    /** xaccAccountScrubColorNotSet's per-account step on each account of `ds`. */
    method ColorOfEach(ds: seq<AccountId>)
      requires Valid() && AllIn(ds, accounts)
      modifies this`accounts
      ensures Valid() && accounts.Keys == old(accounts).Keys
      ensures forall a | a in old(accounts) ::
                accounts[a] == if a in ds then ScrubColor(old(accounts)[a]) else old(accounts)[a]
      ensures forall a | a in ds :: accounts[a].color != Some("Not Set")
    {
      var i := 0;
      while i < |ds|
        invariant 0 <= i <= |ds|
        invariant Valid() && accounts.Keys == old(accounts).Keys
        invariant forall a | a in old(accounts) ::
                    accounts[a] == if a in ds[..i] then ScrubColor(old(accounts)[a]) else old(accounts)[a]
      {
        TakeSnoc(ds, i);
        var acct := ScrubColor(accounts[ds[i]]);
        AccountOk(accounts, splits, transactions, root, nextAccount, nextSplit, ds[i], acct);
        accounts := accounts[ds[i] := acct];
        i := i + 1;
      }
      assert ds[..i] == ds;
    }

    /**
     * xaccAccountScrubColorNotSet: once per book, as the book's
     * "remove-color-not-set-slots" slot records, every account below the
     * root whose colour is "Not Set" gets the empty colour.  Afterwards the
     * slot reads "true", so a second call changes nothing.
     */
    method ScrubColorNotSet()
      requires Valid()
      modifies this`accounts, this`bookSlots
      ensures Valid()
      ensures RunOnceDone(bookSlots)
      ensures RunOnceDone(old(bookSlots)) ==> accounts == old(accounts) && bookSlots == old(bookSlots)
      ensures !RunOnceDone(old(bookSlots)) ==>
                && bookSlots == old(bookSlots)[ColorScrubbedKey := KString("true")]
                && accounts.Keys == old(accounts).Keys
                && (forall a | a in old(accounts) ::
                      accounts[a] == if a in Descendants(old(accounts), root) then ScrubColor(old(accounts)[a]) else old(accounts)[a])
                && forall a | a in Descendants(old(accounts), root) :: accounts[a].color != Some("Not Set")
    {
      if ColorScrubbedKey in bookSlots && bookSlots[ColorScrubbedKey] == KString("true") {
        return;
      }
      ColorOfEach(Descendants(accounts, root));
      bookSlots := bookSlots[ColorScrubbedKey := KString("true")];
    }
  }
}
