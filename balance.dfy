/**
 * The imbalance repairs of Scrub.c as functions and lemmas: which splits
 * xaccTransClearTradingSplits removes, which accounts receive the balancing
 * and trading splits, and why subtracting an imbalance from one split
 * brings a sum to zero.  Scrub.Book's methods are proved against these.
 */
module Balance {
  import opened Numeric
  import opened Commodities
  import opened Ledger
  import opened AccountLookup

  /** A split posted to an account of type TRADING. */
  predicate InTrading(accts: Accounts, s: Split)
  {
    s.account.Some? && s.account.value in accts && accts[s.account.value].kind == Trading
  }

  /** The splits of `ids` not posted to a TRADING account, in order. */
  function NonTrading(accts: Accounts, splits: Splits, ids: seq<SplitId>): (r: seq<SplitId>)
    requires AllIn(ids, splits)
    ensures forall i | 0 <= i < |r| :: r[i] in ids && !InTrading(accts, splits[r[i]])
    ensures forall i | 0 <= i < |ids| :: !InTrading(accts, splits[ids[i]]) ==> ids[i] in r
  {
    if ids == [] then []
    else (if InTrading(accts, splits[ids[0]]) then [] else [ids[0]]) + NonTrading(accts, splits, ids[1..])
  }

  /** The splits of `ids` posted to TRADING accounts. */
  ghost function TradingIn(accts: Accounts, splits: Splits, ids: seq<SplitId>): set<SplitId>
    requires AllIn(ids, splits)
  {
    set i | 0 <= i < |ids| && InTrading(accts, splits[ids[i]]) :: ids[i]
  }

  /** The list without the identifiers of `gone`, in order. */
  function Remove(ids: seq<SplitId>, gone: set<SplitId>): (r: seq<SplitId>)
  {
    if ids == [] then [] else (if ids[0] in gone then [] else [ids[0]]) + Remove(ids[1..], gone)
  }

  /** Removing one more identifier is removing it from the larger set. */
  lemma {:induction false} RemoveMore(ids: seq<SplitId>, gone: set<SplitId>, x: SplitId)
    ensures Without(Remove(ids, gone), x) == Remove(ids, gone + {x})
  {
    if ids != [] {
      RemoveMore(ids[1..], gone, x);
      var head := if ids[0] in gone then [] else [ids[0]];
      var rest := Remove(ids[1..], gone);
      if head != [] {
        assert (head + rest)[1..] == rest;
      } else {
        assert head + rest == rest;
      }
    }
  }

  /**
   * Removing exactly the splits posted to TRADING accounts leaves the
   * non-trading ones, in their order.
   */
  lemma {:induction false} RemoveTrading(accts: Accounts, splits: Splits, ids: seq<SplitId>, gone: set<SplitId>)
    requires AllIn(ids, splits)
    requires forall i | 0 <= i < |ids| :: ids[i] in gone <==> InTrading(accts, splits[ids[i]])
    ensures Remove(ids, gone) == NonTrading(accts, splits, ids)
  {
    if ids != [] {
      RemoveTrading(accts, splits, ids[1..], gone);
    }
  }

  lemma {:induction false} RemoveNothing(ids: seq<SplitId>)
    ensures Remove(ids, {}) == ids
  {
    if ids != [] {
      RemoveNothing(ids[1..]);
    }
  }

  /** Every split of `ids` has a valid value, a whole number of 1/d units. */
  ghost predicate ValuesOnGrid(splits: Splits, ids: seq<SplitId>, d: nat)
  {
    AllIn(ids, splits) && forall i | 0 <= i < |ids| :: IsValid(splits[ids[i]].value) && OnGrid(splits[ids[i]].value.val, d)
  }

  /**
   * Values on the grid stay there for the splits of a list `ids1` drawn
   * from `ids0` whose valid values are kept.
   */
  lemma OnGridKept(s0: Splits, ids0: seq<SplitId>, s1: Splits, ids1: seq<SplitId>, d: nat)
    requires ValuesOnGrid(s0, ids0, d) && AllIn(ids1, s1)
    requires forall i | 0 <= i < |ids1| :: ids1[i] in ids0
    requires forall i | 0 <= i < |ids1| :: ids1[i] in s0 && (IsValid(s0[ids1[i]].value) ==> s1[ids1[i]].value == s0[ids1[i]].value)
    ensures ValuesOnGrid(s1, ids1, d)
  {
    forall i | 0 <= i < |ids1|
      ensures IsValid(s1[ids1[i]].value) && OnGrid(s1[ids1[i]].value.val, d)
    {
      var j :| 0 <= j < |ids0| && ids0[j] == ids1[i];
    }
  }

  /** A sum of values on the grid is valid and on the grid. */
  lemma {:induction false} ValueSumOnGrid(splits: Splits, ids: seq<SplitId>, d: nat)
    requires ValuesOnGrid(splits, ids, d)
    ensures IsValid(ValueSum(splits, ids)) && OnGrid(ValueSum(splits, ids).val, d)
  {
    if ids == [] {
      ZeroOnGrid(d);
    } else {
      var init := ids[..|ids| - 1];
      assert ValuesOnGrid(splits, init, d) by {
        assert forall i | 0 <= i < |init| :: init[i] == ids[i];
      }
      ValueSumOnGrid(splits, init, d);
      OnGridSub(ValueSum(splits, init).val, splits[ids[|ids| - 1]].value.val, d);
    }
  }

  /**
   * Changing the value of one split `x` of the list, and no other, changes
   * the value sum by the difference.
   */
  lemma {:induction false} ValueSumExceptOne(s0: Splits, s1: Splits, ids: seq<SplitId>, x: SplitId)
    requires AllIn(ids, s0) && AllIn(ids, s1) && Distinct(ids)
    requires forall i | 0 <= i < |ids| :: IsValid(s0[ids[i]].value) && IsValid(s1[ids[i]].value)
    requires forall i | 0 <= i < |ids| && ids[i] != x :: s1[ids[i]].value == s0[ids[i]].value
    ensures IsValid(ValueSum(s0, ids)) && IsValid(ValueSum(s1, ids))
    ensures x in ids ==> Add(ValueSum(s1, ids), s0[x].value) == Add(ValueSum(s0, ids), s1[x].value)
    ensures x !in ids ==> ValueSum(s1, ids) == ValueSum(s0, ids)
  {
    if ids != [] {
      var init, last := ids[..|ids| - 1], ids[|ids| - 1];
      assert forall i | 0 <= i < |init| :: init[i] == ids[i];
      ValueSumExceptOne(s0, s1, init, x);
      if last == x {
        assert x !in init;
      }
      assert x in ids <==> x in init || x == last;
    }
  }

  lemma ValueSumAppend(splits: Splits, ids: seq<SplitId>, x: SplitId)
    requires AllIn(ids, splits) && x in splits
    ensures ValueSum(splits, ids + [x]) == Add(ValueSum(splits, ids), splits[x].value)
  {
    assert (ids + [x])[..|ids|] == ids;
  }

  /**
   * The balancing step of add_balance_split: when every value is on the
   * grid of the currency fraction `d`, setting one split's value to its old
   * value (zero for a split just added at the end) minus the imbalance,
   * rounded at `d`, brings the value sum to exactly zero.
   */
  lemma BalancingZeroesValue(s0: Splits, s1: Splits, ids0: seq<SplitId>, ids1: seq<SplitId>, bs: SplitId, d: nat)
    requires ValuesOnGrid(s0, ids0, d) && AllIn(ids0, s1) && bs in s1 && Distinct(ids1)
    requires (ids1 == ids0 && bs in ids0) || (ids1 == ids0 + [bs] && bs !in ids0)
    requires forall i | 0 <= i < |ids0| && ids0[i] != bs :: s1[ids0[i]].value == s0[ids0[i]].value
    requires s1[bs].value == SubRound(if bs in ids0 then s0[bs].value else Zero(), ValueSum(s0, ids0), d)
    ensures AllIn(ids1, s1) && IsZero(ValueSum(s1, ids1))
  {
    ValueSumOnGrid(s0, ids0, d);
    if bs in ids0 {
      ValueReplacedZeroes(s0, s1, ids0, bs, d);
    } else {
      assert Distinct(ids0) by {
        assert forall i | 0 <= i < |ids0| :: ids0[i] == ids1[i];
      }
      ValueAppendedZeroes(s0, s1, ids0, bs, d);
    }
  }

  lemma ValueReplacedZeroes(s0: Splits, s1: Splits, ids: seq<SplitId>, bs: SplitId, d: nat)
    requires ValuesOnGrid(s0, ids, d) && AllIn(ids, s1) && Distinct(ids) && bs in ids
    requires IsValid(ValueSum(s0, ids)) && OnGrid(ValueSum(s0, ids).val, d)
    requires forall i | 0 <= i < |ids| && ids[i] != bs :: s1[ids[i]].value == s0[ids[i]].value
    requires s1[bs].value == SubRound(s0[bs].value, ValueSum(s0, ids), d)
    ensures IsZero(ValueSum(s1, ids))
  {
    var k :| 0 <= k < |ids| && ids[k] == bs;
    var old0, sum0 := s0[bs].value.val, ValueSum(s0, ids).val;
    SubOnGridExact(old0, sum0, d);
    assert s1[bs].value == Num(old0 - sum0);
    assert forall i | 0 <= i < |ids| :: IsValid(s1[ids[i]].value) by {
      forall i | 0 <= i < |ids|
        ensures IsValid(s1[ids[i]].value)
      {
        if ids[i] != bs {
          assert IsValid(s0[ids[i]].value);
        }
      }
    }
    ValueSumExceptOne(s0, s1, ids, bs);
    assert ValueSum(s1, ids).val + old0 == sum0 + (old0 - sum0);
  }

  lemma ValueAppendedZeroes(s0: Splits, s1: Splits, ids: seq<SplitId>, bs: SplitId, d: nat)
    requires ValuesOnGrid(s0, ids, d) && AllIn(ids, s1) && Distinct(ids) && bs in s1 && bs !in ids
    requires IsValid(ValueSum(s0, ids)) && OnGrid(ValueSum(s0, ids).val, d)
    requires forall i | 0 <= i < |ids| :: s1[ids[i]].value == s0[ids[i]].value
    requires s1[bs].value == SubRound(Zero(), ValueSum(s0, ids), d)
    ensures IsZero(ValueSum(s1, ids + [bs]))
  {
    ZeroOnGrid(d);
    SubOnGridExact(0.0, ValueSum(s0, ids).val, d);
    ValueSumExceptOne(s0, s1, ids, bs);
    ValueSumAppend(s1, ids, bs);
  }

  /**
   * The reversing step of gnc_transaction_balance_trading_more_splits, on
   * a split `bs` already in the list: when the values lie on the grid of
   * `d`, reducing the value of `bs` by the value of `x`, rounded at `d`,
   * and changing nothing else takes the value of `x` out of the sum.
   */
  lemma ValueReversedInPlace(s0: Splits, s1: Splits, ids: seq<SplitId>, bs: SplitId, x: SplitId, d: nat)
    requires ValuesOnGrid(s0, ids, d) && AllIn(ids, s1) && Distinct(ids) && bs in ids && x in ids
    requires forall i | 0 <= i < |ids| && ids[i] != bs :: s1[ids[i]].value == s0[ids[i]].value
    requires s1[bs].value == SubRound(s0[bs].value, s0[x].value, d)
    ensures Add(ValueSum(s1, ids), s0[x].value) == ValueSum(s0, ids)
  {
    var k :| 0 <= k < |ids| && ids[k] == bs;
    var j :| 0 <= j < |ids| && ids[j] == x;
    SubOnGridExact(s0[bs].value.val, s0[x].value.val, d);
    ValueSumExceptOne(s0, s1, ids, bs);
  }

  /**
   * The same step on a split `bs` added at the end with value zero: it
   * takes the value of `x` out of the sum.
   */
  lemma ValueReversedAppended(s0: Splits, s1: Splits, ids: seq<SplitId>, bs: SplitId, x: SplitId, d: nat)
    requires ValuesOnGrid(s0, ids, d) && AllIn(ids, s1) && Distinct(ids) && bs in s1 && bs !in ids && x in ids
    requires forall i | 0 <= i < |ids| :: s1[ids[i]].value == s0[ids[i]].value
    requires s1[bs].value == SubRound(Zero(), s0[x].value, d)
    ensures Add(ValueSum(s1, ids + [bs]), s0[x].value) == ValueSum(s0, ids)
  {
    var j :| 0 <= j < |ids| && ids[j] == x;
    ValueSumOnGrid(s0, ids, d);
    ZeroOnGrid(d);
    SubOnGridExact(0.0, s0[x].value.val, d);
    ValueSumExceptOne(s0, s1, ids, bs);
    ValueSumAppend(s1, ids, bs);
  }

  /** Every split of `ids` whose account commodity is `c` has a valid amount on the grid of `d`. */
  ghost predicate AmountsOnGrid(accts: Accounts, splits: Splits, ids: seq<SplitId>, c: Option<Commodity>, d: nat)
  {
    AllIn(ids, splits) &&
    forall i | 0 <= i < |ids| && Equal(SplitCommodity(accts, splits[ids[i]]), c) ::
      IsValid(splits[ids[i]].amount) && OnGrid(splits[ids[i]].amount.val, d)
  }

  /** A sum of amounts on the grid is valid and on the grid. */
  lemma {:induction false} AmountSumOnGrid(accts: Accounts, splits: Splits, ids: seq<SplitId>, c: Option<Commodity>, d: nat)
    requires AmountsOnGrid(accts, splits, ids, c, d)
    ensures IsValid(AmountSumIn(accts, splits, ids, c)) && OnGrid(AmountSumIn(accts, splits, ids, c).val, d)
  {
    if ids == [] {
      ZeroOnGrid(d);
    } else {
      var init := ids[..|ids| - 1];
      assert AmountsOnGrid(accts, splits, init, c, d) by {
        assert forall i | 0 <= i < |init| :: init[i] == ids[i];
      }
      AmountSumOnGrid(accts, splits, init, c, d);
      var s := splits[ids[|ids| - 1]];
      if Equal(SplitCommodity(accts, s), c) {
        OnGridSub(AmountSumIn(accts, splits, init, c).val, s.amount.val, d);
      }
    }
  }

  /**
   * Changing the amount of one split `x` of the list, which is in commodity
   * `c` afterwards, and no other split, changes the sum of the amounts in
   * `c` by the difference.
   */
  lemma {:induction false} AmountSumExceptOne(a0: Accounts, a1: Accounts, s0: Splits, s1: Splits, ids: seq<SplitId>,
                                              c: Option<Commodity>, x: SplitId)
    requires AllIn(ids, s0) && AllIn(ids, s1) && Distinct(ids)
    requires forall i | 0 <= i < |ids| && ids[i] != x ::
               SplitCommodity(a1, s1[ids[i]]) == SplitCommodity(a0, s0[ids[i]]) && s1[ids[i]].amount == s0[ids[i]].amount
    requires forall i | 0 <= i < |ids| && Equal(SplitCommodity(a0, s0[ids[i]]), c) :: IsValid(s0[ids[i]].amount)
    requires x in ids ==> Equal(SplitCommodity(a0, s0[x]), c) && Equal(SplitCommodity(a1, s1[x]), c) && IsValid(s1[x].amount)
    ensures IsValid(AmountSumIn(a0, s0, ids, c)) && IsValid(AmountSumIn(a1, s1, ids, c))
    ensures x in ids ==> Add(AmountSumIn(a1, s1, ids, c), s0[x].amount) == Add(AmountSumIn(a0, s0, ids, c), s1[x].amount)
    ensures x !in ids ==> AmountSumIn(a1, s1, ids, c) == AmountSumIn(a0, s0, ids, c)
  {
    if ids != [] {
      var init, last := ids[..|ids| - 1], ids[|ids| - 1];
      assert forall i | 0 <= i < |init| :: init[i] == ids[i];
      AmountSumExceptOne(a0, a1, s0, s1, init, c, x);
      if last == x {
        assert x !in init;
      }
      assert x in ids <==> x in init || x == last;
    }
  }

  lemma AmountSumAppend(accts: Accounts, splits: Splits, ids: seq<SplitId>, x: SplitId, c: Option<Commodity>)
    requires AllIn(ids, splits) && x in splits && Equal(SplitCommodity(accts, splits[x]), c)
    ensures AmountSumIn(accts, splits, ids + [x], c) == Add(AmountSumIn(accts, splits, ids, c), splits[x].amount)
  {
    assert (ids + [x])[..|ids|] == ids;
  }

  /** Every split of `ids` but `x` keeps its account commodity and its amount. */
  ghost predicate AmountsKeptBut(a0: Accounts, a1: Accounts, s0: Splits, s1: Splits, ids: seq<SplitId>, x: SplitId)
  {
    AllIn(ids, s0) && AllIn(ids, s1) &&
    forall i | 0 <= i < |ids| && ids[i] != x ::
      SplitCommodity(a1, s1[ids[i]]) == SplitCommodity(a0, s0[ids[i]]) && s1[ids[i]].amount == s0[ids[i]].amount
  }

  /**
   * The amount step of gnc_transaction_balance_trading: when the amounts in
   * commodity `c` lie on the grid of its fraction `d`, and the trading split
   * `bs`, in an account of commodity `c`, takes its old amount (zero for a
   * split just added) minus their sum, rounded at `d`, the amounts in `c`
   * sum to exactly zero.
   */
  lemma BalancingZeroesAmount(a0: Accounts, a1: Accounts, s0: Splits, s1: Splits, ids0: seq<SplitId>, ids1: seq<SplitId>,
                              bs: SplitId, c: Option<Commodity>, d: nat)
    requires AmountsOnGrid(a0, s0, ids0, c, d) && AllIn(ids0, s1) && bs in s1 && Distinct(ids1)
    requires (ids1 == ids0 && bs in ids0) || (ids1 == ids0 + [bs] && bs !in ids0)
    requires AmountsKeptBut(a0, a1, s0, s1, ids0, bs)
    requires bs in ids0 ==> SplitCommodity(a0, s0[bs]) == c
    requires SplitCommodity(a1, s1[bs]) == c
    requires s1[bs].amount == SubRound(if bs in ids0 then s0[bs].amount else Zero(), AmountSumIn(a0, s0, ids0, c), d)
    ensures AllIn(ids1, s1) && IsZero(AmountSumIn(a1, s1, ids1, c))
  {
    AmountSumOnGrid(a0, s0, ids0, c, d);
    if bs in ids0 {
      AmountReplacedZeroes(a0, a1, s0, s1, ids0, bs, c, d);
    } else {
      assert Distinct(ids0) by {
        assert forall i | 0 <= i < |ids0| :: ids0[i] == ids1[i];
      }
      AmountAppendedZeroes(a0, a1, s0, s1, ids0, bs, c, d);
    }
  }

  lemma AmountReplacedZeroes(a0: Accounts, a1: Accounts, s0: Splits, s1: Splits, ids: seq<SplitId>,
                             bs: SplitId, c: Option<Commodity>, d: nat)
    requires AmountsOnGrid(a0, s0, ids, c, d) && AllIn(ids, s1) && Distinct(ids) && bs in ids
    requires IsValid(AmountSumIn(a0, s0, ids, c)) && OnGrid(AmountSumIn(a0, s0, ids, c).val, d)
    requires AmountsKeptBut(a0, a1, s0, s1, ids, bs)
    requires SplitCommodity(a0, s0[bs]) == c && SplitCommodity(a1, s1[bs]) == c
    requires s1[bs].amount == SubRound(s0[bs].amount, AmountSumIn(a0, s0, ids, c), d)
    ensures IsZero(AmountSumIn(a1, s1, ids, c))
  {
    var k :| 0 <= k < |ids| && ids[k] == bs;
    SubOnGridExact(s0[bs].amount.val, AmountSumIn(a0, s0, ids, c).val, d);
    AmountSumExceptOne(a0, a1, s0, s1, ids, c, bs);
  }

  lemma AmountAppendedZeroes(a0: Accounts, a1: Accounts, s0: Splits, s1: Splits, ids: seq<SplitId>,
                             bs: SplitId, c: Option<Commodity>, d: nat)
    requires AmountsOnGrid(a0, s0, ids, c, d) && AllIn(ids, s1) && Distinct(ids) && bs in s1 && bs !in ids
    requires IsValid(AmountSumIn(a0, s0, ids, c)) && OnGrid(AmountSumIn(a0, s0, ids, c).val, d)
    requires AmountsKeptBut(a0, a1, s0, s1, ids, bs)
    requires SplitCommodity(a1, s1[bs]) == c
    requires s1[bs].amount == SubRound(Zero(), AmountSumIn(a0, s0, ids, c), d)
    ensures IsZero(AmountSumIn(a1, s1, ids + [bs], c))
  {
    ZeroOnGrid(d);
    SubOnGridExact(0.0, AmountSumIn(a0, s0, ids, c).val, d);
    AmountSumExceptOne(a0, a1, s0, s1, ids, c, bs);
    AmountSumAppend(a1, s1, ids, bs, c);
  }

  /**
   * The account get_balance_split posts the balancing split to: `account`
   * itself when it is given and its commodity is equivalent to the
   * currency, otherwise the BANK account "Imbalance-<mnemonic>" in that
   * currency under `r` (the book root when `r` is missing), found or made.
   */
  function BalanceAccount(accts: Accounts, next: nat, bookRoot: AccountId, r: Option<AccountId>, account: Option<AccountId>,
                          currency: Option<Commodity>): (res: (AccountId, Accounts, nat))
    requires TreeOk(accts, next) && bookRoot in accts
    requires r.Some? ==> r.value in accts
    requires account.Some? ==> account.value in accts
    ensures TreeOk(res.1, res.2) && res.0 in res.1 && accts.Keys <= res.1.Keys
    ensures currency.Some? ==> Equiv(currency, res.1[res.0].commodity) || Equiv(res.1[res.0].commodity, currency)
  {
    if account.Some? && Equiv(currency, accts[account.value].commodity) then (account.value, accts, next)
    else
      var root := if r.Some? then r.value else bookRoot;
      GetOrMakeMatches(accts, next, bookRoot, root, currency, ImbalanceName(currency), Bank, false, true);
      GetOrMake(accts, next, bookRoot, root, currency, ImbalanceName(currency), Bank, false, true)
  }

  /** "Imbalance-" followed by the currency mnemonic. */
  function ImbalanceName(currency: Option<Commodity>): string { "Imbalance-" + Mnemonic(currency) }

  /** Asking for the balancing account twice gives the same account and adds nothing the second time. */
  lemma BalanceAccountIdempotent(accts: Accounts, next: nat, bookRoot: AccountId, r: Option<AccountId>,
                                 account: Option<AccountId>, currency: Option<Commodity>)
    requires TreeOk(accts, next) && bookRoot in accts
    requires r.Some? ==> r.value in accts
    requires account.Some? ==> account.value in accts
    ensures var res := BalanceAccount(accts, next, bookRoot, r, account, currency);
            BalanceAccount(res.1, res.2, bookRoot, r, account, currency) == res
  {
    var res := BalanceAccount(accts, next, bookRoot, r, account, currency);
    if !(account.Some? && Equiv(currency, accts[account.value].commodity)) {
      var root := if r.Some? then r.value else bookRoot;
      GetOrMakeIdempotent(accts, next, bookRoot, root, currency, ImbalanceName(currency), Bank, false, true);
      GetOrMakeGrows(accts, next, bookRoot, root, currency, ImbalanceName(currency), Bank, false, true);
    }
  }

  /**
   * The account get_trading_split posts a trading split for `commodity` to:
   * the placeholder TRADING account "Trading" under the book root, the
   * placeholder TRADING account named after the commodity namespace under
   * it, and the TRADING account named after the mnemonic, in the commodity,
   * under that; each found or made.
   */
  function TradingAccount(accts: Accounts, next: nat, bookRoot: AccountId, commodity: Option<Commodity>): (res: (AccountId, Accounts, nat))
    requires TreeOk(accts, next) && bookRoot in accts
    ensures TreeOk(res.1, res.2) && res.0 in res.1 && accts.Keys <= res.1.Keys
    ensures res.1[res.0].kind == Trading
    ensures commodity.Some? ==> Equiv(res.1[res.0].commodity, commodity)
    ensures Grown(accts, res.1)
  {
    var top := GetOrMake(accts, next, bookRoot, bookRoot, None, "Trading", Trading, true, false);
    var ns := GetOrMake(top.1, top.2, bookRoot, top.0, None, Namespace(commodity), Trading, true, true);
    GetOrMakeGrows(accts, next, bookRoot, bookRoot, None, "Trading", Trading, true, false);
    GetOrMakeGrows(top.1, top.2, bookRoot, top.0, None, Namespace(commodity), Trading, true, true);
    GetOrMakeGrows(ns.1, ns.2, bookRoot, ns.0, commodity, Mnemonic(commodity), Trading, false, false);
    GetOrMakeMatches(ns.1, ns.2, bookRoot, ns.0, commodity, Mnemonic(commodity), Trading, false, false);
    GetOrMake(ns.1, ns.2, bookRoot, ns.0, commodity, Mnemonic(commodity), Trading, false, false)
  }

  /**
   * Asking for the trading account twice gives the same account and adds
   * nothing the second time, in a tree whose book root is not a TRADING
   * account and where no account is its own child.
   */
  lemma TradingAccountIdempotent(accts: Accounts, next: nat, bookRoot: AccountId, commodity: Option<Commodity>)
    requires TreeOk(accts, next) && bookRoot in accts && accts[bookRoot].kind != Trading
    requires forall a | a in accts :: a !in accts[a].children
    ensures var res := TradingAccount(accts, next, bookRoot, commodity);
            TradingAccount(res.1, res.2, bookRoot, commodity) == res
  {
    var nsName, mn := Namespace(commodity), Mnemonic(commodity);
    var top := GetOrMake(accts, next, bookRoot, bookRoot, None, "Trading", Trading, true, false);
    var ns := GetOrMake(top.1, top.2, bookRoot, top.0, None, nsName, Trading, true, true);
    var acc := GetOrMake(ns.1, ns.2, bookRoot, ns.0, commodity, mn, Trading, false, false);
    GetOrMakeGrows(accts, next, bookRoot, bookRoot, None, "Trading", Trading, true, false);
    GetOrMakeGrows(top.1, top.2, bookRoot, top.0, None, nsName, Trading, true, true);
    GetOrMakeGrows(ns.1, ns.2, bookRoot, ns.0, commodity, mn, Trading, false, false);
    GetOrMakeMatches(accts, next, bookRoot, bookRoot, None, "Trading", Trading, true, false);
    GetOrMakeMatches(top.1, top.2, bookRoot, top.0, None, nsName, Trading, true, true);
    assert top.0 != bookRoot && ns.0 != bookRoot;
    GetOrMakeCreatesOnlyWhenMissing(accts, next, bookRoot, bookRoot, None, "Trading", Trading, true, false);
    GetOrMakeCreatesOnlyWhenMissing(top.1, top.2, bookRoot, top.0, None, nsName, Trading, true, true);
    assert ns.0 != top.0;
    // the first two lookups find the accounts they made, and nothing later changes that
    GetOrMakeIdempotent(accts, next, bookRoot, bookRoot, None, "Trading", Trading, true, false);
    GetOrMakeCreatesOnlyWhenMissing(top.1, top.2, bookRoot, bookRoot, None, "Trading", Trading, true, false);
    GetOrMakeStable(top.1, top.2, acc.1, acc.2, bookRoot, bookRoot, None, "Trading", Trading, true, false);
    GetOrMakeIdempotent(top.1, top.2, bookRoot, top.0, None, nsName, Trading, true, true);
    GetOrMakeCreatesOnlyWhenMissing(ns.1, ns.2, bookRoot, top.0, None, nsName, Trading, true, true);
    GetOrMakeStable(ns.1, ns.2, acc.1, acc.2, bookRoot, top.0, None, nsName, Trading, true, true);
    GetOrMakeIdempotent(ns.1, ns.2, bookRoot, ns.0, commodity, mn, Trading, false, false);
  }
}
