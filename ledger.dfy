/**
 * The ledger data model the scrubber works on, in arena form: accounts,
 * splits and transactions are records in maps keyed by identifiers, and
 * every reference between them (a split's account and parent transaction,
 * an account's parent and children, a transaction's splits) is an
 * identifier.  A NULL reference is `None`.
 *
 * Besides the records, this module holds the read-only queries that the
 * scrubber calls on the engine (account root, currency-or-parent, finding a
 * split by account, the imbalance computations).  They are not part of
 * Scrub.c; each is given the small definition stated in its comment.
 */
module Ledger {
  import opened Numeric
  import opened Commodities

  type AccountId = nat
  type SplitId = nat
  type TransId = nat

  /** GNCAccountType */
  datatype AccountType =
    | Bank | Cash | Credit | Asset | Liability | Stock | Mutual | Currency
    | Income | Expense | Equity | Receivable | Payable | Root | Trading

  /** A KVP slot value */
  datatype KvpValue = KString(s: string) | KBool(b: bool) | KInt(i: int) | KFrame(slots: map<string, KvpValue>)

  datatype Account = Account(
    name: string,
    kind: AccountType,
    commodity: Option<Commodity>,
    commoditySCU: nat,
    nonStandardSCU: bool,
    /** the legacy "old-currency" slot, as DxaccAccountGetCurrency resolves it */
    oldCurrency: Option<Commodity>,
    placeholder: bool,
    parent: Option<AccountId>,
    children: seq<AccountId>,
    slots: map<string, KvpValue>,
    color: Option<string>)

  datatype Split = Split(parent: Option<TransId>, account: Option<AccountId>, amount: Numeric, value: Numeric)

  /** A transaction; `currency` is its common_currency field */
  datatype Transaction = Transaction(splits: seq<SplitId>, currency: Option<Commodity>)

  type Accounts = map<AccountId, Account>
  type Splits = map<SplitId, Split>
  type Transactions = map<TransId, Transaction>

  /** Every parent and child reference of an account names an account of the map. */
  ghost predicate AccountsClosed(accts: Accounts)
  {
    forall a | a in accts ::
      (accts[a].parent.Some? ==> accts[a].parent.value in accts) &&
      (forall i | 0 <= i < |accts[a].children| :: accts[a].children[i] in accts)
  }

  ghost predicate AllIn<K, V>(ids: seq<K>, m: map<K, V>)
  {
    forall i | 0 <= i < |ids| :: ids[i] in m
  }

  /** Slicing facts the scrubber's loops step by. */
  lemma TakeSnoc<T>(l: seq<T>, i: nat)
    requires i < |l|
    ensures l[..i + 1] == l[..i] + [l[i]]
  {
  }

  lemma TakeAll<T>(l: seq<T>)
    ensures l[..|l|] == l
  {
  }

  lemma DropStep<T>(l: seq<T>, i: nat)
    requires i < |l|
    ensures l[i..][1..] == l[i + 1..]
  {
  }

  ghost predicate Distinct<K>(ids: seq<K>)
  {
    forall i, j | 0 <= i < j < |ids| :: ids[i] != ids[j]
  }

  /** The list without `x`. */
  function Without(ids: seq<SplitId>, x: SplitId): (r: seq<SplitId>)
    ensures forall i | 0 <= i < |r| :: r[i] in ids && r[i] != x
    ensures forall i | 0 <= i < |ids| :: ids[i] != x ==> ids[i] in r
    ensures Distinct(ids) ==> Distinct(r)
  {
    if ids == [] then []
    else
      var rest := Without(ids[1..], x);
      if ids[0] == x then rest
      else
        assert forall i | 0 <= i < |rest| :: rest[i] in ids[1..];
        [ids[0]] + rest
  }

  lemma WithoutAbsent(ids: seq<SplitId>, x: SplitId)
    requires x !in ids
    ensures Without(ids, x) == ids
  {
    if ids != [] {
      WithoutAbsent(ids[1..], x);
    }
  }

  /** xaccAccountGetCommoditySCU */
  function AccountSCU(a: Account): nat
  {
    if a.nonStandardSCU || a.commodity.None? then a.commoditySCU else a.commodity.value.fraction
  }

  /**
   * gnc_account_get_root: follow parent links to the top.  The walk is
   * bounded by the number of accounts, which is never reached in a tree.
   */
  function RootOf(accts: Accounts, a: AccountId): (r: AccountId)
    requires AccountsClosed(accts) && a in accts
    ensures r in accts
  {
    RootWalk(accts, a, |accts|)
  }

  function RootWalk(accts: Accounts, a: AccountId, fuel: nat): (r: AccountId)
    requires AccountsClosed(accts) && a in accts
    ensures r in accts
    decreases fuel
  {
    if fuel == 0 || accts[a].parent.None? then a else RootWalk(accts, accts[a].parent.value, fuel - 1)
  }

  /**
   * gnc_account_get_currency_or_parent: the commodity of the nearest account,
   * starting with this one and moving up, whose commodity is a currency.
   */
  function CurrencyOrParent(accts: Accounts, a: AccountId, fuel: nat): (r: Option<Commodity>)
    requires AccountsClosed(accts) && a in accts
    ensures r.Some? ==> IsCurrency(r.value)
    decreases fuel
  {
    var c := accts[a].commodity;
    if c.Some? && IsCurrency(c.value) then c
    else if fuel == 0 || accts[a].parent.None? then None
    else CurrencyOrParent(accts, accts[a].parent.value, fuel - 1)
  }

  /**
   * The accounts below the accounts `cs` and the accounts themselves, in
   * pre-order (gnc_account_foreach_descendant's order), each level at most
   * `fuel` deep.
   */
  function Subtree(accts: Accounts, cs: seq<AccountId>, fuel: nat): (r: seq<AccountId>)
    requires AccountsClosed(accts) && AllIn(cs, accts)
    ensures AllIn(r, accts)
    decreases fuel, |cs|
  {
    if fuel == 0 || cs == [] then []
    else [cs[0]] + Subtree(accts, accts[cs[0]].children, fuel - 1) + Subtree(accts, cs[1..], fuel)
  }

  /** The descendants of `a` (not `a` itself), in pre-order. */
  function Descendants(accts: Accounts, a: AccountId): (r: seq<AccountId>)
    requires AccountsClosed(accts) && a in accts
    ensures AllIn(r, accts)
  {
    Subtree(accts, accts[a].children, |accts|)
  }

  /** xaccTransFindSplitByAccount: the first split of the list posted to `acc`. */
  function FindSplitByAccount(splits: Splits, ids: seq<SplitId>, acc: AccountId): (r: Option<SplitId>)
    requires AllIn(ids, splits)
    ensures r.Some? ==> r.value in ids && splits[r.value].account == Some(acc)
    ensures r.None? ==> forall i | 0 <= i < |ids| :: splits[ids[i]].account != Some(acc)
  {
    if ids == [] then None
    else if splits[ids[0]].account == Some(acc) then Some(ids[0])
    else FindSplitByAccount(splits, ids[1..], acc)
  }

  /** The commodity of a split's account (xaccAccountGetCommodity(xaccSplitGetAccount(s))). */
  function SplitCommodity(accts: Accounts, s: Split): Option<Commodity>
  {
    if s.account.Some? && s.account.value in accts then accts[s.account.value].commodity else None
  }

  /** xaccTransGetImbalanceValue: the exact sum of the split values. */
  function ValueSum(splits: Splits, ids: seq<SplitId>): (r: Numeric)
    requires AllIn(ids, splits)
  {
    if ids == [] then Zero() else Add(ValueSum(splits, ids[..|ids| - 1]), splits[ids[|ids| - 1]].value)
  }

  /** The exact sum of the amounts of the splits whose account commodity is `c`. */
  function AmountSumIn(accts: Accounts, splits: Splits, ids: seq<SplitId>, c: Option<Commodity>): (r: Numeric)
    requires AllIn(ids, splits)
  {
    if ids == [] then Zero()
    else
      var s := splits[ids[|ids| - 1]];
      var rest := AmountSumIn(accts, splits, ids[..|ids| - 1], c);
      if Equal(SplitCommodity(accts, s), c) then Add(rest, s.amount) else rest
  }

  /**
   * gnc_transaction_get_commodity_imbalance: the exact sum of the values of
   * the splits whose account commodity is `c`.
   */
  function CommodityValueSum(accts: Accounts, splits: Splits, ids: seq<SplitId>, c: Option<Commodity>): (r: Numeric)
    requires AllIn(ids, splits)
  {
    if ids == [] then Zero()
    else
      var s := splits[ids[|ids| - 1]];
      var rest := CommodityValueSum(accts, splits, ids[..|ids| - 1], c);
      if Equal(c, SplitCommodity(accts, s)) then Add(rest, s.value) else rest
  }

  /** The distinct account commodities of the splits, in first-encounter order. */
  function CommoditiesOf(accts: Accounts, splits: Splits, ids: seq<SplitId>): (r: seq<Option<Commodity>>)
    requires AllIn(ids, splits)
    ensures Distinct(r)
  {
    if ids == [] then []
    else
      var rest := CommoditiesOf(accts, splits, ids[..|ids| - 1]);
      var c := SplitCommodity(accts, splits[ids[|ids| - 1]]);
      if c in rest then rest else rest + [c]
  }

  datatype Monetary = Monetary(commodity: Option<Commodity>, amount: Numeric)

  /**
   * xaccTransGetImbalance with trading accounts: for every commodity of the
   * splits, in first-encounter order, the sum of the split amounts in that
   * commodity, leaving out the commodities that balance.
   */
  function AmountImbalance(accts: Accounts, splits: Splits, ids: seq<SplitId>): (r: seq<Monetary>)
    requires AllIn(ids, splits)
    ensures forall i | 0 <= i < |r| :: !IsZero(r[i].amount)
  {
    ImbalanceList(accts, splits, ids, CommoditiesOf(accts, splits, ids))
  }

  function ImbalanceList(accts: Accounts, splits: Splits, ids: seq<SplitId>, cs: seq<Option<Commodity>>): (r: seq<Monetary>)
    requires AllIn(ids, splits)
    ensures forall i | 0 <= i < |r| :: !IsZero(r[i].amount)
  {
    if cs == [] then []
    else
      var sum := AmountSumIn(accts, splits, ids, cs[0]);
      (if IsZero(sum) then [] else [Monetary(cs[0], sum)]) + ImbalanceList(accts, splits, ids, cs[1..])
  }

  /** xaccTransIsBalanced */
  predicate IsBalanced(accts: Accounts, splits: Splits, ids: seq<SplitId>, trading: bool)
    requires AllIn(ids, splits)
  {
    IsZero(ValueSum(splits, ids)) && (!trading || AmountImbalance(accts, splits, ids) == [])
  }
}
