/**
 * xaccTransScrubCurrency stated on values: the currency it settles a
 * transaction on, and the amounts it aligns with the values.  Scrub.Book's
 * method is proved equal to ScrubCurrencyOf.
 */
module CurrencyScrub {
  import opened Commodities
  import opened Ledger
  import opened CurrencyVote

  /** The first split of the list that has an account. */
  function FirstPosted(splits: Splits, ids: seq<SplitId>): (r: Option<SplitId>)
    requires AllIn(ids, splits)
    ensures r.Some? ==> r.value in ids && splits[r.value].account.Some?
    ensures r.None? ==> forall i | 0 <= i < |ids| :: splits[ids[i]].account.None?
  {
    if ids == [] then None
    else if splits[ids[0]].account.Some? then Some(ids[0])
    else FirstPosted(splits, ids[1..])
  }

  /**
   * The amounts pass over the first `i` splits of `ids`: a split whose
   * account commodity is exactly `c` takes its value as its amount.
   */
  function MatchAmounts(accts: Accounts, splits: Splits, ids: seq<SplitId>, i: nat, c: Commodity): (r: Splits)
    requires AllIn(ids, splits) && i <= |ids|
    ensures r.Keys == splits.Keys
  {
    if i == 0 then splits
    else
      var m := MatchAmounts(accts, splits, ids, i - 1, c);
      var x := ids[i - 1];
      if SplitCommodity(accts, m[x]) == Some(c) then m[x := m[x].(amount := m[x].value)] else m
  }

  /**
   * What the amounts pass does to each split: one of the first `i` splits
   * of `ids` in an account of commodity `c` has its amount replaced by its
   * value; every other split, and every other field, is left as it was.
   */
  lemma {:induction false} MatchAmountsEffect(accts: Accounts, splits: Splits, ids: seq<SplitId>, i: nat, c: Commodity)
    requires AllIn(ids, splits) && i <= |ids|
    ensures var r := MatchAmounts(accts, splits, ids, i, c);
            forall s | s in splits ::
              r[s] == if s in ids[..i] && SplitCommodity(accts, splits[s]) == Some(c) then splits[s].(amount := splits[s].value)
                      else splits[s]
  {
    if i > 0 {
      MatchAmountsEffect(accts, splits, ids, i - 1, c);
      TakeSnoc(ids, i - 1);
    }
  }

  /** Running the amounts pass a second time changes nothing. */
  lemma MatchAmountsIdempotent(accts: Accounts, splits: Splits, ids: seq<SplitId>, c: Commodity)
    requires AllIn(ids, splits)
    ensures var r := MatchAmounts(accts, splits, ids, |ids|, c);
            MatchAmounts(accts, r, ids, |ids|, c) == r
  {
    var r := MatchAmounts(accts, splits, ids, |ids|, c);
    MatchAmountsEffect(accts, splits, ids, |ids|, c);
    MatchAmountsEffect(accts, r, ids, |ids|, c);
  }

  /** The currency of a transaction after xaccTransScrubCurrency, and its splits. */
  datatype CurrencyFix = CurrencyFix(currency: Option<Commodity>, splits: Splits)

  /**
   * xaccTransScrubCurrency once the orphans are repaired: a transaction
   * already in a currency is left alone; otherwise it takes the common
   * currency and every split in an account of exactly that commodity gets
   * its value as its amount; failing a common currency, it takes the
   * commodity of the first split that has an account, if there is such a
   * split and its account has a commodity (xaccTransSetCurrency ignores a
   * NULL commodity).  A currency, once set, is never cleared.
   */
  function ScrubCurrencyOf(accts: Accounts, splits: Splits, ids: seq<SplitId>, cur: Option<Commodity>): (r: CurrencyFix)
    requires AccountsClosed(accts) && AllIn(ids, splits)
    ensures r.splits.Keys == splits.Keys
    ensures r.currency != cur ==> r.currency.Some?
  {
    if cur.Some? && IsCurrency(cur.value) then CurrencyFix(cur, splits)
    else
      var found := CommonCurrency(accts, splits, ids);
      if found.Some? then CurrencyFix(found, MatchAmounts(accts, splits, ids, |ids|, found.value))
      else
        var p := FirstPosted(splits, ids);
        CurrencyFix(if p.None? || SplitCommodity(accts, splits[p.value]).None? then cur else SplitCommodity(accts, splits[p.value]), splits)
  }

  /**
   * Once a currency is settled the early return makes the scrub a no-op:
   * whenever the transaction already had a currency or a common currency
   * is found, the result is a currency, and scrubbing again changes nothing.
   */
  lemma ScrubCurrencySettles(accts: Accounts, splits: Splits, ids: seq<SplitId>, cur: Option<Commodity>)
    requires AccountsClosed(accts) && AllIn(ids, splits)
    requires (cur.Some? && IsCurrency(cur.value)) || CommonCurrency(accts, splits, ids).Some?
    ensures var r := ScrubCurrencyOf(accts, splits, ids, cur);
            && r.currency.Some? && IsCurrency(r.currency.value)
            && ScrubCurrencyOf(accts, r.splits, ids, r.currency) == r
  {
  }

  /**
   * When the scrub settles on a newly found currency, every split of the
   * transaction in an account of exactly that commodity has amount equal
   * to value, and no value, account or parent changes.
   */
  lemma ScrubCurrencyAligns(accts: Accounts, splits: Splits, ids: seq<SplitId>, cur: Option<Commodity>)
    requires AccountsClosed(accts) && AllIn(ids, splits)
    requires !(cur.Some? && IsCurrency(cur.value)) && CommonCurrency(accts, splits, ids).Some?
    ensures var r := ScrubCurrencyOf(accts, splits, ids, cur);
            && r.currency == CommonCurrency(accts, splits, ids)
            && (forall i | 0 <= i < |ids| && SplitCommodity(accts, splits[ids[i]]) == r.currency ::
                  r.splits[ids[i]].amount == r.splits[ids[i]].value)
            && (forall s | s in splits :: r.splits[s] == splits[s].(amount := r.splits[s].amount))
  {
    var c := CommonCurrency(accts, splits, ids).value;
    MatchAmountsEffect(accts, splits, ids, |ids|, c);
    TakeAll(ids);
  }
}
