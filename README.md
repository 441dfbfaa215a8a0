# GnuCash ledger scrubber, modelled in Dafny

This project models the ledger scrubber of GnuCash's engine
(`libgnucash/engine/Scrub.c`). The scrubber takes possibly malformed
double-entry data and repairs it step by step into a consistent form:

- It gives every split without an account an `Orphan-<mnemonic>` account.
- It replaces invalid split numbers with zero and aligns amount with value
  where the account commodity is the transaction currency.
- It settles a transaction's currency by a weighted vote over the split
  accounts' commodities.
- It balances a transaction: either with one `Imbalance-<mnemonic>` split, or
  with a `Trading/<namespace>/<mnemonic>` account per imbalanced commodity.
- It creates the accounts it needs only when a lookup finds none.
- It walks account trees with progress reports, a cooperative abort flag and
  a nesting-depth counter.
- It cleans up account commodities, legacy currency data, KVP slots and the
  "Not Set" colour.

The model is written in the source's own form:

- The book is a `class Book` (module `Scrub`, `book.dfy`). Its accounts,
  splits and transactions are id-keyed maps that the methods reassign. The
  abort flag, the scrub depth, the progress-callback log and the book slots
  are fields as well.
- Every routine that changes state is a method. Its `ensures` clause ties the
  new state to a pure specification function of the old state.
- What the source promises is proved as lemmas about those functions. They
  live in their own modules:
  - `Numeric`: gnc_numeric as an exact rational or an error value, with
    rounding half away from zero at a fraction;
  - `Commodities`;
  - `Ledger`: the data model and sums over split lists;
  - `AccountLookup`: get-or-make;
  - `Orphans`;
  - `Cleanups`: split numbers, account commodity, KVP and colour;
  - `CurrencyVote`: the common-currency finders;
  - `CurrencyScrub`;
  - `Balance`: the balancing arithmetic and the balancing accounts.
- The pure parts of the source are functions: the weight tally and its
  comparator, the legacy intersection, and the per-commodity value sum.

A transaction's value sum is exact. A balancing split is set to "old value
minus imbalance, rounded half away from zero at the currency fraction". That zeroes the
sum whenever every value already lies on the grid of that fraction. The
balance properties are stated under that hypothesis (`ValuesOnGrid`,
`AmountsOnGrid`), which is sufficient, not necessary.

## Model

| member | source | states |
|---|---|---|
| Scrub.Book.constructor | libgnucash/engine/Scrub.c:60-61 | a new book holds only its root account, no splits or transactions, the abort flag cleared, scrub depth 0 and an empty progress log |
| Scrub.Book.SetAbortScrub | libgnucash/engine/Scrub.c:71-75 | gnc_set_abort_scrub stores the flag |
| Scrub.Book.GetAbortScrub | libgnucash/engine/Scrub.c:77-81 | gnc_get_abort_scrub returns the flag |
| Scrub.Book.GetOngoingScrub | libgnucash/engine/Scrub.c:83-87 | a scrub is ongoing exactly when the depth counter is positive |
| Orphans.FillOrphans | libgnucash/engine/Scrub.c:116-136 | afterwards no split of the list lacks an account; exactly the splits without one get the given account; all other splits are unchanged |
| Orphans.OrphansFixed | libgnucash/engine/Scrub.c:106-137 | the result of TransScrubOrphansFast on a transaction with a common currency; accounts are only added and the split map keeps its keys |
| Orphans.OrphansFixedRepairs | libgnucash/engine/Scrub.c:116-136 | only missing accounts are filled in; splits outside the transaction are untouched; with a currency no orphan is left; with no currency or no orphan nothing changes |
| Orphans.OrphansFixedBucket | libgnucash/engine/Scrub.c:126-135 | every orphan ends up in a BANK account named `Orphan-<mnemonic>` whose commodity is equivalent to the transaction currency |
| Orphans.OrphansFixedIdempotent | libgnucash/engine/Scrub.c:106-137 | a second TransScrubOrphansFast on the repaired state changes nothing |
| Orphans.FixedSoFarComplete | libgnucash/engine/Scrub.c:116-136 | the split-by-split loop, run to the end, yields OrphansFixed; run for zero steps, it yields the input |
| Orphans.FixedSoFarSnoc | libgnucash/engine/Scrub.c:118-135 | one loop step leaves a split that has an account alone; for an orphan, the step reuses the same get-or-make result and posts the orphan to it |
| Orphans.TransOrphansFixed | libgnucash/engine/Scrub.c:177-207 | xaccTransScrubOrphans fills only missing accounts; it leaves no orphan when the currency is set and not aborted; it changes nothing when aborted |
| Orphans.OrphanRoot | libgnucash/engine/Scrub.c:186-206 | the root used is an account of the book, and the book root when no split has an account |
| Orphans.FilledKeepsRepairedIn | libgnucash/engine/Scrub.c:157-171 | filling in accounts later never undoes an earlier repair |
| Orphans.RepairedInRebase | libgnucash/engine/Scrub.c:101-102 | a repair stated against a later state also holds against an earlier one that differs only in filled accounts |
| Scrub.Book.TransScrubOrphansFast | libgnucash/engine/Scrub.c:106-137 | the new accounts, counter and splits are exactly OrphansFixed of the old state; with the abort flag set, nothing changes |
| Scrub.Book.PostOrphans | libgnucash/engine/Scrub.c:116-136 | the loop over the transaction's splits reaches the full FixedSoFar state |
| Scrub.Book.PostOrphan | libgnucash/engine/Scrub.c:118-135 | one loop step advances FixedSoFar by one split |
| Scrub.Book.TransScrubOrphans | libgnucash/engine/Scrub.c:177-207 | the new state is OrphansFixed at the root of OrphanRoot; with the abort flag set, nothing changes |
| Scrub.Book.AccountScrubOrphans | libgnucash/engine/Scrub.c:139-174 | repairs every transaction with a split in the account; the progress log is the reports before every tenth split, then one final "done"; with abort set, it stops at the first report and changes nothing |
| Scrub.Book.OrphanPasses | libgnucash/engine/Scrub.c:157-171 | the loop repairs the transaction of every listed split; the progress log holds exactly the reports issued |
| Scrub.Book.OrphanPass | libgnucash/engine/Scrub.c:168-170 | one loop step extends the repaired prefix by one split |
| Scrub.Book.ReportProgress | libgnucash/engine/Scrub.c:160-166 | a report (name, index, percentage) is logged exactly when the index is a multiple of ten; the loop is told to stop exactly then, if the abort flag is set |
| Scrub.ReportsBounds | libgnucash/engine/Scrub.c:160-163 | n splits give ceil(n/10) reports, at indices 0, 10, 20, …; each percentage lies in [0, 100) |
| Scrub.Book.TreeScrubOrphans | libgnucash/engine/Scrub.c:91-104 | repairs the account and every descendant; keeps the depth; extends the progress log, which ends with "done"; when aborted, first logs an extra "done" and changes nothing else |
| Scrub.Book.OrphansOfTree | libgnucash/engine/Scrub.c:100-102 | AccountScrubOrphans on the account, then on each descendant |
| Scrub.Book.OrphansOfEach | libgnucash/engine/Scrub.c:101-102 | gnc_account_foreach_descendant with AccountScrubOrphans repairs every listed account |
| Scrub.RepairedFromList | libgnucash/engine/Scrub.c:154-171 | repairing the transaction of every split on the account's split list repairs every split posted to that account |
| Cleanups.ScrubNumbers | libgnucash/engine/Scrub.c:275-328 | both numbers valid; an invalid value or amount becomes zero; when the account commodity is missing or not equivalent to the currency, the amount is only made valid; when it is equivalent, an amount the same as the value at the scu is kept and one that differs becomes the value |
| Cleanups.ScrubNumbersIdempotent | libgnucash/engine/Scrub.c:275-328 | scrubbing scrubbed numbers changes nothing |
| Cleanups.SplitScu | libgnucash/engine/Scrub.c:306-307 | the scu is the smaller of the account SCU and the currency fraction |
| Scrub.Book.ScrubSplitNumbers | libgnucash/engine/Scrub.c:275-328 | the split's numbers become ScrubNumbers of the old ones, using the commodity read before xaccAccountScrubCommodity; that account gets ScrubCommodity |
| Scrub.Book.SplitScrub | libgnucash/engine/Scrub.c:234-330 | no parent: nothing changes; parent and account: exactly ScrubNumbers on the split and ScrubCommodity on its account; an orphan: exactly ScrubbedIn of the orphan repair's state (left alone if still an orphan); a split that ends up with an account ends with valid numbers; no other split's amount or value changes; an account with a commodity keeps it and its SCU |
| Scrub.Book.ScrubOrphanSplit | libgnucash/engine/Scrub.c:253-329 | the orphan branch: the state becomes the orphan repair of the transaction (TransOrphansFixed) followed by the number repair of the split in the account it was given (ScrubbedIn), or the repair alone when the split is still an orphan; no other split's amount or value changes |
| Scrub.Book.AdoptOrphan | libgnucash/engine/Scrub.c:253-262 | the new state is exactly TransOrphansFixed of the old; the split's account is then read back; accounts with a commodity keep it |
| Scrub.Book.TransScrubSplits | libgnucash/engine/Scrub.c:795 | xaccTransScrubSplits (not part of this model) stood in for by SplitScrub on each split of the transaction |
| Scrub.Book.ScrubSplitsIn | libgnucash/engine/Scrub.c:226-230 | every listed split that had a transaction and an account is SplitScrubbed: its value made valid (a valid value stays), its amount made valid or replaced by the value, and exactly ScrubNumbers of its old numbers when its account had a commodity; splits outside the list keep their numbers |
| Scrub.Book.ScrubStep | libgnucash/engine/Scrub.c:229 | one step of the split loop extends the SplitScrubbed prefix by one split |
| Scrub.ScrubbedExactlyStep | libgnucash/engine/Scrub.c:226-230 | one more xaccSplitScrub keeps every earlier split SplitScrubbed and makes the new one so, even when it is scrubbed a second time |
| Scrub.OrphanRepairKeepsCommodities | libgnucash/engine/Scrub.c:253-262 | the orphan repair keeps every existing account's commodity and SCU |
| Scrub.Book.AccountScrubSplits | libgnucash/engine/Scrub.c:221-232 | every split of the account that has a transaction ends SplitScrubbed (valid numbers; exactly ScrubNumbers of its old numbers when the account had a commodity); splits in other accounts keep their numbers; the depth is restored; with the abort flag set, nothing changes |
| Scrub.Book.TreeScrubSplits | libgnucash/engine/Scrub.c:211-219 | every split of the account and of its descendants ends with valid numbers |
| AccountLookup.MatchingIn | libgnucash/engine/Scrub.c:1456-1459 | the lookup returns exactly those of the given children that have the right type, an equivalent commodity if one is given and the right name if checked |
| AccountLookup.RootCurrency | libgnucash/engine/Scrub.c:446-469 | the root's commodity when it has one; otherwise a commodity is found only through a top-level INCOME account |
| Scrub.Book.FindRootCurrency | libgnucash/engine/Scrub.c:446-469 | the loop over the root's children computes RootCurrency |
| AccountLookup.FirstWithCommodity | libgnucash/engine/Scrub.c:1416-1431 | the first account of the list whose commodity is equivalent to the root currency, or none if there is none |
| Scrub.Book.FindRootCurrencyAccountInList | libgnucash/engine/Scrub.c:1416-1431 | the loop computes FirstWithCommodity |
| AccountLookup.FirstWithName | libgnucash/engine/Scrub.c:1433-1444 | the first account with exactly the name, or none if there is none |
| Scrub.Book.FindAccountMatchingNameInList | libgnucash/engine/Scrub.c:1433-1444 | the loop computes FirstWithName |
| AccountLookup.Construct | libgnucash/engine/Scrub.c:1396-1414 | one new account, with a fresh id and no children, is hung off `root` as its last child; the tree stays well formed; no other account changes |
| Scrub.Book.ConstructAccount | libgnucash/engine/Scrub.c:1396-1414 | the account map becomes Construct of the old one; the new id is the next free one |
| AccountLookup.Pick | libgnucash/engine/Scrub.c:1465-1475 | the account chosen is one of the lookup results |
| AccountLookup.PickPreference | libgnucash/engine/Scrub.c:1465-1475 | with several matches and no currency given, one in the root currency wins; otherwise an exact name match wins; otherwise the first |
| Scrub.Book.PickAccount | libgnucash/engine/Scrub.c:1465-1475 | the choice computes Pick |
| AccountLookup.GetOrMake | libgnucash/engine/Scrub.c:1446-1479 | the result is an account of the tree; the tree only grows |
| AccountLookup.GetOrMakeCreatesOnlyWhenMissing | libgnucash/engine/Scrub.c:1461-1463 | the tree changes if and only if the lookup found nothing; then by exactly one new child of `root`, which is returned; otherwise a found account is returned and nothing changes |
| AccountLookup.GetOrMakeMatches | libgnucash/engine/Scrub.c:1456-1463 | the account returned has the requested type, an equivalent commodity and, when checked, the name |
| AccountLookup.GetOrMakeIdempotent | libgnucash/engine/Scrub.c:1446-1479 | a second call with the same arguments returns the same account and changes nothing: no duplicate is made |
| AccountLookup.GetOrMakeGrows | libgnucash/engine/Scrub.c:1446-1479 | existing accounts keep their name, type and commodity; only `root` changes, by gaining a child |
| AccountLookup.GetOrMakeStable | libgnucash/engine/Scrub.c:1446-1479 | once an account is found, growing the tree elsewhere does not change the answer |
| Scrub.Book.GetOrMakeAccount | libgnucash/engine/Scrub.c:1446-1479 | the returned account, the new tree and the counter are exactly GetOrMake of the old state |
| CurrencyVote.SplitVote | libgnucash/engine/Scrub.c:1019-1032 | a split votes only for a currency, with weight 3 (its account's own commodity) or 1 (a currency found up the parent chain) |
| CurrencyVote.TallyCounts | libgnucash/engine/Scrub.c:1033-1045 | the tally lists each voted commodity exactly once, and nothing else, with count equal to its total weight |
| CurrencyVote.AddVoteStep | libgnucash/engine/Scrub.c:1033-1045 | one vote adds its weight to the commodity's entry, or appends a new entry for a new commodity |
| CurrencyVote.FirstLeast | libgnucash/engine/Scrub.c:967-985 | the head after a stable ascending sort by commodity_compare is the first entry of least count |
| CurrencyVote.VoteAsWrittenIsLeast | libgnucash/engine/Scrub.c:1046-1051 | the vote as written returns a currency of LEAST total weight (or none when no split votes) |
| CurrencyVote.VoteAsWrittenPicksMinority | libgnucash/engine/Scrub.c:967-985 | with USD voted twice and EUR once, the vote as written returns EUR; the most-common vote returns USD |
| CurrencyVote.VoteMostCommonIsGreatest | libgnucash/engine/Scrub.c:943-945 | the corrected vote returns a currency of greatest total weight, or none when no split votes |
| CurrencyVote.NarrowKeepsMatches | libgnucash/engine/Scrub.c:860-897 | one step of FindCommonExclSCurrency keeps only candidates equivalent to the split's legacy currency or commodity |
| CurrencyVote.NarrowAllAgrees | libgnucash/engine/Scrub.c:844-905 | the legacy intersection returns one of the two starting candidates, equivalent to a legacy currency or commodity of every split |
| CurrencyVote.OldCommonCurrency | libgnucash/engine/Scrub.c:917-942 | xaccTransFindOldCommonCurrency returns only a currency |
| CurrencyVote.LegacyPairsOfAccounts | libgnucash/engine/Scrub.c:853-863 | the legacy search, when it gives up on no split, reads one pair per split: the legacy currency and the commodity of that split's account |
| CurrencyVote.OldCommonCurrencyShared | libgnucash/engine/Scrub.c:837-942 | a currency xaccTransFindOldCommonCurrency returns is equivalent, for every split, to its account's legacy currency or commodity; every split has an account |
| CurrencyVote.CommonCurrency | libgnucash/engine/Scrub.c:995-1056 | none for no splits; otherwise, when any split votes, the winner of the corrected vote (see Findings: a currency of greatest weight, where the code as written picks least weight), else the legacy common currency |
| CurrencyScrub.FirstPosted | libgnucash/engine/Scrub.c:1093-1115 | the first split that has an account; none when every split is an orphan |
| CurrencyScrub.MatchAmountsEffect | libgnucash/engine/Scrub.c:1122-1160 | each split whose account commodity is the found currency gets amount := value; every other split is unchanged |
| CurrencyScrub.MatchAmountsIdempotent | libgnucash/engine/Scrub.c:1122-1160 | a second alignment pass changes nothing |
| CurrencyScrub.ScrubCurrencySettles | libgnucash/engine/Scrub.c:1074-1083 | once a currency is found or already set, the transaction ends with a currency; scrubbing again changes nothing (the early return) |
| CurrencyScrub.ScrubCurrencyAligns | libgnucash/engine/Scrub.c:1077-1160 | without a currency, the common currency is set and the splits in it get amount equal to value; only amounts change |
| Scrub.Book.TransScrubCurrency | libgnucash/engine/Scrub.c:1060-1173 | orphans first (TransOrphansFixed), then ScrubCurrencyOf on the result: the new currency and splits are exactly those |
| Scrub.Book.ScrubCurrencyAfterOrphans | libgnucash/engine/Scrub.c:1074-1160 | the part after the orphan pass: the new currency and splits are ScrubCurrencyOf the old state |
| Scrub.Book.AlignAmounts | libgnucash/engine/Scrub.c:1122-1160 | the loop computes MatchAmounts over the whole split list |
| Scrub.Book.CurrencyOfFirstPosted | libgnucash/engine/Scrub.c:1084-1119 | with no common currency, the currency becomes the commodity of the first split with an account; with no such split, or an account without a commodity, nothing changes |
| Scrub.Book.SetTransCurrency | libgnucash/engine/Scrub.c:1080-1082 | a NULL commodity changes nothing; otherwise only the transaction's currency changes |
| CurrencyScrub.ScrubCurrencyOf | libgnucash/engine/Scrub.c:1074-1119 | the scrub keeps the split ids, and never clears a currency: a result that differs from the old currency is a commodity |
| Balance.NonTrading | libgnucash/engine/Scrub.c:630-639 | exactly the splits not in a TRADING account remain, in order |
| Scrub.Book.TradingSplitsOf | libgnucash/engine/Scrub.c:630-639 | collects exactly the transaction's splits in TRADING accounts, without repeats |
| Scrub.Book.DestroyEach | libgnucash/engine/Scrub.c:641-649 | exactly the listed splits leave the split map and the transaction's list; nothing else changes |
| Scrub.Book.DestroyOne | libgnucash/engine/Scrub.c:614-620 | one xaccSplitDestroy removes one split from the map and from its transaction |
| Scrub.Book.DestroySplit | libgnucash/engine/Scrub.c:614-620 | xaccSplitDestroy removes the split from the map and from its transaction's list |
| Balance.RemoveTrading | libgnucash/engine/Scrub.c:626-649 | removing the collected trading splits leaves exactly NonTrading |
| Scrub.Book.ClearTradingSplits | libgnucash/engine/Scrub.c:625-650 | exactly the splits in TRADING accounts are destroyed; the others remain, in order |
| Scrub.DestroyOk | libgnucash/engine/Scrub.c:614-620 | destroying a split keeps the book well formed |
| Balance.BalanceAccount | libgnucash/engine/Scrub.c:404-428 | the balancing account (the given one, or get-or-make `Imbalance-<mnemonic>`) is an account of the grown, well-formed tree whose commodity is equivalent to the currency |
| Balance.BalanceAccountIdempotent | libgnucash/engine/Scrub.c:404-428 | asking again gives the same account and adds nothing |
| Scrub.FindOrAdd | libgnucash/engine/Scrub.c:430-441 | reuses the transaction's first split in the account; only when there is none, appends one new zero split in that account; no other transaction changes |
| Scrub.FindOrAddIdempotent | libgnucash/engine/Scrub.c:430-441 | a second lookup finds the split the first one returned and adds nothing |
| Scrub.Book.SplitInAccount | libgnucash/engine/Scrub.c:430-441 | the new state is FindOrAdd of the old one |
| Scrub.Book.NewSplit | libgnucash/engine/Scrub.c:435-440 | one fresh zero split in the account is appended to the transaction |
| Scrub.Book.GetBalanceSplit | libgnucash/engine/Scrub.c:397-444 | the balancing account is BalanceAccount; the split is FindOrAdd in it |
| Scrub.Book.SetNumbers | libgnucash/engine/Scrub.c:558-570 | the split's amount and value are set as given and xaccSplitScrub runs: the split ends with exactly ScrubNumbers of them (the value as given, zero if invalid; the amount as given unless the account commodity is equivalent to the currency and it differs from the value at the scu, when it becomes the value); its account gets ScrubCommodity; nothing else changes |
| Scrub.Book.AddBalanceSplit | libgnucash/engine/Scrub.c:533-572 | the balancing split's value becomes old value − imbalance, rounded half away from zero at the currency fraction; its amount is set to that value when the account commodity is equivalent to the currency and kept otherwise, then xaccSplitScrub: the split is exactly ScrubNumbers of those numbers; only that split's numbers change |
| Balance.BalancingZeroesValue | libgnucash/engine/Scrub.c:553-562 | with values on the currency grid, the balancing step makes the value sum exactly zero, whether the split was reused or appended |
| Scrub.BalanceSplitZeroes | libgnucash/engine/Scrub.c:542-562 | the same for the split that FindOrAdd returns |
| Scrub.Book.BalanceNoTrading | libgnucash/engine/Scrub.c:575-589 | with values on the currency grid, the transaction's value sum ends at zero |
| Scrub.Book.ScrubAndClear | libgnucash/engine/Scrub.c:795-796 | xaccTransScrubSplits then xaccTransClearTradingSplits; values on the grid stay on the grid |
| Scrub.Book.TransScrubImbalance | libgnucash/engine/Scrub.c:782-835 | without trading accounts and with values on the currency grid, the value sum ends at zero; only transaction `t` changes, and never its currency |
| Balance.TradingAccount | libgnucash/engine/Scrub.c:484-514 | the `Trading/<namespace>/<mnemonic>` account has type TRADING and a commodity equivalent to the requested one; existing accounts keep name, type and commodity |
| Balance.TradingAccountIdempotent | libgnucash/engine/Scrub.c:484-514 | asking again for the same commodity gives the same account and adds nothing |
| Scrub.Book.GetTradingSplit | libgnucash/engine/Scrub.c:473-531 | the account is TradingAccount; the split is FindOrAdd in it |
| Ledger.AmountImbalance | libgnucash/engine/Scrub.c:660-665 | xaccTransGetImbalance (not part of this model) stood in for by the nonzero per-commodity amount sums |
| Scrub.Book.SetTradingNumbers | libgnucash/engine/Scrub.c:688-716 | new amount := old amount − imbalance at the commodity fraction; new value := that amount when the commodity is the currency, else old value − the commodity's value sum at the currency fraction; after xaccSplitScrub the value is the new value and the amount is exactly ScrubNumbers of the two (the new amount unless the account is equivalent to the currency and the two differ at the scu) |
| Scrub.Book.TradingStep | libgnucash/engine/Scrub.c:672-716 | one loop pass: the trading split from GetTradingSplit gets the value of SetTradingNumbers and an amount that is exactly ScrubNumbers of the new amount and value; only transaction `t` changes |
| Balance.BalancingZeroesAmount | libgnucash/engine/Scrub.c:690-695 | with amounts on the commodity grid, the step zeroes that commodity's amount sum, whether the split was reused or appended |
| Scrub.TradingSplitZeroes | libgnucash/engine/Scrub.c:679-695 | the same for the split that FindOrAdd returns |
| Scrub.TradingStepZeroes | libgnucash/engine/Scrub.c:672-716 | one pass zeroes the amount imbalance of its commodity |
| Scrub.Book.BalanceCommodity | libgnucash/engine/Scrub.c:672-716 | one pass of balance_trading: with amounts on the grid, the commodity's amount sum ends at zero |
| Scrub.Book.BalanceTrading | libgnucash/engine/Scrub.c:652-720 | with no imbalance, nothing changes; otherwise only transaction `t` changes, and never its currency |
| Balance.ValueReversedInPlace | libgnucash/engine/Scrub.c:759-763 | reducing an existing trading split's value by a split's value takes that value out of the sum |
| Balance.ValueReversedAppended | libgnucash/engine/Scrub.c:759-763 | the same for a newly appended trading split |
| Scrub.ReversingSplitMovesValue | libgnucash/engine/Scrub.c:750-763 | the same for the split that FindOrAdd returns |
| Scrub.Book.SetReversingValue | libgnucash/engine/Scrub.c:759-768 | value := old value − the reversed value at the currency fraction; then xaccSplitScrub, so the amount is exactly ScrubNumbers of the old amount and the new value (kept unless the account is equivalent to the currency and the two differ at the scu) |
| Scrub.Book.ReversingStep | libgnucash/engine/Scrub.c:744-768 | the trading split of the split's commodity gets its value reduced by the split's value, and its amount is exactly ScrubNumbers of its old amount and that value; only transaction `t` changes |
| Scrub.Book.ReverseValue | libgnucash/engine/Scrub.c:740-769 | with values on the grid, the step takes the split's value out of the value imbalance |
| Scrub.Book.BalanceTradingMoreSplits | libgnucash/engine/Scrub.c:727-774 | only transaction `t` changes, its currency is kept, and accounts are only added |
| Scrub.Book.BalanceWithTrading | libgnucash/engine/Scrub.c:812-834 | only transaction `t` changes, its currency is kept, and accounts are only added |
| Scrub.Book.ImbalancePass | libgnucash/engine/Scrub.c:368-387 | a split that is gone or has no parent is skipped and nothing changes; no transaction is added or removed |
| Scrub.Book.ImbalancePasses | libgnucash/engine/Scrub.c:366-392 | the loop logs a report before every tenth split; with the abort flag set, it stops at once and changes nothing |
| Scrub.Book.AccountScrubImbalance | libgnucash/engine/Scrub.c:349-395 | the progress log is the reports then "done"; the depth is restored; with abort, nothing else changes |
| Scrub.Book.TreeScrubImbalance | libgnucash/engine/Scrub.c:334-347 | the account, then each descendant; when aborted, the log gets an extra "done" and then one "done" per account, and nothing else changes |
| Scrub.Book.ImbalanceOfTree | libgnucash/engine/Scrub.c:343-345 | AccountScrubImbalance on the account, then on each descendant |
| Scrub.Book.ImbalanceOfEach | libgnucash/engine/Scrub.c:344-345 | one AccountScrubImbalance per listed account; when aborted, one "done" each |
| Scrub.Dones | libgnucash/engine/Scrub.c:393 | n final "done" reports |
| Cleanups.ScrubCommodity | libgnucash/engine/Scrub.c:1177-1206 | a non-root account without a commodity takes its legacy currency; otherwise nothing changes; only the commodity and its SCU are touched |
| Cleanups.ScrubCommodityIdempotent | libgnucash/engine/Scrub.c:1177-1206 | scrubbing twice is scrubbing once |
| Cleanups.DeleteOldData | libgnucash/engine/Scrub.c:1213-1224 | the legacy currency and the slots old-security, old-currency-scu and old-security-scu are gone; every other slot and field is kept |
| Scrub.Book.AccountCommodityCleanup | libgnucash/engine/Scrub.c:1233-1240 | the account becomes DeleteOldData(ScrubCommodity(account)); the depth is restored |
| Scrub.Book.CommodityCleanups | libgnucash/engine/Scrub.c:1249-1250 | exactly the listed accounts get the cleanup; the others are unchanged |
| Scrub.Book.CurrencyOfEach | libgnucash/engine/Scrub.c:1226-1231 | the book stays well formed; no transaction is added or removed, and accounts are only added |
| Scrub.Book.CurrencyOfTree | libgnucash/engine/Scrub.c:1247 | the book stays well formed; no transaction is added or removed, and accounts are only added |
| Scrub.Book.TreeScrubCommodities | libgnucash/engine/Scrub.c:1242-1252 | after the currency pass, exactly the account and its descendants get the commodity cleanup; each ends with no legacy currency |
| Cleanups.ScrubKvp | libgnucash/engine/Scrub.c:1323-1350 | drops "notes" exactly when it is a blank string, "placeholder" exactly when it is false, and "hbci" exactly when it is an empty frame; keeps every other slot |
| Cleanups.ScrubKvpIdempotent | libgnucash/engine/Scrub.c:1323-1350 | a second scrub changes nothing |
| Scrub.Book.AccountScrubKvp | libgnucash/engine/Scrub.c:1323-1350 | only the account's slots change, to ScrubKvp of the old slots |
| Cleanups.ScrubColor | libgnucash/engine/Scrub.c:1376-1379 | the colour "Not Set" becomes empty; any other colour, and every other field, is kept |
| Scrub.Book.ColorOfEach | libgnucash/engine/Scrub.c:1374-1380 | exactly the listed accounts get ScrubColor; none is left "Not Set" |
| Scrub.Book.ScrubColorNotSet | libgnucash/engine/Scrub.c:1354-1392 | runs once per book: when the run-once slot reads "true", nothing changes; otherwise every descendant of the root loses "Not Set" and the slot is set |
| Numeric.RoundError | libgnucash/engine/Scrub.c:558-560 | rounding at a fraction moves a value by at most half a unit of that fraction |
| Numeric.RoundOnGrid | libgnucash/engine/Scrub.c:558-560 | rounding a value already on the grid leaves it unchanged |
| Numeric.RoundIsOnGrid | libgnucash/engine/Scrub.c:558-560 | a rounded value lies on the grid |
| Numeric.SubOnGridExact | libgnucash/engine/Scrub.c:558-560 | the difference of two on-grid values needs no rounding |
| Commodities.EquivIsEquivalence | libgnucash/engine/Scrub.c:300 | commodity equivalence is an equivalence relation, and implied by equality |

## Left out

- NULL guards on the trans, split, account and book arguments are not modelled: an id that is not in its map is excluded by `requires`. Errors reached by `g_return_if_fail` are modelled only where the arguments can be reached (a transaction without common currency is a no-op for TransScrubOrphansFast).
- gnc_numeric's internal denominators, overflow and error codes other than "invalid" are not modelled: a number is an exact rational or invalid, and rounding is half away from zero at the requested fraction (0 means exact).
- `100 * current_split` in the progress percentage is a C `guint` product; its 32-bit wrap-around is not modelled, because split counts near 43 million per account are out of scope.
- Logging (PINFO, PWARN, PERR), translated account names (`_()`), memory management and the progress callback's I/O are left out; the progress callback is a log of reports.
- The abort flag's cross-thread nature is not modelled: it is a field, read by the loops at the points the source reads it.
- The quote-source migration (`check_quote_source`, `move_quote_source`, `xaccAccountTreeScrubQuoteSources`) is left out: it depends on the commodity table and the quote-source registry.
- `xaccTransScrubPostedDate` is left out: it is date-library conversion.
- The order of `xaccAccountGetSplitList` is not modelled: the list holds each split posted to the account once, in an unspecified order. The descendant list is taken once, as the source's foreach takes it.
- `xaccTransScrubSplits`, `xaccTransSetCurrency`, `gnc_account_lookup_by_type_and_commodity`, `gnc_account_get_currency_or_parent`, `xaccTransIsBalanced`, `xaccTransGetImbalance` and `xaccTransFindSplitByAccount` are not part of this model. Each is stood in for by a small definition (Scrub.Book.TransScrubSplits, Scrub.Book.SetTransCurrency, AccountLookup.Lookup, Ledger.CurrencyOrParent, Ledger.IsBalanced, Ledger.AmountImbalance, Ledger.FindSplitByAccount).
- Ledger.CurrencyOrParent and Ledger.RootOf walk the parent chain with a fuel bound equal to the number of accounts; a chain longer than that (a cycle) is not modelled.
- Scrub.Book.TreeScrubOrphans: the repair is stated per split reached (every transaction with a split in a visited account is repaired), not as one closed-form final state.
- Scrub.Book.TreeScrubSplits: the result is stated per split reached (valid numbers), not as one closed-form final state; the exact numbers are stated per account by Scrub.Book.AccountScrubSplits.
- Scrub.Book.ScrubSplitsIn: for a split whose account had no commodity when the pass started, the amount is stated only as made valid or replaced by the value, because which of the two depends on whether an earlier split's scrub gave that account a commodity; the same holds for Scrub.Book.AccountScrubSplits.
- AccountLookup.Lookup: searches only the direct children of the given root, in child order; the real gnc_account_lookup_by_type_and_commodity may search deeper or return its matches in another order, and AccountLookup.Pick's "first" depends on that order.
- Scrub.Book.SetTransCurrency: the real setter also re-rounds the split values when the currency's fraction changes; that is not modelled.
- Scrub.Book.TreeScrubImbalance: what the walk does to each transaction is stated per step (ImbalancePass and the balancing methods), not for the whole walk; the contract gives the frame, the progress log and the abort case.
- Scrub.Book.ImbalancePass: states the skip case and the frame; the orphan, currency and imbalance passes it runs are stated by their own methods.
- Scrub.Book.BalanceWithTrading: states only the frame; zero value and amount sums with trading accounts are proved for each commodity pass (Scrub.Book.BalanceCommodity) and each reversing step (Scrub.Book.ReverseValue), not for the whole trading path, whose later passes may touch splits an earlier pass balanced.
- Scrub.Book.BalanceTradingMoreSplits: states only the frame; each reversal it performs is stated by Scrub.Book.ReverseValue.
- Scrub.Book.CurrencyOfTree: states only the frame; the effect on each transaction is Scrub.Book.TransScrubCurrency's.
- Scrub.Book.TransScrubImbalance: the balanced result is stated for the path without trading accounts; the trading path is stated per step as above.
- Scrub.Book.ScrubColorNotSet: the run-once flag is stored as the string "true", which is how the KVP layer keeps the boolean TRUE the source sets; the colour is set to the empty string, and whether the account layer then drops the slot is not modelled.
- Scrub.Book.GetTradingSplit: `find_root_currency()` at the top of get_trading_split is computed and never used, so it is left out; the three get-or-make calls never fail in the model, so the error returns after them are unreachable.
- CurrencyVote.CommonCurrency: uses the corrected vote of the Findings table (greatest weight wins), not the code as written (least weight wins, CurrencyVote.VoteAsWrittenPicksMinority); CurrencyScrub.ScrubCurrencyOf, Scrub.Book.TransScrubCurrency, Scrub.Book.ScrubCurrencyAfterOrphans, Scrub.Book.CurrencyOfTree and Scrub.Book.ImbalancePass inherit the corrected vote.
- Scrub.Book.BalanceTrading: states only the frame, the kept currency and the no-imbalance case; what each commodity pass does is stated by Scrub.Book.BalanceCommodity (through Scrub.Book.TradingStep and Scrub.TradingStepZeroes), not for the whole loop, whose later passes may touch a trading split an earlier pass set.
- Scrub.Book.BalanceTradingMoreSplits: `xaccTransStillHasSplit` is modelled as membership in the transaction's current split list.
- Scrub.Book.ImbalancePass: a split destroyed by an earlier pass (a trading split cleared by xaccTransClearTradingSplits) is skipped; what the source does with such a split depends on split destruction, which is not part of this model, and is not verified here.
- Scrub.Book.CurrencyOfFirstPosted: a first posted split in an account without a commodity passes NULL to `xaccTransSetCurrency`, which returns at once on NULL, so the transaction keeps its currency; the model's Scrub.Book.SetTransCurrency does the same.
- Scrub.Book.CurrencyOfEach: states only the frame, and visits the transactions in no particular order where the source uses the engine's order; the effect on each transaction is Scrub.Book.TransScrubCurrency's.

## Findings

| source | as written | input that shows it | evidently intended | confidence | as-written member | corrected member |
|---|---|---|---|---|---|---|
| libgnucash/engine/Scrub.c:967-985 | `commodity_compare` orders counts ascending, so the head of the list sorted at line 1046 is a commodity of LEAST weight | three splits, two in USD accounts and one in a EUR account (USD weight 6, EUR weight 3): the transaction currency becomes EUR | the comments at lines 943-945 and 1008-1011 ask for the most common currency: USD | not executed | CurrencyVote.VoteAsWrittenPicksMinority | CurrencyVote.VoteMostCommonIsGreatest |
