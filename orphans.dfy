/**
 * Orphan repair (TransScrubOrphansFast, xaccTransScrubOrphans and the
 * per-account walker xaccAccountScrubOrphans) stated on values: the account
 * map, the next free account identifier and the split map before and after.
 * Scrub.Book's methods are proved equal to these functions.
 */
module Orphans {
  import opened Commodities
  import opened Ledger
  import opened AccountLookup

  /** Some split of the list has no account. */
  predicate HasOrphan(splits: Splits, ids: seq<SplitId>)
    requires AllIn(ids, splits)
  {
    exists i | 0 <= i < |ids| :: splits[ids[i]].account.None?
  }

  /** The name of the bucket for orphans in `currency`: "Orphan-" and its mnemonic. */
  function OrphanName(currency: Option<Commodity>): string { "Orphan-" + Mnemonic(currency) }

  /** Only split accounts were filled in: every other field, and every account already set, is kept. */
  ghost predicate OnlyAccountsFilled(before: Splits, after: Splits)
  {
    before.Keys == after.Keys &&
    forall s | s in before ::
      after[s] == before[s].(account := after[s].account) &&
      (before[s].account.Some? ==> after[s].account == before[s].account)
  }

  /** The accounts, the next free account identifier and the splits. */
  datatype Fix = Fix(accounts: Accounts, next: nat, splits: Splits)

  /** Every split of `ids` without an account is posted to `a`; nothing else changes. */
  function FillOrphans(splits: Splits, ids: seq<SplitId>, a: AccountId): (r: Splits)
    requires AllIn(ids, splits)
    ensures AllIn(ids, r) && !HasOrphan(r, ids)
    ensures OnlyAccountsFilled(splits, r)
    ensures forall s | s in splits && s !in ids :: r[s] == splits[s]
    ensures forall i | 0 <= i < |ids| :: splits[ids[i]].account.None? ==> r[ids[i]].account == Some(a)
  {
    map s | s in splits :: if s in ids && splits[s].account.None? then splits[s].(account := Some(a)) else splits[s]
  }

  /**
   * TransScrubOrphansFast(trans, root) when the abort flag is clear: when the
   * transaction has a currency and an orphan split, every orphan is posted to
   * the account get-or-make returns for "Orphan-<mnemonic>", type BANK, in
   * that currency, under `root`.  The bucket is looked up once per orphan,
   * and after the first lookup it always finds the same account.
   */
  function OrphansFixed(accts: Accounts, next: nat, splits: Splits, ids: seq<SplitId>, cur: Option<Commodity>,
                        root: AccountId, bookRoot: AccountId): (f: Fix)
    requires TreeOk(accts, next) && bookRoot in accts && root in accts && AllIn(ids, splits)
    ensures TreeOk(f.accounts, f.next) && accts.Keys <= f.accounts.Keys && f.splits.Keys == splits.Keys
  {
    if cur.None? || !HasOrphan(splits, ids) then Fix(accts, next, splits)
    else
      var g := GetOrMake(accts, next, bookRoot, root, cur, OrphanName(cur), Bank, false, true);
      Fix(g.1, g.2, FillOrphans(splits, ids, g.0))
  }

  /**
   * The repair leaves no orphan in a transaction that has a currency, only
   * fills in missing accounts, touches no split outside the transaction, and
   * changes nothing at all when there is no currency or no orphan.
   */
  lemma OrphansFixedRepairs(accts: Accounts, next: nat, splits: Splits, ids: seq<SplitId>, cur: Option<Commodity>,
                            root: AccountId, bookRoot: AccountId)
    requires TreeOk(accts, next) && bookRoot in accts && root in accts && AllIn(ids, splits)
    ensures var f := OrphansFixed(accts, next, splits, ids, cur, root, bookRoot);
            && OnlyAccountsFilled(splits, f.splits)
            && (forall s | s in splits && s !in ids :: f.splits[s] == splits[s])
            && (cur.Some? ==> !HasOrphan(f.splits, ids))
            && (cur.None? || !HasOrphan(splits, ids) ==> f == Fix(accts, next, splits))
  {
  }

  /**
   * Every orphan ends up in an account of type BANK named
   * "Orphan-<mnemonic>" whose commodity is equivalent to the currency.
   */
  lemma OrphansFixedBucket(accts: Accounts, next: nat, splits: Splits, ids: seq<SplitId>, cur: Option<Commodity>,
                           root: AccountId, bookRoot: AccountId)
    requires TreeOk(accts, next) && bookRoot in accts && root in accts && AllIn(ids, splits)
    ensures var f := OrphansFixed(accts, next, splits, ids, cur, root, bookRoot);
            forall i | 0 <= i < |ids| && splits[ids[i]].account.None? && cur.Some? ::
              var a := f.splits[ids[i]].account.value;
              a in f.accounts && f.accounts[a].kind == Bank && f.accounts[a].name == OrphanName(cur) &&
              Equiv(f.accounts[a].commodity, cur)
  {
    if cur.Some? && HasOrphan(splits, ids) {
      GetOrMakeMatches(accts, next, bookRoot, root, cur, OrphanName(cur), Bank, false, true);
    }
  }

  /**
   * xaccTransScrubOrphans on a transaction with split list `ids` and
   * currency `cur`: the orphans go under the root OrphanRoot picks, and
   * nothing happens while the abort flag is set.
   */
  function TransOrphansFixed(accts: Accounts, next: nat, splits: Splits, ids: seq<SplitId>, cur: Option<Commodity>,
                             bookRoot: AccountId, abort: bool): (f: Fix)
    requires TreeOk(accts, next) && bookRoot in accts && AllIn(ids, splits)
    requires forall i | 0 <= i < |ids| :: splits[ids[i]].account.Some? ==> splits[ids[i]].account.value in accts
    ensures TreeOk(f.accounts, f.next) && accts.Keys <= f.accounts.Keys && f.splits.Keys == splits.Keys
    ensures OnlyAccountsFilled(splits, f.splits)
    ensures !abort && cur.Some? ==> !HasOrphan(f.splits, ids)
    ensures abort ==> f == Fix(accts, next, splits)
  {
    if abort then Fix(accts, next, splits)
    else
      var r := OrphanRoot(accts, splits, ids, bookRoot);
      OrphansFixedRepairs(accts, next, splits, ids, cur, r, bookRoot);
      OrphansFixed(accts, next, splits, ids, cur, r, bookRoot)
  }

  /**
   * The root xaccTransScrubOrphans hands to TransScrubOrphansFast: that of
   * the account of the first split that has one, or the book's root when no
   * split has an account.
   */
  function OrphanRoot(accts: Accounts, splits: Splits, ids: seq<SplitId>, bookRoot: AccountId): (r: AccountId)
    requires AccountsClosed(accts) && bookRoot in accts && AllIn(ids, splits)
    requires forall i | 0 <= i < |ids| :: splits[ids[i]].account.Some? ==> splits[ids[i]].account.value in accts
    ensures r in accts
    ensures (forall i | 0 <= i < |ids| :: splits[ids[i]].account.None?) ==> r == bookRoot
  {
    if ids == [] then bookRoot
    else if splits[ids[0]].account.Some? then RootOf(accts, splits[ids[0]].account.value)
    else OrphanRoot(accts, splits, ids[1..], bookRoot)
  }

  /** Growing the list by one split: an orphan is found in the prefix or in that split. */
  lemma HasOrphanSnoc(splits: Splits, ids: seq<SplitId>, x: SplitId)
    requires AllIn(ids, splits) && x in splits
    ensures HasOrphan(splits, ids + [x]) <==> HasOrphan(splits, ids) || splits[x].account.None?
  {
    if HasOrphan(splits, ids) {
      var i :| 0 <= i < |ids| && splits[ids[i]].account.None?;
      assert (ids + [x])[i] == ids[i];
    }
    if splits[x].account.None? {
      assert (ids + [x])[|ids|] == x;
    }
    if HasOrphan(splits, ids + [x]) {
      var i :| 0 <= i < |ids| + 1 && splits[(ids + [x])[i]].account.None?;
      if i < |ids| { assert (ids + [x])[i] == ids[i]; }
    }
  }

  /** Filling one more split: only that split, and only when it is an orphan, changes. */
  lemma FillOrphansSnoc(splits: Splits, ids: seq<SplitId>, x: SplitId, a: AccountId)
    requires AllIn(ids, splits) && x in splits && x !in ids
    ensures FillOrphans(splits, ids + [x], a) ==
            if splits[x].account.None? then FillOrphans(splits, ids, a)[x := splits[x].(account := Some(a))]
            else FillOrphans(splits, ids, a)
  {
    var r1 := FillOrphans(splits, ids + [x], a);
    var r0 := FillOrphans(splits, ids, a);
    var r2 := if splits[x].account.None? then r0[x := splits[x].(account := Some(a))] else r0;
    forall s | s in splits ensures r1[s] == r2[s] {
      assert s in ids + [x] <==> s in ids || s == x;
    }
    assert r1.Keys == r2.Keys;
  }

  /**
   * The state TransScrubOrphansFast has reached once it has visited the
   * first `i` splits of `ids`, where `g` is what get-or-make gives for the
   * bucket on entry: nothing has changed until the first orphan, and from
   * then on the bucket exists and every orphan visited is posted to it.
   */
  function FixedSoFar(accts: Accounts, next: nat, splits: Splits, ids: seq<SplitId>, i: nat, g: (AccountId, Accounts, nat)): Fix
    requires AllIn(ids, splits) && i <= |ids|
  {
    var done := ids[..i];
    if HasOrphan(splits, done) then Fix(g.1, g.2, FillOrphans(splits, done, g.0)) else Fix(accts, next, splits)
  }

  /** Having visited every split of the list, the repair is complete; before the first visit nothing has changed. */
  lemma FixedSoFarComplete(accts: Accounts, next: nat, splits: Splits, ids: seq<SplitId>, cur: Option<Commodity>,
                           root: AccountId, bookRoot: AccountId)
    requires TreeOk(accts, next) && bookRoot in accts && root in accts && AllIn(ids, splits) && cur.Some?
    ensures var g := GetOrMake(accts, next, bookRoot, root, cur, OrphanName(cur), Bank, false, true);
            && OrphansFixed(accts, next, splits, ids, cur, root, bookRoot) == FixedSoFar(accts, next, splits, ids, |ids|, g)
            && FixedSoFar(accts, next, splits, ids, 0, g) == Fix(accts, next, splits)
  {
    TakeAll(ids);
  }

  /**
   * Visiting one more split: a split with an account is passed over; for an
   * orphan, get-or-make asked again in the state reached so far gives the
   * same bucket and changes nothing, and the orphan is posted to it.
   */
  lemma FixedSoFarSnoc(accts: Accounts, next: nat, splits: Splits, ids: seq<SplitId>, i: nat,
                       cur: Option<Commodity>, root: AccountId, bookRoot: AccountId)
    requires TreeOk(accts, next) && bookRoot in accts && root in accts && AllIn(ids, splits)
    requires i < |ids| && Distinct(ids)
    ensures var g := GetOrMake(accts, next, bookRoot, root, cur, OrphanName(cur), Bank, false, true);
            var f := FixedSoFar(accts, next, splits, ids, i, g);
            var x := ids[i];
            && x in f.splits && f.splits[x] == splits[x]
            && (splits[x].account.Some? ==> FixedSoFar(accts, next, splits, ids, i + 1, g) == f)
            && (splits[x].account.None? ==>
                  && GetOrMake(f.accounts, f.next, bookRoot, root, cur, OrphanName(cur), Bank, false, true) == g
                  && FixedSoFar(accts, next, splits, ids, i + 1, g) == Fix(g.1, g.2, f.splits[x := f.splits[x].(account := Some(g.0))]))
  {
    var g := GetOrMake(accts, next, bookRoot, root, cur, OrphanName(cur), Bank, false, true);
    var done, x := ids[..i], ids[i];
    TakeSnoc(ids, i);
    assert x !in done;
    HasOrphanSnoc(splits, done, x);
    FillOrphansSnoc(splits, done, x, g.0);
    if splits[x].account.None? {
      if HasOrphan(splits, done) {
        GetOrMakeIdempotent(accts, next, bookRoot, root, cur, OrphanName(cur), Bank, false, true);
      } else {
        assert FillOrphans(splits, done, g.0) == splits by {
          forall s | s in splits ensures FillOrphans(splits, done, g.0)[s] == splits[s] {
            if s in done {
              var k :| 0 <= k < |done| && done[k] == s;
            }
          }
        }
      }
    }
  }

  /** Repairing the orphans of a transaction a second time changes nothing. */
  lemma OrphansFixedIdempotent(accts: Accounts, next: nat, splits: Splits, ids: seq<SplitId>, cur: Option<Commodity>,
                               root: AccountId, bookRoot: AccountId)
    requires TreeOk(accts, next) && bookRoot in accts && root in accts && AllIn(ids, splits)
    ensures var f := OrphansFixed(accts, next, splits, ids, cur, root, bookRoot);
            OrphansFixed(f.accounts, f.next, f.splits, ids, cur, root, bookRoot) == f
  {
  }

  /** Filling in accounts never creates an orphan: a list without orphans stays so. */
  lemma FilledKeepsNoOrphan(before: Splits, after: Splits, ids: seq<SplitId>)
    requires OnlyAccountsFilled(before, after) && AllIn(ids, before) && !HasOrphan(before, ids)
    ensures AllIn(ids, after) && !HasOrphan(after, ids)
  {
    forall i | 0 <= i < |ids| ensures after[ids[i]].account.Some? {
      assert before[ids[i]].account.Some?;
    }
  }

  lemma FilledTransitive(a: Splits, b: Splits, c: Splits)
    requires OnlyAccountsFilled(a, b) && OnlyAccountsFilled(b, c)
    ensures OnlyAccountsFilled(a, c)
  {
  }

  /** The parent transaction of a split, if it is one of the book's. */
  function ParentOf(splits: Splits, trans: Transactions, s: SplitId): (r: Option<TransId>)
    requires s in splits
    ensures r.Some? ==> r.value in trans && r == splits[s].parent
  {
    if splits[s].parent.Some? && splits[s].parent.value in trans then splits[s].parent else None
  }

  /** Transaction `t`, when it exists and has a currency, has no orphan split. */
  ghost predicate Repaired(splits: Splits, trans: Transactions, t: Option<TransId>)
  {
    t.Some? && t.value in trans && trans[t.value].currency.Some? && AllIn(trans[t.value].splits, splits) ==>
      !HasOrphan(splits, trans[t.value].splits)
  }

  /** Filling in accounts keeps a repaired transaction repaired. */
  lemma FilledKeepsRepaired(before: Splits, after: Splits, trans: Transactions, t: Option<TransId>)
    requires OnlyAccountsFilled(before, after) && Repaired(before, trans, t)
    ensures Repaired(after, trans, t)
  {
    if t.Some? && t.value in trans && trans[t.value].currency.Some? && AllIn(trans[t.value].splits, after) {
      FilledKeepsNoOrphan(before, after, trans[t.value].splits);
    }
  }

  /**
   * The transactions of the first `i` splits of `list`, as they were in
   * `s0`, are all repaired in `splits`.
   */
  ghost predicate RepairedUpTo(splits: Splits, trans: Transactions, s0: Splits, list: seq<SplitId>, i: nat)
  {
    i <= |list| && AllIn(list, s0) && forall k | 0 <= k < i :: Repaired(splits, trans, ParentOf(s0, trans, list[k]))
  }

  /** Filling in accounts keeps the repaired prefix repaired. */
  lemma FilledKeepsRepairedUpTo(before: Splits, after: Splits, trans: Transactions, s0: Splits, list: seq<SplitId>, i: nat)
    requires OnlyAccountsFilled(before, after) && RepairedUpTo(before, trans, s0, list, i)
    ensures RepairedUpTo(after, trans, s0, list, i)
  {
    forall k | 0 <= k < i ensures Repaired(after, trans, ParentOf(s0, trans, list[k])) {
      FilledKeepsRepaired(before, after, trans, ParentOf(s0, trans, list[k]));
    }
  }

  /**
   * The transaction of every split of `s0` posted to one of the accounts
   * `accs` is repaired in `splits`.
   */
  ghost predicate RepairedIn(s0: Splits, splits: Splits, trans: Transactions, accs: set<AccountId>)
  {
    forall s | s in s0 && s0[s].account.Some? && s0[s].account.value in accs :: Repaired(splits, trans, ParentOf(s0, trans, s))
  }

  /** Filling in accounts keeps repaired transactions repaired. */
  lemma FilledKeepsRepairedIn(s0: Splits, before: Splits, after: Splits, trans: Transactions, accs: set<AccountId>)
    requires OnlyAccountsFilled(before, after) && RepairedIn(s0, before, trans, accs)
    ensures RepairedIn(s0, after, trans, accs)
  {
    forall s | s in s0 && s0[s].account.Some? && s0[s].account.value in accs
      ensures Repaired(after, trans, ParentOf(s0, trans, s))
    {
      FilledKeepsRepaired(before, after, trans, ParentOf(s0, trans, s));
    }
  }

  /**
   * What was repaired for the splits of an intermediate state `s1` holds
   * for the splits of an earlier state `s0`: filling in accounts keeps
   * their accounts and parents.
   */
  lemma RepairedInRebase(s0: Splits, s1: Splits, s2: Splits, trans: Transactions, accs: set<AccountId>)
    requires OnlyAccountsFilled(s0, s1) && RepairedIn(s1, s2, trans, accs)
    ensures RepairedIn(s0, s2, trans, accs)
  {
    forall s | s in s0 && s0[s].account.Some? && s0[s].account.value in accs
      ensures Repaired(s2, trans, ParentOf(s0, trans, s))
    {
      assert s1[s] == s0[s].(account := s1[s].account);
    }
  }
}
