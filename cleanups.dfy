/**
 * The per-account and per-split value repairs: the numbers xaccSplitScrub
 * writes, xaccAccountScrubCommodity, xaccAccountDeleteOldData,
 * xaccAccountScrubKvp and the colour fix of xaccAccountScrubColorNotSet.
 * Each is a function of one record; Scrub.Book applies them in place.
 */
module Cleanups {
  import opened Numeric
  import opened Commodities
  import opened Ledger

  /** The amount and value of a split after xaccSplitScrub. */
  datatype Numbers = Numbers(amount: Numeric, value: Numeric)

  /**
   * The numbers xaccSplitScrub leaves in a split that has an account:
   * invalid numbers become zero; then, only when the account commodity (as
   * read on entry) is present and equivalent to the transaction currency,
   * an amount that differs from the value at the precision `scu` is replaced
   * by the value.
   */
  function ScrubNumbers(amount: Numeric, value: Numeric, accCommodity: Option<Commodity>, currency: Option<Commodity>, scu: nat): (r: Numbers)
    ensures IsValid(r.amount) && IsValid(r.value)
    ensures r.value == if IsValid(value) then value else Zero()
    ensures accCommodity.Some? && Equiv(accCommodity, currency) ==> Same(r.amount, r.value, scu)
    ensures accCommodity.None? || !Equiv(accCommodity, currency) ==> r.amount == if IsValid(amount) then amount else Zero()
    ensures var amount' := if IsValid(amount) then amount else Zero();
            && (Same(amount', r.value, scu) ==> r.amount == amount')
            && (accCommodity.Some? && Equiv(accCommodity, currency) && !Same(amount', r.value, scu) ==> r.amount == r.value)
  {
    var value' := if IsValid(value) then value else Zero();
    var amount' := if IsValid(amount) then amount else Zero();
    if accCommodity.None? || !Equiv(accCommodity, currency) then Numbers(amount', value')
    else if Same(amount', value', scu) then Numbers(amount', value')
    else Numbers(value', value')
  }

  /** Scrubbing the numbers a second time changes nothing. */
  lemma ScrubNumbersIdempotent(amount: Numeric, value: Numeric, accCommodity: Option<Commodity>, currency: Option<Commodity>, scu: nat)
    ensures var r := ScrubNumbers(amount, value, accCommodity, currency, scu);
            ScrubNumbers(r.amount, r.value, accCommodity, currency, scu) == r
  {
  }

  /** Both numbers of the split are valid. */
  predicate NumbersValid(s: Split)
  {
    IsValid(s.amount) && IsValid(s.value)
  }

  /**
   * Between two states of the split map: no split appears or disappears,
   * each keeps its parent and any account it had, valid numbers stay valid
   * and a valid value stays as it was.
   */
  ghost predicate NumbersKept(before: Splits, after: Splits)
  {
    before.Keys == after.Keys &&
    forall s | s in before ::
      after[s].parent == before[s].parent &&
      (before[s].account.Some? ==> after[s].account == before[s].account) &&
      (NumbersValid(before[s]) ==> NumbersValid(after[s])) &&
      (IsValid(before[s].value) ==> after[s].value == before[s].value)
  }

  /** Every split other than `s` keeps its amount and value. */
  ghost predicate OthersNumbersKept(before: Splits, after: Splits, s: SplitId)
  {
    before.Keys <= after.Keys &&
    forall x | x in before && x != s :: after[x].amount == before[x].amount && after[x].value == before[x].value
  }

  /** Scrubbing the numbers of one split keeps NumbersKept and every other split's numbers. */
  lemma ScrubbedOneKept(before: Splits, s: SplitId, accCommodity: Option<Commodity>, currency: Option<Commodity>, scu: nat)
    requires s in before
    ensures var r := ScrubNumbers(before[s].amount, before[s].value, accCommodity, currency, scu);
            var after := before[s := before[s].(amount := r.amount, value := r.value)];
            NumbersKept(before, after) && OthersNumbersKept(before, after, s)
  {
  }

  lemma OthersNumbersKeptTransitive(a: Splits, b: Splits, c: Splits, s: SplitId)
    requires OthersNumbersKept(a, b, s) && OthersNumbersKept(b, c, s)
    ensures OthersNumbersKept(a, c, s)
  {
  }

  lemma NumbersKeptTransitive(a: Splits, b: Splits, c: Splits)
    requires NumbersKept(a, b) && NumbersKept(b, c)
    ensures NumbersKept(a, c)
  {
  }

  /**
   * Every split of `s0` that has a transaction and is posted to one of the
   * accounts `accs` has valid numbers in `splits`.
   */
  ghost predicate NumbersValidIn(s0: Splits, splits: Splits, accs: set<AccountId>)
  {
    forall s | s in s0 && s0[s].parent.Some? && s0[s].account.Some? && s0[s].account.value in accs ::
      s in splits && NumbersValid(splits[s])
  }

  lemma NumbersValidInKept(s0: Splits, before: Splits, after: Splits, accs: set<AccountId>)
    requires NumbersKept(before, after) && NumbersValidIn(s0, before, accs)
    ensures NumbersValidIn(s0, after, accs)
  {
  }

  /**
   * Every one of the first `i` splits of `list` that had a transaction and
   * an account in `s0` has valid numbers in `splits`.
   */
  ghost predicate ScrubbedUpTo(s0: Splits, splits: Splits, list: seq<SplitId>, i: nat)
  {
    i <= |list| && AllIn(list, s0) &&
    forall k | 0 <= k < i :: s0[list[k]].parent.Some? && s0[list[k]].account.Some? ==>
      list[k] in splits && NumbersValid(splits[list[k]])
  }

  lemma ScrubbedUpToKept(s0: Splits, before: Splits, after: Splits, list: seq<SplitId>, i: nat)
    requires NumbersKept(before, after) && ScrubbedUpTo(s0, before, list, i)
    ensures ScrubbedUpTo(s0, after, list, i)
  {
  }

  /** MIN(xaccAccountGetCommoditySCU(account), gnc_commodity_get_fraction(currency)) */
  function SplitScu(acct: Account, currency: Option<Commodity>): (r: nat)
    ensures r <= AccountSCU(acct) && r <= Fraction(currency)
    ensures r == AccountSCU(acct) || r == Fraction(currency)
  {
    if AccountSCU(acct) < Fraction(currency) then AccountSCU(acct) else Fraction(currency)
  }

  /** xaccAccountSetCommodity: the commodity and its fraction as the account's SCU */
  function SetCommodity(a: Account, c: Commodity): (r: Account)
    ensures r.commodity == Some(c) && AccountSCU(r) == c.fraction
  {
    a.(commodity := Some(c), commoditySCU := c.fraction, nonStandardSCU := false)
  }

  /**
   * xaccAccountScrubCommodity: a non-ROOT account without a commodity takes
   * its legacy currency, if it has one.
   */
  function ScrubCommodity(a: Account): (r: Account)
    ensures r.commodity == if a.kind != Root && a.commodity.None? then a.oldCurrency else a.commodity
    ensures r.commodity == a.commodity ==> r == a
    ensures r.(commodity := a.commodity, commoditySCU := a.commoditySCU, nonStandardSCU := a.nonStandardSCU) == a
  {
    if a.kind == Root || a.commodity.Some? then a
    else if a.oldCurrency.Some? then SetCommodity(a, a.oldCurrency.value)
    else a
  }

  /** Scrubbing the commodity a second time changes nothing. */
  lemma ScrubCommodityIdempotent(a: Account)
    ensures ScrubCommodity(ScrubCommodity(a)) == ScrubCommodity(a)
  {
  }

  /** The obsolete slots xaccAccountDeleteOldData removes besides "old-currency". */
  const OldDataKeys: set<string> := {"old-security", "old-currency-scu", "old-security-scu"}

  /**
   * xaccAccountDeleteOldData: the legacy currency ("old-currency", held in
   * `oldCurrency`) and the slots "old-security", "old-currency-scu" and
   * "old-security-scu" are removed; every other slot and field is kept.
   */
  function DeleteOldData(a: Account): (r: Account)
    ensures r.oldCurrency.None?
    ensures "old-security" !in r.slots && "old-currency-scu" !in r.slots && "old-security-scu" !in r.slots
    ensures forall k | k in a.slots && k !in OldDataKeys :: k in r.slots && r.slots[k] == a.slots[k]
    ensures forall k | k in r.slots :: k in a.slots
    ensures r.(oldCurrency := a.oldCurrency, slots := a.slots) == a
  {
    a.(oldCurrency := None, slots := a.slots - OldDataKeys)
  }

  /** g_ascii_isspace */
  predicate IsSpace(ch: char)
  {
    ch == ' ' || ch == '\t' || ch == '\n' || ch == '\r' || ch == '\U{0C}' || ch == '\U{0B}'
  }

  /** g_strstrip of the string leaves the empty string. */
  predicate Blank(s: string)
  {
    forall i | 0 <= i < |s| :: IsSpace(s[i])
  }

  /** A "notes" slot holding only white space */
  predicate BlankNotes(v: KvpValue)
  {
    v.KString? && Blank(v.s)
  }

  /** A "placeholder" slot saying false, as a string or as a boolean */
  predicate FalsePlaceholder(v: KvpValue)
  {
    v == KString("false") || v == KBool(false)
  }

  /** qof_instance_slot_delete_if_empty: an empty frame */
  predicate EmptyFrame(v: KvpValue)
  {
    v.KFrame? && v.slots == map[]
  }

  /** Delete slot `key` when `drop` holds of its value. */
  function DropIf(slots: map<string, KvpValue>, key: string, drop: bool): (r: map<string, KvpValue>)
    ensures drop ==> r == slots - {key}
    ensures !drop ==> r == slots
  {
    if drop then slots - {key} else slots
  }

  /**
   * xaccAccountScrubKvp: a blank "notes" slot, a false "placeholder" slot
   * and an empty "hbci" frame are deleted.
   */
  function ScrubKvp(slots: map<string, KvpValue>): (r: map<string, KvpValue>)
    ensures forall k | k in r :: k in slots && r[k] == slots[k]
    ensures forall k | k in slots && k != "notes" && k != "placeholder" && k != "hbci" :: k in r
    ensures "notes" in slots ==> ("notes" !in r <==> BlankNotes(slots["notes"]))
    ensures "placeholder" in slots ==> ("placeholder" !in r <==> FalsePlaceholder(slots["placeholder"]))
    ensures "hbci" in slots ==> ("hbci" !in r <==> EmptyFrame(slots["hbci"]))
  {
    var s1 := DropIf(slots, "notes", "notes" in slots && BlankNotes(slots["notes"]));
    var s2 := DropIf(s1, "placeholder", "placeholder" in s1 && FalsePlaceholder(s1["placeholder"]));
    DropIf(s2, "hbci", "hbci" in s2 && EmptyFrame(s2["hbci"]))
  }

  /** Scrubbing the slots a second time changes nothing. */
  lemma ScrubKvpIdempotent(slots: map<string, KvpValue>)
    ensures ScrubKvp(ScrubKvp(slots)) == ScrubKvp(slots)
  {
    var r := ScrubKvp(slots);
    var r2 := ScrubKvp(r);
    assert forall k | k in r :: k in r2;
  }

  /** The colour fix: "Not Set" becomes the empty colour, anything else stays. */
  function ScrubColor(a: Account): (r: Account)
    ensures r.color != Some("Not Set")
    ensures a.color != Some("Not Set") ==> r == a
    ensures r.(color := a.color) == a
  {
    if a.color == Some("Not Set") then a.(color := Some("")) else a
  }
}
