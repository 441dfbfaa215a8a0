/**
 * Get-or-make of the scrubber's bucket accounts (Orphan-XXX, Imbalance-XXX,
 * Trading/<namespace>/<mnemonic>): xaccScrubUtilityGetOrMakeAccount,
 * construct_account, find_root_currency and the two list finders, stated as
 * functions of the account map.  The methods of Scrub.Book that change the
 * tree are proved equal to these functions.
 */
module AccountLookup {
  import opened Commodities
  import opened Ledger

  /** What gnc_account_lookup_by_type_and_commodity tests of one account. */
  predicate Matches(a: Account, name: Option<string>, kind: AccountType, com: Option<Commodity>)
  {
    a.kind == kind && (com.None? || Equiv(a.commodity, com)) && (name.None? || a.name == name.value)
  }

  /** The accounts of `cs` that match, in order. */
  function MatchingIn(accts: Accounts, cs: seq<AccountId>, name: Option<string>, kind: AccountType, com: Option<Commodity>): (r: seq<AccountId>)
    requires AllIn(cs, accts)
    ensures AllIn(r, accts)
    ensures forall i | 0 <= i < |r| :: r[i] in cs && Matches(accts[r[i]], name, kind, com)
    ensures forall i | 0 <= i < |cs| :: Matches(accts[cs[i]], name, kind, com) ==> cs[i] in r
  {
    if cs == [] then []
    else (if Matches(accts[cs[0]], name, kind, com) then [cs[0]] else []) + MatchingIn(accts, cs[1..], name, kind, com)
  }

  /**
   * gnc_account_lookup_by_type_and_commodity(root, name, kind, com): the
   * children of `root` of that type, with an equivalent commodity when one
   * is given and with that name when one is given.
   */
  function Lookup(accts: Accounts, root: AccountId, name: Option<string>, kind: AccountType, com: Option<Commodity>): (r: seq<AccountId>)
    requires AccountsClosed(accts) && root in accts
    ensures AllIn(r, accts)
  {
    MatchingIn(accts, accts[root].children, name, kind, com)
  }

  /** The commodity of the first account of `cs` that is an INCOME account with a commodity. */
  function FirstIncomeCommodity(accts: Accounts, cs: seq<AccountId>): (r: Option<Commodity>)
    requires AllIn(cs, accts)
    ensures r.Some? ==> exists i | 0 <= i < |cs| :: accts[cs[i]].kind == Income && accts[cs[i]].commodity == r
    ensures r.None? ==> forall i | 0 <= i < |cs| :: accts[cs[i]].kind == Income ==> accts[cs[i]].commodity.None?
  {
    if cs == [] then None
    else if accts[cs[0]].kind == Income && accts[cs[0]].commodity.Some? then accts[cs[0]].commodity
    else
      var r := FirstIncomeCommodity(accts, cs[1..]);
      assert forall i | 1 <= i < |cs| :: cs[i] == cs[1..][i - 1];
      r
  }

  /**
   * find_root_currency: the book root's commodity, or, in older books without
   * one, that of the first top-level INCOME account that has one.
   */
  function RootCurrency(accts: Accounts, bookRoot: AccountId): (r: Option<Commodity>)
    requires AccountsClosed(accts) && bookRoot in accts
    ensures accts[bookRoot].commodity.Some? ==> r == accts[bookRoot].commodity
    ensures r.Some? && accts[bookRoot].commodity.None? ==>
      exists i | 0 <= i < |accts[bookRoot].children| :: accts[accts[bookRoot].children[i]].kind == Income
  {
    if accts[bookRoot].commodity.Some? then accts[bookRoot].commodity
    else FirstIncomeCommodity(accts, accts[bookRoot].children)
  }

  /** find_root_currency_account_in_list: the first account whose commodity is equivalent to `rc`. */
  function FirstWithCommodity(accts: Accounts, list: seq<AccountId>, rc: Option<Commodity>): (r: Option<AccountId>)
    requires AllIn(list, accts)
    ensures r.Some? ==> r.value in list && Equiv(accts[r.value].commodity, rc)
    ensures r.None? ==> forall i | 0 <= i < |list| :: !Equiv(accts[list[i]].commodity, rc)
  {
    if list == [] then None
    else if Equiv(accts[list[0]].commodity, rc) then Some(list[0])
    else FirstWithCommodity(accts, list[1..], rc)
  }

  /** find_account_matching_name_in_list: the first account called `name`. */
  function FirstWithName(accts: Accounts, list: seq<AccountId>, name: string): (r: Option<AccountId>)
    requires AllIn(list, accts)
    ensures r.Some? ==> r.value in list && accts[r.value].name == name
    ensures r.None? ==> forall i | 0 <= i < |list| :: accts[list[i]].name != name
  {
    if list == [] then None
    else if accts[list[0]].name == name then Some(list[0])
    else FirstWithName(accts, list[1..], name)
  }

  /** The account map is closed and every identifier in it is below `next`. */
  ghost predicate TreeOk(accts: Accounts, next: nat)
  {
    AccountsClosed(accts) && forall a | a in accts :: a < next
  }

  /**
   * construct_account: a new account `next` under `root` with the given
   * name, type and placeholder flag, in `currency`, or in the root currency
   * when no currency is given.
   */
  function Construct(accts: Accounts, next: nat, bookRoot: AccountId, root: AccountId, currency: Option<Commodity>,
                     name: string, kind: AccountType, placeholder: bool): (r: Accounts)
    requires TreeOk(accts, next) && bookRoot in accts && root in accts
    ensures TreeOk(r, next + 1) && r.Keys == accts.Keys + {next}
    ensures r[next].parent == Some(root) && r[next].children == []
    ensures r[root].children == accts[root].children + [next]
    ensures forall a | a in accts && a != root :: r[a] == accts[a]
    ensures r[root] == accts[root].(children := accts[root].children + [next])
  {
    var com := if currency.Some? then currency else RootCurrency(accts, bookRoot);
    var acc := Account(name, kind, com, Fraction(com), false, None, placeholder, Some(root), [], map[], None);
    var rootAcc := accts[root].(children := accts[root].children + [next]);
    accts[root := rootAcc][next := acc]
  }

  /** The account xaccScrubUtilityGetOrMakeAccount picks among several lookup results. */
  function Pick(accts: Accounts, bookRoot: AccountId, list: seq<AccountId>, currency: Option<Commodity>, name: string): (r: AccountId)
    requires AccountsClosed(accts) && bookRoot in accts && AllIn(list, accts) && list != []
    ensures r in list
  {
    var byCurrency := if |list| > 1 && currency.None? then FirstWithCommodity(accts, list, RootCurrency(accts, bookRoot)) else None;
    var byName := if |list| > 1 && byCurrency.None? then FirstWithName(accts, list, name) else None;
    if byCurrency.Some? then byCurrency.value
    else if byName.Some? then byName.value
    else list[0]
  }

  /**
   * xaccScrubUtilityGetOrMakeAccount(root, currency, name, kind, placeholder,
   * checkName): the account it returns, the account map afterwards, and the
   * next free identifier.
   */
  function GetOrMake(accts: Accounts, next: nat, bookRoot: AccountId, root: AccountId, currency: Option<Commodity>,
                     name: string, kind: AccountType, placeholder: bool, checkName: bool): (r: (AccountId, Accounts, nat))
    requires TreeOk(accts, next) && bookRoot in accts && root in accts
    ensures TreeOk(r.1, r.2) && r.0 in r.1 && accts.Keys <= r.1.Keys
  {
    var list := Lookup(accts, root, if checkName then Some(name) else None, kind, currency);
    if list == [] then (next, Construct(accts, next, bookRoot, root, currency, name, kind, placeholder), next + 1)
    else (Pick(accts, bookRoot, list, currency, name), accts, next)
  }

  /**
   * The tree grows only when the lookup finds nothing: then by exactly one
   * new child of `root`, which is the account returned.  Otherwise the map is
   * unchanged and the account returned is one the lookup found.
   */
  lemma GetOrMakeCreatesOnlyWhenMissing(accts: Accounts, next: nat, bookRoot: AccountId, root: AccountId,
                                        currency: Option<Commodity>, name: string, kind: AccountType,
                                        placeholder: bool, checkName: bool)
    requires TreeOk(accts, next) && bookRoot in accts && root in accts
    ensures var list := Lookup(accts, root, if checkName then Some(name) else None, kind, currency);
            var r := GetOrMake(accts, next, bookRoot, root, currency, name, kind, placeholder, checkName);
            && (list == [] <==> r.1 != accts)
            && (list == [] ==> r.0 == next && r.0 !in accts && r.1.Keys == accts.Keys + {next}
                               && r.1[root].children == accts[root].children + [next])
            && (list != [] ==> r.0 in list && r.1 == accts && r.2 == next)
  {
    var list := Lookup(accts, root, if checkName then Some(name) else None, kind, currency);
    if list == [] {
      var r := GetOrMake(accts, next, bookRoot, root, currency, name, kind, placeholder, checkName);
      assert next in r.1.Keys && next !in accts.Keys;
    }
  }

  /** The account returned has the requested type, a commodity equivalent to the requested one and the requested name. */
  lemma GetOrMakeMatches(accts: Accounts, next: nat, bookRoot: AccountId, root: AccountId,
                         currency: Option<Commodity>, name: string, kind: AccountType,
                         placeholder: bool, checkName: bool)
    requires TreeOk(accts, next) && bookRoot in accts && root in accts
    ensures var r := GetOrMake(accts, next, bookRoot, root, currency, name, kind, placeholder, checkName);
            Matches(r.1[r.0], if checkName then Some(name) else None, kind, currency)
  {
  }

  /**
   * Among several candidates: without a requested currency, one in the root
   * currency wins; failing that, one with exactly the requested name;
   * failing that, the first.
   */
  lemma PickPreference(accts: Accounts, bookRoot: AccountId, list: seq<AccountId>, currency: Option<Commodity>, name: string)
    requires AccountsClosed(accts) && bookRoot in accts && AllIn(list, accts) && |list| > 1
    ensures var r := Pick(accts, bookRoot, list, currency, name);
            var rc := RootCurrency(accts, bookRoot);
            && (currency.None? && (exists i | 0 <= i < |list| :: Equiv(accts[list[i]].commodity, rc)) ==>
                  Equiv(accts[r].commodity, rc))
            && ((currency.Some? || forall i | 0 <= i < |list| :: !Equiv(accts[list[i]].commodity, rc)) ==>
                  ((exists i | 0 <= i < |list| :: accts[list[i]].name == name) ==> accts[r].name == name))
            && ((currency.Some? || forall i | 0 <= i < |list| :: !Equiv(accts[list[i]].commodity, rc)) ==>
                  ((forall i | 0 <= i < |list| :: accts[list[i]].name != name) ==> r == list[0]))
  {
  }

  lemma MatchingInAppend(accts: Accounts, cs: seq<AccountId>, n: AccountId, name: Option<string>, kind: AccountType, com: Option<Commodity>)
    requires AllIn(cs, accts) && n in accts
    ensures MatchingIn(accts, cs + [n], name, kind, com) ==
            MatchingIn(accts, cs, name, kind, com) + (if Matches(accts[n], name, kind, com) then [n] else [])
  {
    if cs != [] {
      assert (cs + [n])[1..] == cs[1..] + [n];
      MatchingInAppend(accts, cs[1..], n, name, kind, com);
    }
  }

  /** The lookup reads nothing of an account but what Matches tests. */
  lemma MatchingInFrame(accts: Accounts, accts': Accounts, cs: seq<AccountId>, name: Option<string>, kind: AccountType, com: Option<Commodity>)
    requires AllIn(cs, accts) && AllIn(cs, accts')
    requires forall i | 0 <= i < |cs| :: Matches(accts[cs[i]], name, kind, com) == Matches(accts'[cs[i]], name, kind, com)
    ensures MatchingIn(accts, cs, name, kind, com) == MatchingIn(accts', cs, name, kind, com)
  {
    if cs != [] {
      MatchingInFrame(accts, accts', cs[1..], name, kind, com);
    }
  }

  /**
   * Asking again for the same account returns the same account and changes
   * nothing: get-or-make never makes a duplicate.
   */
  lemma {:induction false} GetOrMakeIdempotent(accts: Accounts, next: nat, bookRoot: AccountId, root: AccountId,
                                               currency: Option<Commodity>, name: string, kind: AccountType,
                                               placeholder: bool, checkName: bool)
    requires TreeOk(accts, next) && bookRoot in accts && root in accts
    ensures var r := GetOrMake(accts, next, bookRoot, root, currency, name, kind, placeholder, checkName);
            GetOrMake(r.1, r.2, bookRoot, root, currency, name, kind, placeholder, checkName) == r
  {
    var nm := if checkName then Some(name) else None;
    if Lookup(accts, root, nm, kind, currency) == [] {
      ConstructedIsFound(accts, next, bookRoot, root, currency, name, kind, placeholder, nm);
    }
  }

  /** A lookup that found nothing finds exactly the account just constructed. */
  lemma ConstructedIsFound(accts: Accounts, next: nat, bookRoot: AccountId, root: AccountId, currency: Option<Commodity>,
                           name: string, kind: AccountType, placeholder: bool, nm: Option<string>)
    requires TreeOk(accts, next) && bookRoot in accts && root in accts
    requires nm.None? || nm == Some(name)
    requires Lookup(accts, root, nm, kind, currency) == []
    ensures Lookup(Construct(accts, next, bookRoot, root, currency, name, kind, placeholder), root, nm, kind, currency) == [next]
  {
    var accts' := Construct(accts, next, bookRoot, root, currency, name, kind, placeholder);
    var cs := accts[root].children;
    assert next !in accts;
    forall i | 0 <= i < |cs|
      ensures cs[i] in accts' && Matches(accts[cs[i]], nm, kind, currency) == Matches(accts'[cs[i]], nm, kind, currency)
    {
      assert cs[i] != next;
    }
    MatchingInFrame(accts, accts', cs, nm, kind, currency);
    MatchingInAppend(accts', cs, next, nm, kind, currency);
  }

  /**
   * `after` keeps every account of `before` with its name, type and
   * commodity; children lists may have changed and accounts may have been
   * added.
   */
  ghost predicate Grown(before: Accounts, after: Accounts)
  {
    before.Keys <= after.Keys &&
    forall a | a in before ::
      after[a].name == before[a].name && after[a].kind == before[a].kind && after[a].commodity == before[a].commodity
  }

  /** Get-or-make changes no account but `root`, and of `root` only its children. */
  lemma GetOrMakeGrows(accts: Accounts, next: nat, bookRoot: AccountId, root: AccountId, currency: Option<Commodity>,
                       name: string, kind: AccountType, placeholder: bool, checkName: bool)
    requires TreeOk(accts, next) && bookRoot in accts && root in accts
    ensures var r := GetOrMake(accts, next, bookRoot, root, currency, name, kind, placeholder, checkName);
            && Grown(accts, r.1) && next <= r.2
            && forall a | a in accts && a != root :: r.1[a] == accts[a]
  {
    var list := Lookup(accts, root, if checkName then Some(name) else None, kind, currency);
    if list == [] {
      var c := Construct(accts, next, bookRoot, root, currency, name, kind, placeholder);
      assert GetOrMake(accts, next, bookRoot, root, currency, name, kind, placeholder, checkName) == (next, c, next + 1);
      assert c[root] == accts[root].(children := accts[root].children + [next]);
    }
  }

  lemma {:induction false} FirstIncomeFrame(a: Accounts, b: Accounts, cs: seq<AccountId>)
    requires AllIn(cs, a) && Grown(a, b)
    ensures FirstIncomeCommodity(b, cs) == FirstIncomeCommodity(a, cs)
  {
    if cs != [] {
      FirstIncomeFrame(a, b, cs[1..]);
    }
  }

  lemma {:induction false} FirstWithFrame(a: Accounts, b: Accounts, list: seq<AccountId>, rc: Option<Commodity>, name: string)
    requires AllIn(list, a) && Grown(a, b)
    ensures FirstWithCommodity(b, list, rc) == FirstWithCommodity(a, list, rc)
    ensures FirstWithName(b, list, name) == FirstWithName(a, list, name)
  {
    if list != [] {
      FirstWithFrame(a, b, list[1..], rc, name);
    }
  }

  /**
   * Once the lookup under `root` finds an account, growing the tree
   * elsewhere does not change which account get-or-make returns, and it
   * then changes nothing.
   */
  lemma GetOrMakeStable(a: Accounts, na: nat, b: Accounts, nb: nat, bookRoot: AccountId, root: AccountId,
                        currency: Option<Commodity>, name: string, kind: AccountType, placeholder: bool, checkName: bool)
    requires TreeOk(a, na) && TreeOk(b, nb) && bookRoot in a && root in a && Grown(a, b)
    requires b[root].children == a[root].children && b[bookRoot].children == a[bookRoot].children
    requires Lookup(a, root, if checkName then Some(name) else None, kind, currency) != []
    ensures GetOrMake(b, nb, bookRoot, root, currency, name, kind, placeholder, checkName) ==
            (GetOrMake(a, na, bookRoot, root, currency, name, kind, placeholder, checkName).0, b, nb)
  {
    var nm := if checkName then Some(name) else None;
    var cs := a[root].children;
    MatchingInFrame(a, b, cs, nm, kind, currency);
    var list := Lookup(a, root, nm, kind, currency);
    assert Lookup(b, root, nm, kind, currency) == list;
    PickFrame(a, b, bookRoot, list, currency, name);
  }

  /** Pick reads only the commodities and names of the candidates and the root currency. */
  lemma PickFrame(a: Accounts, b: Accounts, bookRoot: AccountId, list: seq<AccountId>, currency: Option<Commodity>, name: string)
    requires AccountsClosed(a) && AccountsClosed(b) && bookRoot in a && AllIn(list, a) && list != [] && Grown(a, b)
    requires b[bookRoot].children == a[bookRoot].children
    ensures Pick(b, bookRoot, list, currency, name) == Pick(a, bookRoot, list, currency, name)
  {
    FirstIncomeFrame(a, b, a[bookRoot].children);
    var rc := RootCurrency(a, bookRoot);
    assert RootCurrency(b, bookRoot) == rc;
    FirstWithFrame(a, b, list, rc, name);
    var byCurrency := if |list| > 1 && currency.None? then FirstWithCommodity(a, list, rc) else None;
    var byName := if |list| > 1 && byCurrency.None? then FirstWithName(a, list, name) else None;
    assert Pick(a, bookRoot, list, currency, name) ==
      if byCurrency.Some? then byCurrency.value else if byName.Some? then byName.value else list[0];
  }
}
