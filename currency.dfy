/**
 * Currency resolution of a transaction: the weighted vote of
 * xaccTransFindCommonCurrency over the commodities of the splits' accounts,
 * and the legacy intersection of FindCommonExclSCurrency /
 * xaccTransFindOldCommonCurrency over the obsolete per-account
 * currency/security pair.  These routines only read the ledger.
 */
module CurrencyVote {
  import opened Commodities
  import opened Ledger

  /** One split's vote: a commodity and its weight. */
  datatype Vote = Vote(commodity: Commodity, weight: nat)

  /** A CommodityCount: a commodity and its accumulated weight. */
  datatype Count = Count(commodity: Commodity, count: nat)

  /**
   * The vote of one split: none for a split without an account or in a
   * TRADING account; weight 3 for an account whose commodity is a currency;
   * otherwise weight 1 for the currency of the nearest ancestor in a
   * currency, or none if there is no such ancestor.
   */
  function SplitVote(accts: Accounts, s: Split): (r: Option<Vote>)
    requires AccountsClosed(accts)
    ensures r.Some? ==> IsCurrency(r.value.commodity) && (r.value.weight == 3 || r.value.weight == 1)
  {
    if s.account.None? || s.account.value !in accts then None
    else
      var a := s.account.value;
      if accts[a].kind == Trading then None
      else
        var com := accts[a].commodity;
        if com.Some? && IsCurrency(com.value) then Some(Vote(com.value, 3))
        else
          var parentCom := CurrencyOrParent(accts, a, |accts|);
          if parentCom.None? then None else Some(Vote(parentCom.value, 1))
  }

  /** The votes of the splits, in split order. */
  function Votes(accts: Accounts, splits: Splits, ids: seq<SplitId>): (r: seq<Vote>)
    requires AccountsClosed(accts) && AllIn(ids, splits)
    ensures forall i | 0 <= i < |r| :: IsCurrency(r[i].commodity)
  {
    if ids == [] then []
    else
      var v := SplitVote(accts, splits[ids[|ids| - 1]]);
      Votes(accts, splits, ids[..|ids| - 1]) + (if v.Some? then [v.value] else [])
  }

  /** The index of the entry for `c` in the list (g_slist_find_custom with commodity_equal), if any. */
  function IndexOf(list: seq<Count>, c: Commodity): (r: Option<nat>)
    ensures r.Some? ==> r.value < |list| && list[r.value].commodity == c
    ensures r.None? ==> forall i | 0 <= i < |list| :: list[i].commodity != c
  {
    if list == [] then None
    else if list[|list| - 1].commodity == c then Some(|list| - 1)
    else IndexOf(list[..|list| - 1], c)
  }

  /** One step of the tally: add the weight to the entry for the commodity, or append a new entry. */
  function AddVote(list: seq<Count>, v: Vote): seq<Count>
  {
    match IndexOf(list, v.commodity)
    case Some(i) => list[i := Count(v.commodity, list[i].count + v.weight)]
    case None => list + [Count(v.commodity, v.weight)]
  }

  /** The tally of the votes, one entry per distinct commodity, in first-encounter order. */
  function Tally(votes: seq<Vote>): seq<Count>
  {
    if votes == [] then [] else AddVote(Tally(votes[..|votes| - 1]), votes[|votes| - 1])
  }

  /** The total weight of the votes for `c`. */
  function WeightOf(votes: seq<Vote>, c: Commodity): nat
  {
    if votes == [] then 0
    else WeightOf(votes[..|votes| - 1], c) + (if votes[|votes| - 1].commodity == c then votes[|votes| - 1].weight else 0)
  }

  ghost predicate DistinctCommodities(list: seq<Count>)
  {
    forall i, j | 0 <= i < j < |list| :: list[i].commodity != list[j].commodity
  }

  /** `c` has an entry in the tally list. */
  ghost predicate Listed(list: seq<Count>, c: Commodity)
  {
    exists i | 0 <= i < |list| :: list[i].commodity == c
  }

  /** Some vote is for `c`. */
  ghost predicate Voted(votes: seq<Vote>, c: Commodity)
  {
    exists k | 0 <= k < |votes| :: votes[k].commodity == c
  }

  /** One tally step keeps the entries distinct, adds the weight to the right entry only, and lists the new commodity. */
  lemma AddVoteStep(t: seq<Count>, v: Vote)
    requires DistinctCommodities(t)
    ensures var t' := AddVote(t, v);
            && DistinctCommodities(t')
            && |t| <= |t'|
            && (forall i | 0 <= i < |t| :: t'[i].commodity == t[i].commodity &&
                  t'[i].count == t[i].count + (if t[i].commodity == v.commodity then v.weight else 0))
            && (forall i | |t| <= i < |t'| :: t'[i] == Count(v.commodity, v.weight) && !Listed(t, v.commodity))
            && Listed(t', v.commodity)
            && (forall c :: Listed(t', c) <==> Listed(t, c) || c == v.commodity)
  {
    var t' := AddVote(t, v);
    match IndexOf(t, v.commodity)
    case Some(i) =>
      assert t'[i].commodity == v.commodity;
    case None =>
      assert t'[|t|].commodity == v.commodity;
      forall c | Listed(t', c) ensures Listed(t, c) || c == v.commodity {
        var i :| 0 <= i < |t'| && t'[i].commodity == c;
        if i < |t| { assert t[i].commodity == c; }
      }
  }

  /**
   * The tally has one entry per distinct commodity voted for, each carrying
   * that commodity's total weight.
   */
  lemma {:induction false} TallyCounts(votes: seq<Vote>)
    ensures DistinctCommodities(Tally(votes))
    ensures forall i | 0 <= i < |Tally(votes)| :: Tally(votes)[i].count == WeightOf(votes, Tally(votes)[i].commodity)
    ensures forall c :: Listed(Tally(votes), c) <==> Voted(votes, c)
  {
    if votes != [] {
      var init, v := votes[..|votes| - 1], votes[|votes| - 1];
      TallyCounts(init);
      var t := Tally(init);
      AddVoteStep(t, v);
      assert Tally(votes) == AddVote(t, v);
      forall c ensures Voted(votes, c) <==> Voted(init, c) || c == v.commodity {
        if Voted(votes, c) {
          var k :| 0 <= k < |votes| && votes[k].commodity == c;
          if k < |init| { assert init[k].commodity == c; }
        }
        if Voted(init, c) {
          var k :| 0 <= k < |init| && init[k].commodity == c;
          assert votes[k].commodity == c;
        }
      }
      forall i | 0 <= i < |Tally(votes)|
        ensures Tally(votes)[i].count == WeightOf(votes, Tally(votes)[i].commodity)
      {
        if i >= |t| {
          assert !Listed(t, v.commodity);
          assert !Voted(init, v.commodity);
          WeightOfUnvoted(init, v.commodity);
        }
      }
    }
  }

  /** A commodity nobody voted for has weight zero. */
  lemma {:induction false} WeightOfUnvoted(votes: seq<Vote>, c: Commodity)
    requires !Voted(votes, c)
    ensures WeightOf(votes, c) == 0
  {
    if votes != [] {
      WeightOfUnvoted(votes[..|votes| - 1], c);
    }
  }

  /** The first entry of least count: the head of the list after g_slist_sort with commodity_compare. */
  function FirstLeast(list: seq<Count>): (r: nat)
    requires list != []
    ensures r < |list|
    ensures forall i | 0 <= i < |list| :: list[r].count <= list[i].count
    ensures forall i | 0 <= i < r :: list[i].count > list[r].count
  {
    if |list| == 1 then 0
    else
      var r := FirstLeast(list[..|list| - 1]);
      if list[|list| - 1].count < list[r].count then |list| - 1 else r
  }

  /** The first entry of greatest count. */
  function FirstGreatest(list: seq<Count>): (r: nat)
    requires list != []
    ensures r < |list|
    ensures forall i | 0 <= i < |list| :: list[r].count >= list[i].count
    ensures forall i | 0 <= i < r :: list[i].count < list[r].count
  {
    if |list| == 1 then 0
    else
      var r := FirstGreatest(list[..|list| - 1]);
      if list[|list| - 1].count > list[r].count then |list| - 1 else r
  }

  /**
   * The commodity xaccTransFindCommonCurrency's vote yields as written: the
   * head of the tally after a stable sort into ascending count, which is the
   * first commodity of LEAST weight.
   */
  function VoteAsWritten(accts: Accounts, splits: Splits, ids: seq<SplitId>): (r: Option<Commodity>)
    requires AccountsClosed(accts) && AllIn(ids, splits)
  {
    var t := Tally(Votes(accts, splits, ids));
    if t == [] then None else Some(t[FirstLeast(t)].commodity)
  }

  /** The vote as the routine's comment intends it: the first commodity of greatest weight. */
  function VoteMostCommon(accts: Accounts, splits: Splits, ids: seq<SplitId>): (r: Option<Commodity>)
    requires AccountsClosed(accts) && AllIn(ids, splits)
  {
    var t := Tally(Votes(accts, splits, ids));
    if t == [] then None else Some(t[FirstGreatest(t)].commodity)
  }

  /** The head of the ascending sort is a commodity voted for, of least total weight. */
  lemma {:induction false} TallyLeast(votes: seq<Vote>)
    requires votes != []
    ensures Tally(votes) != []
    ensures var t := Tally(votes);
            var c := t[FirstLeast(t)].commodity;
            Voted(votes, c) && forall k | 0 <= k < |votes| :: WeightOf(votes, c) <= WeightOf(votes, votes[k].commodity)
  {
    TallyCounts(votes);
    var t := Tally(votes);
    assert Voted(votes, votes[0].commodity);
    assert t != [];
    var m := FirstLeast(t);
    assert Listed(t, t[m].commodity);
    forall k | 0 <= k < |votes|
      ensures WeightOf(votes, t[m].commodity) <= WeightOf(votes, votes[k].commodity)
    {
      assert Voted(votes, votes[k].commodity);
      var i :| 0 <= i < |t| && t[i].commodity == votes[k].commodity;
      assert t[m].count <= t[i].count;
    }
  }

  /** The first entry of greatest count is a commodity voted for, of greatest total weight. */
  lemma {:induction false} TallyGreatest(votes: seq<Vote>)
    requires votes != []
    ensures Tally(votes) != []
    ensures var t := Tally(votes);
            var c := t[FirstGreatest(t)].commodity;
            Voted(votes, c) && forall k | 0 <= k < |votes| :: WeightOf(votes, c) >= WeightOf(votes, votes[k].commodity)
  {
    TallyCounts(votes);
    var t := Tally(votes);
    assert Voted(votes, votes[0].commodity);
    assert t != [];
    var m := FirstGreatest(t);
    assert Listed(t, t[m].commodity);
    forall k | 0 <= k < |votes|
      ensures WeightOf(votes, t[m].commodity) >= WeightOf(votes, votes[k].commodity)
    {
      assert Voted(votes, votes[k].commodity);
      var i :| 0 <= i < |t| && t[i].commodity == votes[k].commodity;
      assert t[m].count >= t[i].count;
    }
  }

  /**
   * The as-written vote returns a currency of least total weight among all
   * commodities voted for, and nothing only when no split votes.
   */
  lemma VoteAsWrittenIsLeast(accts: Accounts, splits: Splits, ids: seq<SplitId>)
    requires AccountsClosed(accts) && AllIn(ids, splits)
    ensures var votes := Votes(accts, splits, ids);
            var r := VoteAsWritten(accts, splits, ids);
            && (r.None? <==> votes == [])
            && (r.Some? ==> IsCurrency(r.value))
            && (r.Some? ==> forall k | 0 <= k < |votes| :: WeightOf(votes, r.value) <= WeightOf(votes, votes[k].commodity))
  {
    var votes := Votes(accts, splits, ids);
    if votes != [] {
      TallyLeast(votes);
      var c := Tally(votes)[FirstLeast(Tally(votes))].commodity;
      var k :| 0 <= k < |votes| && votes[k].commodity == c;
    }
  }

  /**
   * The corrected vote returns a currency of greatest total weight (the
   * first encountered among equally heavy ones), and nothing only when no
   * split votes.
   */
  lemma VoteMostCommonIsGreatest(accts: Accounts, splits: Splits, ids: seq<SplitId>)
    requires AccountsClosed(accts) && AllIn(ids, splits)
    ensures var votes := Votes(accts, splits, ids);
            var r := VoteMostCommon(accts, splits, ids);
            && (r.None? <==> votes == [])
            && (r.Some? ==> IsCurrency(r.value))
            && (r.Some? ==> forall k | 0 <= k < |votes| :: WeightOf(votes, r.value) >= WeightOf(votes, votes[k].commodity))
  {
    var votes := Votes(accts, splits, ids);
    if votes != [] {
      TallyGreatest(votes);
      var c := Tally(votes)[FirstGreatest(Tally(votes))].commodity;
      var k :| 0 <= k < |votes| && votes[k].commodity == c;
    }
  }

  /**
   * The discrepancy: two splits in USD accounts and one in a EUR account
   * give USD weight 6 and EUR weight 3; the routine as written picks EUR.
   */
  lemma VoteAsWrittenPicksMinority()
    ensures var usd := Commodity("CURRENCY", "USD", "US Dollar", 100);
            var eur := Commodity("CURRENCY", "EUR", "Euro", 100);
            var votes := [Vote(usd, 3), Vote(usd, 3), Vote(eur, 3)];
            var t := Tally(votes);
            && t == [Count(usd, 6), Count(eur, 3)]
            && t[FirstLeast(t)].commodity == eur
            && t[FirstGreatest(t)].commodity == usd
  {
    var usd := Commodity("CURRENCY", "USD", "US Dollar", 100);
    var eur := Commodity("CURRENCY", "EUR", "Euro", 100);
    var votes := [Vote(usd, 3), Vote(usd, 3), Vote(eur, 3)];
    assert votes[..2] == [Vote(usd, 3), Vote(usd, 3)];
    assert votes[..2][..1] == [Vote(usd, 3)];
    assert Tally([Vote(usd, 3)]) == [Count(usd, 3)];
    assert Tally(votes[..2]) == [Count(usd, 6)];
    assert usd != eur;
  }

  /**
   * One step of FindCommonExclSCurrency: narrow the candidates (ra, rb) by
   * the currency `sa` and commodity `sb` of one split's account.  The result
   * is the new (ra, rb); both None ends the search.
   */
  function Narrow(ra: Option<Commodity>, rb: Option<Commodity>, sa: Option<Commodity>, sb: Option<Commodity>): (r: (Option<Commodity>, Option<Commodity>))
  {
    if ra.Some? && rb.Some? then
      var aa, ab, ba, bb := !Equiv(ra, sa), !Equiv(ra, sb), !Equiv(rb, sa), !Equiv(rb, sb);
      var (ra', rb') :=
        if !aa && bb then (ra, None)
        else if !ab && ba then (ra, None)
        else if !ba && ab then (None, rb)
        else if !bb && aa then (None, rb)
        else if aa && bb && ab && ba then (None, None)
        else (ra, rb);
      if ra'.None? then (rb', None) else (ra', rb')
    else if ra.Some? then
      (if !Equiv(ra, sa) && !Equiv(ra, sb) then None else ra, rb)
    else if rb.Some? then
      (if !Equiv(rb, sa) && !Equiv(rb, sb) then None else rb, rb)
    else (ra, rb)
  }

  /** The legacy currency/security pair of a split's account. */
  datatype Legacy = Legacy(currency: Option<Commodity>, security: Option<Commodity>)

  /**
   * The (currency, commodity) pairs of the splits' accounts, skipping the
   * excluded split; None when a split has no account (the routine gives up).
   */
  function LegacyPairs(accts: Accounts, splits: Splits, ids: seq<SplitId>, excl: Option<SplitId>): (r: Option<seq<Legacy>>)
    requires AllIn(ids, splits)
  {
    if ids == [] then Some([])
    else
      var s := splits[ids[0]];
      var rest := LegacyPairs(accts, splits, ids[1..], excl);
      if excl == Some(ids[0]) then rest
      else if s.account.None? || s.account.value !in accts then None
      else if rest.None? then None
      else
        var a := accts[s.account.value];
        Some([Legacy(a.oldCurrency, a.commodity)] + rest.value)
  }

  /** The narrowing loop of FindCommonExclSCurrency over the pairs; it returns ra. */
  function NarrowAll(pairs: seq<Legacy>, ra: Option<Commodity>, rb: Option<Commodity>): (r: Option<Commodity>)
  {
    if pairs == [] then ra
    else
      var (ra', rb') := Narrow(ra, rb, pairs[0].currency, pairs[0].security);
      if ra'.None? && rb'.None? then None else NarrowAll(pairs[1..], ra', rb')
  }

  /** FindCommonExclSCurrency(splits, ra, rb, excl) */
  function FindCommonExclSCurrency(accts: Accounts, splits: Splits, ids: seq<SplitId>,
                                   ra: Option<Commodity>, rb: Option<Commodity>, excl: Option<SplitId>): (r: Option<Commodity>)
    requires AllIn(ids, splits)
  {
    if ids == [] then None
    else
      var pairs := LegacyPairs(accts, splits, ids, excl);
      if pairs.None? then None else NarrowAll(pairs.value, ra, rb)
  }

  /**
   * xaccTransFindOldCommonCurrency: the candidates are the first split's
   * account's currency and commodity; the result must be a currency.
   */
  function OldCommonCurrency(accts: Accounts, splits: Splits, ids: seq<SplitId>): (r: Option<Commodity>)
    requires AllIn(ids, splits)
    ensures r.Some? ==> IsCurrency(r.value)
  {
    if ids == [] then None
    else
      var first := splits[ids[0]];
      if first.account.None? || first.account.value !in accts then None
      else
        var a := accts[first.account.value];
        var r := FindCommonExclSCurrency(accts, splits, ids, a.oldCurrency, a.commodity, None);
        if r.Some? && !IsCurrency(r.value) then None else r
  }

  /** The candidate pair never reaches (None, Some): once ra is lost, rb has taken its place. */
  ghost predicate Settled(ra: Option<Commodity>, rb: Option<Commodity>)
  {
    ra.Some? || rb.None?
  }

  /** A surviving candidate matches the split it was narrowed by, and candidates are never invented. */
  lemma NarrowKeepsMatches(ra: Option<Commodity>, rb: Option<Commodity>, sa: Option<Commodity>, sb: Option<Commodity>)
    requires Settled(ra, rb)
    ensures var (ra', rb') := Narrow(ra, rb, sa, sb);
            && Settled(ra', rb')
            && (ra'.Some? ==> (Equiv(ra', sa) || Equiv(ra', sb)) && (ra' == ra || ra' == rb))
            && (rb'.Some? ==> (Equiv(rb', sa) || Equiv(rb', sb)) && rb' == rb)
  {
  }

  /**
   * The legacy search, started from a settled pair, returns either nothing
   * or one of the two initial candidates, and that candidate is equivalent
   * to the currency or the commodity of every split it looked at.
   */
  lemma {:induction false} NarrowAllAgrees(pairs: seq<Legacy>, ra: Option<Commodity>, rb: Option<Commodity>)
    requires Settled(ra, rb)
    ensures var r := NarrowAll(pairs, ra, rb);
            && (r.Some? ==> r == ra || r == rb)
            && (r.Some? ==> forall k | 0 <= k < |pairs| :: Equiv(r, pairs[k].currency) || Equiv(r, pairs[k].security))
  {
    if pairs != [] {
      var (ra', rb') := Narrow(ra, rb, pairs[0].currency, pairs[0].security);
      NarrowKeepsMatches(ra, rb, pairs[0].currency, pairs[0].security);
      if !(ra'.None? && rb'.None?) {
        NarrowAllAgrees(pairs[1..], ra', rb');
        var r := NarrowAll(pairs, ra, rb);
        if r.Some? {
          assert r == NarrowAll(pairs[1..], ra', rb');
          forall k | 0 <= k < |pairs|
            ensures Equiv(r, pairs[k].currency) || Equiv(r, pairs[k].security)
          {
            if k > 0 {
              assert pairs[k] == pairs[1..][k - 1];
            } else if r == ra' {
            } else {
              assert r == rb';
            }
          }
        }
      }
    }
  }

  /**
   * When the legacy search gives up on no split, it has one pair per split,
   * and that pair is the legacy currency and the commodity of the split's
   * account.
   */
  lemma {:induction false} LegacyPairsOfAccounts(accts: Accounts, splits: Splits, ids: seq<SplitId>)
    requires AllIn(ids, splits)
    ensures var p := LegacyPairs(accts, splits, ids, None);
            p.Some? ==>
              && |p.value| == |ids|
              && forall k | 0 <= k < |ids| ::
                   && splits[ids[k]].account.Some? && splits[ids[k]].account.value in accts
                   && p.value[k] == Legacy(accts[splits[ids[k]].account.value].oldCurrency,
                                           accts[splits[ids[k]].account.value].commodity)
  {
    if ids != [] {
      LegacyPairsOfAccounts(accts, splits, ids[1..]);
      var p := LegacyPairs(accts, splits, ids, None);
      if p.Some? {
        var rest := LegacyPairs(accts, splits, ids[1..], None);
        assert p.value[1..] == rest.value;
        forall k | 1 <= k < |ids|
          ensures p.value[k] == rest.value[k - 1] && ids[k] == ids[1..][k - 1]
        {
        }
      }
    }
  }

  /**
   * xaccTransFindOldCommonCurrency returns a currency that every split's
   * account has in common, as its legacy currency or as its commodity.
   * The search starts from the first split's own pair, so even when that
   * account has no legacy currency the first step settles the candidates.
   */
  lemma OldCommonCurrencyShared(accts: Accounts, splits: Splits, ids: seq<SplitId>)
    requires AllIn(ids, splits)
    ensures var r := OldCommonCurrency(accts, splits, ids);
            r.Some? ==>
              forall k | 0 <= k < |ids| ::
                && splits[ids[k]].account.Some? && splits[ids[k]].account.value in accts
                && var a := accts[splits[ids[k]].account.value];
                   Equiv(r, a.oldCurrency) || Equiv(r, a.commodity)
  {
    var r := OldCommonCurrency(accts, splits, ids);
    if r.Some? {
      var a := accts[splits[ids[0]].account.value];
      var p := LegacyPairs(accts, splits, ids, None).value;
      LegacyPairsOfAccounts(accts, splits, ids);
      assert r == NarrowAll(p, a.oldCurrency, a.commodity);
      assert p[0] == Legacy(a.oldCurrency, a.commodity);
      if a.oldCurrency.Some? {
        NarrowAllAgrees(p, a.oldCurrency, a.commodity);
      } else {
        var c := a.commodity;
        assert Narrow(None, c, None, c) == (c, c);
        assert r == NarrowAll(p[1..], c, c);
        NarrowAllAgrees(p[1..], c, c);
        forall k | 1 <= k < |p|
          ensures Equiv(r, p[k].currency) || Equiv(r, p[k].security)
        {
          assert p[k] == p[1..][k - 1];
        }
      }
    }
  }

  /**
   * xaccTransFindCommonCurrency with the vote as its comment intends:
   * nothing for a transaction without splits; otherwise the first currency
   * of greatest weight among the splits' votes, or, when no split votes,
   * the legacy common currency.
   */
  function CommonCurrency(accts: Accounts, splits: Splits, ids: seq<SplitId>): (r: Option<Commodity>)
    requires AccountsClosed(accts) && AllIn(ids, splits)
    ensures ids == [] ==> r.None?
    ensures r.Some? ==> IsCurrency(r.value)
    ensures var votes := Votes(accts, splits, ids);
            votes != [] ==> r.Some? && forall k | 0 <= k < |votes| :: WeightOf(votes, r.value) >= WeightOf(votes, votes[k].commodity)
    ensures ids != [] && Votes(accts, splits, ids) == [] ==> r == OldCommonCurrency(accts, splits, ids)
  {
    if ids == [] then None
    else
      VoteMostCommonIsGreatest(accts, splits, ids);
      var v := VoteMostCommon(accts, splits, ids);
      if v.Some? then v else OldCommonCurrency(accts, splits, ids)
  }
}
