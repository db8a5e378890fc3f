/** Global deduplication by product code and ordering by discount
    (`deduplicate_and_sort`, src/streaming_processor.py:273-289; the same
    loop is written inline in `run_processor`, src/processor.py:101-116).

    The first deal with a given non-empty code wins; deals with an empty code
    are never merged. The survivors are then stably sorted by discount,
    largest first. */
module Ordering {
  import opened Common
  import opened Products

  // ---------------------------------------------------------------------
  // Product codes

  /** The product codes occurring in a deal list. */
  function Codes(deals: seq<Deal>): set<string>
    decreases |deals|
  {
    if deals == [] then {} else Codes(deals[..|deals| - 1]) + {deals[|deals| - 1].productCode}
  }

  lemma {:induction false} CodesMembers(deals: seq<Deal>)
    ensures forall c :: c in Codes(deals) <==> exists j :: 0 <= j < |deals| && deals[j].productCode == c
    decreases |deals|
  {
    if deals != [] {
      var init := deals[..|deals| - 1];
      CodesMembers(init);
      forall c
        ensures c in Codes(deals) <==> exists j :: 0 <= j < |deals| && deals[j].productCode == c
      {
        if c in Codes(init) {
          var j :| 0 <= j < |init| && init[j].productCode == c;
          assert deals[j] == init[j];
        }
        if exists j :: 0 <= j < |deals| && deals[j].productCode == c {
          var j :| 0 <= j < |deals| && deals[j].productCode == c;
          if j < |init| {
            assert init[j] == deals[j];
          }
        }
      }
    }
  }

  lemma CodesSnoc(deals: seq<Deal>, d: Deal)
    ensures Codes(deals + [d]) == Codes(deals) + {d.productCode}
  {
    assert (deals + [d])[..|deals|] == deals;
  }

  /** No non-empty product code occurs twice. */
  predicate UniqueCodes(deals: seq<Deal>) {
    forall i, j :: 0 <= i < |deals| && 0 <= j < |deals| && i != j && deals[i].productCode != ""
      ==> deals[i].productCode != deals[j].productCode
  }

  /** Deal `i` is the first with its code, or has the empty code. */
  predicate IsFirstOfCode(deals: seq<Deal>, i: int)
    requires 0 <= i < |deals|
  {
    || deals[i].productCode == ""
    || forall j :: 0 <= j < i ==> deals[j].productCode != deals[i].productCode
  }

  // ---------------------------------------------------------------------
  // Deduplication

  /** The deals that survive deduplication, in input order: a deal is kept
      when its code is empty or did not occur earlier. */
  function Deduplicated(deals: seq<Deal>): seq<Deal>
    decreases |deals|
  {
    if deals == [] then []
    else
      var init, last := deals[..|deals| - 1], deals[|deals| - 1];
      Deduplicated(init)
      + (if last.productCode == "" || last.productCode !in Codes(init) then [last] else [])
  }

  /** The deals with an empty product code, in order. */
  function EmptyCoded(deals: seq<Deal>): seq<Deal>
    decreases |deals|
  {
    if deals == [] then []
    else
      var init, last := deals[..|deals| - 1], deals[|deals| - 1];
      EmptyCoded(init) + (if last.productCode == "" then [last] else [])
  }

  lemma DeduplicatedSnoc(deals: seq<Deal>, d: Deal)
    ensures Deduplicated(deals + [d])
            == Deduplicated(deals) + (if d.productCode == "" || d.productCode !in Codes(deals) then [d] else [])
  {
    assert (deals + [d])[..|deals|] == deals;
  }

  /** One step of `Deduplicated`: the last deal is kept exactly when its
      code is empty or new. */
  lemma DeduplicatedStep(deals: seq<Deal>)
    requires deals != []
    ensures var init, last := deals[..|deals| - 1], deals[|deals| - 1];
            && deals == init + [last]
            && (last.productCode == "" || last.productCode !in Codes(init) ==>
                  Deduplicated(deals) == Deduplicated(init) + [last])
            && (last.productCode != "" && last.productCode in Codes(init) ==>
                  Deduplicated(deals) == Deduplicated(init))
  {
  }

  /** Deduplication loses no code: the surviving codes are the input's codes. */
  lemma {:induction false} DeduplicatedCodes(deals: seq<Deal>)
    ensures Codes(Deduplicated(deals)) == Codes(deals)
    decreases |deals|
  {
    if deals != [] {
      var init, last := deals[..|deals| - 1], deals[|deals| - 1];
      DeduplicatedStep(deals);
      DeduplicatedCodes(init);
      CodesSnoc(init, last);
      if last.productCode == "" || last.productCode !in Codes(init) {
        CodesSnoc(Deduplicated(init), last);
      }
    }
  }

  /** After deduplication every non-empty code occurs exactly once. */
  lemma {:induction false} DeduplicatedUnique(deals: seq<Deal>)
    ensures UniqueCodes(Deduplicated(deals))
    decreases |deals|
  {
    if deals != [] {
      var init, last := deals[..|deals| - 1], deals[|deals| - 1];
      var d := Deduplicated(init);
      DeduplicatedStep(deals);
      DeduplicatedUnique(init);
      if last.productCode == "" || last.productCode !in Codes(init) {
        DeduplicatedCodes(init);
        CodesMembers(d);
        var r := d + [last];
        forall i, j | 0 <= i < |r| && 0 <= j < |r| && i != j && r[i].productCode != ""
          ensures r[i].productCode != r[j].productCode
        {
          if i < |d| && j < |d| {
            assert r[i] == d[i] && r[j] == d[j];
          } else if i < |d| {
            assert r[i] == d[i] && r[j] == last;
          } else {
            assert r[j] == d[j] && r[i] == last;
          }
        }
      }
    }
  }

  /** Deduplication only deletes: the result is a subsequence of the input,
      hence no longer and made of input deals. */
  lemma {:induction false} DeduplicatedSubsequence(deals: seq<Deal>)
    ensures IsSubsequence(Deduplicated(deals), deals)
    ensures |Deduplicated(deals)| <= |deals|
    ensures forall x :: x in Deduplicated(deals) ==> x in deals
    decreases |deals|
  {
    var r := Deduplicated(deals);
    if deals != [] {
      var init, last := deals[..|deals| - 1], deals[|deals| - 1];
      DeduplicatedStep(deals);
      DeduplicatedSubsequence(init);
      if last.productCode == "" || last.productCode !in Codes(init) {
        assert r[..|r| - 1] == Deduplicated(init);
        assert r[|r| - 1] == last;
      } else {
        assert r == Deduplicated(init);
      }
      assert IsSubsequence(r, deals);
    } else {
      assert r == [];
    }
    SubsequenceFacts(r, deals);
  }

  /** How "first of its code" reads once a deal is appended. */
  lemma FirstOfCodeSnoc(deals: seq<Deal>)
    requires deals != []
    ensures var init, last := deals[..|deals| - 1], deals[|deals| - 1];
            && (forall i :: 0 <= i < |init| ==> (IsFirstOfCode(deals, i) <==> IsFirstOfCode(init, i)))
            && (IsFirstOfCode(deals, |init|) <==> last.productCode == "" || last.productCode !in Codes(init))
  {
    var init, last := deals[..|deals| - 1], deals[|deals| - 1];
    CodesMembers(init);
    assert forall i :: 0 <= i < |init| ==> deals[i] == init[i];
  }

  /** Every deal that is the first of its code, or has the empty code, is kept. */
  lemma {:induction false} DeduplicatedKeepsFirsts(deals: seq<Deal>)
    ensures forall i :: 0 <= i < |deals| && IsFirstOfCode(deals, i) ==> deals[i] in Deduplicated(deals)
    decreases |deals|
  {
    if deals != [] {
      var init, last := deals[..|deals| - 1], deals[|deals| - 1];
      DeduplicatedStep(deals);
      FirstOfCodeSnoc(deals);
      DeduplicatedKeepsFirsts(init);
      forall i | 0 <= i < |deals| && IsFirstOfCode(deals, i)
        ensures deals[i] in Deduplicated(deals)
      {
        if i < |init| {
          assert deals[i] == init[i] && init[i] in Deduplicated(init);
        }
      }
    }
  }

  /** Every kept deal is the first of its code (or has the empty code): the
      converse of `DeduplicatedKeepsFirsts`. */
  lemma {:induction false} DeduplicatedOnlyFirsts(deals: seq<Deal>)
    ensures forall x :: x in Deduplicated(deals) ==>
              exists i :: 0 <= i < |deals| && IsFirstOfCode(deals, i) && deals[i] == x
    decreases |deals|
  {
    if deals != [] {
      var init, last := deals[..|deals| - 1], deals[|deals| - 1];
      DeduplicatedStep(deals);
      FirstOfCodeSnoc(deals);
      DeduplicatedOnlyFirsts(init);
      var kept := last.productCode == "" || last.productCode !in Codes(init);
      forall x | x in Deduplicated(deals)
        ensures exists i :: 0 <= i < |deals| && IsFirstOfCode(deals, i) && deals[i] == x
      {
        if x in Deduplicated(init) {
          var i :| 0 <= i < |init| && IsFirstOfCode(init, i) && init[i] == x;
          assert IsFirstOfCode(deals, i) && deals[i] == x;
        } else {
          assert kept && x == last;
          assert IsFirstOfCode(deals, |init|) && deals[|init|] == x;
        }
      }
    }
  }

  /** Empty codes are never deduplicated: the empty-code deals come through
      unchanged and in order. */
  lemma {:induction false} DeduplicatedKeepsEmptyCodes(deals: seq<Deal>)
    ensures EmptyCoded(Deduplicated(deals)) == EmptyCoded(deals)
    decreases |deals|
  {
    if deals != [] {
      var init, last := deals[..|deals| - 1], deals[|deals| - 1];
      var d := Deduplicated(init);
      DeduplicatedStep(deals);
      DeduplicatedKeepsEmptyCodes(init);
      if last.productCode == "" || last.productCode !in Codes(init) {
        var r := d + [last];
        assert r[..|d|] == d && r[|d|] == last;
        assert EmptyCoded(r) == EmptyCoded(d) + (if last.productCode == "" then [last] else []);
      }
    }
  }

  /** A list whose codes are already unique is left as it is. */
  lemma {:induction false} DeduplicatedOfUnique(deals: seq<Deal>)
    requires UniqueCodes(deals)
    ensures Deduplicated(deals) == deals
    decreases |deals|
  {
    if deals != [] {
      var init, last := deals[..|deals| - 1], deals[|deals| - 1];
      DeduplicatedStep(deals);
      assert UniqueCodes(init) by {
        forall i, j | 0 <= i < |init| && 0 <= j < |init| && i != j && init[i].productCode != ""
          ensures init[i].productCode != init[j].productCode
        {
          assert init[i] == deals[i] && init[j] == deals[j];
        }
      }
      DeduplicatedOfUnique(init);
      CodesMembers(init);
      if last.productCode != "" {
        forall j | 0 <= j < |init|
          ensures init[j].productCode != last.productCode
        {
          assert init[j] == deals[j] && deals[|init|] == last;
        }
      }
    }
  }

  /** Of two deals sharing a non-empty code only the first survives. */
  lemma DuplicatePairDeduplicated(x: Deal, y: Deal)
    requires x.productCode != "" && x.productCode == y.productCode
    ensures Deduplicated([x, y]) == [x]
  {
    DeduplicatedSnoc([x], y);
    DeduplicatedSnoc([], x);
    CodesSnoc([], x);
    assert [] + [x] == [x];
    assert [x] + [y] == [x, y];
  }

  /** Deduplicating twice is deduplicating once. */
  lemma DeduplicatedIdempotent(deals: seq<Deal>)
    ensures Deduplicated(Deduplicated(deals)) == Deduplicated(deals)
  {
    DeduplicatedUnique(deals);
    DeduplicatedOfUnique(Deduplicated(deals));
  }

  // ---------------------------------------------------------------------
  // Stable sort by discount, largest first

  /** Discounts never increase along the list. */
  predicate SortedByDiscount(deals: seq<Deal>) {
    forall i, j :: 0 <= i < j < |deals| ==> deals[i].discountPct >= deals[j].discountPct
  }

  /** The deals with discount `k`, in order. */
  function WithDiscount(deals: seq<Deal>, k: real): seq<Deal>
    decreases |deals|
  {
    if deals == [] then []
    else (if deals[0].discountPct == k then [deals[0]] else []) + WithDiscount(deals[1..], k)
  }

  /** Insert `d` before the first deal whose discount is not larger. */
  function Insert(d: Deal, sorted: seq<Deal>): (r: seq<Deal>)
    ensures multiset(r) == multiset(sorted) + multiset{d}
    decreases |sorted|
  {
    if sorted == [] || sorted[0].discountPct <= d.discountPct then
      [d] + sorted
    else
      assert sorted == [sorted[0]] + sorted[1..];
      [sorted[0]] + Insert(d, sorted[1..])
  }

  /** Inserting into a sorted list keeps it sorted. */
  lemma {:induction false} InsertSorted(d: Deal, sorted: seq<Deal>)
    requires SortedByDiscount(sorted)
    ensures SortedByDiscount(Insert(d, sorted))
    decreases |sorted|
  {
    if !(sorted == [] || sorted[0].discountPct <= d.discountPct) {
      var rest := Insert(d, sorted[1..]);
      InsertSorted(d, sorted[1..]);
      var top := sorted[0].discountPct;
      forall x | x in rest
        ensures x.discountPct <= top
      {
        assert x in multiset(rest);
        if x != d {
          assert x in multiset(sorted[1..]);
          var m :| 0 <= m < |sorted[1..]| && sorted[1..][m] == x;
          assert sorted[m + 1] == x;
        }
      }
      var r := [sorted[0]] + rest;
      forall i, j | 0 <= i < j < |r|
        ensures r[i].discountPct >= r[j].discountPct
      {
        assert r[j] == rest[j - 1];
        if i > 0 {
          assert r[i] == rest[i - 1];
        }
      }
    }
  }

  /** `list.sort(key=discount_pct, reverse=True)`: a permutation of the input
      whose discounts never increase. Stability is `SortStable`. */
  function SortByDiscount(deals: seq<Deal>): (r: seq<Deal>)
    ensures multiset(r) == multiset(deals)
    ensures SortedByDiscount(r)
    decreases |deals|
  {
    if deals == [] then []
    else
      assert deals == [deals[0]] + deals[1..];
      var rest := SortByDiscount(deals[1..]);
      InsertSorted(deals[0], rest);
      Insert(deals[0], rest)
  }

  lemma {:induction false} InsertStable(d: Deal, sorted: seq<Deal>, k: real)
    ensures WithDiscount(Insert(d, sorted), k)
            == (if d.discountPct == k then [d] else []) + WithDiscount(sorted, k)
    decreases |sorted|
  {
    var hd := if d.discountPct == k then [d] else [];
    if sorted == [] || sorted[0].discountPct <= d.discountPct {
      var r := [d] + sorted;
      assert r[0] == d && r[1..] == sorted;
    } else {
      var rest := Insert(d, sorted[1..]);
      var r := [sorted[0]] + rest;
      assert r[0] == sorted[0] && r[1..] == rest;
      InsertStable(d, sorted[1..], k);
      var h0 := if sorted[0].discountPct == k then [sorted[0]] else [];
      assert h0 == [] || hd == [];
      assert h0 + (hd + WithDiscount(sorted[1..], k)) == hd + (h0 + WithDiscount(sorted[1..], k));
    }
  }

  /** The sort is stable: deals with equal discounts keep their input order. */
  lemma {:induction false} SortStable(deals: seq<Deal>, k: real)
    ensures WithDiscount(SortByDiscount(deals), k) == WithDiscount(deals, k)
    decreases |deals|
  {
    if deals != [] {
      SortStable(deals[1..], k);
      InsertStable(deals[0], SortByDiscount(deals[1..]), k);
    }
  }

  lemma {:induction false} WithDiscountMembers(deals: seq<Deal>, k: real)
    ensures forall x :: x in WithDiscount(deals, k) ==> x in deals && x.discountPct == k
    ensures deals != [] && deals[0].discountPct == k ==> WithDiscount(deals, k) != []
    decreases |deals|
  {
    if deals != [] {
      WithDiscountMembers(deals[1..], k);
    }
  }

  /** The first deal's run is not empty. */
  lemma HeadRun(deals: seq<Deal>)
    ensures deals != [] ==> WithDiscount(deals, deals[0].discountPct) != []
  {
  }

  /** Two sorted lists with the same runs start with the same deal. */
  lemma SameHead(r1: seq<Deal>, r2: seq<Deal>)
    requires r1 != [] && r2 != []
    requires SortedByDiscount(r1) && SortedByDiscount(r2)
    requires forall k :: WithDiscount(r1, k) == WithDiscount(r2, k)
    ensures r1[0] == r2[0]
  {
    var m1, m2 := r1[0].discountPct, r2[0].discountPct;
    WithDiscountMembers(r1, m1);
    WithDiscountMembers(r2, m2);
    WithDiscountMembers(r1, m2);
    WithDiscountMembers(r2, m1);
    var x :| x in WithDiscount(r2, m1);
    var y :| y in WithDiscount(r1, m2);
    var i :| 0 <= i < |r2| && r2[i] == x;
    var j :| 0 <= j < |r1| && r1[j] == y;
    assert m1 == m2;
    assert WithDiscount(r1, m1)[0] == r1[0];
    assert WithDiscount(r2, m1)[0] == r2[0];
  }

  /** A list sorted by discount is determined by its per-discount runs: two
      sorted lists with the same deals at every discount, in the same
      order, are equal. So `SortByDiscount` is THE stable descending sort. */
  lemma {:induction false} SortedDeterminedByRuns(r1: seq<Deal>, r2: seq<Deal>)
    requires SortedByDiscount(r1) && SortedByDiscount(r2)
    requires forall k :: WithDiscount(r1, k) == WithDiscount(r2, k)
    ensures r1 == r2
    decreases |r1| + |r2|
  {
    if r1 != [] && r2 != [] {
      SameHead(r1, r2);
      var h := r1[0];
      forall k
        ensures WithDiscount(r1[1..], k) == WithDiscount(r2[1..], k)
      {
        var hd := if h.discountPct == k then [h] else [];
        assert WithDiscount(r1, k) == hd + WithDiscount(r1[1..], k);
        assert WithDiscount(r2, k) == hd + WithDiscount(r2[1..], k);
        assert WithDiscount(r1[1..], k) == (hd + WithDiscount(r1[1..], k))[|hd|..];
        assert WithDiscount(r2[1..], k) == (hd + WithDiscount(r2[1..], k))[|hd|..];
      }
      SortedDeterminedByRuns(r1[1..], r2[1..]);
      assert r1 == [h] + r1[1..];
      assert r2 == [h] + r2[1..];
    } else if r1 != [] {
      HeadRun(r1);
      assert false;
    } else if r2 != [] {
      HeadRun(r2);
      assert false;
    }
  }

  /** Sorting an already sorted list changes nothing. */
  lemma {:induction false} SortOfSorted(deals: seq<Deal>)
    requires SortedByDiscount(deals)
    ensures SortByDiscount(deals) == deals
  {
    forall k
      ensures WithDiscount(SortByDiscount(deals), k) == WithDiscount(deals, k)
    {
      SortStable(deals, k);
    }
    SortedDeterminedByRuns(SortByDiscount(deals), deals);
  }

  /** Dropping the first deal keeps codes unique, and the first deal's code
      (if any) is absent from the rest. */
  lemma UniqueTail(deals: seq<Deal>)
    requires deals != [] && UniqueCodes(deals)
    ensures UniqueCodes(deals[1..])
    ensures forall y :: y in deals[1..] ==> deals[0].productCode == "" || y.productCode != deals[0].productCode
  {
    var t := deals[1..];
    forall i, j | 0 <= i < |t| && 0 <= j < |t| && i != j && t[i].productCode != ""
      ensures t[i].productCode != t[j].productCode
    {
      assert t[i] == deals[i + 1] && t[j] == deals[j + 1];
    }
    forall y | y in t
      ensures deals[0].productCode == "" || y.productCode != deals[0].productCode
    {
      var m :| 0 <= m < |t| && t[m] == y;
      assert deals[m + 1] == y;
    }
  }

  /** Putting a deal whose code is fresh in front of a unique list keeps it unique. */
  lemma ConsUnique(x: Deal, s: seq<Deal>)
    requires UniqueCodes(s)
    requires forall y :: y in s ==> x.productCode == "" || y.productCode != x.productCode
    ensures UniqueCodes([x] + s)
  {
    var r := [x] + s;
    forall i, j | 0 <= i < |r| && 0 <= j < |r| && i != j && r[i].productCode != ""
      ensures r[i].productCode != r[j].productCode
    {
      if i > 0 && j > 0 {
        assert r[i] == s[i - 1] && r[j] == s[j - 1];
      } else if i == 0 {
        assert r[j] == s[j - 1];
      } else {
        assert r[i] == s[i - 1];
      }
    }
  }

  /** Inserting a deal whose code is fresh keeps codes unique. */
  lemma {:induction false} InsertUnique(d: Deal, sorted: seq<Deal>)
    requires UniqueCodes(sorted)
    requires forall y :: y in sorted ==> d.productCode == "" || y.productCode != d.productCode
    ensures UniqueCodes(Insert(d, sorted))
    decreases |sorted|
  {
    if sorted == [] || sorted[0].discountPct <= d.discountPct {
      ConsUnique(d, sorted);
    } else {
      var t0, t' := sorted[0], sorted[1..];
      UniqueTail(sorted);
      InsertUnique(d, t');
      var rest := Insert(d, t');
      forall y | y in rest
        ensures t0.productCode == "" || y.productCode != t0.productCode
      {
        assert y in multiset(t') + multiset{d};
        if y != d {
          assert y in t';
        }
      }
      ConsUnique(t0, rest);
    }
  }

  /** Sorting keeps codes unique. */
  lemma {:induction false} SortUnique(deals: seq<Deal>)
    requires UniqueCodes(deals)
    ensures UniqueCodes(SortByDiscount(deals))
    decreases |deals|
  {
    if deals != [] {
      var t := deals[1..];
      UniqueTail(deals);
      SortUnique(t);
      var s := SortByDiscount(t);
      forall y | y in s
        ensures y in t
      {
        assert y in multiset(s);
      }
      InsertUnique(deals[0], s);
    }
  }

  // ---------------------------------------------------------------------
  // deduplicate_and_sort

  /** Everything the final deal list promises, for the list built from
      `deals`: unique non-empty codes, discounts never increasing, equal
      discounts in input order, exactly the first occurrences, no longer
      than the input. */
  lemma {:induction false} FinalListFacts(deals: seq<Deal>)
    ensures var r := SortByDiscount(Deduplicated(deals));
            && UniqueCodes(r)
            && SortedByDiscount(r)
            && |r| <= |deals|
            && multiset(r) == multiset(Deduplicated(deals))
            && (forall k :: WithDiscount(r, k) == WithDiscount(Deduplicated(deals), k))
            && (forall i :: 0 <= i < |deals| && IsFirstOfCode(deals, i) ==> deals[i] in r)
            && (forall x :: x in r ==>
                  exists i :: 0 <= i < |deals| && IsFirstOfCode(deals, i) && deals[i] == x)
  {
    var d := Deduplicated(deals);
    var r := SortByDiscount(d);
    DeduplicatedUnique(deals);
    SortUnique(d);
    DeduplicatedSubsequence(deals);
    DeduplicatedKeepsFirsts(deals);
    DeduplicatedOnlyFirsts(deals);
    assert |r| == |multiset(r)| == |multiset(d)| == |d|;
    forall k
      ensures WithDiscount(r, k) == WithDiscount(d, k)
    {
      SortStable(d, k);
    }
    forall x | x in r
      ensures x in d
    {
      assert x in multiset(r);
    }
    forall x | x in d
      ensures x in r
    {
      assert x in multiset(d);
    }
  }

  /** `deduplicate_and_sort`: the loop over the deals with the set of codes
      seen so far, then the sort. */
  method DeduplicateAndSort(deals: seq<Deal>) returns (result: seq<Deal>)
    ensures result == SortByDiscount(Deduplicated(deals))
    ensures UniqueCodes(result) && SortedByDiscount(result)
    ensures |result| <= |deals|
  {
    var seen: set<string> := {};
    var kept: seq<Deal> := [];
    for i := 0 to |deals|
      invariant kept == Deduplicated(deals[..i])
      invariant seen == Codes(deals[..i]) - {""}
    {
      var deal := deals[i];
      var code := deal.productCode;
      assert deals[..i + 1] == deals[..i] + [deal];
      DeduplicatedSnoc(deals[..i], deal);
      CodesSnoc(deals[..i], deal);
      if code != "" && code in seen {
        continue;
      }
      if code != "" {
        seen := seen + {code};
      }
      kept := kept + [deal];
    }
    assert deals[..|deals|] == deals;
    result := SortByDiscount(kept);
    FinalListFacts(deals);
  }
}
