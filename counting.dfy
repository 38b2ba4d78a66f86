/**
 * Specification of the accounting done over the collected results: how many
 * records carry a code, the histogram those counts make, the total of a
 * histogram, and the facts the report relies on (counts add up to the number
 * of records, the success count is the 2xx part of the histogram, and none of
 * it depends on the order in which the records arrive).
 */
module Counting {
  import opened Results

  /** Number of records whose status code lies in [lo, hi). */
  function CountInRange(rs: seq<Result>, lo: int, hi: int): (n: nat)
    ensures n <= |rs|
    ensures n == 0 <==> forall i :: 0 <= i < |rs| ==> !(lo <= rs[i].statusCode < hi)
    ensures n == |rs| <==> forall i :: 0 <= i < |rs| ==> lo <= rs[i].statusCode < hi
  {
    if rs == [] then 0
    else
      var last := rs[|rs| - 1];
      CountInRange(rs[..|rs| - 1], lo, hi) + (if lo <= last.statusCode < hi then 1 else 0)
  }

  /** Number of records carrying exactly `code`. */
  function CountOf(rs: seq<Result>, code: int): nat
  {
    CountInRange(rs, code, code + 1)
  }

  /** Number of records counted as successes, i.e. with a code in [200, 300). */
  function SuccessCount(rs: seq<Result>): nat
  {
    CountInRange(rs, SuccessLow, SuccessHigh)
  }

  /** The codes that occur in the records. */
  function Codes(rs: seq<Result>): set<int>
  {
    set i | 0 <= i < |rs| :: rs[i].statusCode
  }

  /**
   * Reference histogram: every code seen, mapped to the number of records
   * that carry it, and no other key.
   */
  function Histogram(rs: seq<Result>): map<int, int>
  {
    map c | c in Codes(rs) :: CountOf(rs, c)
  }

  /** One more record with `code` in histogram `m` (the `counts[code]++` of the loop). */
  function Bump(m: map<int, int>, code: int): (m': map<int, int>)
    ensures m'.Keys == m.Keys + {code}
    ensures m'[code] == (if code in m then m[code] else 0) + 1
    ensures forall c :: c in m && c != code ==> m'[c] == m[c]
  {
    m[code := (if code in m then m[code] else 0) + 1]
  }

  /** Some key of a non-empty map, used to add up its entries one at a time. */
  ghost function PickKey(m: map<int, int>): (k: int)
    requires m != map[]
    ensures k in m
  {
    assert exists k :: k in m by {
      if forall k :: k !in m { assert false; }
    }
    var k :| k in m; k
  }

  /** Sum of all counts of a histogram. */
  ghost function TotalCount(m: map<int, int>): int
    decreases |m|
  {
    if m == map[] then 0
    else
      var k := PickKey(m);
      m[k] + TotalCount(m - {k})
  }

  /** The histogram entries whose code counts as a success. */
  function SuccessEntries(m: map<int, int>): map<int, int>
  {
    map c | c in m && IsSuccess(c) :: m[c]
  }

  /** The histogram entries the report lists as "other" codes. */
  function OtherEntries(m: map<int, int>): map<int, int>
  {
    map c | c in m && ListedAsOther(c) :: m[c]
  }

  // ---------------------------------------------------------------------
  // Counting over sequences of records

  /** A code occurs in the records iff some record carries it. */
  lemma CodesIffCounted(rs: seq<Result>, code: int)
    ensures code in Codes(rs) <==> CountOf(rs, code) > 0
  {
  }

  /**
   * The histogram has a key for exactly the codes some record carries, and
   * each key maps to the number of records carrying it.
   */
  lemma HistogramCounts(rs: seq<Result>)
    ensures forall c :: c in Histogram(rs) <==> CountOf(rs, c) > 0
    ensures forall c :: c in Histogram(rs) ==> Histogram(rs)[c] == CountOf(rs, c)
  {
  }

  /** Appending a record adds one to the success count iff its code is a success. */
  lemma SuccessCountSnoc(rs: seq<Result>, r: Result)
    ensures SuccessCount(rs + [r]) == SuccessCount(rs) + (if IsSuccess(r.statusCode) then 1 else 0)
  {
  }

  /** Counting distributes over concatenation. */
  lemma {:induction false} CountInRangeAppend(p: seq<Result>, q: seq<Result>, lo: int, hi: int)
    ensures CountInRange(p + q, lo, hi) == CountInRange(p, lo, hi) + CountInRange(q, lo, hi)
    decreases |q|
  {
    if q == [] {
      assert p + q == p;
    } else {
      var q' := q[..|q| - 1];
      assert (p + q)[..|p + q| - 1] == p + q';
      assert (p + q)[|p + q| - 1] == q[|q| - 1];
      CountInRangeAppend(p, q', lo, hi);
    }
  }

  /** Counting depends only on which records there are, not on their order. */
  lemma {:induction false} CountInRangePermutation(a: seq<Result>, b: seq<Result>, lo: int, hi: int)
    requires multiset(a) == multiset(b)
    ensures CountInRange(a, lo, hi) == CountInRange(b, lo, hi)
    decreases |a|
  {
    if a != [] {
      var a' := a[..|a| - 1];
      var x := a[|a| - 1];
      assert a == a' + [x];
      assert x in multiset(b);
      var j :| 0 <= j < |b| && b[j] == x;
      var b' := b[..j] + b[j + 1..];
      assert b == b[..j] + [x] + b[j + 1..];
      assert multiset(a') + multiset([x]) == multiset(b') + multiset([x]);
      assert multiset(a') == multiset(a') + multiset([x]) - multiset([x]);
      CountInRangePermutation(a', b', lo, hi);
      CountInRangeAppend(a', [x], lo, hi);
      CountInRangeAppend(b[..j], [x], lo, hi);
      CountInRangeAppend(b[..j] + [x], b[j + 1..], lo, hi);
      CountInRangeAppend(b[..j], b[j + 1..], lo, hi);
    } else {
      assert |b| == |multiset(b)| == 0;
    }
  }

  /** Appending a record adds one to the count of its code and leaves the rest. */
  lemma HistogramSnoc(rs: seq<Result>, r: Result)
    ensures Histogram(rs + [r]) == Bump(Histogram(rs), r.statusCode)
  {
    var h, h' := Histogram(rs), Histogram(rs + [r]);
    assert (rs + [r])[..|rs|] == rs;
    assert Codes(rs + [r]) == Codes(rs) + {r.statusCode} by {
      forall c | c in Codes(rs + [r]) ensures c in Codes(rs) + {r.statusCode} {
        var i :| 0 <= i < |rs + [r]| && (rs + [r])[i].statusCode == c;
        if i < |rs| { assert rs[i].statusCode == c; }
      }
      forall c | c in Codes(rs) ensures c in Codes(rs + [r]) {
        var i :| 0 <= i < |rs| && rs[i].statusCode == c;
        assert (rs + [r])[i].statusCode == c;
      }
      assert (rs + [r])[|rs|].statusCode == r.statusCode;
    }
    forall c | c in h'
      ensures h'[c] == Bump(h, r.statusCode)[c]
    {
      CodesIffCounted(rs, c);
    }
  }

  // ---------------------------------------------------------------------
  // Sums over histograms

  /** A histogram's total can be computed by taking out any one entry first. */
  lemma {:induction false} TotalCountRemove(m: map<int, int>, k: int)
    requires k in m
    ensures TotalCount(m) == m[k] + TotalCount(m - {k})
    decreases |m|
  {
    var j := PickKey(m);
    if j != k {
      var mj, mk := m - {j}, m - {k};
      assert |mj| < |m|;
      assert |mk| < |m|;
      TotalCountRemove(mj, k);
      TotalCountRemove(mk, j);
      assert mj - {k} == mk - {j};
    }
  }

  /** One more record adds exactly one to the histogram's total. */
  lemma TotalCountBump(m: map<int, int>, code: int)
    ensures TotalCount(Bump(m, code)) == TotalCount(m) + 1
  {
    var m' := Bump(m, code);
    TotalCountRemove(m', code);
    if code in m {
      TotalCountRemove(m, code);
      assert m' - {code} == m - {code};
    } else {
      assert m' - {code} == m;
    }
  }

  /**
   * Every record is counted exactly once: the histogram's counts add up to
   * the number of records.
   */
  lemma {:induction false} HistogramTotal(rs: seq<Result>)
    ensures TotalCount(Histogram(rs)) == |rs|
  {
    if rs != [] {
      var rs', r := rs[..|rs| - 1], rs[|rs| - 1];
      assert rs == rs' + [r];
      HistogramTotal(rs');
      HistogramSnoc(rs', r);
      TotalCountBump(Histogram(rs'), r.statusCode);
    } else {
      assert Histogram(rs) == map[];
    }
  }

  /** A histogram's total splits into its success part and its "other" part. */
  lemma {:induction false} TotalCountSplit(m: map<int, int>)
    ensures TotalCount(m) == TotalCount(SuccessEntries(m)) + TotalCount(OtherEntries(m))
    decreases |m|
  {
    if m == map[] {
      assert SuccessEntries(m) == map[];
      assert OtherEntries(m) == map[];
    } else {
      var k := PickKey(m);
      var m' := m - {k};
      assert |m'| < |m|;
      TotalCountSplit(m');
      if IsSuccess(k) {
        TotalCountRemove(SuccessEntries(m), k);
        assert SuccessEntries(m) - {k} == SuccessEntries(m');
        assert OtherEntries(m) == OtherEntries(m');
      } else {
        TotalCountRemove(OtherEntries(m), k);
        assert OtherEntries(m) - {k} == OtherEntries(m');
        assert SuccessEntries(m) == SuccessEntries(m');
      }
    }
  }

  /** Only a successful code changes the success part of a histogram. */
  lemma SuccessEntriesBump(m: map<int, int>, code: int)
    ensures SuccessEntries(Bump(m, code))
         == if IsSuccess(code) then Bump(SuccessEntries(m), code) else SuccessEntries(m)
  {
  }

  /** The success count equals the sum of the histogram entries with codes in [200, 300). */
  lemma {:induction false} SuccessIsHistogram2xx(rs: seq<Result>)
    ensures TotalCount(SuccessEntries(Histogram(rs))) == SuccessCount(rs)
  {
    if rs != [] {
      var rs', r := rs[..|rs| - 1], rs[|rs| - 1];
      assert rs == rs' + [r];
      SuccessIsHistogram2xx(rs');
      HistogramSnoc(rs', r);
      var h := Histogram(rs');
      SuccessEntriesBump(h, r.statusCode);
      if IsSuccess(r.statusCode) {
        TotalCountBump(SuccessEntries(h), r.statusCode);
      }
    } else {
      assert SuccessEntries(Histogram(rs)) == map[];
    }
  }

  /**
   * The report accounts for every request: the success count plus the
   * counts listed as "other" codes add up to the number of records.
   */
  lemma ReportAccountsForAll(rs: seq<Result>)
    ensures SuccessCount(rs) + TotalCount(OtherEntries(Histogram(rs))) == |rs|
    ensures SuccessCount(rs) <= |rs|
  {
    HistogramTotal(rs);
    SuccessIsHistogram2xx(rs);
    TotalCountSplit(Histogram(rs));
  }

  /**
   * The success line is labelled "status HTTP 200", but it counts all of
   * [200, 300): it is at least the number of 200s, and equal to it exactly
   * when no record carries another 2xx code.
   */
  lemma {:induction false} SuccessCountsAll2xx(rs: seq<Result>)
    ensures SuccessCount(rs) >= CountOf(rs, OkCode)
    ensures SuccessCount(rs) == CountOf(rs, OkCode)
        <==> forall i :: 0 <= i < |rs| && IsSuccess(rs[i].statusCode) ==> rs[i].statusCode == OkCode
  {
    if rs != [] {
      var rs', r := rs[..|rs| - 1], rs[|rs| - 1];
      SuccessCountsAll2xx(rs');
      assert rs == rs' + [r];
      CountInRangeAppend(rs', [r], SuccessLow, SuccessHigh);
      CountInRangeAppend(rs', [r], OkCode, OkCode + 1);
      if SuccessCount(rs) == CountOf(rs, OkCode) {
        forall i | 0 <= i < |rs| && IsSuccess(rs[i].statusCode)
          ensures rs[i].statusCode == OkCode
        {
          if i < |rs'| { assert rs'[i] == rs[i]; }
        }
      } else if SuccessCount(rs') != CountOf(rs', OkCode) {
        var i :| 0 <= i < |rs'| && IsSuccess(rs'[i].statusCode) && rs'[i].statusCode != OkCode;
        assert rs[i] == rs'[i];
      } else {
        assert IsSuccess(rs[|rs'|].statusCode) && rs[|rs'|].statusCode != OkCode;
      }
    }
  }

  /**
   * The records arrive over the channel in an unspecified order; the
   * histogram and the success count are the same for every order.
   */
  lemma HistogramOrderIndependent(a: seq<Result>, b: seq<Result>)
    requires multiset(a) == multiset(b)
    ensures Histogram(a) == Histogram(b)
    ensures SuccessCount(a) == SuccessCount(b)
  {
    CountInRangePermutation(a, b, SuccessLow, SuccessHigh);
    forall c ensures CountOf(a, c) == CountOf(b, c) && (c in Codes(a) <==> c in Codes(b)) {
      CountInRangePermutation(a, b, c, c + 1);
      CodesIffCounted(a, c);
      CodesIffCounted(b, c);
    }
  }
}
