/** Group-by sums over keyed tonnages: the folds behind every `groupby(...).sum()`
    of the dashboard, and the facts that make them loss-free. */
module Folds {

  /** One record reduced to its group key and its tonnage. */
  datatype Entry<K> = Entry(key: K, tons: real)

  /** Sum of every entry's tons. */
  function Total<K>(es: seq<Entry<K>>): real {
    if es == [] then 0.0 else Total(es[..|es| - 1]) + es[|es| - 1].tons
  }

  /** Sum of the tons of the entries whose key is k: one group of a group-by sum. */
  function SumOn<K(==)>(es: seq<Entry<K>>, k: K): real {
    if es == [] then 0.0
    else SumOn(es[..|es| - 1], k) + (if es[|es| - 1].key == k then es[|es| - 1].tons else 0.0)
  }

  /** The entries whose key satisfies p, in their original order (a `query` filter). */
  function Select<K>(es: seq<Entry<K>>, p: K -> bool): seq<Entry<K>> {
    if es == [] then []
    else Select(es[..|es| - 1], p) + (if p(es[|es| - 1].key) then [es[|es| - 1]] else [])
  }

  /** One row per key of ks, holding that key's group sum. */
  function GroupRows<K(==)>(ks: seq<K>, es: seq<Entry<K>>): (r: seq<Entry<K>>)
    ensures |r| == |ks|
    ensures forall i :: 0 <= i < |ks| ==> r[i] == Entry(ks[i], SumOn(es, ks[i]))
  {
    seq(|ks|, i requires 0 <= i < |ks| => Entry(ks[i], SumOn(es, ks[i])))
  }

  predicate NoDup<K(==)>(ks: seq<K>) {
    forall i, j :: 0 <= i < j < |ks| ==> ks[i] != ks[j]
  }

  predicate Increasing(ds: seq<int>) {
    forall i, j :: 0 <= i < j < |ds| ==> ds[i] < ds[j]
  }

  function Keys<K>(es: seq<Entry<K>>): (ks: seq<K>)
    ensures |ks| == |es|
    ensures forall i :: 0 <= i < |es| ==> ks[i] == es[i].key
  {
    seq(|es|, i requires 0 <= i < |es| => es[i].key)
  }

  /** Inserts d into a strictly increasing sequence unless it is already there. */
  function InsertDay(d: int, ds: seq<int>): (r: seq<int>)
    requires Increasing(ds)
    ensures Increasing(r)
    ensures forall e :: e in r <==> e in ds || e == d
  {
    if ds == [] then [d]
    else if d < ds[0] then [d] + ds
    else if d == ds[0] then ds
    else
      var t := InsertDay(d, ds[1..]);
      AboveHead(ds, d, t);
      [ds[0]] + t
  }

  lemma AboveHead(ds: seq<int>, d: int, t: seq<int>)
    requires Increasing(ds) && |ds| > 0 && ds[0] < d
    requires forall e :: e in t <==> e in ds[1..] || e == d
    ensures forall j :: 0 <= j < |t| ==> ds[0] < t[j]
  {
    forall j | 0 <= j < |t| ensures ds[0] < t[j] {
      assert t[j] in t;
      if t[j] != d {
        var k :| 0 <= k < |ds[1..]| && ds[1..][k] == t[j];
        assert ds[k + 1] == t[j];
      }
    }
  }

  /** The distinct days of xs in ascending order: the index of a pandas group-by on days. */
  function SortedDays(xs: seq<int>): (r: seq<int>)
    ensures Increasing(r)
    ensures forall d :: d in r <==> d in xs
  {
    if xs == [] then [] else InsertDay(xs[|xs| - 1], SortedDays(xs[..|xs| - 1]))
  }

  lemma IncreasingNoDup(ds: seq<int>)
    requires Increasing(ds)
    ensures NoDup(ds)
  {
  }

  /** A strictly increasing sequence is determined by its elements. */
  lemma {:induction false} IncreasingUnique(xs: seq<int>, ys: seq<int>)
    requires Increasing(xs) && Increasing(ys)
    requires forall d :: d in xs <==> d in ys
    ensures xs == ys
  {
    assert xs != [] ==> xs[0] in xs && xs[0] in ys;
    assert ys != [] ==> ys[0] in ys && ys[0] in xs;
    if xs != [] {
      assert xs[0] in xs;
      var k :| 0 <= k < |ys| && ys[k] == xs[0];
      assert ys[0] in ys;
      var m :| 0 <= m < |xs| && xs[m] == ys[0];
      assert ys[0] <= ys[k] && xs[0] <= xs[m];
      forall d ensures d in xs[1..] <==> d in ys[1..] {
        if d in xs[1..] {
          assert d in ys && d != ys[0];
        }
        if d in ys[1..] {
          assert d in xs && d != xs[0];
        }
      }
      assert xs[0] == ys[0];
      IncreasingUnique(xs[1..], ys[1..]);
      assert xs == [xs[0]] + xs[1..] && ys == [ys[0]] + ys[1..];
    }
  }

  /** A new element grows a set by one. */
  lemma InConcat<T>(a: seq<T>, b: seq<T>, x: T)
    ensures x in a + b <==> x in a || x in b
  {
  }

  lemma CardAddNew<T>(a: set<T>, x: T)
    requires x !in a
    ensures |a + {x}| == |a| + 1
  {
  }

  lemma {:induction false} TotalSnoc<K>(es: seq<Entry<K>>, x: Entry<K>)
    ensures Total(es + [x]) == Total(es) + x.tons
  {
    assert (es + [x])[..|es|] == es;
  }

  lemma {:induction false} SumOnSnoc<K>(es: seq<Entry<K>>, x: Entry<K>, k: K)
    ensures SumOn(es + [x], k) == SumOn(es, k) + (if x.key == k then x.tons else 0.0)
  {
    assert (es + [x])[..|es|] == es;
  }

  lemma {:induction false} SelectSnoc<K>(es: seq<Entry<K>>, x: Entry<K>, p: K -> bool)
    ensures Select(es + [x], p) == Select(es, p) + (if p(x.key) then [x] else [])
  {
    assert (es + [x])[..|es|] == es;
  }

  /** Adding one entry to the table adds its tons to exactly one group row, if its key is a
      row's key and the filter keeps it. */
  lemma {:induction false} GroupRowsSnoc<K>(ks: seq<K>, es: seq<Entry<K>>, x: Entry<K>, p: K -> bool)
    requires NoDup(ks)
    ensures Total(Select(GroupRows(ks, es + [x]), p))
         == Total(Select(GroupRows(ks, es), p)) + (if x.key in ks && p(x.key) then x.tons else 0.0)
  {
    if ks != [] {
      var n := |ks|;
      var front, k := ks[..n - 1], ks[n - 1];
      assert NoDup(front);
      GroupRowsSnoc(front, es, x, p);
      var big, small := GroupRows(ks, es + [x]), GroupRows(ks, es);
      var bigFront, smallFront := GroupRows(front, es + [x]), GroupRows(front, es);
      assert big == bigFront + [big[n - 1]];
      assert small == smallFront + [small[n - 1]];
      SelectSnoc(bigFront, big[n - 1], p);
      SelectSnoc(smallFront, small[n - 1], p);
      SumOnSnoc(es, x, k);
      assert big[n - 1].tons == small[n - 1].tons + (if x.key == k then x.tons else 0.0);
      if p(k) {
        TotalSnoc(Select(bigFront, p), big[n - 1]);
        TotalSnoc(Select(smallFront, p), small[n - 1]);
        assert Select(big, p) == Select(bigFront, p) + [big[n - 1]];
        assert Select(small, p) == Select(smallFront, p) + [small[n - 1]];
      } else {
        assert Select(big, p) == Select(bigFront, p);
        assert Select(small, p) == Select(smallFront, p);
      }
      assert ks == front + [k];
      assert x.key in ks <==> x.key in front || x.key == k;
      assert k !in front;
    }
  }

  lemma {:induction false} GroupRowsEmpty<K>(ks: seq<K>, p: K -> bool)
    ensures Total(Select(GroupRows(ks, []), p)) == 0.0
  {
    if ks != [] {
      var n := |ks|;
      GroupRowsEmpty(ks[..n - 1], p);
      var rows := GroupRows(ks, []);
      assert rows == GroupRows(ks[..n - 1], []) + [rows[n - 1]];
      SelectSnoc(GroupRows(ks[..n - 1], []), rows[n - 1], p);
      assert rows[n - 1].tons == 0.0;
      if p(ks[n - 1]) {
        TotalSnoc(Select(GroupRows(ks[..n - 1], []), p), rows[n - 1]);
        assert Select(rows, p) == Select(GroupRows(ks[..n - 1], []), p) + [rows[n - 1]];
        assert Total(Select(rows, p)) == 0.0;
      } else {
        assert Select(rows, p) == Select(GroupRows(ks[..n - 1], []), p);
      }
    }
  }

  /** Group sums lose nothing: when every key of es has a row, the rows the filter p keeps
      total exactly the entries p keeps. */
  lemma {:induction false} GroupedTotal<K>(ks: seq<K>, es: seq<Entry<K>>, p: K -> bool)
    requires NoDup(ks)
    requires forall i :: 0 <= i < |es| ==> es[i].key in ks
    ensures Total(Select(GroupRows(ks, es), p)) == Total(Select(es, p))
  {
    if es == [] {
      GroupRowsEmpty(ks, p);
    } else {
      var n := |es|;
      var front, x := es[..n - 1], es[n - 1];
      assert es == front + [x];
      assert forall i :: 0 <= i < n - 1 ==> front[i] == es[i];
      GroupedTotal(ks, front, p);
      GroupedTotalStep(ks, front, x, p);
    }
  }

  /** One more entry whose key has a row adds the same tons to both sides of GroupedTotal. */
  lemma GroupedTotalStep<K>(ks: seq<K>, es: seq<Entry<K>>, x: Entry<K>, p: K -> bool)
    requires NoDup(ks) && x.key in ks
    ensures Total(Select(GroupRows(ks, es + [x]), p)) - Total(Select(es + [x], p))
         == Total(Select(GroupRows(ks, es), p)) - Total(Select(es, p))
  {
    GroupRowsSnoc(ks, es, x, p);
    SelectSnoc(es, x, p);
    if p(x.key) {
      TotalSnoc(Select(es, p), x);
    } else {
      assert Select(es, p) + [] == Select(es, p);
    }
  }

  function Always<K>(): K -> bool {
    k => true
  }

  lemma {:induction false} SelectAlways<K>(es: seq<Entry<K>>)
    ensures Select(es, Always()) == es
  {
    if es != [] {
      SelectAlways(es[..|es| - 1]);
      assert es == es[..|es| - 1] + [es[|es| - 1]];
    }
  }

  function Not<K>(p: K -> bool): K -> bool {
    k => !p(k)
  }

  lemma SelectSnocTotal<K>(es: seq<Entry<K>>, x: Entry<K>, p: K -> bool)
    ensures Total(Select(es + [x], p)) == Total(Select(es, p)) + (if p(x.key) then x.tons else 0.0)
  {
    SelectSnoc(es, x, p);
    if p(x.key) {
      TotalSnoc(Select(es, p), x);
    } else {
      assert Select(es + [x], p) == Select(es, p);
    }
  }

  lemma SelectStep<K>(es: seq<Entry<K>>, p: K -> bool)
    requires es != []
    ensures Total(Select(es, p))
         == Total(Select(es[..|es| - 1], p)) + (if p(es[|es| - 1].key) then es[|es| - 1].tons else 0.0)
  {
    var front, x := es[..|es| - 1], es[|es| - 1];
    if p(x.key) {
      assert Select(es, p) == Select(front, p) + [x];
      TotalSnoc(Select(front, p), x);
    } else {
      assert Select(es, p) == Select(front, p) + [];
      assert Select(front, p) + [] == Select(front, p);
    }
  }

  lemma {:induction false} TotalCons<K>(x: Entry<K>, es: seq<Entry<K>>)
    ensures Total([x] + es) == x.tons + Total(es)
  {
    if es != [] {
      var n := |es|;
      TotalCons(x, es[..n - 1]);
      assert ([x] + es)[..n] == [x] + es[..n - 1];
    }
  }

  /** A filter and its complement split the total. */
  lemma {:induction false} SelectSplit<K>(es: seq<Entry<K>>, p: K -> bool)
    ensures Total(es) == Total(Select(es, p)) + Total(Select(es, Not(p)))
  {
    if es != [] {
      SelectSplit(es[..|es| - 1], p);
      SelectStep(es, p);
      SelectStep(es, Not(p));
    }
  }

  predicate NonNegative<K>(es: seq<Entry<K>>) {
    forall i :: 0 <= i < |es| ==> es[i].tons >= 0.0
  }

  lemma {:induction false} TotalNonNegative<K>(es: seq<Entry<K>>)
    requires NonNegative(es)
    ensures Total(es) >= 0.0
  {
    if es != [] {
      TotalNonNegative(es[..|es| - 1]);
    }
  }

  /** With no negative tonnage, what a filter keeps never exceeds the total. */
  lemma SelectAtMostTotal<K>(es: seq<Entry<K>>, p: K -> bool)
    requires NonNegative(es)
    ensures 0.0 <= Total(Select(es, p)) <= Total(es)
  {
    SelectSplit(es, p);
    SelectNonNegative(es, p);
    SelectNonNegative(es, Not(p));
    TotalNonNegative(Select(es, p));
    TotalNonNegative(Select(es, Not(p)));
  }

  lemma {:induction false} SelectNonNegative<K>(es: seq<Entry<K>>, p: K -> bool)
    requires NonNegative(es)
    ensures NonNegative(Select(es, p))
  {
    if es != [] {
      var n := |es|;
      SelectNonNegative(es[..n - 1], p);
      assert es == es[..n - 1] + [es[n - 1]];
      SelectSnoc(es[..n - 1], es[n - 1], p);
    }
  }

  /** Days d with lo <= d <= hi (a `query("Day>=lo & Day<=hi")`). */
  function Between(lo: int, hi: int): int -> bool {
    d => lo <= d <= hi
  }

  /** Days d with d <= hi. */
  function AtMost(hi: int): int -> bool {
    d => d <= hi
  }

  /** Widening a day window by its last day adds that day's group sum. */
  lemma {:induction false} WindowGrow(es: seq<Entry<int>>, lo: int, hi: int)
    requires lo <= hi
    ensures Total(Select(es, Between(lo, hi))) == Total(Select(es, Between(lo, hi - 1))) + SumOn(es, hi)
  {
    if es != [] {
      WindowGrow(es[..|es| - 1], lo, hi);
      SelectStep(es, Between(lo, hi));
      SelectStep(es, Between(lo, hi - 1));
    }
  }

  /** A filter that keeps nothing sums to zero. */
  lemma {:induction false} SelectNothing<K>(es: seq<Entry<K>>, p: K -> bool)
    requires forall i :: 0 <= i < |es| ==> !p(es[i].key)
    ensures Total(Select(es, p)) == 0.0
  {
    if es != [] {
      SelectNothing(es[..|es| - 1], p);
      SelectStep(es, p);
    }
  }

  /** A key no entry carries has group sum zero. */
  lemma {:induction false} SumOnAbsent<K>(es: seq<Entry<K>>, k: K)
    requires forall i :: 0 <= i < |es| ==> es[i].key != k
    ensures SumOn(es, k) == 0.0
  {
    if es != [] {
      SumOnAbsent(es[..|es| - 1], k);
    }
  }

  /** `series.get(k, default)`: the value of the first row keyed k, else the default. */
  function Get<K(==)>(rows: seq<Entry<K>>, k: K, default: real): real {
    if rows == [] then default
    else if rows[0].key == k then rows[0].tons
    else Get(rows[1..], k, default)
  }

  lemma {:induction false} GetKeyed<K>(rows: seq<Entry<K>>, k: K, default: real, i: nat)
    requires NoDup(Keys(rows))
    requires i < |rows| && rows[i].key == k
    ensures Get(rows, k, default) == rows[i].tons
  {
    if i > 0 {
      assert Keys(rows[1..]) == Keys(rows)[1..];
      GetKeyed(rows[1..], k, default, i - 1);
    }
  }

  lemma {:induction false} GetMissing<K>(rows: seq<Entry<K>>, k: K, default: real)
    requires forall i :: 0 <= i < |rows| ==> rows[i].key != k
    ensures Get(rows, k, default) == default
  {
    if rows != [] {
      GetMissing(rows[1..], k, default);
    }
  }
}
