/** Forecast grouping in `backend/weatherService.js`: `groupForecastsByDay`
    and `getMostFrequent`.

    Each forecast item carries a timestamp `dt` in seconds; the date key
    (`new Date(dt * 1000).toISOString().split('T')[0]`) is the parameter
    `dateKey`. Date keys are never integer-like property names, so the
    values of the grouping object come back in insertion order, which the
    model keeps in the sequence `order`. Temperatures, humidity and wind
    speed are integers here; the averages and the rounding are left out. */
module WeatherService {
  import opened Wrappers

  /** The fields of one provider item that the grouping reads. */
  datatype Item = Item(dt: int, temp: int, condition: string, description: string,
                       humidity: int, windSpeed: int, icon: string)

  /** The arrays one day collects, in input order. */
  datatype Group = Group(date: string, temperatures: seq<int>, conditions: seq<string>,
                         descriptions: seq<string>, humidity: seq<int>, windSpeed: seq<int>,
                         icons: seq<string>)

  /** One day of the result (without day name and averages). */
  datatype DayForecast = DayForecast(date: string, minTemp: int, maxTemp: int,
                                     condition: string, description: string, icon: string)

  const MaxDays: nat := 7

  // -----------------------------------------------------------------------
  // `getMostFrequent`

  /** `base.filter(v => v === x).length`: the sort key of `getMostFrequent`. */
  function Count<T(==)>(base: seq<T>, x: T): nat
    decreases |base|
  {
    if base == [] then 0
    else Count(base[..|base| - 1], x) + if base[|base| - 1] == x then 1 else 0
  }

  /** `x` put into `s` (already in key order) after every element whose key
      does not exceed its own: the step of a stable sort by key. */
  function InsertByCount<T(==)>(x: T, s: seq<T>, base: seq<T>): (r: seq<T>)
    ensures |r| == |s| + 1
    ensures r[|r| - 1] == if s == [] || Count(base, s[|s| - 1]) <= Count(base, x) then x else s[|s| - 1]
    decreases |s|
  {
    if s == [] || Count(base, s[|s| - 1]) <= Count(base, x) then s + [x]
    else
      var init := s[..|s| - 1];
      InsertByCount(x, init, base) + [s[|s| - 1]]
  }

  lemma {:induction false} InsertByCountPermutes<T>(x: T, s: seq<T>, base: seq<T>)
    ensures multiset(InsertByCount(x, s, base)) == multiset(s) + multiset{x}
    decreases |s|
  {
    if !(s == [] || Count(base, s[|s| - 1]) <= Count(base, x)) {
      var init := s[..|s| - 1];
      assert s == init + [s[|s| - 1]];
      InsertByCountPermutes(x, init, base);
    }
  }

  /** `s.sort((a, b) => count(a) - count(b))` with counts taken in `base`:
      a stable sort by key, here as insertion sort. */
  function SortByCount<T(==)>(s: seq<T>, base: seq<T>): (r: seq<T>)
    ensures |r| == |s|
    decreases |s|
  {
    if s == [] then []
    else InsertByCount(s[|s| - 1], SortByCount(s[..|s| - 1], base), base)
  }

  /** The sort rearranges `s` and neither adds nor drops an element. */
  lemma {:induction false} SortByCountPermutes<T>(s: seq<T>, base: seq<T>)
    ensures multiset(SortByCount(s, base)) == multiset(s)
    decreases |s|
  {
    if s != [] {
      var init := s[..|s| - 1];
      assert s == init + [s[|s| - 1]];
      SortByCountPermutes(init, base);
      InsertByCountPermutes(s[|s| - 1], SortByCount(init, base), base);
    }
  }

  /** `s` is in ascending order of count in `base`: what the comparator
      `count(a) - count(b)` asks of the sorted array. */
  ghost predicate ByCount<T>(s: seq<T>, base: seq<T>) {
    forall i, j :: 0 <= i < j < |s| ==> Count(base, s[i]) <= Count(base, s[j])
  }

  /** An element whose count is at least that of every element of `s` may
      follow it. */
  lemma ByCountSnoc<T>(s: seq<T>, x: T, base: seq<T>)
    requires ByCount(s, base)
    requires forall y :: y in s ==> Count(base, y) <= Count(base, x)
    ensures ByCount(s + [x], base)
  {
    forall i, j | 0 <= i < j < |s + [x]| ensures Count(base, (s + [x])[i]) <= Count(base, (s + [x])[j]) {
      assert (s + [x])[i] == s[i];
      if j < |s| {
        assert (s + [x])[j] == s[j];
      }
    }
  }

  /** Inserting into a sequence in key order keeps it in key order. */
  lemma {:induction false} InsertByCountSorted<T>(x: T, s: seq<T>, base: seq<T>)
    requires ByCount(s, base)
    ensures ByCount(InsertByCount(x, s, base), base)
    decreases |s|
  {
    if s == [] || Count(base, s[|s| - 1]) <= Count(base, x) {
      forall y | y in s ensures Count(base, y) <= Count(base, x) {
        var i :| 0 <= i < |s| && s[i] == y;
      }
      ByCountSnoc(s, x, base);
    } else {
      var init := s[..|s| - 1];
      var last := s[|s| - 1];
      assert ByCount(init, base) by {
        forall i, j | 0 <= i < j < |init| ensures Count(base, init[i]) <= Count(base, init[j]) {
          assert init[i] == s[i] && init[j] == s[j];
        }
      }
      InsertByCountSorted(x, init, base);
      var rest := InsertByCount(x, init, base);
      forall y | y in rest ensures Count(base, y) <= Count(base, last) {
        InsertByCountPermutes(x, init, base);
        assert y in multiset(rest);
        if y != x {
          assert y in multiset(init);
          var i :| 0 <= i < |init| && init[i] == y;
          assert s[i] == y;
        }
      }
      ByCountSnoc(rest, last, base);
    }
  }

  /** The sort puts the elements in ascending order of count. */
  lemma {:induction false} SortByCountOrdered<T>(s: seq<T>, base: seq<T>)
    ensures ByCount(SortByCount(s, base), base)
    decreases |s|
  {
    if s != [] {
      SortByCountOrdered(s[..|s| - 1], base);
      InsertByCountSorted(s[|s| - 1], SortByCount(s[..|s| - 1], base), base);
    }
  }

  /** The elements of `s` whose count in `base` is `k`, in their order in `s`. */
  function WithCount<T(==)>(s: seq<T>, base: seq<T>, k: nat): (r: seq<T>)
    ensures forall x :: x in r ==> Count(base, x) == k
    decreases |s|
  {
    if s == [] then []
    else WithCount(s[..|s| - 1], base, k) + if Count(base, s[|s| - 1]) == k then [s[|s| - 1]] else []
  }

  lemma WithCountSnoc<T>(s: seq<T>, x: T, base: seq<T>, k: nat)
    ensures WithCount(s + [x], base, k) == WithCount(s, base, k) + if Count(base, x) == k then [x] else []
  {
    assert (s + [x])[..|s|] == s;
  }

  /** The step of the sort is stable: `x` goes after every element with the
      same count. */
  lemma {:induction false} InsertByCountStable<T>(x: T, s: seq<T>, base: seq<T>, k: nat)
    ensures WithCount(InsertByCount(x, s, base), base, k) ==
              WithCount(s, base, k) + if Count(base, x) == k then [x] else []
    decreases |s|
  {
    if s == [] || Count(base, s[|s| - 1]) <= Count(base, x) {
      WithCountSnoc(s, x, base, k);
    } else {
      var init := s[..|s| - 1];
      var last := s[|s| - 1];
      assert s == init + [last];
      InsertByCountStable(x, init, base, k);
      WithCountSnoc(InsertByCount(x, init, base), last, base, k);
      WithCountSnoc(init, last, base, k);
    }
  }

  /** The sort keeps elements with equal counts in their input order. */
  lemma {:induction false} SortByCountStable<T>(s: seq<T>, base: seq<T>, k: nat)
    ensures WithCount(SortByCount(s, base), base, k) == WithCount(s, base, k)
    decreases |s|
  {
    if s != [] {
      var init := s[..|s| - 1];
      var last := s[|s| - 1];
      assert s == init + [last];
      SortByCountStable(init, base, k);
      InsertByCountStable(last, SortByCount(init, base), base, k);
      WithCountSnoc(init, last, base, k);
    }
  }

  /** The last element has a count no other element exceeds, and it ends
      the elements with that count. */
  lemma LastEndsItsCount<T>(s: seq<T>, base: seq<T>)
    requires s != [] && ByCount(s, base)
    ensures var k := Count(base, s[|s| - 1]);
            WithCount(s, base, k) == WithCount(s[..|s| - 1], base, k) + [s[|s| - 1]]
  {
  }

  /** Any element with count `k` bounds `k` by the last element's count. */
  lemma CountBelowLast<T>(s: seq<T>, base: seq<T>, k: nat)
    requires s != [] && ByCount(s, base) && WithCount(s, base, k) != []
    ensures k <= Count(base, s[|s| - 1])
  {
    var y := WithCount(s, base, k)[0];
    WithCountInSeq(s, base, k, y);
    var i :| 0 <= i < |s| && s[i] == y;
  }

  lemma {:induction false} WithCountInSeq<T>(s: seq<T>, base: seq<T>, k: nat, y: T)
    requires y in WithCount(s, base, k)
    ensures y in s
    decreases |s|
  {
    var init := s[..|s| - 1];
    if y != s[|s| - 1] || Count(base, y) != k {
      WithCountInSeq(init, base, k, y);
      assert s == init + [s[|s| - 1]];
    }
  }

  /** Removing the same last element from two sequences keeps their
      elements of every count in the same order. */
  lemma DropCommonLast<T>(a: seq<T>, b: seq<T>, x: T, base: seq<T>)
    requires forall k :: WithCount(a + [x], base, k) == WithCount(b + [x], base, k)
    ensures forall k :: WithCount(a, base, k) == WithCount(b, base, k)
  {
    forall k ensures WithCount(a, base, k) == WithCount(b, base, k) {
      WithCountSnoc(a, x, base, k);
      WithCountSnoc(b, x, base, k);
      var pa, pb := WithCount(a, base, k), WithCount(b, base, k);
      if Count(base, x) == k {
        assert pa == (pa + [x])[..|pa|];
        assert pb == (pb + [x])[..|pb|];
      } else {
        assert pa + [] == pa && pb + [] == pb;
      }
    }
  }

  /** Two sequences in count order whose elements of every count come in the
      same order are equal: every stable sort by count returns the same
      sequence as `SortByCount`. */
  lemma {:induction false} StableSortUnique<T>(a: seq<T>, b: seq<T>, base: seq<T>)
    requires ByCount(a, base) && ByCount(b, base)
    requires forall k :: WithCount(a, base, k) == WithCount(b, base, k)
    ensures a == b
    decreases |a|
  {
    if a == [] || b == [] {
      if a != [] {
        LastEndsItsCount(a, base);
        assert false;
      } else if b != [] {
        LastEndsItsCount(b, base);
        assert false;
      }
    } else {
      var ka := Count(base, a[|a| - 1]);
      var kb := Count(base, b[|b| - 1]);
      LastEndsItsCount(a, base);
      LastEndsItsCount(b, base);
      CountBelowLast(b, base, ka);
      CountBelowLast(a, base, kb);
      var a', b' := a[..|a| - 1], b[..|b| - 1];
      assert ka == kb;
      var wa, wb := WithCount(a, base, ka), WithCount(b, base, ka);
      assert wa == wb;
      assert a[|a| - 1] == wa[|wa| - 1] == wb[|wb| - 1] == b[|b| - 1];
      var x := a[|a| - 1];
      assert a == a' + [x] && b == b' + [x];
      DropCommonLast(a', b', x, base);
      assert ByCount(a', base) && ByCount(b', base);
      StableSortUnique(a', b', base);
    }
  }

  /** Whatever stable algorithm the engine uses, sorting `s` by count gives
      the sequence `SortByCount` computes. */
  lemma AnyStableSortAgrees<T>(s: seq<T>, base: seq<T>, sorted: seq<T>)
    requires ByCount(sorted, base)
    requires forall k :: WithCount(sorted, base, k) == WithCount(s, base, k)
    ensures sorted == SortByCount(s, base)
  {
    SortByCountOrdered(s, base);
    forall k ensures WithCount(sorted, base, k) == WithCount(SortByCount(s, base), base, k) {
      SortByCountStable(s, base, k);
    }
    StableSortUnique(sorted, SortByCount(s, base), base);
  }

  /** `i` is the position of the latest element of `s` whose count in
      `base` is maximal. */
  ghost predicate LatestMaximal<T>(s: seq<T>, base: seq<T>, i: int) {
    && 0 <= i < |s|
    && (forall j :: 0 <= j <= i ==> Count(base, s[j]) <= Count(base, s[i]))
    && (forall j :: i < j < |s| ==> Count(base, s[j]) < Count(base, s[i]))
  }

  /** Appending `x` either makes `x` the latest maximal element or leaves
      the previous one in place. */
  lemma LatestMaximalExtend<T>(init: seq<T>, x: T, base: seq<T>, i: int)
    requires LatestMaximal(init, base, i)
    ensures Count(base, init[i]) <= Count(base, x) ==> LatestMaximal(init + [x], base, |init|)
    ensures Count(base, init[i]) > Count(base, x) ==> LatestMaximal(init + [x], base, i)
  {
    var s := init + [x];
    if Count(base, init[i]) <= Count(base, x) {
      forall j | 0 <= j < |s| ensures Count(base, s[j]) <= Count(base, x) {
        if j < |init| {
          assert s[j] == init[j];
        }
      }
    } else {
      forall j | 0 <= j <= i ensures Count(base, s[j]) <= Count(base, s[i]) {
        assert s[j] == init[j];
      }
      forall j | i < j < |s| ensures Count(base, s[j]) < Count(base, s[i]) {
        if j < |init| {
          assert s[j] == init[j];
        }
      }
    }
  }

  /** The last element after the stable sort is the latest element with the
      largest key. */
  lemma {:induction false} SortedLastIsLatestMaximal<T>(s: seq<T>, base: seq<T>)
    requires s != []
    ensures exists i :: LatestMaximal(s, base, i) && SortByCount(s, base)[|s| - 1] == s[i]
    decreases |s|
  {
    var init := s[..|s| - 1];
    var x := s[|s| - 1];
    var sorted := SortByCount(init, base);
    assert s == init + [x];
    assert SortByCount(s, base) == InsertByCount(x, sorted, base);
    if init == [] {
      assert LatestMaximal(s, base, 0);
    } else {
      SortedLastIsLatestMaximal(init, base);
      var i :| LatestMaximal(init, base, i) && sorted[|init| - 1] == init[i];
      LatestMaximalExtend(init, x, base, i);
    }
  }

  /** `getMostFrequent(arr)`: the last element after sorting by occurrence
      count, which is the latest of the most frequent values; `None` (for
      `undefined`) when `arr` is empty. */
  function MostFrequent<T(==)>(arr: seq<T>): (r: Option<T>)
    ensures r.None? <==> arr == []
    ensures r.Some? ==> r.value in arr
  {
    if arr == [] then None
    else
      var sorted := SortByCount(arr, arr);
      assert sorted[|sorted| - 1] in multiset(arr) by {
        SortByCountPermutes(arr, arr);
      }
      Some(sorted[|sorted| - 1])
  }

  /** The value `getMostFrequent` returns is the latest element whose count
      is maximal. */
  lemma MostFrequentIsLatestMaximal<T>(arr: seq<T>)
    requires arr != []
    ensures exists i :: LatestMaximal(arr, arr, i) && MostFrequent(arr).value == arr[i]
  {
    SortedLastIsLatestMaximal(arr, arr);
  }

  /** Every element `getMostFrequent` may return occurs at least as often as
      any other element. */
  lemma MostFrequentIsMaximal<T>(arr: seq<T>, y: T)
    requires arr != [] && y in arr
    ensures Count(arr, MostFrequent(arr).value) >= Count(arr, y)
    ensures MostFrequent(arr).value in arr
  {
    var r := MostFrequent(arr);
    MostFrequentIsLatestMaximal(arr);
    var i :| LatestMaximal(arr, arr, i) && r.value == arr[i];
    var j :| 0 <= j < |arr| && arr[j] == y;
    if j <= i {
      assert Count(arr, arr[j]) <= Count(arr, arr[i]);
    } else {
      assert Count(arr, arr[j]) < Count(arr, arr[i]);
    }
  }

  // -----------------------------------------------------------------------
  // `groupForecastsByDay`

  /** The items' values of one field, in input order. */
  function Project<T>(items: seq<Item>, f: Item -> T): (r: seq<T>)
    ensures |r| == |items|
    decreases |items|
  {
    if items == [] then [] else Project(items[..|items| - 1], f) + [f(items[|items| - 1])]
  }

  lemma {:induction false} ProjectAt<T>(items: seq<Item>, f: Item -> T, n: nat)
    requires n < |items|
    ensures Project(items, f)[n] == f(items[n])
    decreases |items|
  {
    if n < |items| - 1 {
      ProjectAt(items[..|items| - 1], f, n);
    }
  }

  /** The date key of every item, in input order. */
  function Dates(items: seq<Item>, dateKey: int -> string): (r: seq<string>)
    ensures |r| == |items|
    ensures forall n :: 0 <= n < |items| ==> r[n] == dateKey(items[n].dt)
    decreases |items|
  {
    if items == [] then [] else Dates(items[..|items| - 1], dateKey) + [dateKey(items[|items| - 1].dt)]
  }

  /** Position of the first occurrence of `x` in `s`. */
  function IndexOf<T(==)>(s: seq<T>, x: T): (r: nat)
    requires x in s
    ensures r < |s| && s[r] == x && x !in s[..r]
    decreases |s|
  {
    if s[0] == x then 0
    else
      assert x in s[1..] by {
        assert s == [s[0]] + s[1..];
      }
      var r := IndexOf(s[1..], x) + 1;
      assert s[..r] == [s[0]] + s[1..][..r - 1];
      r
  }

  lemma IndexOfInPrefix<T>(s: seq<T>, y: T, x: T)
    requires x in s
    ensures x in s + [y] && IndexOf(s + [y], x) == IndexOf(s, x)
  {
    var k := IndexOf(s, x);
    var t := s + [y];
    assert t[k] == x && t[..k] == s[..k];
  }

  /** The distinct keys of `keys`, in the order they first occur. */
  function FirstSeen(keys: seq<string>): (r: seq<string>)
    ensures forall x :: x in r <==> x in keys
    ensures forall a, b :: 0 <= a < b < |r| ==> r[a] != r[b]
    decreases |keys|
  {
    if keys == [] then []
    else
      var init := keys[..|keys| - 1];
      var last := keys[|keys| - 1];
      assert keys == init + [last];
      var prior := FirstSeen(init);
      if last in prior then prior else prior + [last]
  }

  /** `FirstSeen` lists the keys by the position of their first occurrence. */
  lemma {:induction false} FirstSeenOrder(keys: seq<string>)
    ensures forall a, b :: 0 <= a < b < |FirstSeen(keys)| ==>
              IndexOf(keys, FirstSeen(keys)[a]) < IndexOf(keys, FirstSeen(keys)[b])
    decreases |keys|
  {
    if keys != [] {
      var init := keys[..|keys| - 1];
      var last := keys[|keys| - 1];
      assert keys == init + [last];
      FirstSeenOrder(init);
      var prior := FirstSeen(init);
      var r := FirstSeen(keys);
      assert r == if last in prior then prior else prior + [last];
      forall x | x in init ensures IndexOf(keys, x) == IndexOf(init, x) {
        IndexOfInPrefix(init, last, x);
      }
      forall a, b | 0 <= a < b < |r| ensures IndexOf(keys, r[a]) < IndexOf(keys, r[b]) {
        assert r[a] == prior[a] && r[a] in init;
        assert IndexOf(keys, r[a]) == IndexOf(init, prior[a]);
        if b < |prior| {
          assert r[b] == prior[b] && r[b] in init;
          assert IndexOf(keys, r[b]) == IndexOf(init, prior[b]);
          assert IndexOf(init, prior[a]) < IndexOf(init, prior[b]);
        } else {
          assert r[b] == last && last !in init;
          assert IndexOf(init, r[a]) < |init|;
        }
      }
    }
  }

  /** The items whose date key is `date`, in input order. */
  function ItemsOn(items: seq<Item>, dateKey: int -> string, date: string): (r: seq<Item>)
    ensures r == [] <==> date !in Dates(items, dateKey)
    decreases |items|
  {
    if items == [] then []
    else
      var init := items[..|items| - 1];
      var last := items[|items| - 1];
      assert Dates(items, dateKey) == Dates(init, dateKey) + [dateKey(last.dt)];
      ItemsOn(init, dateKey, date) + if dateKey(last.dt) == date then [last] else []
  }

  /** Exactly the items with date key `date` are collected for it. */
  lemma {:induction false} ItemsOnExactly(items: seq<Item>, dateKey: int -> string, date: string, it: Item)
    ensures it in ItemsOn(items, dateKey, date) <==> it in items && dateKey(it.dt) == date
    decreases |items|
  {
    if items != [] {
      var init := items[..|items| - 1];
      assert items == init + [items[|items| - 1]];
      ItemsOnExactly(init, dateKey, date, it);
    }
  }

  /** The arrays collected for `date` from `items`. */
  function GroupOf(date: string, items: seq<Item>): Group {
    Group(date, Project(items, (it: Item) => it.temp), Project(items, (it: Item) => it.condition),
          Project(items, (it: Item) => it.description), Project(items, (it: Item) => it.humidity),
          Project(items, (it: Item) => it.windSpeed), Project(items, (it: Item) => it.icon))
  }

  /** The six pushes of one item into its day's arrays. */
  function Push(g: Group, item: Item): Group {
    g.(temperatures := g.temperatures + [item.temp], conditions := g.conditions + [item.condition],
       descriptions := g.descriptions + [item.description], humidity := g.humidity + [item.humidity],
       windSpeed := g.windSpeed + [item.windSpeed], icons := g.icons + [item.icon])
  }

  lemma PushExtends(date: string, items: seq<Item>, item: Item)
    ensures GroupOf(date, items + [item]) == Push(GroupOf(date, items), item)
  {
    assert (items + [item])[..|items|] == items;
  }

  /** `Math.min(...s)`. */
  function Min(s: seq<int>): (m: int)
    requires s != []
    ensures m in s && forall k :: 0 <= k < |s| ==> m <= s[k]
    decreases |s|
  {
    if |s| == 1 then s[0]
    else
      var rest := Min(s[1..]);
      assert forall k :: 1 <= k < |s| ==> s[k] == s[1..][k - 1];
      if s[0] <= rest then s[0] else rest
  }

  /** `Math.max(...s)`. */
  function Max(s: seq<int>): (m: int)
    requires s != []
    ensures m in s && forall k :: 0 <= k < |s| ==> s[k] <= m
    decreases |s|
  {
    if |s| == 1 then s[0]
    else
      var rest := Max(s[1..]);
      assert forall k :: 1 <= k < |s| ==> s[k] == s[1..][k - 1];
      if s[0] >= rest then s[0] else rest
  }

  /** The record the `map` callback builds for one day. */
  function Summary(g: Group): (d: DayForecast)
    requires Filled(g)
    ensures d.minTemp <= d.maxTemp
    ensures d.date == g.date
  {
    DayForecast(g.date, Min(g.temperatures), Max(g.temperatures), MostFrequent(g.conditions).value,
                MostFrequent(g.descriptions).value, MostFrequent(g.icons).value)
  }

  lemma DatesSnoc(items: seq<Item>, item: Item, dateKey: int -> string)
    ensures Dates(items + [item], dateKey) == Dates(items, dateKey) + [dateKey(item.dt)]
  {
  }

  lemma ItemsOnSnoc(items: seq<Item>, item: Item, dateKey: int -> string, date: string)
    ensures dateKey(item.dt) == date ==> ItemsOn(items + [item], dateKey, date) == ItemsOn(items, dateKey, date) + [item]
    ensures dateKey(item.dt) != date ==> ItemsOn(items + [item], dateKey, date) == ItemsOn(items, dateKey, date)
  {
    assert (items + [item])[..|items|] == items;
  }

  lemma FirstSeenSnoc(keys: seq<string>, x: string)
    ensures FirstSeen(keys + [x]) == if x in keys then FirstSeen(keys) else FirstSeen(keys) + [x]
  {
    assert (keys + [x])[..|keys|] == keys;
  }

  /** Pushing an item into its day's arrays keeps every day's arrays equal
      to those of its items, the new item included. */
  lemma PushGroup(groups: map<string, Group>, items: seq<Item>, item: Item, dateKey: int -> string)
    requires dateKey(item.dt) in groups
    requires forall k :: k in groups ==> groups[k] == GroupOf(k, ItemsOn(items, dateKey, k))
    ensures var date := dateKey(item.dt);
            var after := groups[date := Push(groups[date], item)];
            forall k :: k in after ==> after[k] == GroupOf(k, ItemsOn(items + [item], dateKey, k))
  {
    var date := dateKey(item.dt);
    var after := groups[date := Push(groups[date], item)];
    forall k | k in after ensures after[k] == GroupOf(k, ItemsOn(items + [item], dateKey, k)) {
      ItemsOnSnoc(items, item, dateKey, k);
      if k == date {
        PushExtends(date, ItemsOn(items, dateKey, date), item);
      }
    }
  }

  /** One step of the first loop keeps `order` the first-seen dates. */
  lemma OrderStep(order: seq<string>, items: seq<Item>, i: nat, dateKey: int -> string)
    requires i < |items|
    requires order == FirstSeen(Dates(items[..i], dateKey))
    ensures var date := dateKey(items[i].dt);
            (if date in order then order else order + [date]) == FirstSeen(Dates(items[..i + 1], dateKey))
  {
    assert items[..i + 1] == items[..i] + [items[i]];
    DatesSnoc(items[..i], items[i], dateKey);
    FirstSeenSnoc(Dates(items[..i], dateKey), dateKey(items[i].dt));
  }

  /** One step of the first loop keeps every day's arrays those of its
      items. */
  lemma GroupsStep(groups: map<string, Group>, items: seq<Item>, i: nat, dateKey: int -> string)
    requires i < |items|
    requires forall k :: k in Dates(items[..i], dateKey) ==> k in groups
    requires forall k :: k in groups ==> groups[k] == GroupOf(k, ItemsOn(items[..i], dateKey, k))
    ensures var date := dateKey(items[i].dt);
            var created := if date in groups then groups else groups[date := Group(date, [], [], [], [], [], [])];
            var after := created[date := Push(created[date], items[i])];
            forall k :: k in after ==> after[k] == GroupOf(k, ItemsOn(items[..i + 1], dateKey, k))
  {
    var date := dateKey(items[i].dt);
    assert items[..i + 1] == items[..i] + [items[i]];
    var created := if date in groups then groups else groups[date := Group(date, [], [], [], [], [], [])];
    if date !in groups {
      assert ItemsOn(items[..i], dateKey, date) == [];
      assert created[date] == GroupOf(date, []);
    }
    PushGroup(created, items[..i], items[i], dateKey);
  }

  /** The first loop of `groupForecastsByDay`: `dailyData` maps each date
      to the arrays of its items, and `order` lists the dates in the order
      their keys were first created, which is the order `Object.values`
      returns them in. */
  method CollectByDate(items: seq<Item>, dateKey: int -> string)
    returns (dailyData: map<string, Group>, order: seq<string>)
    ensures order == FirstSeen(Dates(items, dateKey))
    ensures forall k :: k in dailyData <==> k in order
    ensures forall k :: k in dailyData ==> dailyData[k] == GroupOf(k, ItemsOn(items, dateKey, k))
  {
    dailyData := map[];
    order := [];
    for i := 0 to |items|
      invariant order == FirstSeen(Dates(items[..i], dateKey))
      invariant forall k :: k in dailyData <==> k in order
      invariant forall k :: k in dailyData ==> dailyData[k] == GroupOf(k, ItemsOn(items[..i], dateKey, k))
    {
      var item := items[i];
      var date := dateKey(item.dt);
      OrderStep(order, items, i, dateKey);
      GroupsStep(dailyData, items, i, dateKey);
      if date !in dailyData {
        dailyData := dailyData[date := Group(date, [], [], [], [], [], [])];
        order := order + [date];
      }
      dailyData := dailyData[date := Push(dailyData[date], item)];
    }
    assert items[..|items|] == items;
  }

  /** A day's arrays hold at least one value each: the record can be built. */
  predicate Filled(g: Group) {
    g.temperatures != [] && g.conditions != [] && g.descriptions != [] && g.icons != []
  }

  /** The arrays of the first seven dates, in the order the dates first
      occur. */
  function DayGroups(items: seq<Item>, dateKey: int -> string): (r: seq<Group>)
    ensures |r| == if |FirstSeen(Dates(items, dateKey))| < MaxDays then |FirstSeen(Dates(items, dateKey))| else MaxDays
    ensures forall e :: 0 <= e < |r| ==> r[e].date == FirstSeen(Dates(items, dateKey))[e] && Filled(r[e])
  {
    var dates := FirstSeen(Dates(items, dateKey));
    var n := if |dates| < MaxDays then |dates| else MaxDays;
    var r := seq(n, e requires 0 <= e < n => GroupOf(dates[e], ItemsOn(items, dateKey, dates[e])));
    assert forall e :: 0 <= e < n ==> Filled(r[e]) by {
      forall e | 0 <= e < n ensures Filled(r[e]) {
        assert dates[e] in dates;
        assert ItemsOn(items, dateKey, dates[e]) != [];
      }
    }
    r
  }

  /** The `map` over the days: one record per day. */
  function Summaries(groups: seq<Group>): (r: seq<DayForecast>)
    requires forall e :: 0 <= e < |groups| ==> Filled(groups[e])
    ensures |r| == |groups|
    ensures forall e :: 0 <= e < |r| ==> r[e].date == groups[e].date && r[e].minTemp <= r[e].maxTemp
  {
    seq(|groups|, e requires 0 <= e < |groups| => Summary(groups[e]))
  }

  /** The result `groupForecastsByDay` promises: the record of each of the
      first seven dates, in the order the dates first occur. */
  function Forecast(items: seq<Item>, dateKey: int -> string): (r: seq<DayForecast>)
    ensures |r| == if |FirstSeen(Dates(items, dateKey))| < MaxDays then |FirstSeen(Dates(items, dateKey))| else MaxDays
    ensures forall d :: 0 <= d < |r| ==> r[d].date == FirstSeen(Dates(items, dateKey))[d]
    ensures forall d :: 0 <= d < |r| ==> r[d].minTemp <= r[d].maxTemp
  {
    Summaries(DayGroups(items, dateKey))
  }

  /** `Object.values(dailyData)`: the groups in the order their keys were
      created. */
  function Values(dailyData: map<string, Group>, order: seq<string>): (r: seq<Group>)
    requires forall k :: k in order ==> k in dailyData
    ensures |r| == |order|
    decreases |order|
  {
    if order == [] then [] else Values(dailyData, order[..|order| - 1]) + [dailyData[order[|order| - 1]]]
  }

  /** The first seven collected groups are those of the first seven dates. */
  lemma ValuesAreDayGroups(items: seq<Item>, dateKey: int -> string,
                           dailyData: map<string, Group>, order: seq<string>)
    requires order == FirstSeen(Dates(items, dateKey))
    requires forall k :: k in dailyData <==> k in order
    requires forall k :: k in dailyData ==> dailyData[k] == GroupOf(k, ItemsOn(items, dateKey, k))
    ensures var values := Values(dailyData, order);
            (if |values| < MaxDays then values else values[..MaxDays]) == DayGroups(items, dateKey)
  {
    var values := Values(dailyData, order);
    var expected := DayGroups(items, dateKey);
    var week := if |values| < MaxDays then values else values[..MaxDays];
    ValuesAt(dailyData, order);
    assert |week| == |expected|;
    forall e | 0 <= e < |expected| ensures week[e] == expected[e] {
      assert order[e] in order;
      DayGroupAt(items, dateKey, e);
    }
  }

  /** The `e`-th group collects the items of the `e`-th date. */
  lemma DayGroupAt(items: seq<Item>, dateKey: int -> string, e: nat)
    requires e < |DayGroups(items, dateKey)|
    ensures var date := FirstSeen(Dates(items, dateKey))[e];
            DayGroups(items, dateKey)[e] == GroupOf(date, ItemsOn(items, dateKey, date))
  {
  }

  lemma {:induction false} ValuesAt(dailyData: map<string, Group>, order: seq<string>)
    requires forall k :: k in order ==> k in dailyData
    ensures forall e :: 0 <= e < |order| ==> Values(dailyData, order)[e] == dailyData[order[e]]
    decreases |order|
  {
    if order != [] {
      var init := order[..|order| - 1];
      ValuesAt(dailyData, init);
      forall e | 0 <= e < |init| ensures Values(dailyData, order)[e] == dailyData[order[e]] {
        assert order[e] == init[e];
      }
    }
  }

  /** `groupForecastsByDay(items)`. */
  method GroupForecastsByDay(items: seq<Item>, dateKey: int -> string) returns (days: seq<DayForecast>)
    ensures days == Forecast(items, dateKey)
  {
    var dailyData, order := CollectByDate(items, dateKey);
    ValuesAreDayGroups(items, dateKey, dailyData, order);
    var values := Values(dailyData, order);
    // `.map(...).slice(0, 7)`: keeping the first seven groups before the
    // `map` gives the same records.
    var week := if |values| < MaxDays then values else values[..MaxDays];
    days := Summaries(week);
  }

  // -----------------------------------------------------------------------
  // Properties

  /** The day records have distinct dates that occur in the input, listed
      by the position of their first occurrence. */
  lemma DaysInFirstSeenOrder(items: seq<Item>, dateKey: int -> string)
    ensures forall d :: 0 <= d < |Forecast(items, dateKey)| ==> Forecast(items, dateKey)[d].date in Dates(items, dateKey)
    ensures forall a, b :: 0 <= a < b < |Forecast(items, dateKey)| ==>
              Forecast(items, dateKey)[a].date != Forecast(items, dateKey)[b].date
    ensures forall a, b :: 0 <= a < b < |Forecast(items, dateKey)| ==>
              IndexOf(Dates(items, dateKey), Forecast(items, dateKey)[a].date)
              < IndexOf(Dates(items, dateKey), Forecast(items, dateKey)[b].date)
  {
    var r := Forecast(items, dateKey);
    var dates := FirstSeen(Dates(items, dateKey));
    FirstSeenOrder(Dates(items, dateKey));
    forall d | 0 <= d < |r| ensures r[d].date in Dates(items, dateKey) {
      assert r[d].date == dates[d] && dates[d] in dates;
    }
  }

  /** With at most seven distinct dates, every date of the input has its
      record. */
  lemma EveryDateHasDay(items: seq<Item>, dateKey: int -> string, date: string)
    requires date in Dates(items, dateKey)
    requires |FirstSeen(Dates(items, dateKey))| <= MaxDays
    ensures exists d :: 0 <= d < |Forecast(items, dateKey)| && Forecast(items, dateKey)[d].date == date
  {
    var dates := FirstSeen(Dates(items, dateKey));
    assert date in dates;
    var d :| 0 <= d < |dates| && dates[d] == date;
    assert Forecast(items, dateKey)[d].date == date;
  }

  /** Every item's temperature lies between its day's minimum and maximum. */
  lemma DayBoundsItsTemperatures(items: seq<Item>, dateKey: int -> string, d: nat, it: Item)
    requires d < |Forecast(items, dateKey)|
    requires it in items && dateKey(it.dt) == Forecast(items, dateKey)[d].date
    ensures Forecast(items, dateKey)[d].minTemp <= it.temp <= Forecast(items, dateKey)[d].maxTemp
  {
    var date := dateKey(it.dt);
    var n :| 0 <= n < |items| && items[n] == it;
    assert Dates(items, dateKey)[n] == date;
    var on := ItemsOn(items, dateKey, date);
    ItemsOnExactly(items, dateKey, date, it);
    var m :| 0 <= m < |on| && on[m] == it;
    var temps := GroupOf(date, on).temperatures;
    ProjectAt(on, (x: Item) => x.temp, m);
    assert temps[m] == it.temp;
    var groups := DayGroups(items, dateKey);
    assert groups[d] == GroupOf(date, on);
    assert Forecast(items, dateKey)[d] == Summary(groups[d]);
  }

  /** Each day's condition, description and icon are what `getMostFrequent`
      picks from the values of exactly that day's items (the latest value
      with the highest count, by `MostFrequentIsLatestMaximal`). */
  lemma DayFieldsAreMostFrequent(items: seq<Item>, dateKey: int -> string, d: nat)
    requires d < |Forecast(items, dateKey)|
    ensures var on := ItemsOn(items, dateKey, Forecast(items, dateKey)[d].date);
            && Forecast(items, dateKey)[d].condition == MostFrequent(Project(on, (x: Item) => x.condition)).value
            && Forecast(items, dateKey)[d].description == MostFrequent(Project(on, (x: Item) => x.description)).value
            && Forecast(items, dateKey)[d].icon == MostFrequent(Project(on, (x: Item) => x.icon)).value
  {
    var date := Forecast(items, dateKey)[d].date;
    var on := ItemsOn(items, dateKey, date);
    var groups := DayGroups(items, dateKey);
    assert groups[d] == GroupOf(date, on);
    assert Forecast(items, dateKey)[d] == Summary(groups[d]);
  }
}
