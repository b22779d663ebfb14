/**
 * The two list computations of the demo activity: the flat item list the
 * recycler view shows, one category after another, and the per-category index
 * offsets handed to the tab/scroll attacher.
 */
module Activity {

  /** A named category and its items (data.Category). */
  datatype Category<T> = Category(categoryName: string, itemList: seq<T>)

  /** The number of items in categories lo..hi-1. */
  function SizeSum<T>(cs: seq<Category<T>>, lo: nat, hi: nat): nat
    requires lo <= hi <= |cs|
    decreases hi - lo
  {
    if lo == hi then 0 else SizeSum(cs, lo, hi - 1) + |cs[hi - 1].itemList|
  }

  /** Every category's items, in order (what getAllItems returns). */
  function Flatten<T>(cs: seq<Category<T>>): seq<T> {
    if cs == [] then [] else Flatten(cs[..|cs| - 1]) + cs[|cs| - 1].itemList
  }

  /**
   * The offsets getCategoryIndexOffsets returns: category i gets the sizes of
   * categories 1..i summed, so category 0's own size never contributes.
   */
  function IndexOffsets<T>(cs: seq<Category<T>>): (offsets: seq<nat>)
    ensures |offsets| == |cs|
  {
    seq(|cs|, i requires 0 <= i < |cs| => SizeSum(cs, 1, i + 1))
  }

  /** The index of each category's first item in Flatten(cs). */
  function StartOffsets<T>(cs: seq<Category<T>>): (offsets: seq<nat>)
    ensures |offsets| == |cs|
  {
    seq(|cs|, i requires 0 <= i < |cs| => SizeSum(cs, 0, i))
  }

  /** getCategoryIndexOffsets: 0 for the first category, then the last offset plus this category's size. */
  method GetCategoryIndexOffsets<T>(categories: seq<Category<T>>) returns (indexOffsetList: seq<int>)
    ensures |indexOffsetList| == |categories|
    ensures forall i :: 0 <= i < |categories| ==> indexOffsetList[i] == IndexOffsets(categories)[i]
  {
    indexOffsetList := [];
    for n := 0 to |categories|
      invariant |indexOffsetList| == n
      invariant forall i :: 0 <= i < n ==> indexOffsetList[i] == SizeSum(categories, 1, i + 1)
    {
      if indexOffsetList == [] {
        indexOffsetList := indexOffsetList + [0];
      } else {
        indexOffsetList := indexOffsetList + [indexOffsetList[|indexOffsetList| - 1] + |categories[n].itemList|];
      }
    }
  }

  /** getAllItems: addAll of each category's items, in order. */
  method GetAllItems<T>(categories: seq<Category<T>>) returns (items: seq<T>)
    ensures items == Flatten(categories)
  {
    items := [];
    for n := 0 to |categories|
      invariant items == Flatten(categories[..n])
    {
      assert categories[..n + 1][..n] == categories[..n];
      items := items + categories[n].itemList;
    }
    assert categories[..|categories|] == categories;
  }

  /** The start offsets, accumulated in one pass: each category gets the running total before its own items. */
  method GetCategoryStartOffsets<T>(categories: seq<Category<T>>) returns (startOffsets: seq<int>)
    ensures |startOffsets| == |categories|
    ensures forall i :: 0 <= i < |categories| ==> startOffsets[i] == StartOffsets(categories)[i]
  {
    startOffsets := [];
    var total := 0;
    for n := 0 to |categories|
      invariant |startOffsets| == n
      invariant total == SizeSum(categories, 0, n)
      invariant forall i :: 0 <= i < n ==> startOffsets[i] == SizeSum(categories, 0, i)
    {
      startOffsets := startOffsets + [total];
      total := total + |categories[n].itemList|;
    }
  }

  /** The first offset is 0. */
  lemma FirstOffsetIsZero<T>(cs: seq<Category<T>>)
    requires cs != []
    ensures IndexOffsets(cs)[0] == 0
  {
  }

  /** Each later offset is the previous one plus the category's own size. */
  lemma OffsetRecurrence<T>(cs: seq<Category<T>>, i: int)
    requires 1 <= i < |cs|
    ensures IndexOffsets(cs)[i] == IndexOffsets(cs)[i - 1] + |cs[i].itemList|
  {
  }

  /** Sums over a longer range are never smaller. */
  lemma {:induction false} SizeSumMonotone<T>(cs: seq<Category<T>>, lo: nat, mid: nat, hi: nat)
    requires lo <= mid <= hi <= |cs|
    ensures SizeSum(cs, lo, mid) <= SizeSum(cs, lo, hi)
    decreases hi - mid
  {
    if mid < hi {
      SizeSumMonotone(cs, lo, mid, hi - 1);
    }
  }

  /** The offsets never decrease. */
  lemma OffsetsNonDecreasing<T>(cs: seq<Category<T>>, i: int, j: int)
    requires 0 <= i <= j < |cs|
    ensures IndexOffsets(cs)[i] <= IndexOffsets(cs)[j]
  {
    SizeSumMonotone(cs, 1, i + 1, j + 1);
  }

  /** No categories: no offsets and no items. */
  lemma EmptyCategories<T>(cs: seq<Category<T>>)
    requires cs == []
    ensures IndexOffsets(cs) == [] && Flatten(cs) == []
  {
  }

  /** A sum over a prefix of the list is the same sum over the whole list. */
  lemma {:induction false} SizeSumOfPrefix<T>(cs: seq<Category<T>>, m: nat, lo: nat, hi: nat)
    requires lo <= hi <= m <= |cs|
    ensures SizeSum(cs[..m], lo, hi) == SizeSum(cs, lo, hi)
    decreases hi - lo
  {
    if lo < hi {
      SizeSumOfPrefix(cs, m, lo, hi - 1);
      assert cs[..m][hi - 1] == cs[hi - 1];
    }
  }

  /** The flat list holds as many items as all categories together. */
  lemma {:induction false} FlattenLength<T>(cs: seq<Category<T>>)
    ensures |Flatten(cs)| == SizeSum(cs, 0, |cs|)
    decreases |cs|
  {
    if cs != [] {
      FlattenLength(cs[..|cs| - 1]);
      SizeSumOfPrefix(cs, |cs| - 1, 0, |cs| - 1);
    }
  }

  /** Flattening a prefix of the categories gives a prefix of the flat list. */
  lemma {:induction false} FlattenPrefix<T>(cs: seq<Category<T>>, m: nat)
    requires m <= |cs|
    ensures Flatten(cs[..m]) <= Flatten(cs)
    decreases |cs| - m
  {
    if m < |cs| {
      FlattenPrefix(cs, m + 1);
      assert cs[..m + 1][..m] == cs[..m];
    } else {
      assert cs[..m] == cs;
    }
  }

  /** Item j of category i sits at StartOffsets(cs)[i] + j of the flat list. */
  lemma StartOffsetsLocateItems<T>(cs: seq<Category<T>>, i: int, j: int)
    requires 0 <= i < |cs| && 0 <= j < |cs[i].itemList|
    ensures StartOffsets(cs)[i] + j < |Flatten(cs)|
    ensures Flatten(cs)[StartOffsets(cs)[i] + j] == cs[i].itemList[j]
  {
    FlattenPrefix(cs, i + 1);
    assert cs[..i + 1][..i] == cs[..i];
    assert Flatten(cs[..i + 1]) == Flatten(cs[..i]) + cs[i].itemList;
    FlattenLength(cs[..i]);
    SizeSumOfPrefix(cs, i, 0, i);
  }

  /**
   * With one item in the first category and two in the second, the offset
   * getCategoryIndexOffsets gives the second category points at its second
   * item, not its first.
   */
  lemma IndexOffsetsMissFirstItem()
    ensures var cs := [Category("a", [10]), Category("b", [20, 30])];
      && IndexOffsets(cs)[1] == 2 && StartOffsets(cs)[1] == 1
      && Flatten(cs)[IndexOffsets(cs)[1]] == 30 != cs[1].itemList[0]
  {
    var cs := [Category("a", [10]), Category("b", [20, 30])];
    assert cs[..1] == [Category("a", [10])];
    assert cs[..1][..0] == [];
    assert Flatten(cs) == [10, 20, 30];
  }
}
