/**
 * The ordered list of lab6/lab6.py: a Python list `_L` kept sorted by
 * appending and re-sorting, with membership by binary search over index
 * bounds (`_bs`) and by the slower search that slices the list at each
 * level. Items are integers here.
 */
module OrderedLists {
  import opened Util
  import opened Seqs

  /** `_bs(item, lo, hi)`: binary search of `s[lo:hi]` by halving the index range. */
  function Search(s: seq<int>, x: int, lo: int, hi: int): (r: bool)
    requires 0 <= lo <= hi <= |s|
    ensures Sorted(s) ==> (r <==> x in s[lo..hi])
    decreases hi - lo
  {
    if lo == hi then false
    else
      var mid := (lo + hi) / 2;
      SearchHalves(s, x, lo, mid, hi);
      if s[mid] == x then true
      else if x < s[mid] then Search(s, x, lo, mid)
      else Search(s, x, mid + 1, hi)
  }

  /** In a sorted sequence, a value smaller than `s[mid]` can only be left of it, a larger one only right of it. */
  lemma SearchHalves(s: seq<int>, x: int, lo: int, mid: int, hi: int)
    requires 0 <= lo <= mid < hi <= |s|
    ensures x in s[lo..hi] <==> x in s[lo..mid] || x == s[mid] || x in s[mid + 1..hi]
    ensures Sorted(s) && x < s[mid] ==> x !in s[mid + 1..hi]
    ensures Sorted(s) && s[mid] < x ==> x !in s[lo..mid]
  {
    assert s[lo..hi] == s[lo..mid] + [s[mid]] + s[mid + 1..hi];
  }

  /** `__contains_bs_slow`: binary search that recurses on a slice of each half. */
  function SearchSlow(s: seq<int>, x: int): (r: bool)
    ensures Sorted(s) ==> (r <==> x in s)
    decreases |s|
  {
    if |s| == 0 then false
    else
      var mid := |s| / 2;
      SearchHalves(s, x, 0, mid, |s|);
      assert s[0..|s|] == s && s[0..mid] == s[..mid];
      if x == s[mid] then true
      else if x < s[mid] then SearchSlow(s[..mid], x)
      else SearchSlow(s[mid + 1..], x)
  }

  /** The position of the first occurrence, which `list.remove` drops. */
  function FirstIndex(s: seq<int>, x: int): (i: nat)
    requires x in s
    ensures i < |s| && s[i] == x && x !in s[..i]
  {
    if s[0] == x then 0
    else
      assert s == [s[0]] + s[1..];
      var j := FirstIndex(s[1..], x);
      assert s[..j + 1] == [s[0]] + s[1..][..j];
      j + 1
  }

  /** Dropping one element keeps a sequence sorted. */
  lemma RemoveAtSorted(s: seq<int>, i: nat)
    requires Sorted(s) && i < |s|
    ensures Sorted(s[..i] + s[i + 1..])
  {
    var r := s[..i] + s[i + 1..];
    forall a, b | 0 <= a < b < |r|
      ensures r[a] <= r[b]
    {
      assert r[a] == s[if a < i then a else a + 1] && r[b] == s[if b < i then b else b + 1];
    }
  }

  lemma RemoveAtMultiset(s: seq<int>, i: nat)
    requires i < |s|
    ensures multiset(s[..i] + s[i + 1..]) == multiset(s) - multiset{s[i]}
  {
    assert s == s[..i] + [s[i]] + s[i + 1..];
  }

  class OrderedList {
    /** `_L`. */
    var items: seq<int>

    ghost predicate Valid()
      reads this
    {
      Sorted(items)
    }

    constructor()
      ensures Valid() && items == []
    {
      items := [];
    }

    /** `OrderedList(items)`: the items sorted, here one insertion at a time. */
    constructor FromItems(xs: seq<int>)
      ensures Valid() && multiset(items) == multiset(xs)
    {
      items := [];
      new;
      var i := 0;
      while i < |xs|
        invariant 0 <= i <= |xs| && Sorted(items) && multiset(items) == multiset(xs[..i])
      {
        SortedInsertSorted(xs[i], items);
        items := SortedInsert(xs[i], items);
        assert xs[..i + 1] == xs[..i] + [xs[i]];
        i := i + 1;
      }
      assert xs[..|xs|] == xs;
    }

    /**
     * `add`: the item is appended and the list sorted again, which puts it
     * in its sorted place (`AppendThenSort`: any sort gives this list).
     */
    method Add(x: int)
      requires Valid()
      modifies this
      ensures Valid() && items == SortedInsert(x, old(items))
      ensures multiset(items) == multiset(old(items)) + multiset{x} && |items| == |old(items)| + 1
    {
      SortedInsertSorted(x, items);
      items := SortedInsert(x, items);
    }

    /** `remove`: the first occurrence goes; a ValueError, with nothing changed, when there is none. */
    method Remove(x: int) returns (o: Outcome)
      requires Valid()
      modifies this
      ensures x !in old(items) ==> o == Raised(ValueError) && items == old(items)
      ensures x in old(items) ==>
        var i := FirstIndex(old(items), x);
        o == Done && items == old(items)[..i] + old(items)[i + 1..]
      ensures Valid()
      ensures x in old(items) ==> multiset(items) == multiset(old(items)) - multiset{x} && |items| == |old(items)| - 1
    {
      if !Contains(x) {
        return Raised(ValueError);
      }
      var i := FirstIndex(items, x);
      RemoveAtSorted(items, i);
      RemoveAtMultiset(items, i);
      items := items[..i] + items[i + 1..];
      o := Done;
    }

    /** `__getitem__`: Python indexing, negative from the end; None is an IndexError. */
    function GetItem(index: int): (r: Result<int>)
      reads this
      ensures -|items| <= index < |items| <==> r.Ok?
      ensures 0 <= index < |items| ==> r == Ok(items[index])
      ensures -|items| <= index < 0 ==> r == Ok(items[|items| + index])
      ensures r.Err? ==> r.error == IndexError
    {
      match PyIndex(|items|, index)
      case None => Err(IndexError)
      case Some(i) => Ok(items[i])
    }

    /** `__len__`. */
    function Len(): (n: nat)
      reads this
      ensures n == |items|
    {
      |items|
    }

    /** `__contains__`: `_bs` over the whole list, which on a sorted list is membership. */
    function Contains(x: int): (r: bool)
      reads this
      ensures Valid() ==> (r <==> x in items)
    {
      Search(items, x, 0, |items|)
    }

    /** `_contains_bs_slow`: the slicing search over a copy of the list. */
    function ContainsSlow(x: int): (r: bool)
      reads this
      ensures Valid() ==> (r <==> x in items)
    {
      SearchSlow(items[..], x)
    }
  }
}
