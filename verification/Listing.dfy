/** Turning sets into lists, as the program does when it ranges over a map and sorts. */
module Listing {
  import opened Sorting
  import opened Digraph

  /** A set in some order, as Go ranges over a map. */
  method ListSet<T>(all: set<T>) returns (list: seq<T>)
    ensures NoRepeats(list) && Elems(list) == all && |list| == |all|
  {
    list := [];
    var left := all;
    while left != {}
      invariant left <= all
      invariant NoRepeats(list) && Elems(list) == all - left
      decreases left
    {
      var x :| x in left;
      SnocElems(list, x);
      list := list + [x];
      left := left - {x};
    }
    NoRepeatsSize(list);
  }

  /** A set in the order it is sorted by. */
  method ListSorted<T(!new)>(all: set<T>, le: (T, T) -> bool) returns (list: seq<T>)
    requires TotalPreorder(le)
    ensures SortedBy(list, le) && NoRepeats(list) && Elems(list) == all
  {
    var unsorted := ListSet(all);
    list := Sort(unsorted, le);
    SortPermutes(unsorted, le);
    SortSorts(unsorted, le);
    NoRepeatsPermutes(unsorted, list);
  }

  method ListStrings(all: set<string>) returns (list: seq<string>)
    ensures SortedBy(list, TextLe) && NoRepeats(list) && Elems(list) == all
  {
    TextLeOrder();
    list := ListSorted(all, TextLe);
  }
}
