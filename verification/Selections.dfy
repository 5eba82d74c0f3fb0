/** Selecting from sequences, and stable sorting as `Array.prototype.filter` and `.sort` do it. */
module Selections {
  function Select<T>(keep: T -> bool, items: seq<T>): seq<T> {
    if |items| == 0 then []
    else Select(keep, items[..|items| - 1]) + (if keep(items[|items| - 1]) then [items[|items| - 1]] else [])
  }

  lemma {:induction false} SelectMembers<T>(keep: T -> bool, items: seq<T>)
    ensures forall x :: x in Select(keep, items) <==> x in items && keep(x)
  {
    if |items| > 0 {
      SelectMembers(keep, items[..|items| - 1]);
      assert items == items[..|items| - 1] + [items[|items| - 1]];
    }
  }

  /** Where a selected element comes from. */
  lemma {:induction false} SelectedAt<T>(keep: T -> bool, items: seq<T>, i: nat) returns (j: nat)
    requires i < |Select(keep, items)|
    ensures j < |items| && items[j] == Select(keep, items)[i] && keep(items[j])
  {
    var init := items[..|items| - 1];
    if i < |Select(keep, init)| {
      j := SelectedAt(keep, init, i);
    } else {
      j := |items| - 1;
    }
  }

  lemma SelectSnoc<T>(keep: T -> bool, items: seq<T>, x: T)
    ensures Select(keep, items + [x]) == Select(keep, items) + (if keep(x) then [x] else [])
  {
    assert (items + [x])[..|items|] == items;
  }

  lemma {:induction false} NoneSelected<T>(keep: T -> bool, items: seq<T>)
    requires forall i :: 0 <= i < |items| ==> !keep(items[i])
    ensures Select(keep, items) == []
  {
    if |items| > 0 {
      NoneSelected(keep, items[..|items| - 1]);
    }
  }

  lemma {:induction false} SelectConcat<T>(keep: T -> bool, a: seq<T>, b: seq<T>)
    ensures Select(keep, a + b) == Select(keep, a) + Select(keep, b)
  {
    if |b| == 0 {
      assert a + b == a;
    } else {
      var init, last := b[..|b| - 1], b[|b| - 1];
      SelectConcat(keep, a, init);
      assert a + b == (a + init) + [last];
      SelectSnoc(keep, a + init, last);
    }
  }

  lemma {:induction false} SelectSame<T>(p: T -> bool, q: T -> bool, items: seq<T>)
    requires forall i :: 0 <= i < |items| ==> (p(items[i]) <==> q(items[i]))
    ensures Select(p, items) == Select(q, items)
  {
    if |items| > 0 {
      SelectSame(p, q, items[..|items| - 1]);
    }
  }

  /** Selecting less after more is selecting less. */
  lemma {:induction false} SelectWithin<T>(less: T -> bool, more: T -> bool, items: seq<T>)
    requires forall i :: 0 <= i < |items| && less(items[i]) ==> more(items[i])
    ensures Select(less, Select(more, items)) == Select(less, items)
  {
    if |items| > 0 {
      var init, last := items[..|items| - 1], items[|items| - 1];
      SelectWithin(less, more, init);
      if more(last) {
        SelectSnoc(less, Select(more, init), last);
      } else {
        assert Select(more, items) == Select(more, init);
      }
    }
  }

  lemma {:induction false} SelectIsNoLonger<T>(keep: T -> bool, items: seq<T>)
    ensures |Select(keep, items)| <= |items|
  {
    if |items| > 0 {
      SelectIsNoLonger(keep, items[..|items| - 1]);
    }
  }

  lemma {:induction false} HeadStays<T>(keep: T -> bool, items: seq<T>)
    requires |items| > 0 && keep(items[0])
    ensures |Select(keep, items)| > 0 && Select(keep, items)[0] == items[0]
  {
    if |items| > 1 {
      HeadStays(keep, items[..|items| - 1]);
    }
  }

  /** When the first of more is among the less, it is the first of these too. */
  lemma FirstSelected<T>(less: T -> bool, more: T -> bool, items: seq<T>)
    requires forall i :: 0 <= i < |items| && less(items[i]) ==> more(items[i])
    requires |Select(more, items)| > 0 && less(Select(more, items)[0])
    ensures |Select(less, items)| > 0 && Select(less, items)[0] == Select(more, items)[0]
  {
    SelectWithin(less, more, items);
    HeadStays(less, Select(more, items));
  }

  lemma SelectInserted<T>(keep: T -> bool, earlier: seq<T>, x: T, later: seq<T>)
    ensures |Select(keep, earlier + [x] + later)| == |Select(keep, earlier + later)| + if keep(x) then 1 else 0
    ensures !keep(x) ==> Select(keep, earlier + [x] + later) == Select(keep, earlier + later)
  {
    SelectConcat(keep, earlier + [x], later);
    SelectConcat(keep, earlier, later);
    SelectSnoc(keep, earlier, x);
  }

  function Without<T>(items: seq<T>, i: nat): (rest: seq<T>)
    requires i < |items|
    ensures multiset([items[i]] + rest) == multiset(items)
  {
    assert items == items[..i] + [items[i]] + items[i + 1..];
    items[..i] + items[i + 1..]
  }

  ghost predicate TotalPreorder<T(!new)>(leq: (T, T) -> bool) {
    && (forall x, y :: leq(x, y) || leq(y, x))
    && (forall x, y, z :: leq(x, y) && leq(y, z) ==> leq(x, z))
  }

  ghost predicate Sorted<T>(leq: (T, T) -> bool, items: seq<T>) {
    forall i, j :: 0 <= i < j < |items| ==> leq(items[i], items[j])
  }

  lemma {:induction false} SelectKeepsSorted<T>(leq: (T, T) -> bool, keep: T -> bool, items: seq<T>)
    requires Sorted(leq, items)
    ensures Sorted(leq, Select(keep, items))
  {
    if |items| > 0 {
      var init, last := items[..|items| - 1], items[|items| - 1];
      SelectKeepsSorted(leq, keep, init);
      forall i | 0 <= i < |Select(keep, init)| ensures leq(Select(keep, init)[i], last) {
        var j := SelectedAt(keep, init, i);
        assert items[j] == init[j];
      }
    }
  }

  /** Any two selected elements are equal in the order. */
  ghost predicate Tied<T(!new)>(leq: (T, T) -> bool, keep: T -> bool) {
    forall x, y :: keep(x) && keep(y) ==> leq(x, y)
  }

  /** Elements that tie stay in their order. */
  ghost predicate Stable<T(!new)>(leq: (T, T) -> bool, items: seq<T>, sorted: seq<T>) {
    forall keep: T -> bool :: Tied(leq, keep) ==> Select(keep, sorted) == Select(keep, items)
  }

  lemma InsertionKeepsMembers<T>(sorted: seq<T>, x: T, at: nat)
    requires at <= |sorted|
    ensures multiset(sorted[..at] + [x] + sorted[at..]) == multiset(sorted) + multiset{x}
  {
    assert sorted == sorted[..at] + sorted[at..];
  }

  lemma InsertionKeepsOrder<T(!new)>(leq: (T, T) -> bool, sorted: seq<T>, x: T, at: nat)
    requires TotalPreorder(leq) && Sorted(leq, sorted) && at <= |sorted|
    requires at > 0 ==> leq(sorted[at - 1], x)
    requires forall j :: at <= j < |sorted| ==> leq(x, sorted[j])
    ensures Sorted(leq, sorted[..at] + [x] + sorted[at..])
  {
    var result := sorted[..at] + [x] + sorted[at..];
    forall i, j | 0 <= i < j < |result| ensures leq(result[i], result[j]) {
      if j == at {
        assert i == at - 1 || leq(sorted[i], sorted[at - 1]);
      } else if i != at {
        var here, there := (if i < at then i else i - 1), (if j < at then j else j - 1);
        assert result[i] == sorted[here] && result[j] == sorted[there];
      }
    }
  }

  lemma InsertionIsLastOfItsTies<T(!new)>(leq: (T, T) -> bool, keep: T -> bool, before: seq<T>, x: T, after: seq<T>)
    requires Tied(leq, keep) && forall j :: 0 <= j < |after| ==> !leq(after[j], x)
    ensures Select(keep, (before + [x]) + after) == Select(keep, before + after) + (if keep(x) then [x] else [])
  {
    SelectConcat(keep, before + [x], after);
    SelectSnoc(keep, before, x);
    SelectConcat(keep, before, after);
    if keep(x) {
      NoneSelected(keep, after);
    }
  }

  lemma InsertionIsStable<T(!new)>(leq: (T, T) -> bool, items: seq<T>, sorted: seq<T>, x: T, at: nat)
    requires at <= |sorted| && Stable(leq, items, sorted)
    requires forall j :: at <= j < |sorted| ==> !leq(sorted[j], x)
    ensures Stable(leq, items + [x], sorted[..at] + [x] + sorted[at..])
  {
    assert sorted == sorted[..at] + sorted[at..];
    assert forall j :: 0 <= j < |sorted| - at ==> sorted[at..][j] == sorted[at + j];
    forall keep: T -> bool | Tied(leq, keep)
      ensures Select(keep, sorted[..at] + [x] + sorted[at..]) == Select(keep, items + [x])
    {
      InsertionIsLastOfItsTies(leq, keep, sorted[..at], x, sorted[at..]);
      SelectSnoc(keep, items, x);
    }
  }

  method SortBy<T(!new)>(leq: (T, T) -> bool, items: seq<T>) returns (sorted: seq<T>)
    requires TotalPreorder(leq)
    ensures Sorted(leq, sorted) && multiset(sorted) == multiset(items) && Stable(leq, items, sorted)
  {
    sorted := [];
    for i := 0 to |items|
      invariant Sorted(leq, sorted) && multiset(sorted) == multiset(items[..i]) && Stable(leq, items[..i], sorted)
    {
      var at := |sorted|;
      while at > 0 && !leq(sorted[at - 1], items[i])
        invariant 0 <= at <= |sorted|
        invariant forall j :: at <= j < |sorted| ==> leq(items[i], sorted[j]) && !leq(sorted[j], items[i])
      {
        at := at - 1;
      }
      assert items[..i + 1] == items[..i] + [items[i]];
      InsertionKeepsOrder(leq, sorted, items[i], at);
      InsertionKeepsMembers(sorted, items[i], at);
      InsertionIsStable(leq, items[..i], sorted, items[i], at);
      sorted := sorted[..at] + [items[i]] + sorted[at..];
    }
    assert items[..|items|] == items;
  }
}
