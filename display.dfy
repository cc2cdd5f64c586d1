/**
 The order in which the `App` component lists the todos: a copy of the list
 (`slice()`) sorted by a comparator that puts completed items after pending
 ones and calls every other pair equal. `Array.prototype.sort` is required to
 be stable (section 23.1.3.30 of ECMA-262, 2023 edition), so the sort is
 modelled by a stable insertion sort over that comparator, and the result is
 proved to be the pending items followed by the completed ones, each group in
 insertion order.
 */
module Display {
  import opened Todos

  /** The comparator handed to `sort`: 0 when both items have the same flag,
      1 (after) when `a` is completed and `b` is not, -1 (before) otherwise. */
  function Compare(a: Todo, b: Todo): (r: int)
    ensures r == 0 <==> a.completed == b.completed
    ensures r < 0 <==> !a.completed && b.completed
    ensures r > 0 <==> a.completed && !b.completed
  {
    if a.completed == b.completed then 0
    else if a.completed then 1 else -1
  }

  /** The comparator is consistent in the sense section 23.1.3.30 of ECMA-262 asks for:
      it is antisymmetric, and "not after" and "equal" are transitive. */
  lemma CompareIsConsistent(a: Todo, b: Todo, c: Todo)
    ensures Compare(a, b) < 0 <==> Compare(b, a) > 0
    ensures Compare(a, b) == 0 <==> Compare(b, a) == 0
    ensures Compare(a, b) <= 0 && Compare(b, c) <= 0 ==> Compare(a, c) <= 0
    ensures Compare(a, b) == 0 && Compare(b, c) == 0 ==> Compare(a, c) == 0
  {
  }

  /** Sorted with respect to the comparator: no item is after a later one. */
  predicate SortedByCompare(s: seq<Todo>)
  {
    forall i, j :: 0 <= i < j < |s| ==> Compare(s[i], s[j]) <= 0
  }

  /** Puts `x` in front of the first element it does not come after; `x` stays ahead of
      every element it compares equal to, which is what makes the sort stable. */
  function Insert(x: Todo, s: seq<Todo>): seq<Todo>
  {
    if s == [] || Compare(x, s[0]) <= 0 then [x] + s
    else [s[0]] + Insert(x, s[1..])
  }

  /** A stable sort of `s` by `Compare`: `todos.slice().sort(...)`. */
  function Sort(s: seq<Todo>): seq<Todo>
  {
    if s == [] then []
    else Insert(s[0], Sort(s[1..]))
  }

  /** The pending items of a list, in their order. */
  function Pending(s: seq<Todo>): seq<Todo>
  {
    if s == [] then []
    else if s[0].completed then Pending(s[1..])
    else [s[0]] + Pending(s[1..])
  }

  /** The completed items of a list, in their order. */
  function Completed(s: seq<Todo>): seq<Todo>
  {
    if s == [] then []
    else if s[0].completed then [s[0]] + Completed(s[1..])
    else Completed(s[1..])
  }

  /** The display order rendered by the component. */
  function DisplayOrder(todos: seq<Todo>): seq<Todo>
  {
    Sort(todos)
  }

  lemma {:induction false} PendingAllPending(s: seq<Todo>)
    ensures forall k :: 0 <= k < |Pending(s)| ==> !Pending(s)[k].completed
  {
    if s != [] {
      PendingAllPending(s[1..]);
    }
  }

  lemma {:induction false} CompletedAllCompleted(s: seq<Todo>)
    ensures forall k :: 0 <= k < |Completed(s)| ==> Completed(s)[k].completed
  {
    if s != [] {
      CompletedAllCompleted(s[1..]);
    }
  }

  /** Inserting a completed item into "pending items, then completed items" puts it
      right after the pending ones. */
  lemma {:induction false} InsertCompleted(x: Todo, p: seq<Todo>, c: seq<Todo>)
    requires x.completed
    requires forall k :: 0 <= k < |p| ==> !p[k].completed
    requires forall k :: 0 <= k < |c| ==> c[k].completed
    ensures Insert(x, p + c) == p + [x] + c
  {
    if p == [] {
      assert p + c == c;
    } else {
      assert (p + c)[1..] == p[1..] + c;
      InsertCompleted(x, p[1..], c);
      assert p + [x] + c == [p[0]] + (p[1..] + [x] + c);
    }
  }

  /** A pending item goes in front of any list. */
  lemma InsertPending(x: Todo, s: seq<Todo>)
    requires !x.completed
    ensures Insert(x, s) == [x] + s
  {
    assert s == [] || Compare(x, s[0]) <= 0;
  }

  /** One step of the partition: where the first item of a list goes. */
  lemma PartitionCons(s: seq<Todo>)
    requires s != []
    ensures s[0].completed ==> Pending(s) == Pending(s[1..]) && Completed(s) == [s[0]] + Completed(s[1..])
    ensures !s[0].completed ==> Pending(s) == [s[0]] + Pending(s[1..]) && Completed(s) == Completed(s[1..])
  {
  }

  /** The stable sort by the comparator is the partition into pending items followed by
      completed items, each group in insertion order. */
  lemma {:induction false} SortIsPartition(s: seq<Todo>)
    ensures Sort(s) == Pending(s) + Completed(s)
  {
    if s != [] {
      var x, p, c := s[0], Pending(s[1..]), Completed(s[1..]);
      SortIsPartition(s[1..]);
      PartitionCons(s);
      calc {
        Sort(s);
        Insert(x, Sort(s[1..]));
        Insert(x, p + c);
        { if x.completed {
            PendingAllPending(s[1..]);
            CompletedAllCompleted(s[1..]);
            InsertCompleted(x, p, c);
          } else {
            InsertPending(x, p + c);
          } }
        if x.completed then p + ([x] + c) else ([x] + p) + c;
        Pending(s) + Completed(s);
      }
    }
  }

  /** Splitting a list into its pending and its completed items loses and duplicates nothing. */
  lemma {:induction false} PartitionIsPermutation(s: seq<Todo>)
    ensures multiset(Pending(s)) + multiset(Completed(s)) == multiset(s)
  {
    if s != [] {
      var x := s[0];
      PartitionIsPermutation(s[1..]);
      PartitionCons(s);
      assert s == [x] + s[1..];
    }
  }

  /** The display order holds exactly the items of the list, each as often. */
  lemma DisplayIsPermutation(todos: seq<Todo>)
    ensures multiset(DisplayOrder(todos)) == multiset(todos)
    ensures |DisplayOrder(todos)| == |todos|
  {
    SortIsPartition(todos);
    PartitionIsPermutation(todos);
    assert |multiset(DisplayOrder(todos))| == |multiset(todos)|;
  }

  /** In the display order every pending item precedes every completed item. */
  lemma DisplayPendingFirst(todos: seq<Todo>)
    ensures forall i, j :: 0 <= i < j < |DisplayOrder(todos)| && DisplayOrder(todos)[i].completed
              ==> DisplayOrder(todos)[j].completed
  {
    var d, p, c := DisplayOrder(todos), Pending(todos), Completed(todos);
    SortIsPartition(todos);
    PendingAllPending(todos);
    CompletedAllCompleted(todos);
    forall i, j | 0 <= i < j < |d| && d[i].completed ensures d[j].completed {
      assert d[j] == c[j - |p|];
    }
  }

  /** The display order is sorted by the comparator handed to `sort`. */
  lemma DisplayIsSorted(todos: seq<Todo>)
    ensures SortedByCompare(DisplayOrder(todos))
  {
    DisplayPendingFirst(todos);
  }

  /** Pending of a concatenation is the concatenation of the pendings. */
  lemma {:induction false} PendingAppend(a: seq<Todo>, b: seq<Todo>)
    ensures Pending(a + b) == Pending(a) + Pending(b)
  {
    if a == [] {
      assert a + b == b;
    } else {
      assert (a + b)[1..] == a[1..] + b;
      PendingAppend(a[1..], b);
    }
  }

  /** Completed of a concatenation is the concatenation of the completeds. */
  lemma {:induction false} CompletedAppend(a: seq<Todo>, b: seq<Todo>)
    ensures Completed(a + b) == Completed(a) + Completed(b)
  {
    if a == [] {
      assert a + b == b;
    } else {
      assert (a + b)[1..] == a[1..] + b;
      CompletedAppend(a[1..], b);
    }
  }

  lemma {:induction false} PendingOfPending(s: seq<Todo>)
    ensures Pending(Pending(s)) == Pending(s)
    ensures Completed(Pending(s)) == []
  {
    if s != [] {
      PendingOfPending(s[1..]);
      PendingAppend(if s[0].completed then [] else [s[0]], Pending(s[1..]));
      CompletedAppend(if s[0].completed then [] else [s[0]], Pending(s[1..]));
    }
  }

  lemma {:induction false} CompletedOfCompleted(s: seq<Todo>)
    ensures Completed(Completed(s)) == Completed(s)
    ensures Pending(Completed(s)) == []
  {
    if s != [] {
      CompletedOfCompleted(s[1..]);
      PendingAppend(if s[0].completed then [s[0]] else [], Completed(s[1..]));
      CompletedAppend(if s[0].completed then [s[0]] else [], Completed(s[1..]));
    }
  }

  /** Stability: within each group the display order keeps the insertion order. */
  lemma DisplayIsStable(todos: seq<Todo>)
    ensures Pending(DisplayOrder(todos)) == Pending(todos)
    ensures Completed(DisplayOrder(todos)) == Completed(todos)
  {
    SortIsPartition(todos);
    PendingAppend(Pending(todos), Completed(todos));
    CompletedAppend(Pending(todos), Completed(todos));
    PendingOfPending(todos);
    CompletedOfCompleted(todos);
  }

  /** `[A (done), B (pending), C (done)]` is displayed as `[B, A, C]`. */
  lemma DisplayExample()
    ensures DisplayOrder([Todo("a", "A", true), Todo("b", "B", false), Todo("c", "C", true)])
         == [Todo("b", "B", false), Todo("a", "A", true), Todo("c", "C", true)]
  {
    var a, b, c := Todo("a", "A", true), Todo("b", "B", false), Todo("c", "C", true);
    var s := [a, b, c];
    SortIsPartition(s);
    assert s[1..] == [b, c] && s[1..][1..] == [c] && [c][1..] == [];
    assert Pending([c]) == [] && Completed([c]) == [c];
    assert Pending([b, c]) == [b] && Completed([b, c]) == [c];
    assert Pending(s) == [b] && Completed(s) == [a, c];
  }
}
