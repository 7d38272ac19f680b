/** ListUtils: extension helpers on lists and queues. A `List` and a
    `Queue` are objects holding a sequence (a queue's front first); the
    helpers that change them in place are methods that modify them. A null
    element is `None`, a delegate a function, `default(T)` a parameter, and
    the random index of `Randomize` a nondeterministic choice. */
module ListUtils {
  import opened Wrappers

  class List<T> {
    var items: seq<T>

    constructor(items: seq<T>)
      ensures this.items == items
    {
      this.items := items;
    }
  }

  class Queue<T> {
    var items: seq<T>

    constructor(items: seq<T>)
      ensures this.items == items
    {
      this.items := items;
    }

    method Enqueue(x: T)
      modifies this
      ensures items == old(items) + [x]
    {
      items := items + [x];
    }
  }

  // ---------------------------------------------------------------------
  // Specification functions.

  /** The elements that pass the filter, in order. */
  function Filtered<T>(s: seq<T>, keep: T -> bool): seq<T>
  {
    if s == [] then [] else Filtered(s[..|s| - 1], keep) + (if keep(s[|s| - 1]) then [s[|s| - 1]] else [])
  }

  /** The index of the first element the predicate selects, or |s|. */
  function FirstSelected<T>(s: seq<T>, select: T -> bool): (k: nat)
    ensures k <= |s|
    ensures forall j :: 0 <= j < k ==> !select(s[j])
    ensures k < |s| ==> select(s[k])
  {
    if s == [] || select(s[0]) then 0
    else
      var k := FirstSelected(s[1..], select);
      assert forall j :: 1 <= j < k + 1 ==> s[j] == s[1..][j - 1];
      k + 1
  }

  /** The indices of the null elements, ascending. */
  function NullIndices<T>(s: seq<Option<T>>): seq<nat>
  {
    if s == [] then [] else NullIndices(s[..|s| - 1]) + (if s[|s| - 1].None? then [|s| - 1] else [])
  }

  function RemoveAt<T>(s: seq<T>, i: nat): seq<T>
    requires i < |s|
  {
    s[..i] + s[i + 1..]
  }

  /** `RemoveAt` applied for each index in turn, each on the list the
      previous one left; an index out of range throws, leaving the list as
      it is at that point. The result is the list and whether it threw. */
  function RemoveEach<T>(s: seq<T>, indices: seq<nat>): (seq<T>, bool)
    decreases |indices|
  {
    if indices == [] then (s, false)
    else if indices[0] >= |s| then (s, true)
    else RemoveEach(RemoveAt(s, indices[0]), indices[1..])
  }

  function IsSome<T>(o: Option<T>): bool
  {
    o.Some?
  }

  // ---------------------------------------------------------------------
  // The helpers.

  /** `Clean`, as written: the null indices are collected in ascending
      order and removed one after the other, without allowing for the
      shift each removal causes. Returns whether a removal threw. */
  method Clean<T>(l: List<Option<T>>) returns (thrown: bool)
    modifies l
    ensures (l.items, thrown) == RemoveEach(old(l.items), NullIndices(old(l.items)))
  {
    var s := l.items;
    var toRemove: seq<nat> := [];
    var i := 0;
    while i < |l.items|
      invariant 0 <= i <= |s| && l.items == s
      invariant toRemove == NullIndices(s[..i])
    {
      assert s[..i + 1][..i] == s[..i];
      if l.items[i].None? {
        toRemove := toRemove + [i];
      }
      i := i + 1;
    }
    assert s[..i] == s;
    thrown := false;
    var k := 0;
    while k < |toRemove|
      invariant 0 <= k <= |toRemove|
      invariant RemoveEach(l.items, toRemove[k..]) == RemoveEach(s, toRemove)
    {
      var index := toRemove[k];
      if index >= |l.items| {
        thrown := true;
        return;
      }
      assert toRemove[k..][1..] == toRemove[k + 1..];
      l.items := RemoveAt(l.items, index);
      k := k + 1;
    }
    assert toRemove[k..] == [];
  }

  /** `Clean` as evidently intended: every null removed, nothing else. */
  method CleanCorrected<T>(l: List<Option<T>>)
    modifies l
    ensures l.items == Filtered(old(l.items), IsSome)
  {
    Filter(l, IsSome);
  }

  /** `GetList`: the queue's elements, front to back, in a new list; the
      queue is left as it is. */
  method GetList<T>(q: Queue<T>) returns (list: List<T>)
    ensures fresh(list) && list.items == q.items
  {
    list := new List([]);
    if |q.items| == 0 {
      return;
    }
    var i := 0;
    while i < |q.items|
      invariant 0 <= i <= |q.items|
      invariant list.items == q.items[..i]
    {
      list.items := list.items + [q.items[i]];
      i := i + 1;
    }
    assert q.items[..i] == q.items;
  }

  /** `Add(queue, list)`: the list's elements enqueued in order. */
  method AddAll<T>(q: Queue<T>, list: List<T>)
    modifies q
    ensures q.items == old(q.items) + list.items
    ensures list.items == old(list.items)
  {
    var i := 0;
    while i < |list.items|
      invariant 0 <= i <= |list.items|
      invariant q.items == old(q.items) + list.items[..i]
    {
      q.Enqueue(list.items[i]);
      assert list.items[..i + 1] == list.items[..i] + [list.items[i]];
      i := i + 1;
    }
    assert list.items[..i] == list.items;
  }

  /** `Randomize`: elements are taken out at random positions and put back
      in the order taken; the list ends a permutation of itself. */
  method Randomize<T>(l: List<T>)
    modifies l
    ensures multiset(l.items) == multiset(old(l.items))
  {
    var newList: seq<T> := [];
    while |l.items| > 0
      invariant multiset(newList) + multiset(l.items) == multiset(old(l.items))
      decreases |l.items|
    {
      var index :| 0 <= index < |l.items|;
      newList := newList + [l.items[index]];
      assert l.items == l.items[..index] + [l.items[index]] + l.items[index + 1..];
      l.items := RemoveAt(l.items, index);
    }
    l.items := l.items + newList;
  }

  /** `ClipToSize`: a new list of the first `size` elements, all of them
      when the list is shorter, none for a size of zero or less. */
  method ClipToSize<T>(list: List<T>, size: int) returns (r: List<T>)
    ensures fresh(r)
    ensures r.items == list.items[..if size < 0 then 0 else if size > |list.items| then |list.items| else size]
  {
    if size > |list.items| {
      r := new List(list.items);
      return;
    }
    r := new List([]);
    var i := 0;
    while i < size
      invariant 0 <= i <= if size < 0 then 0 else size
      invariant r.items == list.items[..i]
    {
      r.items := r.items + [list.items[i]];
      i := i + 1;
    }
  }

  /** `FilterTo`: a new list of the elements that pass, in order. */
  method FilterTo<T>(list: List<T>, keep: T -> bool) returns (r: List<T>)
    ensures fresh(r) && r.items == Filtered(list.items, keep)
  {
    r := new List([]);
    var i := 0;
    while i < |list.items|
      invariant 0 <= i <= |list.items|
      invariant r.items == Filtered(list.items[..i], keep)
    {
      assert list.items[..i + 1][..i] == list.items[..i];
      if keep(list.items[i]) {
        r.items := r.items + [list.items[i]];
      }
      i := i + 1;
    }
    assert list.items[..i] == list.items;
  }

  /** `Filter`: the list replaced, in place, by the elements that pass. */
  method Filter<T>(list: List<T>, keep: T -> bool)
    modifies list
    ensures list.items == Filtered(old(list.items), keep)
  {
    var temp := list.items;
    list.items := [];
    var i := 0;
    while i < |temp|
      invariant 0 <= i <= |temp|
      invariant list.items == Filtered(temp[..i], keep)
    {
      assert temp[..i + 1][..i] == temp[..i];
      var x := temp[i];
      if keep(x) {
        list.items := list.items + [x];
      }
      i := i + 1;
    }
    assert temp[..i] == temp;
  }

  /** `Select`: the first element the predicate selects, else the
      default. */
  method Select<T>(list: List<T>, select: T -> bool, dflt: T) returns (r: T)
    ensures FirstSelected(list.items, select) < |list.items| ==> r == list.items[FirstSelected(list.items, select)]
    ensures FirstSelected(list.items, select) == |list.items| ==> r == dflt
  {
    var i := 0;
    while i < |list.items|
      invariant 0 <= i <= |list.items|
      invariant forall j :: 0 <= j < i ==> !select(list.items[j])
    {
      if select(list.items[i]) {
        return list.items[i];
      }
      i := i + 1;
    }
    return dflt;
  }

  /** `Last`: the final element, or the default of an empty list. */
  function Last<T>(s: seq<T>, dflt: T): (r: T)
    ensures s != [] ==> r == s[|s| - 1] && r in s
    ensures s == [] ==> r == dflt
  {
    if |s| == 0 then dflt else s[|s| - 1]
  }

  // ---------------------------------------------------------------------
  // Properties.

  /** Everything that passes the filter was in the list and passes. */
  lemma {:induction false} FilteredSound<T>(s: seq<T>, keep: T -> bool)
    ensures forall x :: x in Filtered(s, keep) ==> x in s && keep(x)
    ensures multiset(Filtered(s, keep)) <= multiset(s)
  {
    if s != [] {
      FilteredSound(s[..|s| - 1], keep);
      assert s == s[..|s| - 1] + [s[|s| - 1]];
    }
  }

  /** Nothing that passes the filter is lost. */
  lemma {:induction false} FilteredComplete<T>(s: seq<T>, keep: T -> bool, i: nat)
    requires i < |s| && keep(s[i])
    ensures s[i] in Filtered(s, keep)
  {
    if i < |s| - 1 {
      FilteredComplete(s[..|s| - 1], keep, i);
    }
  }

  /** Filtering distributes over concatenation, so the elements kept keep
      their order. */
  lemma {:induction false} FilteredAppend<T>(a: seq<T>, b: seq<T>, keep: T -> bool)
    ensures Filtered(a + b, keep) == Filtered(a, keep) + Filtered(b, keep)
    decreases |b|
  {
    if b == [] {
      assert a + b == a;
    } else {
      var ab := a + b;
      assert ab[..|ab| - 1] == a + b[..|b| - 1];
      assert ab[|ab| - 1] == b[|b| - 1];
      FilteredAppend(a, b[..|b| - 1], keep);
    }
  }

  /** A list whose elements all pass is left as it is. */
  lemma {:induction false} FilteredAll<T>(s: seq<T>, keep: T -> bool)
    requires forall i :: 0 <= i < |s| ==> keep(s[i])
    ensures Filtered(s, keep) == s
  {
    if s != [] {
      FilteredAll(s[..|s| - 1], keep);
    }
  }

  /** Filtering twice is filtering once. */
  lemma FilteredIdempotent<T>(s: seq<T>, keep: T -> bool)
    ensures Filtered(Filtered(s, keep), keep) == Filtered(s, keep)
  {
    var f := Filtered(s, keep);
    FilteredSound(s, keep);
    forall i | 0 <= i < |f| ensures keep(f[i]) {
      assert f[i] in f;
    }
    FilteredAll(f, keep);
  }

  /** The corrected `Clean` leaves no null and keeps every element. */
  lemma CleanedHasNoNull<T>(s: seq<Option<T>>)
    ensures forall x :: x in Filtered(s, IsSome) ==> x.Some?
    ensures forall i :: 0 <= i < |s| && s[i].Some? ==> s[i] in Filtered(s, IsSome)
  {
    FilteredSound(s, IsSome);
    forall i | 0 <= i < |s| && s[i].Some? ensures s[i] in Filtered(s, IsSome) {
      FilteredComplete(s, IsSome, i);
    }
  }

  /** The null indices are exactly the positions of the nulls. */
  lemma {:induction false} NullIndicesExact<T>(s: seq<Option<T>>)
    ensures forall j :: j in NullIndices(s) <==> 0 <= j < |s| && s[j].None?
  {
    if s != [] {
      NullIndicesExact(s[..|s| - 1]);
    }
  }

  /** As written, `Clean` removes a single null correctly. */
  lemma CleanOneNull<T>(a: seq<Option<T>>, b: seq<Option<T>>)
    requires forall i :: 0 <= i < |a| ==> a[i].Some?
    requires forall i :: 0 <= i < |b| ==> b[i].Some?
    ensures RemoveEach(a + [None] + b, NullIndices(a + [None] + b)) == (a + b, false)
  {
    var s := a + [None] + b;
    NullIndicesExact(s);
    var n := NullIndices(s);
    assert n == [|a|] by {
      NullIndicesOne(s, |a|);
    }
    assert RemoveAt(s, |a|) == a + b;
    assert n[1..] == [];
  }

  lemma {:induction false} NullIndicesOne<T>(s: seq<Option<T>>, k: nat)
    requires k < |s| && s[k].None?
    requires forall i :: 0 <= i < |s| && i != k ==> s[i].Some?
    ensures NullIndices(s) == [k]
  {
    var init := s[..|s| - 1];
    if k < |s| - 1 {
      NullIndicesOne(init, k);
    } else {
      NullIndicesNone(init);
    }
  }

  lemma {:induction false} NullIndicesNone<T>(s: seq<Option<T>>)
    requires forall i :: 0 <= i < |s| ==> s[i].Some?
    ensures NullIndices(s) == []
  {
    if s != [] {
      NullIndicesNone(s[..|s| - 1]);
    }
  }

  /** As written, `Clean` on [null, null] throws: after the first removal
      the list has one element and index 1 is out of range. */
  lemma CleanTwoNullsThrows<T>()
    ensures RemoveEach<Option<T>>([None, None], NullIndices<T>([None, None])) == ([None], true)
  {
    var s: seq<Option<T>> := [None, None];
    assert s[..1] == [None];
    assert NullIndices(s) == [0, 1];
    assert RemoveAt(s, 0) == [None];
  }

  /** As written, `Clean` on [null, null, x] leaves [null]: the second
      removal takes x, which moved into index 1. */
  lemma CleanTwoNullsKeepsOne<T>(x: T)
    ensures RemoveEach<Option<T>>([None, None, Some(x)], NullIndices<T>([None, None, Some(x)])) == ([None], false)
  {
    var s: seq<Option<T>> := [None, None, Some(x)];
    var two: seq<Option<T>> := [None, None];
    assert s[..2] == two && two[..1] == [None];
    assert NullIndices(two) == [0, 1];
    assert NullIndices(s) == [0, 1];
    assert RemoveAt(s, 0) == [None, Some(x)];
    assert RemoveAt([None, Some(x)], 1) == [None];
    assert [0, 1][1..] == [1];
  }

  /** The corrected `Clean` on the same lists removes every null. */
  lemma CleanCorrectedExamples<T>(x: T)
    ensures Filtered<Option<T>>([None, None], IsSome) == []
    ensures Filtered<Option<T>>([None, None, Some(x)], IsSome) == [Some(x)]
  {
    var s: seq<Option<T>> := [None, None, Some(x)];
    assert s[..2] == [None, None] && s[..2][..1] == [None];
  }

  /** `Last` of a list with one more element is that element. */
  lemma LastAppended<T>(s: seq<T>, x: T, dflt: T)
    ensures Last(s + [x], dflt) == x
  {
  }
}
