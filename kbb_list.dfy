// Knowledge-based behaviour selection: every behaviour scores itself
// against the agent, the list is ordered best first, and the best one
// is executed when its score is positive.

module KBB {
  import opened Wrappers

  /** One scored behaviour. The utility and execute delegates are functions
    * of the agent; what an execution does to the agent is recorded as the
    * ghost log `runs`. */
  class KnowledgeBasedBehavior<T> {
    const name: string
    const updateMeth: T -> real
    const executeMeth: Option<T -> ()>
    var utility: real
    var executing: bool
    ghost var runs: seq<T>

    /** The constructor without an execute delegate. */
    constructor (name: string, uum: T -> real)
      ensures this.name == name && updateMeth == uum && executeMeth.None?
      ensures utility == 0.0 && !executing && runs == []
    {
      this.name := name;
      updateMeth := uum;
      executeMeth := None;
      utility := 0.0;
      executing := false;
      runs := [];
    }

    /** The constructor with both delegates. */
    constructor WithExecute(name: string, uum: T -> real, eum: T -> ())
      ensures this.name == name && updateMeth == uum && executeMeth == Some(eum)
      ensures utility == 0.0 && !executing && runs == []
    {
      this.name := name;
      updateMeth := uum;
      executeMeth := Some(eum);
      utility := 0.0;
      executing := false;
      runs := [];
    }

    method UpdateUtility(ai: T)
      modifies this`utility
      ensures utility == updateMeth(ai)
    {
      utility := updateMeth(ai);
    }

    /** Runs the execute delegate once. Invoking a missing delegate throws:
      * `thrown` reports it, and nothing runs. */
    method Execute(ai: T) returns (thrown: bool)
      modifies this`runs
      ensures thrown <==> executeMeth.None?
      ensures !thrown ==> runs == old(runs) + [ai]
      ensures thrown ==> runs == old(runs)
    {
      if executeMeth.None? {
        return true;
      }
      runs := runs + [ai];
      return false;
    }
  }

  /** Best first: no behaviour scores higher than one before it. */
  predicate NonIncreasing<T>(s: seq<KnowledgeBasedBehavior<T>>)
    reads s`utility
  {
    forall i, j :: 0 <= i < j < |s| ==> s[i].utility >= s[j].utility
  }

  /** Every behaviour's utility is its score for `ai`. */
  predicate Scored<T>(s: seq<KnowledgeBasedBehavior<T>>, ai: T)
    reads s`utility
  {
    forall i :: 0 <= i < |s| ==> s[i].utility == s[i].updateMeth(ai)
  }

  /** The selection rule: the head of a best-first list, when it scores above zero. */
  function Choose<T>(s: seq<KnowledgeBasedBehavior<T>>): (r: Option<KnowledgeBasedBehavior<T>>)
    requires |s| > 0
    reads s`utility
    ensures r.Some? <==> s[0].utility > 0.0
    ensures r.Some? ==> r.value == s[0]
  {
    if s[0].utility <= 0.0 then None else Some(s[0])
  }

  /** In a best-first list, the chosen behaviour scores at least as high as
    * every other, and nothing is chosen exactly when no behaviour scores
    * above zero. */
  lemma ChooseIsBest<T>(s: seq<KnowledgeBasedBehavior<T>>)
    requires |s| > 0 && NonIncreasing(s)
    ensures Choose(s).Some? ==> forall b :: b in s ==> Choose(s).value.utility >= b.utility
    ensures Choose(s).None? <==> forall b :: b in s ==> b.utility <= 0.0
  {
    forall b | b in s
      ensures s[0].utility >= b.utility
    {
      var k :| 0 <= k < |s| && s[k] == b;
      if k > 0 {
        assert s[0].utility >= s[k].utility;
      }
    }
  }

  /** Sorts by utility, highest first; the list keeps the same behaviours.
    * Equal utilities may come out in any order. */
  method SortByUtility<T>(s: seq<KnowledgeBasedBehavior<T>>) returns (r: seq<KnowledgeBasedBehavior<T>>)
    ensures multiset(r) == multiset(s)
    ensures NonIncreasing(r)
  {
    r := [];
    var i := 0;
    while i < |s|
      invariant 0 <= i <= |s|
      invariant multiset(r) == multiset(s[..i])
      invariant NonIncreasing(r)
    {
      var x := s[i];
      var j := 0;
      while j < |r| && r[j].utility >= x.utility
        invariant 0 <= j <= |r|
        invariant forall k :: 0 <= k < j ==> r[k].utility >= x.utility
      {
        j := j + 1;
      }
      InsertKeepsOrder(r, j, x);
      assert r == r[..j] + r[j..];
      r := r[..j] + [x] + r[j..];
      assert s[..i + 1] == s[..i] + [x];
      i := i + 1;
    }
    assert s[..i] == s;
  }

  /** Inserting `x` at `j` keeps a best-first list best first when
    * everything before `j` scores at least `x` and everything from `j` less. */
  lemma {:induction false} InsertKeepsOrder<T>(r: seq<KnowledgeBasedBehavior<T>>, j: nat, x: KnowledgeBasedBehavior<T>)
    requires j <= |r| && NonIncreasing(r)
    requires forall k :: 0 <= k < j ==> r[k].utility >= x.utility
    requires j < |r| ==> r[j].utility < x.utility
    ensures NonIncreasing(r[..j] + [x] + r[j..])
  {
    var r' := r[..j] + [x] + r[j..];
    forall a, b | 0 <= a < b < |r'|
      ensures r'[a].utility >= r'[b].utility
    {
      if b < j {
        assert r'[a] == r[a] && r'[b] == r[b];
      } else if b == j {
        assert r'[a] == r[a] && r'[b] == x;
      } else if a < j {
        assert r'[a] == r[a] && r'[b] == r[b - 1];
      } else if a == j {
        assert r'[a] == x && r'[b] == r[b - 1];
      } else {
        assert r'[a] == r[a - 1] && r'[b] == r[b - 1];
      }
    }
  }

  /** The behaviour list and the current selection. */
  class KBBList<T> {
    var kbList: seq<KnowledgeBasedBehavior<T>>
    var selected: Option<KnowledgeBasedBehavior<T>>

    constructor ()
      ensures kbList == [] && selected.None?
    {
      kbList := [];
      selected := None;
    }

    /** Recomputes every utility, then orders the list best first. */
    method UpdateKBB(ai: T)
      modifies this`kbList, kbList`utility
      ensures multiset(kbList) == multiset(old(kbList))
      ensures Scored(kbList, ai) && NonIncreasing(kbList)
    {
      var i := 0;
      while i < |kbList|
        invariant 0 <= i <= |kbList| && kbList == old(kbList)
        invariant forall k :: 0 <= k < i ==> kbList[k].utility == kbList[k].updateMeth(ai)
      {
        kbList[i].UpdateUtility(ai);
        i := i + 1;
      }
      ghost var scored := kbList;
      kbList := SortByUtility(kbList);
      forall i | 0 <= i < |kbList|
        ensures kbList[i].utility == kbList[i].updateMeth(ai)
      {
        assert kbList[i] in multiset(scored);
        var k :| 0 <= k < |scored| && scored[k] == kbList[i];
      }
    }

    /** Selects the head of the list when its utility is positive. */
    method SelectKBB()
      requires |kbList| > 0
      modifies this`selected
      ensures selected == Choose(kbList)
    {
      if kbList[0].utility <= 0.0 {
        selected := None;
      } else {
        selected := Some(kbList[0]);
      }
    }

    /** One decision step: does nothing when the list is empty or the current
      * selection is still executing; otherwise rescores and reorders the
      * list, selects its head if positive and executes it once. `thrown`
      * reports the exception of a selected behaviour without an execute
      * delegate; behaviours that are not selected need none. */
    method UpdateList(ai: T) returns (thrown: bool)
      modifies this`kbList, this`selected, kbList`utility, kbList`runs
      ensures old(|kbList| == 0 || (selected.Some? && selected.value.executing)) ==>
        !thrown && kbList == old(kbList) && selected == old(selected) &&
        forall b :: b in kbList ==> b.utility == old(b.utility) && b.runs == old(b.runs)
      ensures !old(|kbList| == 0 || (selected.Some? && selected.value.executing)) ==>
        && multiset(kbList) == multiset(old(kbList))
        && Scored(kbList, ai) && NonIncreasing(kbList)
        && selected == Choose(kbList)
        && (forall b :: b in old(kbList) && (Some(b) != selected || thrown) ==> b.runs == old(b.runs))
        && (thrown <==> selected.Some? && selected.value.executeMeth.None?)
        && (forall b :: b in old(kbList) && Some(b) == selected && !thrown ==> b.runs == old(b.runs) + [ai])
    {
      thrown := false;
      if |kbList| < 1 {
        return;
      }
      if selected.Some? && selected.value.executing {
        return;
      }
      UpdateKBB(ai);
      SelectKBB();
      if selected.Some? {
        assert selected.value in multiset(old(kbList));
        thrown := selected.value.Execute(ai);
      }
    }
  }
}
