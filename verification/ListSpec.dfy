/** What removal by value from a list means, on sequences (src/list.c). */
module ListSpec {

  function Reverse<T>(s: seq<T>): (r: seq<T>)
    ensures |r| == |s|
    ensures forall i :: 0 <= i < |s| ==> r[i] == s[|s| - 1 - i]
  {
    if s == [] then [] else Reverse(s[1..]) + [s[0]]
  }

  /** The occurrences of `v`. */
  function Count(s: seq<string>, v: string): (n: nat)
    ensures n <= |s|
  {
    if s == [] then 0 else (if s[0] == v then 1 else 0) + Count(s[1..], v)
  }

  function Without(s: seq<string>, v: string): seq<string> {
    if s == [] then [] else (if s[0] == v then [] else [s[0]]) + Without(s[1..], v)
  }

  /** `s` without the first `n` occurrences of `v`. */
  function RemoveFirst(s: seq<string>, n: nat, v: string): (r: seq<string>)
    ensures |r| <= |s|
  {
    if s == [] || n == 0 then s
    else if s[0] == v then RemoveFirst(s[1..], n - 1, v)
    else [s[0]] + RemoveFirst(s[1..], n, v)
  }

  /** LREM: the first `count` occurrences, the last `-count` of them, or all when `count` is 0. */
  function Rem(s: seq<string>, count: int, v: string): seq<string> {
    if count > 0 then RemoveFirst(s, count, v)
    else if count < 0 then Reverse(RemoveFirst(Reverse(s), -count, v))
    else Without(s, v)
  }

  function RemCount(s: seq<string>, count: int, v: string): nat {
    var occurrences := Count(s, v);
    if count == 0 then occurrences
    else
      var wanted := if count > 0 then count else -count;
      if wanted < occurrences then wanted else occurrences
  }

  function Min(a: nat, b: nat): nat {
    if a < b then a else b
  }

  /** Counting is the multiplicity of the value. */
  lemma {:induction false} CountIsMultiplicity(s: seq<string>, v: string)
    ensures Count(s, v) == multiset(s)[v]
  {
    if s != [] {
      CountIsMultiplicity(s[1..], v);
      assert s == [s[0]] + s[1..];
    }
  }

  /** Nothing but the value is taken out and all of it is; with WithoutConcat the rest stays in order. */
  lemma {:induction false} WithoutTakesOut(s: seq<string>, v: string, x: string)
    ensures multiset(Without(s, v))[x] == if x == v then 0 else multiset(s)[x]
  {
    hide Without;
    if s != [] {
      WithoutTakesOut(s[1..], v, x);
      assert s == [s[0]] + s[1..];
      WithoutFront(s, v);
    } else {
      WithoutNone(v);
    }
  }

  lemma WithoutNone(v: string)
    ensures Without([], v) == []
  {
  }

  lemma WithoutFront(s: seq<string>, v: string)
    requires s != []
    ensures Without(s, v) == (if s[0] == v then [] else [s[0]]) + Without(s[1..], v)
  {
  }

  lemma WithoutOne(x: string, v: string)
    ensures Without([x], v) == if x == v then [] else [x]
  {
    assert [x][1..] == [];
  }

  lemma {:induction false} CountConcat(a: seq<string>, b: seq<string>, v: string)
    ensures Count(a + b, v) == Count(a, v) + Count(b, v)
  {
    if a == [] {
      assert a + b == b;
    } else {
      assert (a + b)[1..] == a[1..] + b;
      CountConcat(a[1..], b, v);
    }
  }

  lemma {:induction false} WithoutConcat(a: seq<string>, b: seq<string>, v: string)
    ensures Without(a + b, v) == Without(a, v) + Without(b, v)
  {
    if a == [] {
      assert a + b == b;
    } else {
      assert (a + b)[1..] == a[1..] + b;
      WithoutConcat(a[1..], b, v);
    }
  }

  lemma {:induction false} ReverseConcat<T>(a: seq<T>, b: seq<T>)
    ensures Reverse(a + b) == Reverse(b) + Reverse(a)
  {
    if a == [] {
      assert a + b == b;
    } else {
      assert (a + b)[1..] == a[1..] + b;
      ReverseConcat(a[1..], b);
    }
  }

  lemma ReverseTwice<T>(s: seq<T>)
    ensures Reverse(Reverse(s)) == s
  {
  }

  lemma {:induction false} CountReverse(s: seq<string>, v: string)
    ensures Count(Reverse(s), v) == Count(s, v)
  {
    if s != [] {
      CountReverse(s[1..], v);
      CountConcat(Reverse(s[1..]), [s[0]], v);
      assert [s[0]][1..] == [];
    }
  }

  lemma {:induction false} WithoutReverse(s: seq<string>, v: string)
    ensures Without(Reverse(s), v) == Reverse(Without(s, v))
  {
    if s != [] {
      WithoutReverse(s[1..], v);
      WithoutConcat(Reverse(s[1..]), [s[0]], v);
      assert [s[0]][1..] == [];
      ReverseConcat(if s[0] == v then [] else [s[0]], Without(s[1..], v));
    }
  }

  /** Removal from the front cuts the list in two: before the cut no occurrence is left, after it nothing changes. */
  lemma {:induction false} RemoveFirstIsExact(s: seq<string>, n: nat, v: string) returns (cut: nat)
    ensures cut <= |s|
    ensures RemoveFirst(s, n, v) == Without(s[..cut], v) + s[cut..]
    ensures Count(s[..cut], v) == Min(n, Count(s, v))
    ensures |RemoveFirst(s, n, v)| == |s| - Min(n, Count(s, v))
  {
    if s == [] || n == 0 {
      cut := 0;
    } else {
      var rest := RemoveFirstIsExact(s[1..], if s[0] == v then n - 1 else n, v);
      cut := rest + 1;
      assert s[..cut][1..] == s[1..][..rest];
      assert s[cut..] == s[1..][rest..];
    }
  }

  lemma ReverseCut<T>(s: seq<T>, cut: nat)
    requires cut <= |s|
    ensures Reverse(s)[..|s| - cut] == Reverse(s[cut..])
    ensures Reverse(s)[|s| - cut..] == Reverse(s[..cut])
  {
    hide Reverse;
    assert s == s[..cut] + s[cut..];
    ReverseConcat(s[..cut], s[cut..]);
    ConcatSlices(Reverse(s[cut..]), Reverse(s[..cut]));
  }

  lemma ConcatSlices<T>(a: seq<T>, b: seq<T>)
    ensures (a + b)[..|a|] == a && (a + b)[|a|..] == b
  {
  }

  lemma ReverseBack<T>(a: seq<T>, b: seq<T>)
    ensures Reverse(Reverse(b) + Reverse(a)) == a + b
  {
    ReverseConcat(Reverse(b), Reverse(a));
    ReverseTwice(a);
    ReverseTwice(b);
  }

  /** The mirror image for removal from the back. */
  lemma RemoveLastIsExact(s: seq<string>, count: int, v: string) returns (cut: nat)
    requires count < 0
    ensures cut <= |s|
    ensures Rem(s, count, v) == s[..cut] + Without(s[cut..], v)
    ensures Count(s[cut..], v) == Min(-count, Count(s, v))
    ensures |Rem(s, count, v)| == |s| - Min(-count, Count(s, v))
  {
    hide *;
    RemFromBack(s, count, v);
    var r := Reverse(s);
    var rcut := RemoveFirstIsExact(r, -count, v);
    cut := |s| - rcut;
    ReverseCut(s, cut);
    WithoutReverse(s[cut..], v);
    CountReverse(s[cut..], v);
    CountReverse(s, v);
    ReverseBack(s[..cut], Without(s[cut..], v));
  }

  lemma RemFromBack(s: seq<string>, count: int, v: string)
    requires count < 0
    ensures Rem(s, count, v) == Reverse(RemoveFirst(Reverse(s), -count, v))
  {
  }

  lemma {:induction false} WithoutIsRemoveAll(s: seq<string>, n: nat, v: string)
    requires n >= Count(s, v)
    ensures RemoveFirst(s, n, v) == Without(s, v)
    ensures |Without(s, v)| == |s| - Count(s, v)
  {
    if s != [] {
      if n == 0 {
        WithoutIsRemoveAll(s[1..], 0, v);
      } else {
        WithoutIsRemoveAll(s[1..], if s[0] == v then n - 1 else n, v);
      }
    }
  }

  ghost predicate FrontCut(s: seq<string>, r: seq<string>, cut: nat, k: nat, v: string) {
    cut <= |s| && r == Without(s[..cut], v) + s[cut..] && Count(s[..cut], v) == k
  }

  ghost predicate BackCut(s: seq<string>, r: seq<string>, cut: nat, k: nat, v: string) {
    cut <= |s| && r == s[..cut] + Without(s[cut..], v) && Count(s[cut..], v) == k
  }

  /**
   LREM removes exactly the first min(count, occurrences) matches, the last min(-count,
   occurrences), or all of them, keeps the rest in order, and shortens the list by that number.
   */
  lemma RemIsExact(s: seq<string>, count: int, v: string)
    ensures count >= 0 ==> exists cut :: FrontCut(s, Rem(s, count, v), cut, RemCount(s, count, v), v)
    ensures count <= 0 ==> exists cut :: BackCut(s, Rem(s, count, v), cut, RemCount(s, count, v), v)
    ensures |Rem(s, count, v)| == |s| - RemCount(s, count, v)
  {
    if count > 0 {
      var cut := RemoveFirstIsExact(s, count, v);
      assert FrontCut(s, Rem(s, count, v), cut, RemCount(s, count, v), v);
    } else if count < 0 {
      var cut := RemoveLastIsExact(s, count, v);
      assert BackCut(s, Rem(s, count, v), cut, RemCount(s, count, v), v);
    } else {
      WithoutIsRemoveAll(s, Count(s, v), v);
      assert s[..|s|] == s && s[0..] == s && s[|s|..] == [];
      assert Without(s, v) == Without(s, v) + [] == [] + Without(s, v);
      assert Count([], v) == 0;
      assert FrontCut(s, Rem(s, count, v), |s|, RemCount(s, count, v), v);
      assert BackCut(s, Rem(s, count, v), 0, RemCount(s, count, v), v);
    }
  }

  // ----- the removal loop, one step at a time

  /**
   The state of a forward pass: after `j` elements of `s`, `removed` of them are gone, `kept` are
   kept, and `count` is the running counter, started at `total`.
   */
  ghost predicate Forward(s: seq<string>, total: int, v: string, j: nat, count: int, kept: seq<string>, removed: int) {
    && j <= |s|
    && removed >= 0
    && total >= 0
    && count == total - removed
    && (if total == 0 then
          && Without(s, v) == kept + Without(s[j..], v)
          && Count(s, v) == removed + Count(s[j..], v)
        else
          && count >= 0
          && RemoveFirst(s, total, v) == kept + RemoveFirst(s[j..], count, v)
          && Min(total, Count(s, v)) == removed + Min(count, Count(s[j..], v)))
  }

  lemma ForwardStart(s: seq<string>, total: nat, v: string)
    ensures Forward(s, total, v, 0, total, [], 0)
  {
    assert s[0..] == s;
  }

  lemma ForwardStep(s: seq<string>, total: int, v: string, j: nat, count: int, kept: seq<string>, removed: int)
    requires Forward(s, total, v, j, count, kept, removed) && j < |s|
    requires total == 0 || count != 0
    ensures if s[j] == v then Forward(s, total, v, j + 1, count - 1, kept, removed + 1)
            else Forward(s, total, v, j + 1, count, kept + [s[j]], removed)
  {
    assert s[j..][1..] == s[j + 1..];
    if s[j] != v {
      if total == 0 {
        assert kept + ([s[j]] + Without(s[j + 1..], v)) == (kept + [s[j]]) + Without(s[j + 1..], v);
      } else {
        var rest := RemoveFirst(s[j + 1..], count, v);
        assert kept + ([s[j]] + rest) == (kept + [s[j]]) + rest;
      }
    }
  }

  lemma ForwardDone(s: seq<string>, total: int, v: string, j: nat, count: int, kept: seq<string>, removed: int)
    requires Forward(s, total, v, j, count, kept, removed)
    requires j == |s| || (total != 0 && count == 0)
    ensures Rem(s, total, v) == kept + s[j..] && RemCount(s, total, v) == removed
  {
    if j == |s| {
      assert s[j..] == [];
    }
  }

  /** A backward pass is a forward pass over the reversed list, with the counter negated. */
  ghost predicate Backward(s: seq<string>, total: int, v: string, j: nat, count: int, kept: seq<string>, removed: int) {
    total < 0 && Forward(Reverse(s), -total, v, j, -count, Reverse(kept), removed)
  }

  lemma BackwardStep(s: seq<string>, total: int, v: string, j: nat, count: int, kept: seq<string>, removed: int)
    requires Backward(s, total, v, j, count, kept, removed) && j < |s| && count != 0
    ensures var x := s[|s| - 1 - j];
            if x == v then Backward(s, total, v, j + 1, count + 1, kept, removed + 1)
            else Backward(s, total, v, j + 1, count, [x] + kept, removed)
  {
    ForwardStep(Reverse(s), -total, v, j, -count, Reverse(kept), removed);
    assert Reverse([s[|s| - 1 - j]] + kept) == Reverse(kept) + [s[|s| - 1 - j]];
  }

  lemma BackwardDone(s: seq<string>, total: int, v: string, j: nat, count: int, kept: seq<string>, removed: int)
    requires Backward(s, total, v, j, count, kept, removed)
    requires j <= |s| && (j == |s| || count == 0)
    ensures Rem(s, total, v) == s[..|s| - j] + kept && RemCount(s, total, v) == removed
  {
    var r := Reverse(s);
    ForwardDone(r, -total, v, j, -count, Reverse(kept), removed);
    CountReverse(s, v);
    ReverseCut(s, |s| - j);
    assert Rem(s, total, v) == Reverse(Reverse(kept) + r[j..]);
    ReverseBack(s[..|s| - j], kept);
  }

  /** The state of the loop in either direction. */
  ghost predicate Progress(s: seq<string>, total: int, v: string, j: nat, count: int, kept: seq<string>, removed: int) {
    if total >= 0 then Forward(s, total, v, j, count, kept, removed)
    else Backward(s, total, v, j, count, kept, removed)
  }

  /** The `j`-th element in walking order. */
  ghost function VisitedValue(s: seq<string>, j: nat, total: int): string
    requires j < |s|
  {
    if total >= 0 then s[j] else s[|s| - 1 - j]
  }

  /** The kept elements stay in list order whichever way the pass walks. */
  ghost function Keep<T>(kept: seq<T>, x: T, forward: bool): seq<T> {
    if forward then kept + [x] else [x] + kept
  }

  lemma ProgressStart(s: seq<string>, total: int, v: string)
    ensures Progress(s, total, v, 0, total, [], 0)
  {
    if total >= 0 {
      ForwardStart(s, total, v);
    } else {
      ForwardStart(Reverse(s), -total, v);
    }
  }

  lemma ProgressStep(s: seq<string>, total: int, v: string, j: nat, count: int, kept: seq<string>, removed: int)
    requires Progress(s, total, v, j, count, kept, removed) && j < |s|
    requires total == 0 || count != 0
    ensures var x := VisitedValue(s, j, total);
            if x == v then Progress(s, total, v, j + 1, if total >= 0 then count - 1 else count + 1, kept, removed + 1)
            else Progress(s, total, v, j + 1, count, Keep(kept, x, total >= 0), removed)
  {
    if total >= 0 {
      ForwardStep(s, total, v, j, count, kept, removed);
    } else {
      BackwardStep(s, total, v, j, count, kept, removed);
    }
  }

  lemma ProgressDone(s: seq<string>, total: int, v: string, j: nat, count: int, kept: seq<string>, removed: int)
    requires Progress(s, total, v, j, count, kept, removed) && j <= |s|
    requires j == |s| || (total != 0 && count == 0)
    ensures Rem(s, total, v) == (if total >= 0 then kept + s[j..] else s[..|s| - j] + kept)
    ensures RemCount(s, total, v) == removed
  {
    if total >= 0 {
      ForwardDone(s, total, v, j, count, kept, removed);
    } else {
      BackwardDone(s, total, v, j, count, kept, removed);
    }
  }
}
