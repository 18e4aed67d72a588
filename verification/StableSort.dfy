/** Stable sorting by a total preorder, as `slice::sort_by` promises it. The result is characterised
    independently of the algorithm: sorted, with every group of tied elements in its original order. */
module StableSort {

  ghost predicate TotalPreorder<T(!new)>(le: (T, T) -> bool) {
    && (forall x, y :: le(x, y) || le(y, x))
    && (forall x, y, z :: le(x, y) && le(y, z) ==> le(x, z))
  }

  predicate Tied<T>(le: (T, T) -> bool, x: T, y: T) {
    le(x, y) && le(y, x)
  }

  predicate Sorted<T>(le: (T, T) -> bool, xs: seq<T>) {
    forall i, j :: 0 <= i < j < |xs| ==> le(xs[i], xs[j])
  }

  /** The elements tied with `x`, in order. */
  function Ties<T>(le: (T, T) -> bool, xs: seq<T>, x: T): seq<T> {
    if xs == [] then []
    else (if Tied(le, xs[0], x) then [xs[0]] else []) + Ties(le, xs[1..], x)
  }

  ghost predicate TiesAlike<T(!new)>(le: (T, T) -> bool, xs: seq<T>, ys: seq<T>) {
    forall x :: Ties(le, xs, x) == Ties(le, ys, x)
  }

  ghost predicate IsStableSort<T(!new)>(le: (T, T) -> bool, ys: seq<T>, xs: seq<T>) {
    Sorted(le, ys) && TiesAlike(le, ys, xs)
  }

  function Insert<T>(le: (T, T) -> bool, x: T, xs: seq<T>): seq<T> {
    if xs == [] then [x]
    else if le(x, xs[0]) then [x] + xs
    else [xs[0]] + Insert(le, x, xs[1..])
  }

  function Sort<T>(le: (T, T) -> bool, xs: seq<T>): seq<T> {
    if xs == [] then [] else Insert(le, xs[0], Sort(le, xs[1..]))
  }

  // ----------------------------------------------------------------------- Sort is a stable sort

  lemma {:induction false} InsertPermutes<T>(le: (T, T) -> bool, x: T, xs: seq<T>)
    ensures multiset(Insert(le, x, xs)) == multiset{x} + multiset(xs)
    decreases |xs|
  {
    if xs != [] {
      assert xs == [xs[0]] + xs[1..];
      if !le(x, xs[0]) {
        InsertPermutes(le, x, xs[1..]);
      }
    }
  }

  lemma {:induction false} SortPermutes<T>(le: (T, T) -> bool, xs: seq<T>)
    ensures multiset(Sort(le, xs)) == multiset(xs)
    decreases |xs|
  {
    if xs != [] {
      assert xs == [xs[0]] + xs[1..];
      SortPermutes(le, xs[1..]);
      InsertPermutes(le, xs[0], Sort(le, xs[1..]));
    }
  }

  lemma {:induction false} InsertSorted<T(!new)>(le: (T, T) -> bool, x: T, xs: seq<T>)
    requires TotalPreorder(le) && Sorted(le, xs)
    ensures Sorted(le, Insert(le, x, xs))
    decreases |xs|
  {
    if xs != [] && !le(x, xs[0]) {
      InsertSorted(le, x, xs[1..]);
      InsertPermutes(le, x, xs[1..]);
      var tail := Insert(le, x, xs[1..]);
      forall j | 0 <= j < |tail| ensures le(xs[0], tail[j]) {
        assert tail[j] in multiset(tail);
        assert tail[j] == x || tail[j] in xs[1..];
      }
    }
  }

  /** An element that must go behind `z` is not tied with anything `z` is tied with. */
  lemma NotBothTied<T(!new)>(le: (T, T) -> bool, x: T, z: T, y: T)
    requires TotalPreorder(le) && !le(x, z) && Tied(le, x, y)
    ensures !Tied(le, z, y)
  {
    assert le(x, y) && le(y, z) ==> le(x, z);
  }

  lemma TiesCons<T>(le: (T, T) -> bool, x: T, xs: seq<T>, y: T)
    ensures Ties(le, [x] + xs, y) == (if Tied(le, x, y) then [x] else []) + Ties(le, xs, y)
  {
    assert ([x] + xs)[1..] == xs;
  }

  lemma {:induction false} InsertTies<T>(le: (T, T) -> bool, x: T, xs: seq<T>, y: T)
    requires forall i :: 0 <= i < |xs| && !le(x, xs[i]) && Tied(le, x, y) ==> !Tied(le, xs[i], y)
    ensures Ties(le, Insert(le, x, xs), y) == (if Tied(le, x, y) then [x] else []) + Ties(le, xs, y)
    decreases |xs|
  {
    if xs == [] || le(x, xs[0]) {
      TiesCons(le, x, xs, y);
      assert xs == [] ==> [x] + xs == [x];
    } else {
      InsertTies(le, x, xs[1..], y);
      TiesCons(le, xs[0], Insert(le, x, xs[1..]), y);
      var own, tail := if Tied(le, x, y) then [x] else [], Ties(le, xs[1..], y);
      var head := if Tied(le, xs[0], y) then [xs[0]] else [];
      assert own == [] || head == [];
      assert head + (own + tail) == own + (head + tail);
    }
  }

  lemma InsertKeepsTies<T(!new)>(le: (T, T) -> bool, x: T, xs: seq<T>, y: T)
    requires TotalPreorder(le)
    ensures Ties(le, Insert(le, x, xs), y) == (if Tied(le, x, y) then [x] else []) + Ties(le, xs, y)
  {
    forall i | 0 <= i < |xs| && !le(x, xs[i]) && Tied(le, x, y) ensures !Tied(le, xs[i], y) {
      NotBothTied(le, x, xs[i], y);
    }
    InsertTies(le, x, xs, y);
  }

  lemma {:induction false} SortIsStable<T(!new)>(le: (T, T) -> bool, xs: seq<T>)
    requires TotalPreorder(le)
    ensures IsStableSort(le, Sort(le, xs), xs)
    decreases |xs|
  {
    if xs != [] {
      SortIsStable(le, xs[1..]);
      InsertSorted(le, xs[0], Sort(le, xs[1..]));
      forall y ensures Ties(le, Sort(le, xs), y) == Ties(le, xs, y) {
        InsertKeepsTies(le, xs[0], Sort(le, xs[1..]), y);
      }
    }
  }

  // ---------------------------------------------------------------------- and it is the only one

  lemma {:induction false} TiesNonempty<T(!new)>(le: (T, T) -> bool, xs: seq<T>, x: T)
    requires Ties(le, xs, x) != []
    ensures exists i :: 0 <= i < |xs| && Tied(le, xs[i], x)
    decreases |xs|
  {
    if !Tied(le, xs[0], x) {
      TiesNonempty(le, xs[1..], x);
      var i :| 0 <= i < |xs[1..]| && Tied(le, xs[1..][i], x);
      assert xs[i + 1] == xs[1..][i];
    }
  }

  lemma HeadsTied<T(!new)>(le: (T, T) -> bool, ys: seq<T>, zs: seq<T>)
    requires TotalPreorder(le) && Sorted(le, zs) && ys != []
    requires TiesAlike(le, ys, zs)
    ensures zs != [] && le(zs[0], ys[0])
  {
    assert Ties(le, ys, ys[0]) != [];
    TiesNonempty(le, zs, ys[0]);
    var i :| 0 <= i < |zs| && Tied(le, zs[i], ys[0]);
    assert le(zs[0], zs[i]);
  }

  /** Sorted sequences that agree on every group of ties are equal: the stable sort is unique, whatever
      algorithm produces it. */
  lemma {:induction false} StableSortUnique<T(!new)>(le: (T, T) -> bool, ys: seq<T>, zs: seq<T>)
    requires TotalPreorder(le) && Sorted(le, ys) && Sorted(le, zs)
    requires TiesAlike(le, ys, zs)
    ensures ys == zs
    decreases |ys|
  {
    if ys == [] && zs == [] {
    } else if ys == [] {
      HeadsTied(le, zs, ys);
    } else {
      HeadsTied(le, ys, zs);
      HeadsTied(le, zs, ys);
      assert Ties(le, ys, ys[0])[0] == ys[0];
      assert Ties(le, zs, ys[0])[0] == zs[0];
      forall x ensures Ties(le, ys[1..], x) == Ties(le, zs[1..], x) {
        var own := if Tied(le, ys[0], x) then [ys[0]] else [];
        assert Ties(le, ys, x) == own + Ties(le, ys[1..], x);
        assert Ties(le, zs, x) == own + Ties(le, zs[1..], x);
        assert (own + Ties(le, ys[1..], x))[|own|..] == Ties(le, ys[1..], x);
        assert (own + Ties(le, zs[1..], x))[|own|..] == Ties(le, zs[1..], x);
      }
      StableSortUnique(le, ys[1..], zs[1..]);
      assert ys == [ys[0]] + ys[1..] && zs == [zs[0]] + zs[1..];
    }
  }

  lemma SortAlikeTies<T(!new)>(le: (T, T) -> bool, xs: seq<T>, zs: seq<T>, x: T)
    requires TotalPreorder(le) && Sort(le, xs) == Sort(le, zs)
    ensures Ties(le, xs, x) == Ties(le, zs, x)
  {
    SortIsStable(le, xs);
    SortIsStable(le, zs);
  }

  /** Two inputs sort to the same sequence if and only if they order their ties alike. */
  lemma SortEqualIffTiesAlike<T(!new)>(le: (T, T) -> bool, xs: seq<T>, zs: seq<T>)
    requires TotalPreorder(le)
    ensures Sort(le, xs) == Sort(le, zs) <==> TiesAlike(le, xs, zs)
  {
    if Sort(le, xs) == Sort(le, zs) {
      forall x ensures Ties(le, xs, x) == Ties(le, zs, x) {
        SortAlikeTies(le, xs, zs, x);
      }
    }
    if TiesAlike(le, xs, zs) {
      SortIsStable(le, xs);
      SortIsStable(le, zs);
      StableSortUnique(le, Sort(le, xs), Sort(le, zs));
    }
  }

  // ------------------------------------------------------------------------- order independence

  predicate TiesIdentical<T(==)>(le: (T, T) -> bool, xs: seq<T>) {
    forall x, y :: x in xs && y in xs && Tied(le, x, y) ==> x == y
  }

  ghost predicate OrderIndependent<T(!new)>(le: (T, T) -> bool, xs: seq<T>) {
    forall zs :: multiset(zs) == multiset(xs) ==> Sort(le, zs) == Sort(le, xs)
  }

  lemma SortedHeadLeast<T(!new)>(le: (T, T) -> bool, ys: seq<T>, x: T)
    requires TotalPreorder(le) && Sorted(le, ys) && x in multiset(ys)
    ensures ys != [] && le(ys[0], x)
  {
    assert x in ys;
    var i :| 0 <= i < |ys| && ys[i] == x;
    assert i == 0 || le(ys[0], ys[i]);
  }

  lemma TailMultiset<T>(ys: seq<T>)
    requires ys != []
    ensures multiset(ys[1..]) == multiset(ys) - multiset{ys[0]}
  {
    assert ys == [ys[0]] + ys[1..];
  }

  lemma {:induction false} SortedPermutationUnique<T(!new)>(le: (T, T) -> bool, ys: seq<T>, zs: seq<T>)
    requires TotalPreorder(le) && Sorted(le, ys) && Sorted(le, zs) && multiset(ys) == multiset(zs)
    requires TiesIdentical(le, ys)
    ensures ys == zs
    decreases |ys|
  {
    assert |ys| == |multiset(ys)| == |multiset(zs)| == |zs|;
    if ys != [] {
      assert ys[0] in multiset(ys) && zs[0] in multiset(zs);
      SortedHeadLeast(le, ys, zs[0]);
      SortedHeadLeast(le, zs, ys[0]);
      assert zs[0] in ys && ys[0] in ys && Tied(le, ys[0], zs[0]);
      TailMultiset(ys);
      TailMultiset(zs);
      assert TiesIdentical(le, ys[1..]) by {
        assert forall x :: x in ys[1..] ==> x in ys;
      }
      SortedPermutationUnique(le, ys[1..], zs[1..]);
    }
  }

  lemma IdenticalTiesSortAlike<T(!new)>(le: (T, T) -> bool, xs: seq<T>, zs: seq<T>)
    requires TotalPreorder(le) && TiesIdentical(le, xs) && multiset(zs) == multiset(xs)
    ensures Sort(le, zs) == Sort(le, xs)
  {
    SortIsStable(le, xs);
    SortIsStable(le, zs);
    SortPermutes(le, xs);
    SortPermutes(le, zs);
    forall x, y | x in Sort(le, xs) && y in Sort(le, xs) && Tied(le, x, y) ensures x == y {
      assert x in multiset(Sort(le, xs)) && y in multiset(Sort(le, xs));
      assert x in xs && y in xs;
    }
    SortedPermutationUnique(le, Sort(le, xs), Sort(le, zs));
  }

  function Without<T>(xs: seq<T>, i: nat): seq<T>
    requires i < |xs|
  {
    xs[..i] + xs[i + 1..]
  }

  lemma WithoutPermutes<T>(xs: seq<T>, i: nat)
    requires i < |xs|
    ensures multiset(xs) == multiset{xs[i]} + multiset(Without(xs, i))
  {
    assert xs == xs[..i] + [xs[i]] + xs[i + 1..];
  }

  lemma FirstTie<T(!new)>(le: (T, T) -> bool, xs: seq<T>, x: T)
    requires xs != [] && Tied(le, xs[0], x)
    ensures Ties(le, xs, x) != [] && Ties(le, xs, x)[0] == xs[0]
  {
  }

  /** Elements i and j moved to the front, in either order. */
  function Fronted<T>(xs: seq<T>, i: nat, j: nat, swap: bool): seq<T>
    requires i < j < |xs|
  {
    (if swap then [xs[j], xs[i]] else [xs[i], xs[j]]) + Without(Without(xs, j), i)
  }

  lemma FrontedPermutes<T>(xs: seq<T>, i: nat, j: nat, swap: bool)
    requires i < j < |xs|
    ensures multiset(Fronted(xs, i, j, swap)) == multiset(xs)
  {
    WithoutPermutes(xs, j);
    WithoutPermutes(Without(xs, j), i);
  }

  lemma SortsAlike<T(!new)>(le: (T, T) -> bool, xs: seq<T>, zs: seq<T>)
    requires OrderIndependent(le, xs) && multiset(zs) == multiset(xs)
    ensures Sort(le, zs) == Sort(le, xs)
  {
  }

  lemma SwappedTiesDiffer<T(!new)>(le: (T, T) -> bool, xs: seq<T>, i: nat, j: nat)
    requires TotalPreorder(le) && i < j < |xs| && Tied(le, xs[i], xs[j])
    requires Sort(le, Fronted(xs, i, j, false)) == Sort(le, Fronted(xs, i, j, true))
    ensures xs[i] == xs[j]
  {
    var a, b := Fronted(xs, i, j, false), Fronted(xs, i, j, true);
    SortAlikeTies(le, a, b, xs[i]);
    assert le(xs[i], xs[i]);
    FirstTie(le, a, xs[i]);
    FirstTie(le, b, xs[i]);
  }

  lemma IndependentTies<T(!new)>(le: (T, T) -> bool, xs: seq<T>, i: nat, j: nat)
    requires TotalPreorder(le) && i < j < |xs| && Tied(le, xs[i], xs[j]) && OrderIndependent(le, xs)
    ensures xs[i] == xs[j]
  {
    FrontedPermutes(xs, i, j, false);
    FrontedPermutes(xs, i, j, true);
    SortsAlike(le, xs, Fronted(xs, i, j, false));
    SortsAlike(le, xs, Fronted(xs, i, j, true));
    SwappedTiesDiffer(le, xs, i, j);
  }

  /** A list sorts to the same sequence in whatever order it is handed over, if and only if elements that
      compare equal are equal. */
  lemma OrderIndependentIff<T(!new)>(le: (T, T) -> bool, xs: seq<T>)
    requires TotalPreorder(le)
    ensures OrderIndependent(le, xs) <==> TiesIdentical(le, xs)
  {
    if TiesIdentical(le, xs) {
      forall zs | multiset(zs) == multiset(xs) ensures Sort(le, zs) == Sort(le, xs) {
        IdenticalTiesSortAlike(le, xs, zs);
      }
    }
    if OrderIndependent(le, xs) {
      forall x, y | x in xs && y in xs && Tied(le, x, y) ensures x == y {
        var i :| 0 <= i < |xs| && xs[i] == x;
        var j :| 0 <= j < |xs| && xs[j] == y;
        if i < j {
          IndependentTies(le, xs, i, j);
        } else if j < i {
          IndependentTies(le, xs, j, i);
        }
      }
    }
  }
}
