/** Optional values, and lists from which entries are taken while they are walked. */
module Sequences {
  datatype Option<T> = None | Some(value: T)

  function Without<T>(xs: seq<T>, k: nat): seq<T>
    requires k < |xs|
  {
    xs[..k] + xs[k + 1..]
  }

  lemma {:induction false} WithoutMeans<T>(xs: seq<T>, k: nat)
    requires k < |xs|
    ensures Without(xs, k) == xs[..k] + xs[k + 1..] && |Without(xs, k)| == |xs| - 1
  {
  }

  lemma {:induction false} WithoutFirst<T>(xs: seq<T>, k: nat)
    requires k < |xs|
    ensures Without(xs, k) == if k == 0 then xs[1..] else [xs[0]] + Without(xs[1..], k - 1)
  {
  }

  /** The entries whose mark is set, in order. */
  function Keep<T>(xs: seq<T>, marks: seq<bool>): (u: seq<T>)
    requires |xs| == |marks|
    ensures forall x :: x in u ==> x in xs
  {
    if xs == [] then []
    else (if marks[0] then [xs[0]] else []) + Keep(xs[1..], marks[1..])
  }

  /** A list being swept: the kept ones of the first |marks| entries, then the rest. */
  function Swept<T>(xs: seq<T>, marks: seq<bool>): seq<T>
    requires |marks| <= |xs|
  {
    Keep(xs[..|marks|], marks) + xs[|marks|..]
  }

  function Kept<T>(xs: seq<T>, marks: seq<bool>): nat
    requires |marks| <= |xs|
  {
    |Keep(xs[..|marks|], marks)|
  }

  lemma {:induction false} KeepFirst<T>(xs: seq<T>, marks: seq<bool>)
    requires |xs| == |marks| > 0
    ensures var u := Keep(xs[1..], marks[1..]);
            Keep(xs, marks) == if marks[0] then [xs[0]] + u else u
  {
  }

  lemma {:induction false} KeepSnoc<T>(xs: seq<T>, marks: seq<bool>, x: T, m: bool)
    requires |xs| == |marks|
    ensures Keep(xs + [x], marks + [m]) == Keep(xs, marks) + (if m then [x] else [])
  {
    if xs == [] {
      assert Keep([x], [m]) == (if m then [x] else []) + Keep([x][1..], [m][1..]);
    } else {
      assert (xs + [x])[1..] == xs[1..] + [x] && (marks + [m])[1..] == marks[1..] + [m];
      KeepSnoc(xs[1..], marks[1..], x, m);
    }
  }

  /** Positions below n, in strictly rising order. */
  ghost predicate Rising(at: seq<nat>, n: nat) {
    && (forall i, j :: 0 <= i < j < |at| ==> at[i] < at[j])
    && (forall i :: 0 <= i < |at| ==> at[i] < n)
  }

  /** us is what stands in xs at these positions, in order. */
  ghost predicate Picks<T>(us: seq<T>, xs: seq<T>, at: seq<nat>) {
    |at| == |us| && Rising(at, |xs|) && forall i :: 0 <= i < |us| ==> us[i] == xs[at[i]]
  }

  lemma {:induction false} PicksSnoc<T>(us: seq<T>, xs: seq<T>, at: seq<nat>, x: T)
    requires Picks(us, xs, at)
    ensures Picks(us, xs + [x], at) && Picks(us + [x], xs + [x], at + [|xs|])
  {
  }

  /** The entries kept are those at the marked positions. */
  lemma {:induction false} KeepPicks<T>(xs: seq<T>, marks: seq<bool>) returns (at: seq<nat>)
    requires |xs| == |marks|
    ensures Picks(Keep(xs, marks), xs, at) && forall j: nat :: j < |xs| ==> (j in at <==> marks[j])
  {
    at := [];
    if xs != [] {
      var n := |xs| - 1;
      at := KeepPicks(xs[..n], marks[..n]);
      assert xs == xs[..n] + [xs[n]] && marks == marks[..n] + [marks[n]];
      KeepSnoc(xs[..n], marks[..n], xs[n], marks[n]);
      PicksSnoc(Keep(xs[..n], marks[..n]), xs[..n], at, xs[n]);
      if marks[n] {
        at := at + [n];
      }
    }
  }

  lemma {:induction false} SweepStart<T>(xs: seq<T>)
    ensures Kept(xs, []) == 0 && Swept(xs, []) == xs
  {
  }

  /** Sweeping one more entry either leaves the list alone or removes the entry at the cursor. */
  lemma {:induction false} SweepStep<T>(xs: seq<T>, marks: seq<bool>, m: bool)
    requires |marks| <= |xs| && Kept(xs, marks) < |Swept(xs, marks)|
    ensures |marks| < |xs|
    ensures var u, k := Swept(xs, marks), Kept(xs, marks);
            && k < |u| && u[k] == xs[|marks|]
            && Swept(xs, marks + [m]) == (if m then u else Without(u, k))
            && Kept(xs, marks + [m]) == if m then k + 1 else k
  {
    var i := |marks|;
    assert xs[..i + 1] == xs[..i] + [xs[i]];
    KeepSnoc(xs[..i], marks, xs[i], m);
    assert xs[i..][0] == xs[i] && xs[i..][1..] == xs[i + 1..];
    TakeNext(Keep(xs[..i], marks), xs[i..]);
    hide Keep, Without;
  }

  lemma {:induction false} TakeNext<T>(kept: seq<T>, rest: seq<T>)
    requires rest != []
    ensures (kept + rest)[|kept|] == rest[0] && Without(kept + rest, |kept|) == kept + rest[1..]
    ensures (kept + [rest[0]]) + rest[1..] == kept + rest && (kept + []) + rest[1..] == kept + rest[1..]
  {
  }

  lemma {:induction false} SweepEnd<T>(xs: seq<T>, marks: seq<bool>)
    requires |marks| <= |xs| && Kept(xs, marks) >= |Swept(xs, marks)|
    ensures |marks| == |xs| && Swept(xs, marks) == Keep(xs, marks)
  {
    assert |marks| == |xs|;
    assert xs[..|marks|] == xs;
  }

  // ----- counting

  lemma {:induction false} MoveFirst<T>(s: seq<T>, x: T, d: seq<T>)
    ensures multiset(s + [x] + d) == multiset([x]) + multiset(s + d)
  {
  }

  lemma {:induction false} FirstAndRest<T>(xs: seq<T>)
    requires xs != []
    ensures multiset(xs) == multiset([xs[0]]) + multiset(xs[1..])
  {
    assert xs == [xs[0]] + xs[1..];
  }

  lemma {:induction false} AddsNothing<T>(a: multiset<T>, xs: seq<T>)
    ensures a + multiset(xs) == a <==> xs == []
  {
    if xs != [] {
      assert (a + multiset(xs))[xs[0]] == a[xs[0]] + multiset(xs)[xs[0]];
      assert xs[0] in multiset(xs);
    }
  }
}
