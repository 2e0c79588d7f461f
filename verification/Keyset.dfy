/** Strictly ascending sequences of ids, and the keyset filter `id > cursor` over them. */
module Keyset {

  ghost predicate Ascending(xs: seq<nat>) {
    forall i, j :: 0 <= i < j < |xs| ==> xs[i] < xs[j]
  }

  /** `WHERE id > cut ORDER BY id` over rows listed in id order. */
  function Above(xs: seq<nat>, cut: nat): (r: seq<nat>)
    ensures |r| <= |xs|
  {
    if xs == [] then []
    else if xs[0] > cut then [xs[0]] + Above(xs[1..], cut)
    else Above(xs[1..], cut)
  }

  /** `LIMIT n`. */
  function Take<T>(xs: seq<T>, n: nat): (r: seq<T>)
    ensures |r| == if |xs| < n then |xs| else n
    ensures r <= xs
  {
    if |xs| < n then xs else xs[..n]
  }

  lemma {:induction false} AboveMembers(xs: seq<nat>, cut: nat)
    ensures forall x :: x in Above(xs, cut) <==> x in xs && x > cut
  {
    if xs != [] {
      AboveMembers(xs[1..], cut);
      assert xs == [xs[0]] + xs[1..];
    }
  }

  lemma {:induction false} AboveAscending(xs: seq<nat>, cut: nat)
    requires Ascending(xs)
    ensures Ascending(Above(xs, cut))
  {
    if xs != [] {
      AscendingTail(xs);
      AboveAscending(xs[1..], cut);
      AboveMembers(xs[1..], cut);
      AscendingCons(xs[0], Above(xs[1..], cut));
    }
  }

  lemma {:induction false} AboveAll(xs: seq<nat>, cut: nat)
    requires forall i :: 0 <= i < |xs| ==> xs[i] > cut
    ensures Above(xs, cut) == xs
  {
    if xs != [] {
      AboveAll(xs[1..], cut);
    }
  }

  lemma {:induction false} AboveNone(xs: seq<nat>, cut: nat)
    requires forall i :: 0 <= i < |xs| ==> xs[i] <= cut
    ensures Above(xs, cut) == []
  {
    if xs != [] {
      AboveNone(xs[1..], cut);
    }
  }

  lemma {:induction false} AboveTwice(xs: seq<nat>, low: nat, high: nat)
    requires low <= high
    ensures Above(Above(xs, low), high) == Above(xs, high)
  {
    if xs != [] {
      AboveTwice(xs[1..], low, high);
    }
  }

  lemma AscendingTail(xs: seq<nat>)
    requires xs != [] && Ascending(xs)
    ensures Ascending(xs[1..])
    ensures forall x :: x in xs[1..] ==> xs[0] < x
  {
    forall x | x in xs[1..] ensures xs[0] < x {
      var k :| 0 <= k < |xs[1..]| && xs[1..][k] == x;
      assert xs[k + 1] == x;
    }
  }

  lemma AscendingCons(x: nat, xs: seq<nat>)
    requires Ascending(xs)
    requires forall y :: y in xs ==> x < y
    ensures Ascending([x] + xs)
  {
    forall k | 0 <= k < |xs| ensures x < xs[k] {
      assert xs[k] in xs;
    }
  }

  lemma AscendingLast(xs: seq<nat>)
    requires xs != [] && Ascending(xs)
    ensures forall x :: x in xs ==> x <= xs[|xs| - 1]
  {
    forall x | x in xs ensures x <= xs[|xs| - 1] {
      var k :| 0 <= k < |xs| && xs[k] == x;
    }
  }

  lemma {:induction false} AscendingSubset(xs: seq<nat>, ys: seq<nat>)
    requires Ascending(xs) && Ascending(ys)
    requires forall x :: x in xs ==> x in ys
    ensures |xs| <= |ys|
  {
    if xs != [] {
      AscendingTail(xs);
      assert xs[0] in xs && xs[0] in ys;
      var k :| 0 <= k < |ys| && ys[k] == xs[0];
      forall x | x in xs[1..] ensures x in ys[k + 1..] {
        assert x in xs && x in ys;
        var m :| 0 <= m < |ys| && ys[m] == x;
        assert ys[k + 1..][m - k - 1] == x;
      }
      AscendingSubset(xs[1..], ys[k + 1..]);
    }
  }

  /** Full pages add up. */
  lemma TakeTwice<T>(xs: seq<T>, n: nat, m: nat)
    ensures Take(xs, n + m) == Take(xs, n) + Take(xs[|Take(xs, n)|..], m)
  {
  }

  /** A full page is exactly the rows up to its last one. */
  lemma TakePage(xs: seq<nat>, n: nat)
    requires Ascending(xs) && n > 0
    ensures Ascending(Take(xs, n))
    ensures forall x :: x in Take(xs, n) ==> x in xs
    ensures |Take(xs, n)| < n ==> Take(xs, n) == xs
    ensures |Take(xs, n)| == n ==> forall x :: x in xs ==> (x in Take(xs, n) <==> x <= Take(xs, n)[n - 1])
  {
    var t := Take(xs, n);
    forall x | x in t ensures x in xs {
      var k :| 0 <= k < |t| && t[k] == x;
      assert xs[k] == x;
    }
    if |t| == n {
      AscendingLast(t);
      forall x | x in xs && x <= t[n - 1] ensures x in t {
        var k :| 0 <= k < |xs| && xs[k] == x;
        assert k < n && t[k] == x;
      }
    }
  }

  lemma {:induction false} AboveOwn(xs: seq<nat>, k: nat)
    requires Ascending(xs) && 0 < k <= |xs|
    ensures Above(xs, xs[k - 1]) == xs[k..]
  {
    var rest := xs[1..];
    if k == 1 {
      AboveAll(rest, xs[0]);
    } else {
      assert rest[k - 2] == xs[k - 1];
      AboveOwn(rest, k - 1);
    }
  }

  /** Moving the cursor to the k-th row past it drops exactly the first k rows. */
  lemma {:induction false} AdvanceCursor(xs: seq<nat>, cut: nat, k: nat)
    requires Ascending(xs)
    requires 0 < k <= |Above(xs, cut)|
    ensures Above(xs, cut)[k - 1] > cut
    ensures Above(xs, Above(xs, cut)[k - 1]) == Above(xs, cut)[k..]
  {
    if xs[0] <= cut {
      AdvanceCursor(xs[1..], cut, k);
    } else {
      AboveAll(xs, cut);
      AboveOwn(xs, k);
    }
  }
}
