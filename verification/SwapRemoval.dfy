/**
 * Removal from an array by moving the last entry into the gap, and the loop, found in three places,
 * that removes matching entries this way and then steps past the entry it has just moved in.
 */
module SwapRemoval {
  import opened Text

  /** Removal by moving the last entry into the gap. */
  function SwapRemove<T>(s: seq<T>, i: nat): (r: seq<T>)
    requires i < |s|
    ensures |r| == |s| - 1
  {
    var n := |s| - 1;
    if i < n then s[..n][i := s[n]] else s[..n]
  }

  /** Exactly the entry at i is gone, whatever moved. */
  lemma SwapRemoveIsRemoval<T>(s: seq<T>, i: nat)
    requires i < |s|
    ensures multiset(s) == multiset(SwapRemove(s, i)) + multiset{s[i]}
  {
    var n := |s| - 1;
    assert s == s[..n] + [s[n]];
    assert multiset(s) == multiset(s[..n]) + multiset{s[n]};
    if i < n {
      var t := s[..n];
      assert multiset(t[i := s[n]]) == multiset(t) - multiset{t[i]} + multiset{s[n]};
    }
  }

  // ---------------------------------------------------------------- the loop

  /** What the loop leaves: an entry moved into a gap is never looked at. */
  function Sweep<T>(s: seq<T>, p: T -> bool): seq<T> {
    if s == [] then []
    else if !p(s[0]) then [s[0]] + Sweep(s[1..], p)
    else if |s| == 1 then []
    else [s[|s| - 1]] + Sweep(s[1..|s| - 1], p)
  }

  function Count<T>(s: seq<T>, p: T -> bool): (n: nat)
    ensures n <= |s|
  {
    if s == [] then 0 else Count(s[1..], p) + if p(s[0]) then 1 else 0
  }

  ghost predicate NoneIn<T>(s: seq<T>, p: T -> bool) {
    forall i :: 0 <= i < |s| ==> !p(s[i])
  }

  lemma {:induction false} CountSnoc<T>(s: seq<T>, x: T, p: T -> bool)
    ensures Count(s + [x], p) == Count(s, p) + if p(x) then 1 else 0
  {
    if s != [] {
      assert (s + [x])[1..] == s[1..] + [x];
      CountSnoc(s[1..], x, p);
    }
  }

  lemma {:induction false} CountIsZeroIff<T>(s: seq<T>, p: T -> bool)
    ensures Count(s, p) == 0 <==> NoneIn(s, p)
  {
    if s != [] {
      CountIsZeroIff(s[1..], p);
      assert forall i :: 0 < i < |s| ==> s[i] == s[1..][i - 1];
    }
  }

  lemma NoneInCons<T>(x: T, s: seq<T>, p: T -> bool)
    ensures NoneIn([x] + s, p) <==> !p(x) && NoneIn(s, p)
  {
    assert forall i :: 0 < i <= |s| ==> ([x] + s)[i] == s[i - 1];
    assert ([x] + s)[0] == x && forall i :: 0 <= i < |s| ==> s[i] == ([x] + s)[i + 1];
  }

  /** None of the matching entries, m in number, is among the last m - 1 entries. */
  ghost predicate Early<T>(s: seq<T>, p: T -> bool) {
    var m := Count(s, p);
    m == 0 || NoneIn(s[|s| - (m - 1)..], p)
  }

  lemma EarlySkip<T>(s: seq<T>, p: T -> bool)
    requires s != [] && !p(s[0])
    ensures Early(s, p) <==> Early(s[1..], p)
  {
    var m := Count(s, p);
    if m > 0 { assert s[1..][|s| - 1 - (m - 1)..] == s[|s| - (m - 1)..]; }
  }

  lemma EarlyTake<T>(s: seq<T>, p: T -> bool)
    requires |s| > 1 && p(s[0])
    ensures Early(s, p) <==> !p(s[|s| - 1]) && Early(s[1..|s| - 1], p)
  {
    var m, n := Count(s, p), |s| - 1;
    var mid := s[1..n];
    assert s[1..] == mid + [s[n]];
    CountSnoc(mid, s[n], p);
    if m > 1 {
      var late := s[|s| - (m - 1)..];
      assert late[m - 2] == s[n];
      if !p(s[n]) {
        var mids := mid[|mid| - (m - 2)..];
        assert late == mids + [s[n]];
        assert forall i :: 0 <= i < m - 2 ==> late[i] == mids[i];
      }
    }
  }

  /** All matching entries go if and only if none of them is among the last m - 1 entries. */
  lemma {:induction false} SweepClearsIff<T>(s: seq<T>, p: T -> bool)
    ensures NoneIn(Sweep(s, p), p) <==> Early(s, p)
    decreases |s|
  {
    if s == [] {
    } else if !p(s[0]) {
      SweepClearsIff(s[1..], p);
      EarlySkip(s, p);
      NoneInCons(s[0], Sweep(s[1..], p), p);
    } else if |s| > 1 {
      var mid := s[1..|s| - 1];
      SweepClearsIff(mid, p);
      EarlyTake(s, p);
      NoneInCons(s[|s| - 1], Sweep(mid, p), p);
    }
  }

  /** The loop leaves at most half of the matching entries, rounded down. */
  lemma {:induction false} SweepHalves<T>(s: seq<T>, p: T -> bool)
    ensures 2 * Count(Sweep(s, p), p) <= Count(s, p)
    decreases |s|
  {
    if s == [] {
    } else if !p(s[0]) {
      SweepHalves(s[1..], p);
      assert Sweep(s, p)[1..] == Sweep(s[1..], p);
    } else if |s| > 1 {
      var n := |s| - 1;
      var mid := s[1..n];
      SweepHalves(mid, p);
      assert s[1..] == mid + [s[n]];
      CountSnoc(mid, s[n], p);
      assert Sweep(s, p)[1..] == Sweep(mid, p);
    }
  }

  lemma EndsApart<T>(s: seq<T>)
    requires |s| > 1
    ensures multiset(s) == multiset{s[0]} + multiset(s[1..|s| - 1]) + multiset{s[|s| - 1]}
  {
    assert s == [s[0]] + s[1..|s| - 1] + [s[|s| - 1]];
  }

  /** Every entry that does not match stays, exactly as often as before. */
  lemma {:induction false} SweepKeepsOthers<T>(s: seq<T>, p: T -> bool, x: T)
    ensures multiset(Sweep(s, p))[x] <= multiset(s)[x]
    ensures !p(x) ==> multiset(Sweep(s, p))[x] == multiset(s)[x]
    decreases |s|
  {
    if s == [] {
    } else if !p(s[0]) {
      SweepKeepsOthers(s[1..], p, x);
      assert multiset(s) == multiset{s[0]} + multiset(s[1..]) by { assert s == [s[0]] + s[1..]; }
    } else if |s| == 1 {
      assert s == [s[0]];
    } else {
      var mid := s[1..|s| - 1];
      SweepKeepsOthers(mid, p, x);
      EndsApart(s);
    }
  }

  /** Two entries that both match: the second is moved in place of the first and stays. */
  lemma SweepCanMiss<T>(x: T, y: T, p: T -> bool)
    requires p(x) && p(y)
    ensures Sweep([x, y], p) == [y]
  {
    assert [x, y][1..1] == [];
  }

  /** The loop removes something if and only if something matches. */
  lemma {:induction false} SweepShrinksIff<T>(s: seq<T>, p: T -> bool)
    ensures |Sweep(s, p)| <= |s| && (|Sweep(s, p)| == |s| <==> NoneIn(s, p))
    decreases |s|
  {
    if s == [] {
    } else if !p(s[0]) {
      SweepShrinksIff(s[1..], p);
      NoneInCons(s[0], s[1..], p);
      assert s == [s[0]] + s[1..];
    } else if |s| > 1 {
      SweepShrinksIff(s[1..|s| - 1], p);
    }
  }

  /** What is left in the end, with the loop at index i of the array s. */
  function LeftFrom<T>(s: seq<T>, i: nat, p: T -> bool): seq<T> {
    if i < |s| then s[..i] + Sweep(s[i..], p) else s
  }

  lemma LeftFromStart<T>(s: seq<T>, p: T -> bool)
    ensures LeftFrom(s, 0, p) == Sweep(s, p)
  {
    assert s[0..] == s;
  }

  /** One round of the loop. */
  lemma LeftFromNext<T>(s: seq<T>, i: nat, p: T -> bool)
    requires i < |s|
    ensures LeftFrom(s, i, p) == LeftFrom(if p(s[i]) then SwapRemove(s, i) else s, i + 1, p)
  {
    var rest, n := s[i..], |s| - 1;
    if !p(s[i]) {
      assert rest[1..] == s[i + 1..] && s[..i + 1] == s[..i] + [s[i]];
      ConcatAssoc(s[..i], [s[i]], Sweep(rest[1..], p));
      assert i == n ==> s[..i + 1] == s && rest[1..] == [];
    } else if i < n {
      var s', mid := SwapRemove(s, i), rest[1..n - i];
      assert mid == s'[i + 1..] && s'[..i + 1] == s[..i] + [s[n]];
      ConcatAssoc(s[..i], [s[n]], Sweep(mid, p));
      assert i + 1 == n ==> s'[..i + 1] == s' && mid == [];
    }
  }

  /** The loop itself; 0 if something was removed and -1 if not. */
  method DeleteMatching<T>(s: seq<T>, p: T -> bool) returns (r: int, left: seq<T>)
    ensures left == Sweep(s, p) && r == if NoneIn(s, p) then -1 else 0
  {
    r, left := -1, s;
    var i := 0;
    LeftFromStart(s, p);
    while i < |left|
      invariant LeftFrom(left, i, p) == Sweep(s, p)
      invariant |left| <= |s| && r == if |left| < |s| then 0 else -1
      decreases |left| + 1 - i
    {
      LeftFromNext(left, i, p);
      if p(left[i]) {
        left := SwapRemove(left, i);
        r := 0;
      }
      i := i + 1;
    }
    SweepShrinksIff(s, p);
  }
}
