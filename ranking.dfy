/**
  The order `App::sort_networks` puts the list in:
  `sort_by(|a, b| b.signal.cmp(&a.signal))`, a stable sort by signal text,
  greatest first. Rust's `sort_by` is stable, and a stable sort under a total
  preorder has exactly one result, so it is specified here by insertion sort
  and that result is shown to be the only sorted, stable rearrangement.
*/
module Ranking {
  import opened SignalOrder
  import opened Networks

  /** Signals never increase along the list. */
  ghost predicate SortedBySignal(s: seq<Network>)
  {
    forall i, j :: 0 <= i < j < |s| ==> Leq(s[j].signal, s[i].signal)
  }

  /** The records of `s` whose signal text is `v`, in their order in `s`. */
  function WithSignal(s: seq<Network>, v: string): seq<Network>
  {
    if s == [] then []
    else (if s[0].signal == v then [s[0]] else []) + WithSignal(s[1..], v)
  }

  /**
    Puts `n` in front of the first record whose signal is not greater than
    its own, so before every record of equal signal.
  */
  function Insert(n: Network, s: seq<Network>): (r: seq<Network>)
    ensures multiset(r) == multiset(s) + multiset{n}
    ensures SortedBySignal(s) ==> SortedBySignal(r)
  {
    if s == [] then [n]
    else if Leq(s[0].signal, n.signal) then
      InsertFront(n, s);
      [n] + s
    else
      var r := [s[0]] + Insert(n, s[1..]);
      assert s == [s[0]] + s[1..];
      InsertBehind(n, s, r);
      r
  }

  lemma InsertFront(n: Network, s: seq<Network>)
    requires s != [] && Leq(s[0].signal, n.signal)
    ensures SortedBySignal(s) ==> SortedBySignal([n] + s)
  {
    if SortedBySignal(s) {
      var r := [n] + s;
      forall i, j | 0 <= i < j < |r|
        ensures Leq(r[j].signal, r[i].signal)
      {
        if i == 0 && j > 1 {
          LeqTotalOrder(r[j].signal, s[0].signal, n.signal);
        }
      }
    }
  }

  /** No record of `s` has a signal greater than `v`. */
  ghost predicate AllAtMost(s: seq<Network>, v: string)
  {
    forall i :: 0 <= i < |s| ==> Leq(s[i].signal, v)
  }

  lemma AllAtMostPermuted(a: seq<Network>, b: seq<Network>, n: Network, v: string)
    requires multiset(a) == multiset(b) + multiset{n}
    requires AllAtMost(b, v) && Leq(n.signal, v)
    ensures AllAtMost(a, v)
  {
    forall i | 0 <= i < |a|
      ensures Leq(a[i].signal, v)
    {
      assert a[i] in multiset(a);
      if a[i] != n {
        assert a[i] in multiset(b);
        var j :| 0 <= j < |b| && b[j] == a[i];
      }
    }
  }

  lemma SortedCons(x: Network, s: seq<Network>)
    requires SortedBySignal(s) && AllAtMost(s, x.signal)
    ensures SortedBySignal([x] + s)
  {
    var r := [x] + s;
    forall i, j | 0 <= i < j < |r|
      ensures Leq(r[j].signal, r[i].signal)
    {
      assert r[j] == s[j - 1];
      if i > 0 {
        assert r[i] == s[i - 1];
      }
    }
  }

  lemma InsertBehind(n: Network, s: seq<Network>, r: seq<Network>)
    requires s != [] && !Leq(s[0].signal, n.signal)
    requires r == [s[0]] + Insert(n, s[1..])
    requires multiset(Insert(n, s[1..])) == multiset(s[1..]) + multiset{n}
    requires SortedBySignal(s[1..]) ==> SortedBySignal(Insert(n, s[1..]))
    ensures SortedBySignal(s) ==> SortedBySignal(r)
  {
    if SortedBySignal(s) {
      var rest := s[1..];
      assert SortedBySignal(rest);
      assert AllAtMost(rest, s[0].signal) by {
        forall i | 0 <= i < |rest| ensures Leq(rest[i].signal, s[0].signal) {
          assert rest[i] == s[i + 1];
        }
      }
      LessAsymmetric(n.signal, s[0].signal);
      AllAtMostPermuted(Insert(n, rest), rest, n, s[0].signal);
      SortedCons(s[0], Insert(n, rest));
    }
  }

  /** `sort_by` with the descending-signal comparator. */
  function SortBySignal(s: seq<Network>): (r: seq<Network>)
    ensures multiset(r) == multiset(s)
    ensures SortedBySignal(r)
  {
    if s == [] then []
    else
      assert s == [s[0]] + s[1..];
      Insert(s[0], SortBySignal(s[1..]))
  }

  lemma {:induction false} WithSignalInsert(n: Network, s: seq<Network>, v: string)
    ensures WithSignal(Insert(n, s), v) == (if n.signal == v then [n] else []) + WithSignal(s, v)
  {
    if s != [] {
      if Leq(s[0].signal, n.signal) {
        assert ([n] + s)[1..] == s;
      } else {
        var r := [s[0]] + Insert(n, s[1..]);
        assert r[1..] == Insert(n, s[1..]);
        WithSignalInsert(n, s[1..], v);
        LessIrreflexive(n.signal);
        assert s[0].signal != n.signal;
      }
    } else {
      assert [n][1..] == [];
    }
  }

  /** The sort is stable: records of equal signal keep their relative order. */
  lemma {:induction false} SortIsStable(s: seq<Network>, v: string)
    ensures WithSignal(SortBySignal(s), v) == WithSignal(s, v)
  {
    if s != [] {
      SortIsStable(s[1..], v);
      WithSignalInsert(s[0], SortBySignal(s[1..]), v);
    }
  }

  lemma {:induction false} WithSignalNonEmpty(s: seq<Network>, v: string)
    requires WithSignal(s, v) != []
    ensures exists i :: 0 <= i < |s| && s[i].signal == v
  {
    if s[0].signal != v {
      WithSignalNonEmpty(s[1..], v);
      var i :| 0 <= i < |s[1..]| && s[1..][i].signal == v;
      assert s[i + 1].signal == v;
    }
  }

  /** The first record of a list sorted by signal has the greatest signal. */
  lemma HeadIsGreatest(t: seq<Network>, v: string)
    requires SortedBySignal(t) && t != [] && WithSignal(t, v) != []
    ensures Leq(v, t[0].signal)
  {
    WithSignalNonEmpty(t, v);
    var i :| 0 <= i < |t| && t[i].signal == v;
    if i == 0 {
      LessIrreflexive(v);
    }
  }

  lemma WithSignalTail(t: seq<Network>, v: string)
    requires t != []
    ensures t[0].signal == v ==> WithSignal(t, v) != [] && WithSignal(t, v)[0] == t[0]
    ensures WithSignal(t[1..], v) == if t[0].signal == v then WithSignal(t, v)[1..] else WithSignal(t, v)
  {
  }

  /** Lists of the same records per signal, both sorted, start with the same signal. */
  lemma SameHeadSignal(t: seq<Network>, u: seq<Network>)
    requires SortedBySignal(t) && SortedBySignal(u) && t != [] && u != []
    requires forall v :: WithSignal(t, v) == WithSignal(u, v)
    ensures t[0].signal == u[0].signal
  {
    var a, b := t[0].signal, u[0].signal;
    WithSignalTail(t, a);
    WithSignalTail(u, b);
    assert WithSignal(u, a) == WithSignal(t, a);
    assert WithSignal(t, b) == WithSignal(u, b);
    HeadIsGreatest(u, a);
    HeadIsGreatest(t, b);
    LeqTotalOrder(a, b, b);
  }

  /** ... and with the same record, after which the rests agree per signal too. */
  lemma SameHead(t: seq<Network>, u: seq<Network>)
    requires SortedBySignal(t) && SortedBySignal(u) && t != [] && u != []
    requires forall v :: WithSignal(t, v) == WithSignal(u, v)
    ensures t[0] == u[0]
    ensures forall v :: WithSignal(t[1..], v) == WithSignal(u[1..], v)
  {
    SameHeadSignal(t, u);
    var a := t[0].signal;
    WithSignalTail(t, a);
    WithSignalTail(u, a);
    assert WithSignal(t, a) == WithSignal(u, a);
    forall v
      ensures WithSignal(t[1..], v) == WithSignal(u[1..], v)
    {
      assert WithSignal(t, v) == WithSignal(u, v);
      WithSignalTail(t, v);
      WithSignalTail(u, v);
    }
  }

  /**
    Two lists sorted by signal in which the records of every signal appear
    in the same order are the same list.
  */
  lemma {:induction false} StableSortUnique(t: seq<Network>, u: seq<Network>)
    requires SortedBySignal(t) && SortedBySignal(u)
    requires forall v :: WithSignal(t, v) == WithSignal(u, v)
    ensures t == u
  {
    if t != [] {
      assert WithSignal(t, t[0].signal) != [];
    }
    if u != [] {
      assert WithSignal(u, u[0].signal) != [];
    }
    if t != [] && u != [] {
      SameHead(t, u);
      assert SortedBySignal(t[1..]) && SortedBySignal(u[1..]);
      StableSortUnique(t[1..], u[1..]);
      assert t == [t[0]] + t[1..] && u == [u[0]] + u[1..];
    }
  }

  /**
    `SortBySignal(s)` is the only arrangement of `s` that is sorted by signal
    and keeps records of equal signal in their order in `s`.
  */
  lemma SortBySignalUnique(s: seq<Network>, t: seq<Network>)
    requires SortedBySignal(t)
    requires forall v :: WithSignal(t, v) == WithSignal(s, v)
    ensures t == SortBySignal(s)
  {
    forall v
      ensures WithSignal(t, v) == WithSignal(SortBySignal(s), v)
    {
      SortIsStable(s, v);
    }
    StableSortUnique(t, SortBySignal(s));
  }

  /** A list already sorted by signal is left as it is. */
  lemma SortedUnchanged(s: seq<Network>)
    requires SortedBySignal(s)
    ensures SortBySignal(s) == s
  {
    SortBySignalUnique(s, s);
  }

  /** Sorting twice is sorting once. */
  lemma SortIdempotent(s: seq<Network>)
    ensures SortBySignal(SortBySignal(s)) == SortBySignal(s)
  {
    SortedUnchanged(SortBySignal(s));
  }
}
