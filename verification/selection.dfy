/** `random.sample` followed by `random.shuffle`: an ordered choice, without
    replacement, of `k` items of a list. The random source is a sequence of
    draws; each draw, reduced modulo the number of items still available,
    picks the next item. */
module Selection {
  import opened Outcomes

  ghost predicate Distinct<T>(s: seq<T>) {
    forall i, j :: 0 <= i < j < |s| ==> s[i] != s[j]
  }

  /** `s` without its item at position `j`. */
  function RemoveAt<T>(s: seq<T>, j: nat): (r: seq<T>)
    requires j < |s|
    ensures |r| == |s| - 1
    ensures forall v :: v in r ==> v in s
    ensures forall v :: v in s && v != s[j] ==> v in r
    ensures Distinct(s) ==> Distinct(r) && s[j] !in r
  {
    var r := s[..j] + s[j + 1..];
    assert forall i :: 0 <= i < |r| ==> r[i] == if i < j then s[i] else s[i + 1];
    assert forall v :: v in s && v != s[j] ==> v in r by {
      forall v | v in s && v != s[j]
        ensures v in r
      {
        var i :| 0 <= i < |s| && s[i] == v;
        if i < j { assert r[i] == v; } else { assert r[i - 1] == v; }
      }
    }
    r
  }

  /** The first draw, or 0 once the draws run out. */
  function Head(draws: seq<nat>): nat {
    if |draws| > 0 then draws[0] else 0
  }

  function Rest(draws: seq<nat>): seq<nat> {
    if |draws| > 0 then draws[1..] else []
  }

  /** `k` items taken one after another out of `pool`, each removed once taken. */
  function Pick<T>(pool: seq<T>, k: nat, draws: seq<nat>): (r: seq<T>)
    requires k <= |pool|
    ensures |r| == k
    ensures forall i :: 0 <= i < |r| ==> r[i] in pool
    ensures Distinct(pool) ==> Distinct(r)
    decreases k
  {
    if k == 0 then []
    else
      var j := Head(draws) % |pool|;
      var rest := Pick(RemoveAt(pool, j), k - 1, Rest(draws));
      assert Distinct(pool) ==> forall i :: 0 <= i < |rest| ==> rest[i] != pool[j];
      [pool[j]] + rest
  }

  /** The positions `0 .. n-1`. */
  function Positions(n: nat): (r: seq<nat>)
    ensures |r| == n && Distinct(r)
    ensures forall i :: 0 <= i < n ==> r[i] == i
  {
    seq(n, i requires 0 <= i < n => i)
  }

  /** Is `s` an ordered selection of distinct positions below `n`? */
  ghost predicate IsSelection(s: seq<nat>, n: nat) {
    Distinct(s) && forall i :: 0 <= i < |s| ==> s[i] < n
  }

  /** The positions chosen by `random.sample(population, k)` on a population
      of `n` items, followed by `random.shuffle`. A count below zero or above
      the population size raises. */
  function Sample(n: nat, k: int, draws: seq<nat>): (r: Result<seq<nat>>)
    ensures r.Ok? <==> 0 <= k <= n
    ensures r.Err? ==> r.failure == SampleOutOfRange
    ensures r.Ok? ==> |r.value| == k && IsSelection(r.value, n)
  {
    if k < 0 || k > n then Err(SampleOutOfRange)
    else
      PicksArePositions(n, k, draws);
      Ok(Pick(Positions(n), k, draws))
  }

  lemma PicksArePositions(n: nat, k: nat, draws: seq<nat>)
    requires k <= n
    ensures forall i :: 0 <= i < k ==> Pick(Positions(n), k, draws)[i] < n
  {
    var s := Pick(Positions(n), k, draws);
    forall i | 0 <= i < k ensures s[i] < n {
      assert s[i] in Positions(n);
    }
  }

  /** The position of `v` in `s`. */
  ghost function IndexOf<T>(s: seq<T>, v: T): (j: nat)
    requires v in s
    ensures j < |s| && s[j] == v
  {
    if s[0] == v then 0 else 1 + IndexOf(s[1..], v)
  }

  /** Draws that make `Pick` take the items of `s` in order: each draw is
      the position of the next item among those still available. */
  ghost function DrawsFor<T>(pool: seq<T>, s: seq<T>): (draws: seq<nat>)
    requires Distinct(s) && forall i :: 0 <= i < |s| ==> s[i] in pool
    ensures |draws| == |s|
    decreases |s|
  {
    if |s| == 0 then []
    else
      var j := IndexOf(pool, s[0]);
      TailStillAvailable(pool, j, s);
      [j] + DrawsFor(RemoveAt(pool, j), s[1..])
  }

  /** Once the first item of `s` is taken out of `pool`, the others are still there. */
  lemma TailStillAvailable<T>(pool: seq<T>, j: nat, s: seq<T>)
    requires Distinct(s) && forall i :: 0 <= i < |s| ==> s[i] in pool
    requires |s| > 0 && j < |pool| && pool[j] == s[0]
    ensures Distinct(s[1..]) && forall i :: 0 <= i < |s| - 1 ==> s[1..][i] in RemoveAt(pool, j)
  {
    var tail := s[1..];
    forall i | 0 <= i < |tail|
      ensures tail[i] in RemoveAt(pool, j)
    {
      assert tail[i] == s[i + 1] && s[i + 1] != s[0] && s[i + 1] in pool;
      StillAvailable(pool, j, tail[i]);
    }
  }

  /** Every ordered choice of distinct items of `pool` comes out of `Pick` for
      some draws; in particular such a choice is never longer than `pool`. */
  lemma {:induction false} PickReachesEverySelection<T>(pool: seq<T>, s: seq<T>)
    requires Distinct(s) && forall i :: 0 <= i < |s| ==> s[i] in pool
    ensures |s| <= |pool|
    ensures Pick(pool, |s|, DrawsFor(pool, s)) == s
  {
    if |s| > 0 {
      var j := IndexOf(pool, s[0]);
      var rest := RemoveAt(pool, j);
      var draws := DrawsFor(pool, s);
      var tail := DrawsFor(rest, s[1..]);
      assert Head(draws) % |pool| == j && Rest(draws) == tail by {
        assert draws == [j] + tail;
        SmallMod(j, |pool|);
      }
      assert Pick(rest, |s| - 1, tail) == s[1..] by {
        TailStillAvailable(pool, j, s);
        PickReachesEverySelection(rest, s[1..]);
      }
      PickUnfold(pool, |s|, draws);
      assert s == [s[0]] + s[1..];
    }
  }

  lemma StillAvailable<T>(pool: seq<T>, j: nat, v: T)
    requires j < |pool| && v in pool && v != pool[j]
    ensures v in RemoveAt(pool, j)
  {
  }

  lemma SmallMod(j: nat, n: nat)
    requires j < n
    ensures j % n == j
  {
  }

  lemma PickUnfold<T>(pool: seq<T>, k: nat, draws: seq<nat>)
    requires 0 < k <= |pool|
    ensures Pick(pool, k, draws) ==
      [pool[Head(draws) % |pool|]] + Pick(RemoveAt(pool, Head(draws) % |pool|), k - 1, Rest(draws))
  {
  }

  /** `Sample` can produce exactly the ordered selections of distinct
      positions: with the right draws, any one of them. */
  lemma SampleReachesEverySelection(n: nat, s: seq<nat>)
    requires IsSelection(s, n)
    ensures |s| <= n
    ensures exists draws :: Sample(n, |s|, draws) == Ok(s)
  {
    var pool := Positions(n);
    assert forall i :: 0 <= i < |s| ==> s[i] in pool by {
      forall i | 0 <= i < |s| ensures s[i] in pool {
        assert pool[s[i]] == s[i];
      }
    }
    var draws := DrawsFor(pool, s);
    assert |s| <= n && Pick(pool, |s|, draws) == s by {
      PickReachesEverySelection(pool, s);
    }
    SampleOfPick(n, |s|, draws);
  }

  lemma SampleOfPick(n: nat, k: nat, draws: seq<nat>)
    requires k <= n
    ensures Sample(n, k, draws) == Ok(Pick(Positions(n), k, draws))
  {
  }

  /** The items of `pool` chosen by `random.sample` and `random.shuffle`. */
  function Choose<T>(pool: seq<T>, k: int, draws: seq<nat>): (r: Result<seq<T>>)
    ensures r.Ok? <==> 0 <= k <= |pool|
    ensures r.Err? ==> r.failure == SampleOutOfRange
    ensures r.Ok? ==> |r.value| == k && forall i :: 0 <= i < k ==> r.value[i] in pool
    ensures r.Ok? && Distinct(pool) ==> Distinct(r.value)
  {
    match Sample(|pool|, k, draws)
    case Err(e) => Err(e)
    case Ok(ps) =>
      var r := seq(|ps|, i requires 0 <= i < |ps| => pool[ps[i]]);
      assert Distinct(pool) ==> Distinct(r) by {
        if Distinct(pool) {
          forall i, j | 0 <= i < j < |r| ensures r[i] != r[j] {
            assert ps[i] != ps[j];
          }
        }
      }
      Ok(r)
  }
}
