/**
 * The "first success wins" searches every cascade in content.js is built from: a scan of one
 * candidate list, a scan of candidate lists in priority order, and a scan for the largest candidate.
 */
module Search {
  import opened Wrappers

  /** Position `(a, b)` comes before position `(i, j)`: an earlier list, or earlier in the same list. */
  predicate Before(a: int, b: int, i: int, j: int) {
    a < i || (a == i && b < j)
  }

  /** The index of the first element of `s` that `p` accepts. */
  function FindFirst<T>(s: seq<T>, p: T -> bool): (r: Option<nat>)
    ensures r.Some? ==> r.value < |s| && p(s[r.value])
    ensures r.Some? ==> forall k :: 0 <= k < r.value ==> !p(s[k])
    ensures r.None? ==> forall k :: 0 <= k < |s| ==> !p(s[k])
  {
    if s == [] then None
    else if p(s[0]) then Some(0)
    else match FindFirst(s[1..], p)
      case None => None
      case Some(k) => Some(k + 1)
  }

  /** The first result `f` gives, from position `from` on, that is not `None`. */
  function FirstSome<T, U>(s: seq<T>, f: T -> Option<U>, from: nat): (r: Option<U>)
    ensures r.Some? ==> exists k :: from <= k < |s| && f(s[k]) == r && forall b :: from <= b < k ==> f(s[b]).None?
    ensures r.None? <==> forall k :: from <= k < |s| ==> f(s[k]).None?
    decreases |s| - from
  {
    if from >= |s| then None
    else if f(s[from]).Some? then f(s[from])
    else FirstSome(s, f, from + 1)
  }

  /** The first result `f` gives for a rank from `from` up to `count`, that is not `None`: selectors tried in priority order. */
  function FirstRank<U>(f: nat -> Option<U>, from: nat, count: nat): (r: Option<U>)
    ensures r.None? <==> forall k :: from <= k < count ==> f(k).None?
    decreases count - from
  {
    if from >= count then None
    else if f(from).Some? then f(from)
    else FirstRank(f, from + 1, count)
  }

  /** The scan over ranks settles on the first rank with a result. */
  lemma {:induction false} FirstRankIs<U>(f: nat -> Option<U>, from: nat, count: nat, k: nat)
    requires from <= k < count && f(k).Some?
    requires forall b :: from <= b < k ==> f(b).None?
    ensures FirstRank(f, from, count) == f(k)
    decreases k - from
  {
    if from < k {
      FirstRankIs(f, from + 1, count, k);
    }
  }

  /** One step of the scan over ranks: a result at `from` decides it, otherwise the scan goes on from `from + 1`. */
  lemma FirstRankStep<U>(f: nat -> Option<U>, from: nat, count: nat)
    requires from < count
    ensures FirstRank(f, from, count) == if f(from).Some? then f(from) else FirstRank(f, from + 1, count)
  {
  }

  /**
   * The first position, in list order and then in order within a list, whose element `p`
   * accepts: one `querySelectorAll` result per selector, tried in the selectors' priority order.
   */
  function FindInTiers<T>(tiers: seq<seq<T>>, p: T -> bool): (r: Option<(nat, nat)>)
    ensures r.Some? ==> r.value.0 < |tiers| && r.value.1 < |tiers[r.value.0]| && p(tiers[r.value.0][r.value.1])
    ensures r.Some? ==> forall a, b :: 0 <= a < |tiers| && 0 <= b < |tiers[a]| && Before(a, b, r.value.0, r.value.1) ==> !p(tiers[a][b])
    ensures r.None? ==> forall a, b :: 0 <= a < |tiers| && 0 <= b < |tiers[a]| ==> !p(tiers[a][b])
  {
    if tiers == [] then None
    else match FindFirst(tiers[0], p)
      case Some(j) => Some((0, j))
      case None =>
        match FindInTiers(tiers[1..], p)
        case None => None
        case Some((i, j)) => Some((i + 1, j))
  }

  /**
   * The index of the candidate with the strictly largest size above `floor`, the earliest one on
   * a tie: a left-to-right scan that replaces its best only on a strictly larger size.
   */
  function ArgMaxAbove<T>(s: seq<T>, size: T -> nat, floor: nat): (r: Option<nat>)
    ensures r.Some? ==> r.value < |s| && size(s[r.value]) > floor
    ensures r.Some? ==> forall k :: 0 <= k < |s| ==> size(s[k]) <= size(s[r.value])
    ensures r.Some? ==> forall k :: 0 <= k < r.value ==> size(s[k]) < size(s[r.value])
    ensures r.None? ==> forall k :: 0 <= k < |s| ==> size(s[k]) <= floor
    decreases |s|
  {
    if s == [] then None
    else
      var best := ArgMaxAbove(s[..|s| - 1], size, floor);
      var last := size(s[|s| - 1]);
      if last > floor && (best.None? || last > size(s[best.value])) then Some(|s| - 1) else best
  }

  /** The first accepted element is unique: an accepted index with nothing accepted before it is the result. */
  lemma FindFirstIs<T>(s: seq<T>, p: T -> bool, k: nat)
    requires k < |s| && p(s[k])
    requires forall b :: 0 <= b < k ==> !p(s[b])
    ensures FindFirst(s, p) == Some(k)
  {
  }

  /** The first accepted position across the lists is unique in the same way. */
  lemma FindInTiersIs<T>(tiers: seq<seq<T>>, p: T -> bool, i: nat, j: nat)
    requires i < |tiers| && j < |tiers[i]| && p(tiers[i][j])
    requires forall a, b :: 0 <= a < |tiers| && 0 <= b < |tiers[a]| && Before(a, b, i, j) ==> !p(tiers[a][b])
    ensures FindInTiers(tiers, p) == Some((i, j))
  {
  }

  /** The scan settles on the first position, from `from` on, with a result. */
  lemma {:induction false} FirstSomeIs<T, U>(s: seq<T>, f: T -> Option<U>, from: nat, k: nat)
    requires from <= k < |s| && f(s[k]).Some?
    requires forall b :: from <= b < k ==> f(s[b]).None?
    ensures FirstSome(s, f, from) == f(s[k])
    decreases k - from
  {
    if from < k {
      FirstSomeIs(s, f, from + 1, k);
    }
  }

  /** One step of the scan: a result at `from` decides it, otherwise the scan goes on from `from + 1`. */
  lemma FirstSomeStep<T, U>(s: seq<T>, f: T -> Option<U>, from: nat)
    requires from < |s|
    ensures FirstSome(s, f, from) == if f(s[from]).Some? then f(s[from]) else FirstSome(s, f, from + 1)
  {
  }

  /** One step of the scan: the best of the first `k + 1` candidates, from the best of the first `k`. */
  lemma ArgMaxAboveStep<T>(s: seq<T>, size: T -> nat, floor: nat, k: nat)
    requires k < |s|
    ensures var best := ArgMaxAbove(s[..k], size, floor);
      ArgMaxAbove(s[..k + 1], size, floor) ==
        if size(s[k]) > floor && (best.None? || size(s[k]) > size(s[best.value])) then Some(k) else best
  {
    assert s[..k + 1][..k] == s[..k];
  }
}
