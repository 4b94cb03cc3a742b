/** Shared wrappers and scalar helpers used by every part of the model. */
module Common {

  /** A value that may be absent (JavaScript `null`/`undefined`). */
  datatype Option<+T> = None | Some(value: T) {
    function GetOr(default: T): T {
      match this
      case Some(v) => v
      case None => default
    }
  }

  /** Identifiers of items, nodes and wires are strings; the empty string
      stands for a missing id (`null`, `undefined` or `""`, all falsy). */
  type Id = string

  /** A point in world or screen coordinates. */
  datatype Point = Point(x: real, y: real)

  function Abs(x: real): (r: real)
    ensures r >= 0.0
    ensures r == x || r == -x
  {
    if x < 0.0 then -x else x
  }

  function Max(a: real, b: real): (r: real)
    ensures r >= a && r >= b
    ensures r == a || r == b
  {
    if a >= b then a else b
  }

  function Min(a: real, b: real): (r: real)
    ensures r <= a && r <= b
    ensures r == a || r == b
  {
    if a <= b then a else b
  }

  /** `s.filter(keep)`. */
  function Filter<X(!new)>(s: seq<X>, keep: X -> bool): (r: seq<X>)
    ensures |r| <= |s|
    ensures forall x :: x in r <==> x in s && keep(x)
    decreases |s|
  {
    if s == [] then []
    else (if keep(s[0]) then [s[0]] else []) + Filter(s[1..], keep)
  }

  /** The positions `i, i + 1, ...` of `s` whose element `keep` accepts. */
  function KeptFrom<X>(s: seq<X>, keep: X -> bool, i: nat): seq<nat>
    requires i <= |s|
    decreases |s| - i
  {
    if i == |s| then [] else (if keep(s[i]) then [i] else []) + KeptFrom(s, keep, i + 1)
  }

  /** `r` is read off `s` at the strictly increasing positions `idx`, which
      are every position from `i` on whose element `keep` accepts. */
  ghost predicate Picks<X>(s: seq<X>, keep: X -> bool, i: nat, idx: seq<nat>, r: seq<X>) {
    |idx| == |r| &&
    (forall k :: 0 <= k < |idx| ==> i <= idx[k] < |s| && r[k] == s[idx[k]]) &&
    (forall k, l :: 0 <= k < l < |idx| ==> idx[k] < idx[l]) &&
    (forall j :: i <= j < |s| && keep(s[j]) ==> j in idx)
  }

  /** Filtering keeps the accepted elements in their order: the result is
      the subsequence of `s` at the accepted positions. */
  lemma {:induction false} FilterKeepsOrder<X(!new)>(s: seq<X>, keep: X -> bool, i: nat)
    requires i <= |s|
    ensures Picks(s, keep, i, KeptFrom(s, keep, i), Filter(s[i..], keep))
    decreases |s| - i
  {
    if i < |s| {
      FilterKeepsOrder(s, keep, i + 1);
      var rest, tail := KeptFrom(s, keep, i + 1), Filter(s[i + 1..], keep);
      assert s[i..][1..] == s[i + 1..];
      if keep(s[i]) {
        assert Filter(s[i..], keep) == [s[i]] + tail;
        PicksKept(s, keep, i, rest, tail);
      } else {
        assert Filter(s[i..], keep) == tail;
        PicksSkipped(s, keep, i, rest, tail);
      }
    }
  }

  /** An accepted element at `i` goes in front. */
  lemma PicksKept<X>(s: seq<X>, keep: X -> bool, i: nat, rest: seq<nat>, tail: seq<X>)
    requires i < |s| && keep(s[i]) && Picks(s, keep, i + 1, rest, tail)
    ensures Picks(s, keep, i, [i] + rest, [s[i]] + tail)
  {
    var idx, r := [i] + rest, [s[i]] + tail;
    forall k | 0 <= k < |idx| ensures i <= idx[k] < |s| && r[k] == s[idx[k]] {
      if k > 0 { assert idx[k] == rest[k - 1] && r[k] == tail[k - 1]; }
    }
    forall k, l | 0 <= k < l < |idx| ensures idx[k] < idx[l] {
      assert idx[l] == rest[l - 1];
      if k > 0 { assert idx[k] == rest[k - 1]; }
    }
  }

  /** A rejected element at `i` is passed over. */
  lemma PicksSkipped<X>(s: seq<X>, keep: X -> bool, i: nat, rest: seq<nat>, tail: seq<X>)
    requires i < |s| && !keep(s[i]) && Picks(s, keep, i + 1, rest, tail)
    ensures Picks(s, keep, i, rest, tail)
  {
  }
}

/** `clamp` (my-app/src/core/utils.js and the same arrow function in app.js). */
module Utils {
  import opened Common

  /** `Math.max(a, Math.min(b, x))`: inside a non-empty range the result
      lies in the range, equals `x` when `x` already does, and saturates
      at the nearer bound otherwise. */
  function Clamp(x: real, a: real, b: real): (r: real)
    ensures a <= b ==> a <= r <= b
    ensures a <= x <= b ==> r == x
    ensures a <= b && x < a ==> r == a
    ensures a <= b && x > b ==> r == b
  {
    Max(a, Min(b, x))
  }

  lemma ClampIdempotent(x: real, a: real, b: real)
    ensures Clamp(Clamp(x, a, b), a, b) == Clamp(x, a, b)
  {
  }

  /** With an inverted range the lower bound wins, as `Math.max` is applied last. */
  lemma ClampInvertedRange(x: real, a: real, b: real)
    requires b < a
    ensures Clamp(x, a, b) == a
  {
  }
}
