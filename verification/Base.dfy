/** Small shared vocabulary. */
module Base {

  datatype Option<+T> = None | Some(value: T)

  function Max(a: int, b: int): int {
    if a < b then b else a
  }

  /** The parts, with one space between each two. */
  function JoinSpace(parts: seq<string>): string {
    if parts == [] then "" else if |parts| == 1 then parts[0] else parts[0] + " " + JoinSpace(parts[1..])
  }

  // ----- Picking elements in order -----

  /** `ys` is `xs` cut down to the elements `keep` holds of, in order and as often as they occur; `at`
      says where they were. */
  ghost predicate Selects<T>(xs: seq<T>, keep: T -> bool, ys: seq<T>, at: seq<nat>) {
    && |at| == |ys|
    && (forall k :: 0 <= k < |at| ==> at[k] < |xs| && ys[k] == xs[at[k]])
    && (forall j, k :: 0 <= j < k < |at| ==> at[j] < at[k])
    && (forall i: nat :: i in at <==> i < |xs| && keep(xs[i]))
  }

  lemma SelectsAppend<T>(xs: seq<T>, keep: T -> bool, ys: seq<T>, at: seq<nat>, x: T)
    requires Selects(xs, keep, ys, at)
    ensures keep(x) ==> Selects(xs + [x], keep, ys + [x], at + [|xs|])
    ensures !keep(x) ==> Selects(xs + [x], keep, ys, at)
  {
    var n := |xs|;
    if keep(x) {
      var at' := at + [n];
      forall j, k | 0 <= j < k < |at'| ensures at'[j] < at'[k] {
      }
      forall i: nat ensures i in at' <==> i < n + 1 && keep((xs + [x])[i]) {
        assert i in at' <==> i in at || i == n;
      }
    } else {
      forall i: nat ensures i in at <==> i < n + 1 && keep((xs + [x])[i]) {
      }
    }
  }
}
