/** Size limits on free-form JSON: the iterative measure, the limits, and how far a run of merges
    can grow a stored value. */
module JsonBounds {
  import opened Base
  import opened JsonValues
  import opened JsonMerge
  import opened JsonText
  import Uuids

  const CONFIG_MAX_BYTES: nat := 16_000
  const CONFIG_MAX_DEPTH: nat := 12
  const CONFIG_MAX_NODES: nat := 500

  // ----- Recursive definitions -----

  function Depth(j: Json): nat
    decreases j
  {
    1 + match j
        case Arr(items) => DepthItems(items)
        case Obj(ms) => DepthMembers(ms)
        case _ => 0
  }

  function DepthItems(items: seq<Json>): nat
    decreases items
  {
    if items == [] then 0 else Max(Depth(items[0]), DepthItems(items[1..]))
  }

  function DepthMembers(ms: seq<Member>): nat
    decreases ms
  {
    if ms == [] then 0 else Max(Depth(ms[0].value), DepthMembers(ms[1..]))
  }

  function Nodes(j: Json): nat
    decreases j
  {
    1 + match j
        case Arr(items) => NodesItems(items)
        case Obj(ms) => NodesMembers(ms)
        case _ => 0
  }

  function NodesItems(items: seq<Json>): nat
    decreases items
  {
    if items == [] then 0 else Nodes(items[0]) + NodesItems(items[1..])
  }

  function NodesMembers(ms: seq<Member>): nat
    decreases ms
  {
    if ms == [] then 0 else Nodes(ms[0].value) + NodesMembers(ms[1..])
  }

  // ----- What they count -----

  /** A path names a node by the position of each ancestor, and of itself, among its siblings. */
  predicate Reaches(j: Json, path: seq<nat>)
    decreases |path|
  {
    path == []
    || match j
       case Arr(items) => path[0] < |items| && Reaches(items[path[0]], path[1..])
       case Obj(ms) => path[0] < |ms| && Reaches(ms[path[0]].value, path[1..])
       case _ => false
  }

  lemma {:induction false} DeepestItem(items: seq<Json>, d: nat) returns (i: nat)
    requires d < DepthItems(items)
    ensures i < |items| && d < Depth(items[i])
  {
    if d < Depth(items[0]) {
      i := 0;
    } else {
      i := DeepestItem(items[1..], d);
      i := i + 1;
    }
  }

  lemma {:induction false} DeepestMember(ms: seq<Member>, d: nat) returns (i: nat)
    requires d < DepthMembers(ms)
    ensures i < |ms| && d < Depth(ms[i].value)
  {
    if d < Depth(ms[0].value) {
      i := 0;
    } else {
      i := DeepestMember(ms[1..], d);
      i := i + 1;
    }
  }

  lemma {:induction false} ItemIsShallow(items: seq<Json>, i: nat)
    requires i < |items|
    ensures Depth(items[i]) <= DepthItems(items)
  {
    if i == 0 {
    } else {
      ItemIsShallow(items[1..], i - 1);
    }
  }

  lemma {:induction false} MemberIsShallow(ms: seq<Member>, i: nat)
    requires i < |ms|
    ensures Depth(ms[i].value) <= DepthMembers(ms)
  {
    if i == 0 {
    } else {
      MemberIsShallow(ms[1..], i - 1);
    }
  }

  lemma {:induction false} DeepPath(j: Json, n: nat) returns (path: seq<nat>)
    requires n < Depth(j)
    ensures |path| == n && Reaches(j, path)
    decreases n
  {
    if n == 0 {
      path := [];
    } else if j.Arr? {
      var i := DeepestItem(j.items, n - 1);
      var rest := DeepPath(j.items[i], n - 1);
      path := [i] + rest;
      assert path[1..] == rest;
    } else {
      var i := DeepestMember(j.members, n - 1);
      var rest := DeepPath(j.members[i].value, n - 1);
      path := [i] + rest;
      assert path[1..] == rest;
    }
  }

  lemma {:induction false} PathIsShort(j: Json, path: seq<nat>)
    requires Reaches(j, path)
    ensures |path| < Depth(j)
    decreases |path|
  {
    if path == [] {
    } else if j.Arr? {
      ItemIsShallow(j.items, path[0]);
      PathIsShort(j.items[path[0]], path[1..]);
    } else {
      MemberIsShallow(j.members, path[0]);
      PathIsShort(j.members[path[0]].value, path[1..]);
    }
  }

  /** A value is as deep as its longest path, the root counting one. */
  lemma DepthIsTheLongestPath(j: Json, n: nat)
    ensures n < Depth(j) <==> exists path :: |path| == n && Reaches(j, path)
  {
    if n < Depth(j) {
      var path := DeepPath(j, n);
    }
    if path :| |path| == n && Reaches(j, path) {
      PathIsShort(j, path);
    }
  }

  ghost function Under(k: nat, paths: set<seq<nat>>): set<seq<nat>> {
    set p | p in paths :: [k] + p
  }

  ghost function Paths(j: Json): set<seq<nat>>
    decreases j
  {
    {[]} + match j
           case Arr(items) => ItemPaths(items, 0)
           case Obj(ms) => MemberPaths(ms, 0)
           case _ => {}
  }

  ghost function ItemPaths(items: seq<Json>, k: nat): set<seq<nat>>
    decreases items
  {
    if items == [] then {} else Under(k, Paths(items[0])) + ItemPaths(items[1..], k + 1)
  }

  ghost function MemberPaths(ms: seq<Member>, k: nat): set<seq<nat>>
    decreases ms
  {
    if ms == [] then {} else Under(k, Paths(ms[0].value)) + MemberPaths(ms[1..], k + 1)
  }

  lemma InUnder(k: nat, paths: set<seq<nat>>, path: seq<nat>)
    ensures path in Under(k, paths) <==> path != [] && path[0] == k && path[1..] in paths
  {
    if path != [] && path[0] == k && path[1..] in paths {
      assert path == [k] + path[1..];
    }
    if path in Under(k, paths) {
      var p :| p in paths && path == [k] + p;
      assert path[1..] == p;
    }
  }

  lemma {:induction false} UnderSize(k: nat, paths: set<seq<nat>>)
    ensures |Under(k, paths)| == |paths|
  {
    if paths == {} {
    } else {
      var p :| p in paths;
      var rest := paths - {p};
      UnderSize(k, rest);
      InUnder(k, rest, [k] + p);
      assert ([k] + p)[1..] == p;
      assert Under(k, paths) == Under(k, rest) + {[k] + p};
    }
  }

  lemma {:induction false} InItemPaths(items: seq<Json>, k: nat, path: seq<nat>)
    ensures path in ItemPaths(items, k) <==>
            path != [] && k <= path[0] < k + |items| && path[1..] in Paths(items[path[0] - k])
    decreases |items|
  {
    if items == [] {
    } else {
      InUnder(k, Paths(items[0]), path);
      InItemPaths(items[1..], k + 1, path);
    }
  }

  lemma {:induction false} InMemberPaths(ms: seq<Member>, k: nat, path: seq<nat>)
    ensures path in MemberPaths(ms, k) <==>
            path != [] && k <= path[0] < k + |ms| && path[1..] in Paths(ms[path[0] - k].value)
    decreases |ms|
  {
    if ms == [] {
    } else {
      InUnder(k, Paths(ms[0].value), path);
      InMemberPaths(ms[1..], k + 1, path);
    }
  }

  /** The paths of a value are exactly those that lead somewhere in it. */
  lemma {:induction false} PathsExactly(j: Json, path: seq<nat>)
    ensures path in Paths(j) <==> Reaches(j, path)
    decreases |path|
  {
    match j
    case Arr(items) =>
      InItemPaths(items, 0, path);
      if path != [] && path[0] < |items| { PathsExactly(items[path[0]], path[1..]); }
    case Obj(ms) =>
      InMemberPaths(ms, 0, path);
      if path != [] && path[0] < |ms| { PathsExactly(ms[path[0]].value, path[1..]); }
    case _ =>
  }

  /** A value has as many nodes as paths: every node is counted once. */
  lemma {:induction false} NodesCountThePaths(j: Json)
    ensures |Paths(j)| == Nodes(j)
    decreases j
  {
    match j
    case Arr(items) =>
      ItemNodesCountPaths(items, 0);
      InItemPaths(items, 0, []);
    case Obj(ms) =>
      MemberNodesCountPaths(ms, 0);
      InMemberPaths(ms, 0, []);
    case _ =>
  }

  lemma {:induction false} ItemNodesCountPaths(items: seq<Json>, k: nat)
    ensures |ItemPaths(items, k)| == NodesItems(items)
    decreases items
  {
    if items == [] {
    } else {
      NodesCountThePaths(items[0]);
      UnderSize(k, Paths(items[0]));
      ItemNodesCountPaths(items[1..], k + 1);
      var here, later := Under(k, Paths(items[0])), ItemPaths(items[1..], k + 1);
      forall p | p in here ensures p !in later {
        InUnder(k, Paths(items[0]), p);
        InItemPaths(items[1..], k + 1, p);
      }
      DisjointSizes(here, later);
    }
  }

  lemma {:induction false} MemberNodesCountPaths(ms: seq<Member>, k: nat)
    ensures |MemberPaths(ms, k)| == NodesMembers(ms)
    decreases ms
  {
    if ms == [] {
    } else {
      NodesCountThePaths(ms[0].value);
      UnderSize(k, Paths(ms[0].value));
      MemberNodesCountPaths(ms[1..], k + 1);
      var here, later := Under(k, Paths(ms[0].value)), MemberPaths(ms[1..], k + 1);
      forall p | p in here ensures p !in later {
        InUnder(k, Paths(ms[0].value), p);
        InMemberPaths(ms[1..], k + 1, p);
      }
      DisjointSizes(here, later);
    }
  }

  lemma DisjointSizes(a: set<seq<nat>>, b: set<seq<nat>>)
    requires a !! b
    ensures |a + b| == |a| + |b|
  {
  }

  // ----- The stack walk -----

  datatype Frame = Frame(node: Json, depth: nat)

  /** Nodes still to be counted, and the deepest level any of them reaches. */
  function PendingNodes(stack: seq<Frame>): nat {
    if stack == [] then 0 else PendingNodes(stack[..|stack| - 1]) + Nodes(stack[|stack| - 1].node)
  }

  function PendingDepth(stack: seq<Frame>): int {
    if stack == [] then 0
    else
      var top := stack[|stack| - 1];
      Max(PendingDepth(stack[..|stack| - 1]), top.depth - 1 + Depth(top.node))
  }

  lemma PushOne(stack: seq<Frame>, f: Frame)
    ensures PendingNodes(stack + [f]) == PendingNodes(stack) + Nodes(f.node)
    ensures PendingDepth(stack + [f]) == Max(PendingDepth(stack), f.depth - 1 + Depth(f.node))
  {
    assert (stack + [f])[..|stack|] == stack;
  }

  function Reach(items: seq<Json>, depth: nat): int {
    if items == [] then 0 else depth - 1 + DepthItems(items)
  }

  lemma ReachStep(items: seq<Json>, depth: nat)
    requires items != [] && depth >= 1
    ensures Reach(items, depth) == Max(depth - 1 + Depth(items[0]), Reach(items[1..], depth))
  {
  }

  method Push(stack: seq<Frame>, items: seq<Json>, depth: nat) returns (out: seq<Frame>)
    requires depth >= 1
    ensures PendingNodes(out) == PendingNodes(stack) + NodesItems(items)
    ensures PendingDepth(out) == Max(PendingDepth(stack), Reach(items, depth))
  {
    out := stack;
    for i := 0 to |items|
      invariant PendingNodes(out) + NodesItems(items[i..]) == PendingNodes(stack) + NodesItems(items)
      invariant Max(PendingDepth(out), Reach(items[i..], depth)) == Max(PendingDepth(stack), Reach(items, depth))
    {
      ReachStep(items[i..], depth);
      assert items[i..][1..] == items[i + 1..];
      PushOne(out, Frame(items[i], depth));
      out := out + [Frame(items[i], depth)];
    }
    PendingIsPositive(out);
  }

  lemma PendingIsPositive(stack: seq<Frame>)
    ensures PendingDepth(stack) >= 0
  {
  }

  function Values(ms: seq<Member>): (vs: seq<Json>)
    ensures NodesItems(vs) == NodesMembers(ms) && DepthItems(vs) == DepthMembers(ms)
    ensures vs == [] <==> ms == []
  {
    if ms == [] then []
    else
      var rest := Values(ms[1..]);
      assert ([ms[0].value] + rest)[1..] == rest;
      [ms[0].value] + rest
  }

  /** The walk visits every node once and reports the recursive depth and node count. */
  method Measure(value: Json) returns (maxDepth: nat, nodes: nat)
    ensures maxDepth == Depth(value) && nodes == Nodes(value)
  {
    maxDepth, nodes := 0, 0;
    var stack := [Frame(value, 1)];
    assert stack[..0] == [];
    while stack != []
      invariant nodes + PendingNodes(stack) == Nodes(value)
      invariant Max(maxDepth, PendingDepth(stack)) == Depth(value)
      decreases PendingNodes(stack)
    {
      var top := stack[|stack| - 1];
      stack := stack[..|stack| - 1];
      PendingIsPositive(stack);
      nodes := nodes + 1;
      maxDepth := Max(top.depth, maxDepth);
      match top.node {
        case Obj(ms) =>
          assert Depth(top.node) == 1 + DepthItems(Values(ms));
          stack := Push(stack, Values(ms), top.depth + 1);
        case Arr(items) =>
          assert Depth(top.node) == 1 + DepthItems(items);
          stack := Push(stack, items, top.depth + 1);
        case _ =>
          assert Depth(top.node) == 1;
      }
    }
  }

  // ----- The limits -----

  datatype Violation = TooDeep(depth: nat) | TooMany(nodes: nat) | NotSerialisable | TooLarge(bytes: nat)

  /** The first limit broken, in the order depth, nodes, bytes. A JSON value always serialises; what
      a caller passes as one might not. */
  method JsonBoundsViolation(value: Json, serialises: bool, maxBytes: nat, maxDepth: nat, maxNodes: nat)
    returns (v: Option<Violation>)
    ensures v.None? <==>
            Depth(value) <= maxDepth && Nodes(value) <= maxNodes && serialises && Size(value) <= maxBytes
    ensures v.Some? ==>
              match v.value
              case TooDeep(d) => d == Depth(value) > maxDepth
              case TooMany(n) => Depth(value) <= maxDepth && n == Nodes(value) > maxNodes
              case NotSerialisable => Depth(value) <= maxDepth && Nodes(value) <= maxNodes && !serialises
              case TooLarge(b) =>
                Depth(value) <= maxDepth && Nodes(value) <= maxNodes && serialises && b == Size(value) > maxBytes
  {
    var depth, nodes := Measure(value);
    if depth > maxDepth {
      return Some(TooDeep(depth));
    }
    if nodes > maxNodes {
      return Some(TooMany(nodes));
    }
    if !serialises {
      return Some(NotSerialisable);
    }
    EncodedSize(value);
    var size := |Encode(value)|;
    if size > maxBytes {
      return Some(TooLarge(size));
    }
    return None;
  }

  // ----- Growth under merging -----

  lemma {:induction false} PutGrowth(ms: seq<Member>, k: string, v: Json)
    ensures NodesMembers(Put(ms, k, v)) ==
            NodesMembers(ms) + Nodes(v) - (if Get(ms, k).Some? then Nodes(Get(ms, k).value) else 0)
    ensures DepthMembers(Put(ms, k, v)) <= Max(DepthMembers(ms), Depth(v))
  {
    if ms == [] {
      assert [Member(k, v)][1..] == [];
    } else if ms[0].key == k {
      assert ([Member(k, v)] + ms[1..])[1..] == ms[1..];
    } else {
      PutGrowth(ms[1..], k, v);
      assert ([ms[0]] + Put(ms[1..], k, v))[1..] == Put(ms[1..], k, v);
    }
  }

  lemma {:induction false} RemoveShrinks(ms: seq<Member>, k: string)
    ensures NodesMembers(Remove(ms, k)) <= NodesMembers(ms)
    ensures DepthMembers(Remove(ms, k)) <= DepthMembers(ms)
  {
    if ms == [] {
    } else {
      RemoveShrinks(ms[1..], k);
      if ms[0].key != k {
        assert ([ms[0]] + Remove(ms[1..], k))[1..] == Remove(ms[1..], k);
      }
    }
  }

  lemma {:induction false} GetIsShallow(ms: seq<Member>, k: string)
    requires Get(ms, k).Some?
    ensures Depth(Get(ms, k).value) <= DepthMembers(ms)
  {
    if ms[0].key == k {
    } else {
      GetIsShallow(ms[1..], k);
    }
  }

  lemma {:induction false} MergeGrowth(stored: seq<Member>, patch: seq<Member>)
    ensures NodesMembers(Merge(stored, patch)) <= NodesMembers(stored) + NodesMembers(patch)
    ensures DepthMembers(Merge(stored, patch)) <= Max(DepthMembers(stored), DepthMembers(patch))
    decreases patch, 1
  {
    if patch == [] {
    } else {
      ApplyGrowth(stored, patch[0]);
      MergeGrowth(Apply(stored, patch[0]), patch[1..]);
    }
  }

  lemma {:induction false} ApplyGrowth(stored: seq<Member>, m: Member)
    ensures NodesMembers(Apply(stored, m)) <= NodesMembers(stored) + Nodes(m.value)
    ensures DepthMembers(Apply(stored, m)) <= Max(DepthMembers(stored), Depth(m.value))
    decreases m, 0
  {
    var existing := Get(stored, m.key);
    if m.value.Null? {
      RemoveShrinks(stored, m.key);
    } else {
      PutGrowth(stored, m.key, Merged(existing, m.value).value);
      if existing.Some? {
        GetIsShallow(stored, m.key);
        if existing.value.Obj? && m.value.Obj? {
          MergeGrowth(existing.value.members, m.value.members);
        }
      }
    }
  }

  lemma {:induction false} PutWeight(ms: seq<Member>, k: string, v: Json)
    ensures
      match Get(ms, k)
      case None => Weight(Put(ms, k, v)) == Weight(ms) + |EncodeMember(Member(k, v))| + 1
      case Some(was) => Weight(Put(ms, k, v)) + Bytes(was) == Weight(ms) + Bytes(v)
  {
    if ms == [] {
      assert [Member(k, v)][1..] == [];
    } else if ms[0].key == k {
      assert ([Member(k, v)] + ms[1..])[1..] == ms[1..];
    } else {
      PutWeight(ms[1..], k, v);
      assert ([ms[0]] + Put(ms[1..], k, v))[1..] == Put(ms[1..], k, v);
    }
  }

  lemma {:induction false} RemoveLightens(ms: seq<Member>, k: string)
    ensures Weight(Remove(ms, k)) <= Weight(ms)
  {
    if ms == [] {
    } else {
      RemoveLightens(ms[1..], k);
      if ms[0].key != k {
        assert ([ms[0]] + Remove(ms[1..], k))[1..] == Remove(ms[1..], k);
      }
    }
  }

  lemma {:induction false} MergeWeight(stored: seq<Member>, patch: seq<Member>)
    ensures Weight(Merge(stored, patch)) <= Weight(stored) + Weight(patch)
    decreases patch, 1
  {
    if patch == [] {
    } else {
      ApplyWeight(stored, patch[0]);
      MergeWeight(Apply(stored, patch[0]), patch[1..]);
    }
  }

  lemma {:induction false} ApplyWeight(stored: seq<Member>, m: Member)
    ensures Weight(Apply(stored, m)) <= Weight(stored) + |EncodeMember(m)| + 1
    decreases m, 0
  {
    var existing := Get(stored, m.key);
    if m.value.Null? {
      RemoveLightens(stored, m.key);
    } else {
      PutWeight(stored, m.key, Merged(existing, m.value).value);
      if existing.Some? && existing.value.Obj? && m.value.Obj? {
        var e, p := existing.value.members, m.value.members;
        MergeWeight(e, p);
        WeightIsLength(e);
        WeightIsLength(p);
        WeightIsLength(Merge(e, p));
      }
    }
  }

  /** A merge is no deeper than its two inputs and has at most their nodes and their bytes, less the
      root they share. */
  lemma MergeIsBounded(stored: seq<Member>, patch: seq<Member>)
    ensures Depth(Obj(Merge(stored, patch))) <= Max(Depth(Obj(stored)), Depth(Obj(patch)))
    ensures Nodes(Obj(Merge(stored, patch))) <= Nodes(Obj(stored)) + Nodes(Obj(patch)) - 1
    ensures Size(Obj(Merge(stored, patch))) <= Size(Obj(stored)) + Size(Obj(patch)) - 1
  {
    EncodedSize(Obj(stored));
    EncodedSize(Obj(patch));
    EncodedSize(Obj(Merge(stored, patch)));
    MergeGrowth(stored, patch);
    MergeWeight(stored, patch);
    WeightIsLength(stored);
    WeightIsLength(patch);
    WeightIsLength(Merge(stored, patch));
  }

  function MergeAll(stored: seq<Member>, patches: seq<seq<Member>>): seq<Member>
    decreases |patches|
  {
    if patches == [] then stored else MergeAll(Merge(stored, patches[0]), patches[1..])
  }

  function PatchNodes(patches: seq<seq<Member>>): nat {
    if patches == [] then 0 else Nodes(Obj(patches[0])) - 1 + PatchNodes(patches[1..])
  }

  function PatchBytes(patches: seq<seq<Member>>): nat {
    if patches == [] then 0 else Size(Obj(patches[0])) - 1 + PatchBytes(patches[1..])
  }

  lemma {:induction false} ManyMergesAreBounded(stored: seq<Member>, patches: seq<seq<Member>>, depth: nat)
    requires Depth(Obj(stored)) <= depth
    requires forall i :: 0 <= i < |patches| ==> Depth(Obj(patches[i])) <= depth
    ensures Nodes(Obj(MergeAll(stored, patches))) <= Nodes(Obj(stored)) + PatchNodes(patches)
    ensures Size(Obj(MergeAll(stored, patches))) <= Size(Obj(stored)) + PatchBytes(patches)
    ensures Depth(Obj(MergeAll(stored, patches))) <= depth
    decreases |patches|
  {
    if patches == [] {
    } else {
      MergeIsBounded(stored, patches[0]);
      ManyMergesAreBounded(Merge(stored, patches[0]), patches[1..], depth);
    }
  }

  // ----- The bound is reached by small patches -----

  /** Keys of a fixed width: the position in hexadecimal. */
  function Key(i: nat, width: nat): string {
    Uuids.ToHex(i, width)
  }

  lemma KeysDiffer(i: nat, j: nat, width: nat)
    requires i < Uuids.Pow16(width) && j < Uuids.Pow16(width) && Key(i, width) == Key(j, width)
    ensures i == j
  {
    Uuids.HexRoundTrip(i, width);
    Uuids.HexRoundTrip(j, width);
  }

  lemma DigitNeedsNoEscape(c: char)
    requires c in Uuids.DIGITS
    ensures Escape(c) == [c]
  {
    var i :| 0 <= i < 16 && c == Uuids.DIGITS[i];
    assert '0' <= c <= 'f' && c != '\\' by { Uuids.DigitRoundTrip(i); }
  }

  lemma {:induction false} HexNeedsNoEscape(s: string)
    requires forall c :: c in s ==> c in Uuids.DIGITS
    ensures EscapeAll(s) == s
  {
    if s == "" {
    } else {
      assert s[0] in s;
      DigitNeedsNoEscape(s[0]);
      HexNeedsNoEscape(s[1..]);
      assert s == [s[0]] + s[1..];
    }
  }

  lemma OneKeyBytes(i: nat, width: nat)
    ensures Bytes(Obj([Member(Key(i, width), Num(1))])) == width + 6
  {
    var m := Member(Key(i, width), Num(1));
    HexNeedsNoEscape(m.key);
    assert |Decimal(1)| == 1;
    assert |EncodeMember(m)| == width + 4;
    assert [m][1..] == [];
    WeightIsLength([m]);
  }

  function Grown(n: nat, width: nat): seq<Member> {
    seq(n, i requires 0 <= i < n => Member(Key(i, width), Num(1)))
  }

  function OneKeyPatches(from: nat, n: nat, width: nat): (ps: seq<seq<Member>>)
    ensures |ps| == n
    ensures forall i :: 0 <= i < n ==> ps[i] == [Member(Key(from + i, width), Num(1))]
    decreases n
  {
    if n == 0 then [] else [[Member(Key(from, width), Num(1))]] + OneKeyPatches(from + 1, n - 1, width)
  }

  lemma NextKeyIsNew(n: nat, width: nat)
    requires n < Uuids.Pow16(width)
    ensures Get(Grown(n, width), Key(n, width)) == None
  {
    forall i | 0 <= i < n ensures Grown(n, width)[i].key != Key(n, width) {
      if Key(i, width) == Key(n, width) {
        KeysDiffer(i, n, width);
      }
    }
  }

  lemma {:induction false} GrownNodes(n: nat, width: nat)
    ensures NodesMembers(Grown(n, width)) == n
  {
    if n == 0 {
    } else {
      GrownNodes(n - 1, width);
      assert Grown(n, width) == Grown(n - 1, width) + [Member(Key(n - 1, width), Num(1))];
      AppendNode(Grown(n - 1, width), Member(Key(n - 1, width), Num(1)));
    }
  }

  lemma {:induction false} AppendNode(ms: seq<Member>, m: Member)
    ensures NodesMembers(ms + [m]) == NodesMembers(ms) + Nodes(m.value)
  {
    if ms == [] {
      assert ms + [m] == [m] && [m][1..] == [];
    } else {
      assert (ms + [m])[1..] == ms[1..] + [m];
      AppendNode(ms[1..], m);
    }
  }

  lemma {:induction false} GrowSteps(from: nat, n: nat, width: nat)
    requires from + n <= Uuids.Pow16(width)
    ensures MergeAll(Grown(from, width), OneKeyPatches(from, n, width)) == Grown(from + n, width)
    decreases n
  {
    if n == 0 {
    } else {
      var m := Member(Key(from, width), Num(1));
      var ps := OneKeyPatches(from, n, width);
      assert ps[0] == [m] && ps[1..] == OneKeyPatches(from + 1, n - 1, width);
      NextKeyIsNew(from, width);
      PutNew(Grown(from, width), m.key, m.value);
      assert [m][1..] == [];
      assert Merge(Grown(from, width), [m]) == Apply(Grown(from, width), m) == Grown(from, width) + [m];
      assert Grown(from + 1, width) == Grown(from, width) + [m];
      GrowSteps(from + 1, n - 1, width);
    }
  }

  /** With keys of `width` hexadecimal digits, any n up to 16 to the power of `width` patches, each
      of two nodes, depth two and `width` + 6 bytes and so within every limit, merge into a value of
      exactly n + 1 nodes: the bound on growth is reached far beyond the limit on nodes. */
  lemma SmallPatchesReachTheBound(n: nat, width: nat)
    requires n <= Uuids.Pow16(width) && width + 6 <= CONFIG_MAX_BYTES
    ensures
      var ps := OneKeyPatches(0, n, width);
      && (forall i :: 0 <= i < n ==>
            && Nodes(Obj(ps[i])) == 2 <= CONFIG_MAX_NODES && Depth(Obj(ps[i])) == 2 <= CONFIG_MAX_DEPTH
            && Size(Obj(ps[i])) == width + 6 <= CONFIG_MAX_BYTES)
      && Nodes(Obj(MergeAll([], ps))) == n + 1 == Nodes(Obj([])) + PatchNodes(ps)
  {
    var ps := OneKeyPatches(0, n, width);
    forall i | 0 <= i < n ensures Nodes(Obj(ps[i])) == 2 && Depth(Obj(ps[i])) == 2 && Size(Obj(ps[i])) == width + 6 {
      OneKeyBytes(i, width);
      EncodedSize(Obj(ps[i]));
      assert ps[i][1..] == [] && ps[i][0].value == Num(1);
      assert NodesMembers(ps[i]) == 1 && DepthMembers(ps[i]) == 1;
    }
    GrowSteps(0, n, width);
    assert Grown(0, width) == [];
    GrownNodes(n, width);
    TwoNodesEach(ps);
  }

  lemma {:induction false} TwoNodesEach(ps: seq<seq<Member>>)
    requires forall i :: 0 <= i < |ps| ==> Nodes(Obj(ps[i])) == 2
    ensures PatchNodes(ps) == |ps|
  {
    if ps == [] {
    } else {
      TwoNodesEach(ps[1..]);
    }
  }
}
