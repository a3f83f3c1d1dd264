/** The downgrade of migration 0061: from owner indexes that only cover live rows back to owner
    indexes that cover every row. */
module OwnerIndexDowngrade {
  import opened Base
  import opened OwnerModel

  datatype Config = Config(
    kind: Kind,
    chatroom: Option<Id>,
    agentGroup: Option<Id>,
    workspace: Option<Id>,
    createdAt: int,
    deletedAt: Option<int>)

  type Table = map<Id, Config>

  const KINDS: seq<Kind> := [Chatroom, AgentGroup, Workspace]

  function Owner(c: Config, kind: Kind): Option<Id> {
    match kind
    case Chatroom => c.chatroom
    case AgentGroup => c.agentGroup
    case Workspace => c.workspace
  }

  predicate Checked(c: Config) {
    OwnerCheck(c.kind, c.chatroom, c.agentGroup, c.workspace)
  }

  predicate SameOwner(t: Table, kind: Kind, a: Id, b: Id)
    requires a in t && b in t
  {
    Owner(t[a], kind).Some? && Owner(t[a], kind) == Owner(t[b], kind)
  }

  predicate Live(t: Table, a: Id)
    requires a in t
  {
    t[a].deletedAt.None?
  }

  ghost predicate UniqueAmongLive(t: Table, kind: Kind) {
    forall a, b :: a in t && b in t && a != b && SameOwner(t, kind, a, b) ==> !(Live(t, a) && Live(t, b))
  }

  ghost predicate Unique(t: Table, kind: Kind) {
    forall a, b :: a in t && b in t && a != b ==> !SameOwner(t, kind, a, b)
  }

  /** `(created_at, id)` of `a` above that of `b`. */
  predicate Newer(t: Table, a: Id, b: Id)
    requires a in t && b in t
  {
    t[a].createdAt > t[b].createdAt || (t[a].createdAt == t[b].createdAt && a > b)
  }

  /** The row the delete statement of one kind selects. */
  predicate Shadowed(t: Table, kind: Kind, d: Id) {
    && d in t && !Live(t, d) && Owner(t[d], kind).Some?
    && exists o :: o in t && o != d && SameOwner(t, kind, o, d) && (Live(t, o) || Newer(t, o, d))
  }

  function DeleteShadowed(t: Table, kind: Kind): Table {
    map d | d in t && !Shadowed(t, kind, d) :: t[d]
  }

  /** Two rows have the same owner: under the CHECK, the same three columns. */
  predicate SharesOwner(a: Config, b: Config) {
    a.chatroom == b.chatroom && a.agentGroup == b.agentGroup && a.workspace == b.workspace
  }

  /** What should remain of one owner: its live row, or else the deleted row made last, the larger id
      deciding between rows made at one moment. */
  ghost predicate Keeper(t: Table, k: Id) {
    && k in t
    && (t[k].deletedAt.None?
        || forall o :: o in t && o != k && SharesOwner(t[o], t[k]) ==>
             && t[o].deletedAt.Some?
             && (t[o].createdAt < t[k].createdAt || (t[o].createdAt == t[k].createdAt && o < k)))
  }

  lemma SharesOwnerExactly(t: Table, a: Id, b: Id)
    requires a in t && b in t && Checked(t[a]) && Checked(t[b])
    ensures SharesOwner(t[a], t[b]) <==> exists kind :: SameOwner(t, kind, a, b)
    ensures SharesOwner(t[a], t[b]) <==> SameOwner(t, t[b].kind, a, b)
  {
    assert SameOwner(t, t[b].kind, a, b) ==> exists kind :: SameOwner(t, kind, a, b);
  }

  /** No two rows have a common chatroom, group or workspace. */
  ghost predicate UniqueOwners(t: Table) {
    forall a, b :: a in t && b in t && a != b ==>
      && !(t[a].chatroom.Some? && t[a].chatroom == t[b].chatroom)
      && !(t[a].agentGroup.Some? && t[a].agentGroup == t[b].agentGroup)
      && !(t[a].workspace.Some? && t[a].workspace == t[b].workspace)
  }

  lemma KeeperIsNotShadowed(t: Table, k: Id)
    requires (forall c :: c in t ==> Checked(t[c])) && k in t
    ensures Keeper(t, k) <==> forall kind :: !Shadowed(t, kind, k)
  {
    forall o | o in t ensures SharesOwner(t[o], t[k]) <==> SameOwner(t, t[k].kind, o, k) {
      SharesOwnerExactly(t, o, k);
    }
    if !Keeper(t, k) {
      var o :| o in t && o != k && SameOwner(t, t[k].kind, o, k) && (Live(t, o) || Newer(t, o, k));
      assert Shadowed(t, t[k].kind, k);
    } else {
      forall kind ensures !Shadowed(t, kind, k) {
        forall o | o in t && SameOwner(t, kind, o, k) ensures SharesOwner(t[o], t[k]) { SharesOwnerExactly(t, o, k); }
      }
    }
  }

  /** Deleting the shadowed rows of one kind does not change which rows of another are shadowed. */
  lemma KindsAreIndependent(t: Table, out: Table, kind: Kind, k: Id)
    requires forall c :: c in t ==> Checked(t[c])
    requires forall c :: c in out ==> c in t && out[c] == t[c]
    requires forall c :: c in t && Owner(t[c], kind).Some? ==> c in out
    ensures Shadowed(out, kind, k) <==> Shadowed(t, kind, k)
  {
    if Shadowed(t, kind, k) {
      var o :| o in t && o != k && SameOwner(t, kind, o, k) && (Live(t, o) || Newer(t, o, k));
      assert o in out && SameOwner(out, kind, o, k);
    }
    if Shadowed(out, kind, k) {
      var o :| o in out && o != k && SameOwner(out, kind, o, k) && (Live(out, o) || Newer(out, o, k));
      assert SameOwner(t, kind, o, k);
    }
  }

  predicate Survives(t: Table, kinds: nat, k: Id)
    requires kinds <= |KINDS|
  {
    k in t && forall j :: 0 <= j < kinds ==> !Shadowed(t, KINDS[j], k)
  }

  /** The deletes of the first `kinds` kinds have run. */
  ghost predicate DoneKinds(t: Table, out: Table, kinds: nat)
    requires kinds <= |KINDS|
  {
    && (forall k :: k in out <==> Survives(t, kinds, k))
    && (forall k :: k in out ==> out[k] == t[k])
  }

  lemma KindStep(t: Table, out: Table, i: nat)
    requires (forall c :: c in t ==> Checked(t[c])) && i < |KINDS| && DoneKinds(t, out, i)
    ensures DoneKinds(t, DeleteShadowed(out, KINDS[i]), i + 1)
  {
    var out' := DeleteShadowed(out, KINDS[i]);
    assert KINDS == [Chatroom, AgentGroup, Workspace];
    forall c | c in t && Owner(t[c], KINDS[i]).Some? ensures c in out { assert Survives(t, i, c); }
    forall k ensures k in out' <==> Survives(t, i + 1, k) {
      assert k in out <==> Survives(t, i, k);
      KindsAreIndependent(t, out, KINDS[i], k);
    }
  }

  lemma SurvivorsAreKeepers(t: Table, k: Id)
    requires forall c :: c in t ==> Checked(t[c])
    ensures Survives(t, |KINDS|, k) <==> Keeper(t, k)
  {
    if k in t {
      KeeperIsNotShadowed(t, k);
      assert KINDS[0] == Chatroom && KINDS[1] == AgentGroup && KINDS[2] == Workspace;
    }
  }

  lemma SurvivorsOfAllKinds(t: Table, out: Table)
    requires (forall c :: c in t ==> Checked(t[c])) && (forall kind :: UniqueAmongLive(t, kind))
    requires DoneKinds(t, out, |KINDS|)
    ensures (forall k :: k in out <==> Keeper(t, k)) && forall k :: k in out ==> k in t && out[k] == t[k]
    ensures forall kind :: Unique(out, kind)
  {
    forall k ensures k in out <==> Keeper(t, k) { SurvivorsAreKeepers(t, k); }
    forall kind ensures Unique(out, kind) { KeepersAreUnique(t, out, kind); }
  }

  lemma ColumnsAreUnique(t: Table)
    requires forall kind :: Unique(t, kind)
    ensures UniqueOwners(t)
  {
    assert Unique(t, Chatroom) && Unique(t, AgentGroup) && Unique(t, Workspace);
    forall a, b | a in t && b in t && a != b
      ensures !SameOwner(t, Chatroom, a, b) && !SameOwner(t, AgentGroup, a, b) && !SameOwner(t, Workspace, a, b)
    {
    }
  }

  /** Exactly the keepers survive, so no live row goes, and all three unscoped indexes can be built. */
  method Downgrade(t: Table) returns (out: Table)
    requires forall c :: c in t ==> Checked(t[c])
    requires forall kind :: UniqueAmongLive(t, kind)
    ensures forall k :: k in out <==> Keeper(t, k)
    ensures forall k :: k in out ==> k in t && out[k] == t[k]
    ensures forall k :: k in t && t[k].deletedAt.None? ==> k in out
    ensures (forall kind :: Unique(out, kind)) && UniqueOwners(out)
  {
    out := t;
    for i := 0 to |KINDS|
      invariant DoneKinds(t, out, i)
    {
      KindStep(t, out, i);
      out := DeleteShadowed(out, KINDS[i]);
    }
    SurvivorsOfAllKinds(t, out);
    ColumnsAreUnique(out);
  }

  lemma KeepersAreUnique(t: Table, out: Table, kind: Kind)
    requires forall c :: c in t ==> Checked(t[c])
    requires UniqueAmongLive(t, kind)
    requires forall k :: k in out <==> Keeper(t, k)
    requires forall k :: k in out ==> k in t && out[k] == t[k]
    ensures Unique(out, kind)
  {
    forall a, b | a in out && b in out && a != b ensures !SameOwner(out, kind, a, b) {
      assert Keeper(t, a) && Keeper(t, b);
      if SameOwner(t, kind, a, b) {
        assert SameOwner(t, kind, b, a);
        SharesOwnerExactly(t, a, b);
        SharesOwnerExactly(t, b, a);
      }
    }
  }

  // ----- Every owner keeps one row -----

  lemma {:induction false} NewestExists(t: Table, s: set<Id>) returns (n: Id)
    requires s != {} && forall k :: k in s ==> k in t
    ensures n in s && forall k :: k in s && k != n ==> Newer(t, n, k)
  {
    n :| n in s;
    if s == {n} {
    } else {
      var m := NewestExists(t, s - {n});
      assert forall k :: k in s ==> k == n || k in s - {n};
      if Newer(t, m, n) {
        n := m;
      }
    }
  }

  /** An owner with any row has exactly one keeper, and it is the live one when there is one. */
  lemma EveryOwnerKeepsOneRow(t: Table, k: Id) returns (survivor: Id)
    requires forall c :: c in t ==> Checked(t[c])
    requires (forall kind :: UniqueAmongLive(t, kind)) && k in t
    ensures Keeper(t, survivor) && SharesOwner(t[survivor], t[k])
    ensures forall o :: Keeper(t, o) && SharesOwner(t[o], t[k]) ==> o == survivor
    ensures t[survivor].deletedAt.None? <==>
            exists o :: o in t && SharesOwner(t[o], t[k]) && t[o].deletedAt.None?
  {
    var rows := set o | o in t && SharesOwner(t[o], t[k]);
    assert k in rows;
    if o :| o in rows && Live(t, o) {
      survivor := o;
    } else {
      survivor := NewestExists(t, rows);
      forall o | o in t && o != survivor && SharesOwner(t[o], t[survivor])
        ensures !Live(t, o) && Newer(t, survivor, o)
      {
        assert o in rows;
      }
    }
    forall o | Keeper(t, o) && SharesOwner(t[o], t[k]) ensures o == survivor {
      if o != survivor {
        SharesOwnerExactly(t, o, survivor);
        assert UniqueAmongLive(t, t[survivor].kind) && SharesOwner(t[survivor], t[o]);
      }
    }
  }
}
