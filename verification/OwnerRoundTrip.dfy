/** Migrations 0043 and 0044: graph configurations change owner from one agent to a group that
    holds just that agent, and back. */
module OwnerRoundTrip {
  import opened Base
  import opened OwnerModel
  import opened Uuids

  /** `agent` is the legacy column; the rest is the new owner model. */
  datatype Config = Config(
    project: Id,
    agent: Option<Id>,
    deletedAt: Option<int>,
    kind: Option<Kind>,
    chatroom: Option<Id>,
    group: Option<Id>,
    workspace: Option<Id>)

  datatype Group = Group(project: Id, name: string, deletedAt: Option<int>)

  datatype Db = Db(configs: map<Id, Config>, groups: map<Id, Group>, members: set<(Id, Id)>)

  const NAME_PREFIX: string := "graphrag-owner-"

  function GroupName(agent: Id): string {
    NAME_PREFIX + Text(agent)
  }

  // ----- Constraints -----

  predicate Checked(c: Config) {
    c.kind.Some? && OwnerCheck(c.kind.value, c.chatroom, c.group, c.workspace)
  }

  ghost predicate UniqueOwners(configs: map<Id, Config>) {
    forall a, b :: a in configs && b in configs && a != b ==>
      && !(configs[a].chatroom.Some? && configs[a].chatroom == configs[b].chatroom)
      && !(configs[a].group.Some? && configs[a].group == configs[b].group)
      && !(configs[a].workspace.Some? && configs[a].workspace == configs[b].workspace)
  }

  ghost predicate UniqueLiveNames(groups: map<Id, Group>) {
    forall a, b :: a in groups && b in groups && a != b && groups[a].deletedAt.None? && groups[b].deletedAt.None? ==>
      !(groups[a].project == groups[b].project && groups[a].name == groups[b].name)
  }

  ghost predicate AgentNotNull(configs: map<Id, Config>) {
    forall c :: c in configs ==> configs[c].agent.Some?
  }

  ghost predicate UniqueAgents(configs: map<Id, Config>) {
    forall a, b :: a in configs && b in configs && a != b && configs[a].agent.Some? ==>
      configs[a].agent != configs[b].agent
  }

  /** The state before 0043: no groups yet, no owner filled in. */
  ghost predicate Legacy(db: Db) {
    && db.groups == map[] && db.members == {}
    && AgentNotNull(db.configs) && UniqueAgents(db.configs)
    && forall c :: c in db.configs ==>
         && IsId(db.configs[c].agent.value)
         && db.configs[c] == db.configs[c].(kind := None, chatroom := None, group := None, workspace := None)
  }

  // ----- 0043 -----

  /** Config `c` has been given the singleton group `g`. */
  ghost predicate Owned(before: Config, db: Db, c: Id) {
    && before.agent.Some? && c in db.configs && db.configs[c].group.Some?
    && var g := db.configs[c].group.value;
    && db.configs[c] == before.(kind := Some(AgentGroup), group := Some(g))
    && g in db.groups && db.groups[g] == Group(before.project, "graphrag-owner-" + Text(before.agent.value), None)
    && forall a :: (g, a) in db.members <==> a == before.agent.value
  }

  /** The configs in `done` have their groups, no group serves two, and no other exists. */
  ghost predicate Backfilled(before: Db, db: Db, done: set<Id>) {
    && db.configs.Keys == before.configs.Keys && done <= before.configs.Keys
    && (forall c :: c in done ==> Owned(before.configs[c], db, c))
    && (forall c :: c in before.configs && c !in done ==> db.configs[c] == before.configs[c])
    && OneGroupEach(db, done)
    && GroupsInUse(db, done)
  }

  ghost predicate OneGroupEach(db: Db, done: set<Id>)
    requires done <= db.configs.Keys
  {
    forall a, b :: a in done && b in done && a != b ==> db.configs[a].group != db.configs[b].group
  }

  ghost predicate GroupsInUse(db: Db, done: set<Id>)
    requires done <= db.configs.Keys
  {
    && (forall g :: g in db.groups ==> exists c :: c in done && db.configs[c].group == Some(g))
    && (forall g, a :: (g, a) in db.members ==> g in db.groups)
  }

  /** The three statements of one iteration: a group, its member, the owner columns. */
  function Insert(db: Db, c: Id, row: Config, agent: Id, g: Id): Db {
    Db(db.configs[c := row.(kind := Some(AgentGroup), group := Some(g))],
       db.groups[g := Group(row.project, GroupName(agent), None)],
       db.members + {(g, agent)})
  }

  lemma {:induction false} FreshIdExists(used: set<Id>) returns (g: Id)
    ensures forall x :: x in used ==> x < g
  {
    g := 0;
    if used == {} {
    } else {
      var x :| x in used;
      var h := FreshIdExists(used - {x});
      g := if h > x then h else x + 1;
      assert forall y :: y in used ==> y == x || y in used - {x};
    }
  }

  lemma InsertOwns(db: Db, done: set<Id>, c: Id, row: Config, agent: Id, g: Id)
    requires done <= db.configs.Keys && GroupsInUse(db, done) && row.agent == Some(agent) && g !in db.groups
    ensures Owned(row, Insert(db, c, row, agent, g), c)
  {
  }

  lemma InsertKeepsOwned(before: Config, db: Db, c: Id, row: Config, agent: Id, g: Id, x: Id)
    requires x != c && g !in db.groups && Owned(before, db, x)
    ensures Owned(before, Insert(db, c, row, agent, g), x)
    ensures Insert(db, c, row, agent, g).configs[x] == db.configs[x] && db.configs[x].group != Some(g)
  {
  }

  lemma InsertKeepsUse(db: Db, done: set<Id>, c: Id, row: Config, agent: Id, g: Id)
    requires done <= db.configs.Keys && c in db.configs && c !in done && g !in db.groups
    requires GroupsInUse(db, done)
    ensures GroupsInUse(Insert(db, c, row, agent, g), done + {c})
  {
    var db' := Insert(db, c, row, agent, g);
    forall k | k in db'.groups ensures exists x :: x in done + {c} && db'.configs[x].group == Some(k) {
      if k == g {
        assert db'.configs[c].group == Some(g);
      } else {
        var x :| x in done && db.configs[x].group == Some(k);
        assert x in done + {c} && db'.configs[x].group == Some(k);
      }
    }
  }

  lemma InsertKeepsOneGroupEach(db: Db, db': Db, done: set<Id>, c: Id, g: Id)
    requires done <= db.configs.Keys && c in db'.configs && done <= db'.configs.Keys && OneGroupEach(db, done)
    requires db'.configs[c].group == Some(g)
    requires forall x :: x in done ==> db'.configs[x].group == db.configs[x].group && db.configs[x].group != Some(g)
    ensures OneGroupEach(db', done + {c})
  {
  }

  lemma BackfillStep(before: Db, db: Db, done: set<Id>, c: Id, g: Id)
    requires Backfilled(before, db, done)
    requires c in before.configs && c !in done && g !in db.groups && before.configs[c].agent.Some?
    ensures Backfilled(before, Insert(db, c, before.configs[c], before.configs[c].agent.value, g), done + {c})
  {
    var row, agent := before.configs[c], before.configs[c].agent.value;
    var db' := Insert(db, c, row, agent, g);
    InsertOwns(db, done, c, row, agent, g);
    forall x | x in done
      ensures Owned(before.configs[x], db', x) && db'.configs[x] == db.configs[x] && db.configs[x].group != Some(g)
    {
      InsertKeepsOwned(before.configs[x], db, c, row, agent, g, x);
    }
    InsertKeepsUse(db, done, c, row, agent, g);
    InsertKeepsOneGroupEach(db, db', done, c, g);
  }

  /** One singleton group for each config, in whatever order the rows come. */
  method BackfillSingletonGroups(db: Db) returns (out: Db)
    requires Legacy(db)
    ensures Backfilled(db, out, db.configs.Keys)
  {
    out := db;
    var todo := db.configs.Keys;
    ghost var done: set<Id> := {};
    assert Backfilled(db, out, done);
    while todo != {}
      invariant todo <= db.configs.Keys && done == db.configs.Keys - todo
      invariant Backfilled(db, out, done)
      decreases todo
    {
      var c :| c in todo;
      ghost var unused := FreshIdExists(out.groups.Keys);
      assert unused !in out.groups;
      var g: Id :| g !in out.groups;
      BackfillStep(db, out, done, c, g);
      out := Insert(out, c, db.configs[c], db.configs[c].agent.value, g);
      todo := todo - {c};
      done := done + {c};
    }
    assert done == db.configs.Keys;
  }

  lemma GroupNameIsInjective(a: Id, b: Id)
    requires IsId(a) && IsId(b) && GroupName(a) == GroupName(b)
    ensures a == b
  {
    assert GroupName(a)[|NAME_PREFIX|..] == Text(a);
    assert GroupName(b)[|NAME_PREFIX|..] == Text(b);
    TextIsInjective(a, b);
  }

  lemma BackfilledNamesDiffer(before: Db, db: Db, g: Id, h: Id)
    requires Legacy(before) && Backfilled(before, db, before.configs.Keys)
    requires g in db.groups && h in db.groups && g != h
    ensures db.groups[g].name != db.groups[h].name
  {
    var a :| a in before.configs.Keys && db.configs[a].group == Some(g);
    var b :| b in before.configs.Keys && db.configs[b].group == Some(h);
    assert Owned(before.configs[a], db, a) && Owned(before.configs[b], db, b);
    if db.groups[g].name == db.groups[h].name {
      GroupNameIsInjective(before.configs[a].agent.value, before.configs[b].agent.value);
    }
  }

  lemma OwnedMeetsCheck(before: Config, db: Db, c: Id)
    requires Owned(before, db, c)
    requires before.chatroom.None? && before.workspace.None?
    ensures Checked(db.configs[c]) && db.configs[c].chatroom.None? && db.configs[c].workspace.None?
  {
  }

  /** After the backfill every constraint of both migrations holds. */
  lemma BackfillMeetsEveryConstraint(before: Db, db: Db)
    requires Legacy(before) && Backfilled(before, db, before.configs.Keys)
    ensures UniqueOwners(db.configs) && UniqueLiveNames(db.groups)
    ensures forall c :: c in db.configs ==> Checked(db.configs[c])
  {
    forall c | c in db.configs
      ensures Checked(db.configs[c]) && db.configs[c].chatroom.None? && db.configs[c].workspace.None?
    {
      assert Owned(before.configs[c], db, c);
      OwnedMeetsCheck(before.configs[c], db, c);
    }
    forall g, h | g in db.groups && h in db.groups && g != h ensures db.groups[g].name != db.groups[h].name {
      BackfilledNamesDiffer(before, db, g, h);
    }
  }

  // ----- 0044 -----

  function DropAgent(db: Db): Db {
    db.(configs := map c | c in db.configs :: db.configs[c].(agent := None))
  }

  /** Adding the constraint fails unless every row satisfies it; then the column goes. */
  method Contract(db: Db) returns (out: Option<Db>)
    ensures out.Some? <==> forall c :: c in db.configs ==> Checked(db.configs[c])
    ensures out.Some? ==> out.value == DropAgent(db)
    ensures out.Some? ==>
              && out.value.groups == db.groups && out.value.members == db.members
              && out.value.configs.Keys == db.configs.Keys
              && forall c :: c in db.configs ==> out.value.configs[c] == db.configs[c].(agent := None)
  {
    if exists c :: c in db.configs && !Checked(db.configs[c]) {
      return None;
    }
    return Some(DropAgent(db));
  }

  predicate HasMember(db: Db, c: Config) {
    c.group.Some? && exists m :: m in db.members && m.0 == c.group.value
  }

  /** The scalar subquery with `LIMIT 1`: some member of the owning group, or null. */
  ghost predicate IsRebuild(db: Db, configs: map<Id, Config>) {
    && configs.Keys == db.configs.Keys
    && forall c :: c in db.configs ==>
         && configs[c] == db.configs[c].(agent := configs[c].agent)
         && if HasMember(db, db.configs[c])
            then configs[c].agent.Some? && (db.configs[c].group.value, configs[c].agent.value) in db.members
            else configs[c].agent.None?
  }

  method Rebuild(db: Db) returns (configs: map<Id, Config>)
    ensures IsRebuild(db, configs)
  {
    configs := map[];
    var todo := db.configs.Keys;
    while todo != {}
      invariant todo <= db.configs.Keys
      invariant IsRebuild(db.(configs := map c | c in db.configs && c !in todo :: db.configs[c]), configs)
      decreases todo
    {
      var c :| c in todo;
      var row := db.configs[c];
      if HasMember(db, row) {
        var m :| m in db.members && m.0 == row.group.value;
        configs := configs[c := row.(agent := Some(m.1))];
      } else {
        configs := configs[c := row.(agent := None)];
      }
      todo := todo - {c};
    }
    assert (map c | c in db.configs && c !in todo :: db.configs[c]) == db.configs;
  }

  /** Up through both migrations and back down rebuilds the legacy column of every config, whichever
      member the subquery picks. */
  lemma RoundTripRestoresEveryAgent(before: Db, expanded: Db, configs: map<Id, Config>)
    requires Legacy(before) && Backfilled(before, expanded, before.configs.Keys)
    requires IsRebuild(DropAgent(expanded), configs)
    ensures configs.Keys == before.configs.Keys
    ensures forall c :: c in before.configs ==> configs[c].agent == before.configs[c].agent
    ensures AgentNotNull(configs) && UniqueAgents(configs)
  {
    RebuildRestoresOwned(before.configs, expanded, configs);
    SameAgentsSameConstraints(before.configs, configs);
  }

  lemma RebuildRestoresOwned(before: map<Id, Config>, expanded: Db, configs: map<Id, Config>)
    requires expanded.configs.Keys == before.Keys && forall c :: c in before ==> Owned(before[c], expanded, c)
    requires IsRebuild(DropAgent(expanded), configs)
    ensures configs.Keys == before.Keys
    ensures forall c :: c in before ==> configs[c].agent == before[c].agent
  {
    forall c | c in before ensures c in configs && configs[c].agent == before[c].agent {
      RebuildPicksTheAgent(before[c], expanded, configs, c);
    }
  }

  lemma SameAgentsSameConstraints(a: map<Id, Config>, b: map<Id, Config>)
    requires AgentNotNull(a) && UniqueAgents(a) && b.Keys == a.Keys
    requires forall c :: c in a ==> b[c].agent == a[c].agent
    ensures AgentNotNull(b) && UniqueAgents(b)
  {
  }

  lemma RebuildPicksTheAgent(before: Config, expanded: Db, configs: map<Id, Config>, c: Id)
    requires Owned(before, expanded, c) && IsRebuild(DropAgent(expanded), configs)
    ensures c in configs && configs[c].agent == before.agent
  {
    var db := DropAgent(expanded);
    var m := (expanded.configs[c].group.value, before.agent.value);
    assert m in db.members && m.0 == db.configs[c].group.value;
    assert HasMember(db, db.configs[c]);
  }

  // ----- When the downgrade works at all -----

  /** Every config is owned by a group with a member, and no agent belongs to the groups of two. */
  ghost predicate Rebuildable(db: Db) {
    && (forall c :: c in db.configs ==> HasMember(db, db.configs[c]))
    && forall a, b, m :: Shares(db, a, m) && Shares(db, b, m) ==> a == b
  }

  /** Agent `m` is a member of the group that owns config `c`. */
  predicate Shares(db: Db, c: Id, m: Id) {
    c in db.configs && db.configs[c].group.Some? && (db.configs[c].group.value, m) in db.members
  }

  /** The legacy constraints can be reinstated for every choice of the subquery exactly when the
      data is rebuildable. */
  lemma DowngradeWorksExactly(db: Db)
    ensures (forall configs: map<Id, Config> :: IsRebuild(db, configs) ==> AgentNotNull(configs) && UniqueAgents(configs))
            <==> Rebuildable(db)
  {
    if Rebuildable(db) {
      forall configs: map<Id, Config> | IsRebuild(db, configs) ensures AgentNotNull(configs) && UniqueAgents(configs) {
        assert forall c :: c in db.configs ==> HasMember(db, db.configs[c]) && Shares(db, c, configs[c].agent.value);
      }
    } else if c :| c in db.configs && !HasMember(db, db.configs[c]) {
      var configs := SomeRebuild(db, map[]);
      assert configs[c].agent.None?;
    } else {
      var a, b, m :| Shares(db, a, m) && Shares(db, b, m) && a != b;
      var configs := SomeRebuild(db, map[a := m, b := m]);
      assert configs[a].agent == configs[b].agent == Some(m);
    }
  }

  /** A config owned by a group without members: every rebuild leaves its agent null. */
  lemma MemberlessGroupBlocksTheDowngrade() returns (db: Db)
    ensures db.configs.Keys == {7} && Checked(db.configs[7]) && db.members == {}
    ensures forall configs: map<Id, Config> :: IsRebuild(db, configs) ==> !AgentNotNull(configs)
  {
    var c := Config(1, None, None, Some(AgentGroup), None, Some(5), None);
    db := Db(map[7 := c], map[5 := Group(1, "empty", None)], {});
    forall configs: map<Id, Config> | IsRebuild(db, configs) ensures !AgentNotNull(configs) {
      assert 7 in db.configs && !HasMember(db, db.configs[7]);
      assert configs[7].agent.None?;
    }
  }

  /** A rebuild that takes the preferred member where one is named. */
  lemma SomeRebuild(db: Db, prefer: map<Id, Id>) returns (configs: map<Id, Config>)
    requires forall c :: c in prefer ==>
               c in db.configs && db.configs[c].group.Some? && (db.configs[c].group.value, prefer[c]) in db.members
    ensures IsRebuild(db, configs)
    ensures forall c :: c in prefer ==> configs[c].agent == Some(prefer[c])
  {
    configs := map c | c in db.configs :: db.configs[c].(agent := Choice(db, prefer, c));
    forall c | c in db.configs && HasMember(db, db.configs[c])
      ensures configs[c].agent.Some? && (db.configs[c].group.value, configs[c].agent.value) in db.members
    {
      if c !in prefer {
        var m :| m in db.members && m.0 == db.configs[c].group.value && Choice(db, prefer, c) == Some(m.1);
        assert m == (m.0, m.1);
      }
    }
    forall c | c in prefer ensures HasMember(db, db.configs[c]) {
      assert (db.configs[c].group.value, prefer[c]).0 == db.configs[c].group.value;
    }
  }

  ghost function Choice(db: Db, prefer: map<Id, Id>, c: Id): (r: Option<Id>)
    requires c in db.configs
    ensures c in prefer ==> r == Some(prefer[c])
    ensures c !in prefer && HasMember(db, db.configs[c]) ==>
              exists m :: m in db.members && m.0 == db.configs[c].group.value && r == Some(m.1)
    ensures c !in prefer && !HasMember(db, db.configs[c]) ==> r == None
  {
    if c in prefer then Some(prefer[c])
    else if HasMember(db, db.configs[c]) then
      var m :| m in db.members && m.0 == db.configs[c].group.value;
      Some(m.1)
    else None
  }
}
