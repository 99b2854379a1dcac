// Incremental grouping of overlapping fields (group_fields, scamp/src/fgroup.c): what one arrival makes of the groups,
// and when they stay the connected components of the overlap relation.

module Components {
  import opened Basics

  /** A group and its flag, which marks it as touched by the newcomer. */
  datatype Group<F> = Group(members: set<F>, flag: bool)

  /** The newcomer touches some member. */
  ghost predicate TouchesGroup<F>(touch: (F, F) -> bool, f: F, members: set<F>) {
    exists m :: m in members && touch(f, m)
  }

  /** The flags once every group that was not flagged has been compared with the newcomer. */
  ghost function Flagged<F>(touch: (F, F) -> bool, f: F, groups: seq<Group<F>>): (r: seq<Group<F>>)
    ensures |r| == |groups|
    ensures forall g :: 0 <= g < |r| ==>
      r[g] == Group(groups[g].members, groups[g].flag || TouchesGroup(touch, f, groups[g].members))
  {
    seq(|groups|, g requires 0 <= g < |groups| => groups[g].(flag := groups[g].flag
      || TouchesGroup(touch, f, groups[g].members)))
  }

  /** Some group that was not flagged has become so. */
  ghost predicate Found<F>(touch: (F, F) -> bool, f: F, groups: seq<Group<F>>) {
    exists g :: 0 <= g < |groups| && !groups[g].flag && TouchesGroup(touch, f, groups[g].members)
  }

  function FirstFlagged<F>(groups: seq<Group<F>>): (g: nat)
    ensures g <= |groups| && (g < |groups| ==> groups[g].flag) && forall h :: 0 <= h < g ==> !groups[h].flag
  {
    if groups == [] then 0 else if groups[0].flag then 0
    else
      var g := FirstFlagged(groups[1..]);
      assert forall h :: 1 <= h < 1 + g ==> groups[h] == groups[1..][h - 1];
      1 + g
  }

  function Without<F>(groups: seq<Group<F>>, g: nat): seq<Group<F>>
    requires g < |groups|
  {
    groups[..g] + groups[g + 1..]
  }

  /** Group `g` goes into group `g2`, and those behind it move up. */
  function Fused<F>(groups: seq<Group<F>>, g2: nat, g: nat): (r: seq<Group<F>>)
    requires g2 < g < |groups|
    ensures |r| == |groups| - 1
  {
    Without(groups[g2 := groups[g2].(members := groups[g2].members + groups[g].members)], g)
  }

  /** The loop that fuses flagged groups behind `g2`, from `g` on; after a fusion it goes on with `g + 1`. */
  function FusedFrom<F>(groups: seq<Group<F>>, g2: nat, g: nat): seq<Group<F>>
    requires g2 < g && g2 < |groups|
    decreases |groups| - g
  {
    if g >= |groups| then groups
    else if groups[g].flag then FusedFrom(Fused(groups, g2, g), g2, g + 1)
    else FusedFrom(groups, g2, g + 1)
  }

  function Joined<F>(groups: seq<Group<F>>, g2: nat, f: F): seq<Group<F>>
    requires g2 < |groups|
  {
    groups[g2 := Group(groups[g2].members + {f}, false)]
  }

  /** One arrival. */
  ghost function Arrived<F>(touch: (F, F) -> bool, f: F, groups: seq<Group<F>>): seq<Group<F>> {
    var flagged := Flagged(touch, f, groups);
    if !Found(touch, f, groups) then flagged + [Group({f}, false)]
    else
      var g2 := FirstFlagged(flagged);
      if g2 < |flagged| then FusedFrom(Joined(flagged, g2, f), g2, g2 + 1) else flagged
  }

  ghost function All<F>(groups: seq<Group<F>>): set<F> {
    set g, m | 0 <= g < |groups| && m in groups[g].members :: m
  }

  ghost predicate Disjoint<F>(groups: seq<Group<F>>) {
    forall g, h :: 0 <= g < h < |groups| ==> groups[g].members !! groups[h].members
  }

  // ---- The groups stay a partition ----

  lemma FusedKeeps<F>(groups: seq<Group<F>>, g2: nat, g: nat)
    requires Disjoint(groups) && g2 < g < |groups|
    ensures Disjoint(Fused(groups, g2, g)) && All(Fused(groups, g2, g)) == All(groups)
  {
    var r := Fused(groups, g2, g);
    forall m | m in All(groups) ensures m in All(r) {
      var h :| 0 <= h < |groups| && m in groups[h].members;
      var h' := if h == g then g2 else if h < g then h else h - 1;
      assert m in r[h'].members;
    }
    forall m | m in All(r) ensures m in All(groups) {
      var h :| 0 <= h < |r| && m in r[h].members;
      assert m in groups[if h < g then h else h + 1].members || m in groups[g].members;
    }
  }

  lemma {:induction false} FusedFromKeeps<F>(groups: seq<Group<F>>, g2: nat, g: nat)
    requires Disjoint(groups) && g2 < g && g2 < |groups|
    ensures Disjoint(FusedFrom(groups, g2, g)) && All(FusedFrom(groups, g2, g)) == All(groups)
    decreases |groups| - g
  {
    hide Fused, Disjoint, All;
    if g < |groups| {
      if groups[g].flag {
        FusedKeeps(groups, g2, g);
        FusedFromKeeps(Fused(groups, g2, g), g2, g + 1);
      } else {
        FusedFromKeeps(groups, g2, g + 1);
      }
    }
  }

  /** Every field that has arrived is in exactly one group. */
  lemma ArrivedPartition<F>(touch: (F, F) -> bool, f: F, groups: seq<Group<F>>)
    requires Disjoint(groups) && f !in All(groups)
    ensures Disjoint(Arrived(touch, f, groups)) && All(Arrived(touch, f, groups)) == All(groups) + {f}
  {
    hide FusedFrom;
    var flagged := Flagged(touch, f, groups);
    SameMembers(touch, f, groups);
    if !Found(touch, f, groups) {
      SingleAdded(flagged, f);
    } else {
      var g :| 0 <= g < |groups| && !groups[g].flag && TouchesGroup(touch, f, groups[g].members);
      assert flagged[g].flag;
      var g2 := FirstFlagged(flagged);
      JoinedKeeps(flagged, g2, f);
      FusedFromKeeps(Joined(flagged, g2, f), g2, g2 + 1);
    }
  }

  lemma SingleAdded<F>(groups: seq<Group<F>>, f: F)
    requires Disjoint(groups) && f !in All(groups)
    ensures Disjoint(groups + [Group({f}, false)]) && All(groups + [Group({f}, false)]) == All(groups) + {f}
  {
    var r := groups + [Group({f}, false)];
    assert r[|groups|].members == {f};
    forall m | m in All(groups) ensures m in All(r) {
      var h :| 0 <= h < |groups| && m in groups[h].members;
      assert m in r[h].members;
    }
  }

  lemma JoinedKeeps<F>(groups: seq<Group<F>>, g2: nat, f: F)
    requires Disjoint(groups) && f !in All(groups) && g2 < |groups|
    ensures Disjoint(Joined(groups, g2, f)) && All(Joined(groups, g2, f)) == All(groups) + {f}
  {
    var r := Joined(groups, g2, f);
    assert f in r[g2].members;
    forall m | m in All(groups) ensures m in All(r) {
      var h :| 0 <= h < |groups| && m in groups[h].members;
      assert m in r[h].members;
    }
  }

  // ---- Connected components ----

  ghost predicate Symmetric<F(!new)>(touch: (F, F) -> bool) {
    forall a, b :: touch(a, b) == touch(b, a)
  }

  /** The set cannot be cut in two parts that do not touch. */
  ghost predicate Connected<F(!new)>(touch: (F, F) -> bool, s: set<F>) {
    forall a: set<F> :: a < s && a != {} ==> Crossed(touch, a, s - a)
  }

  ghost predicate Crossed<F(!new)>(touch: (F, F) -> bool, a: set<F>, b: set<F>) {
    exists x, y :: x in a && y in b && touch(x, y)
  }

  lemma CrossedMore<F(!new)>(touch: (F, F) -> bool, a: set<F>, b: set<F>, a': set<F>, b': set<F>)
    requires Crossed(touch, a, b) && a <= a' && b <= b'
    ensures Crossed(touch, a', b')
  {
  }

  /** Two connected sets that touch form a connected set. */
  lemma UnionConnected<F(!new)>(touch: (F, F) -> bool, s: set<F>, t: set<F>, x: F, y: F)
    requires Symmetric(touch) && s !! t && Connected(touch, s) && Connected(touch, t) && x in s && y in t && touch(x, y)
    ensures Connected(touch, s + t)
  {
    forall a: set<F> | a < s + t && a != {} ensures Crossed(touch, a, s + t - a) {
      var u, v := a * s, a * t;
      if u != {} && u != s {
        assert u < s;
        CrossedMore(touch, u, s - u, a, s + t - a);
      } else if v != {} && v != t {
        assert v < t;
        CrossedMore(touch, v, t - v, a, s + t - a);
      } else if u == s {
        assert v == {} && (y in a ==> y in v);
        assert touch(x, y) && x in a && y in s + t - a;
      } else {
        assert v == t && u == {} && (x in a ==> x in u);
        assert touch(y, x) && y in a && x in s + t - a;
      }
    }
  }

  ghost predicate IsComponent<F(!new)>(touch: (F, F) -> bool, s: set<F>) {
    s != {} && Connected(touch, s)
  }

  /** The groups are the connected components of what has arrived, whatever their flags. */
  ghost predicate AreComponents<F(!new)>(touch: (F, F) -> bool, groups: seq<Group<F>>) {
    && Disjoint(groups)
    && (forall g :: 0 <= g < |groups| ==> IsComponent(touch, groups[g].members))
    && (forall g, h :: 0 <= g < |groups| && 0 <= h < |groups| && g != h ==>
      !Crossed(touch, groups[g].members, groups[h].members))
  }

  // ---- Chains of fields that touch ----

  /** Each member touches the next, and all are in `all`. */
  ghost predicate Path<F(!new)>(touch: (F, F) -> bool, all: set<F>, p: seq<F>) {
    && p != [] && (forall i :: 0 <= i < |p| ==> p[i] in all)
    && forall i, j :: 0 <= i && j == i + 1 < |p| ==> touch(p[i], p[j])
  }

  ghost predicate Reaches<F(!new)>(touch: (F, F) -> bool, all: set<F>, x: F, y: F) {
    exists p :: Path(touch, all, p) && p[0] == x && p[|p| - 1] == y
  }

  lemma ReachesFurther<F(!new)>(touch: (F, F) -> bool, all: set<F>, x: F, y: F, z: F)
    requires Reaches(touch, all, x, y) && z in all && touch(y, z)
    ensures Reaches(touch, all, x, z)
  {
    var p :| Path(touch, all, p) && p[0] == x && p[|p| - 1] == y;
    var p' := p + [z];
    assert Path(touch, all, p') && p'[0] == x && p'[|p'| - 1] == z;
  }

  /** In a connected set every member leads to every other one. */
  lemma ConnectedReaches<F(!new)>(touch: (F, F) -> bool, s: set<F>, x: F, y: F)
    requires Connected(touch, s) && x in s && y in s
    ensures Reaches(touch, s, x, y)
  {
    var r := set z | z in s && Reaches(touch, s, x, z);
    assert x in r by {
      assert Path(touch, s, [x]);
    }
    if r != s {
      assert Crossed(touch, r, s - r);
      var a, b :| a in r && b in s - r && touch(a, b);
      ReachesFurther(touch, s, x, a, b);
    }
  }

  lemma MoreReaches<F(!new)>(touch: (F, F) -> bool, s: set<F>, t: set<F>, x: F, y: F)
    requires s <= t && Reaches(touch, s, x, y)
    ensures Reaches(touch, t, x, y)
  {
    var p :| Path(touch, s, p) && p[0] == x && p[|p| - 1] == y;
    assert Path(touch, t, p);
  }

  /** No path leads out of a component. */
  lemma {:induction false} PathStays<F(!new)>(touch: (F, F) -> bool, groups: seq<Group<F>>, g: nat, p: seq<F>, n: nat)
    requires AreComponents(touch, groups) && g < |groups| && Path(touch, All(groups), p)
    requires p[0] in groups[g].members && n < |p|
    ensures p[n] in groups[g].members
  {
    if n > 0 {
      PathStays(touch, groups, g, p, n - 1);
      hide Disjoint, IsComponent;
      var h :| 0 <= h < |groups| && p[n] in groups[h].members;
      assert touch(p[n - 1], p[n]);
      assert h == g || !Crossed(touch, groups[g].members, groups[h].members);
    }
  }

  /** What components are: two fields are in one group exactly if fields that touch lead from one to the other. */
  lemma SameGroupExactly<F(!new)>(touch: (F, F) -> bool, groups: seq<Group<F>>, g: nat, x: F, y: F)
    requires AreComponents(touch, groups) && g < |groups| && x in groups[g].members && y in All(groups)
    ensures y in groups[g].members <==> Reaches(touch, All(groups), x, y)
  {
    if y in groups[g].members {
      ConnectedReaches(touch, groups[g].members, x, y);
      MoreReaches(touch, groups[g].members, All(groups), x, y);
    }
    if Reaches(touch, All(groups), x, y) {
      var p :| Path(touch, All(groups), p) && p[0] == x && p[|p| - 1] == y;
      PathStays(touch, groups, g, p, |p| - 1);
    }
  }

  /** While groups are fused with group `g2`, which holds the newcomer: groups touch only through it, and those that
      do are flagged. */
  ghost predicate Fusing<F(!new)>(touch: (F, F) -> bool, groups: seq<Group<F>>, g2: nat, f: F) {
    && Disjoint(groups) && g2 < |groups| && f in groups[g2].members && !groups[g2].flag
    && (forall g :: 0 <= g < |groups| ==> IsComponent(touch, groups[g].members))
    && (forall g :: 0 <= g < |groups| && g != g2 ==> groups[g].flag == TouchesGroup(touch, f, groups[g].members))
    && (forall g, h :: 0 <= g < |groups| && 0 <= h < |groups| && g != h ==>
      !Crossed(touch, groups[g].members - {f}, groups[h].members - {f}))
  }

  lemma FusedFusing<F(!new)>(touch: (F, F) -> bool, groups: seq<Group<F>>, g2: nat, g: nat, f: F)
    requires Symmetric(touch) && Fusing(touch, groups, g2, f) && g2 < g < |groups| && groups[g].flag
    ensures Fusing(touch, Fused(groups, g2, g), g2, f)
  {
    var r := Fused(groups, g2, g);
    FusedKeeps(groups, g2, g);
    var y :| y in groups[g].members && touch(f, y);
    UnionConnected(touch, groups[g2].members, groups[g].members, f, y);
    var old' := seq(|r|, h => if h < g then h else h + 1);
    forall h | 0 <= h < |r| && h != g2 ensures r[h] == groups[old'[h]] {
    }
    FusedNotCrossed(touch, groups, g2, g, f);
  }

  lemma FusedNotCrossed<F(!new)>(touch: (F, F) -> bool, groups: seq<Group<F>>, g2: nat, g: nat, f: F)
    requires Fusing(touch, groups, g2, f) && g2 < g < |groups|
    ensures var r := Fused(groups, g2, g);
      forall i, j :: 0 <= i < |r| && 0 <= j < |r| && i != j ==> !Crossed(touch, r[i].members - {f}, r[j].members - {f})
  {
    var r := Fused(groups, g2, g);
    forall i, j | 0 <= i < |r| && 0 <= j < |r|
      && i != j ensures !Crossed(touch, r[i].members - {f}, r[j].members - {f}) {
      forall x, y | x in r[i].members - {f} && y in r[j].members - {f} ensures !touch(x, y) {
        var i' := FusedFromWhere(groups, g2, g, i, x);
        var j' := FusedFromWhere(groups, g2, g, j, y);
        assert !Crossed(touch, groups[i'].members - {f}, groups[j'].members - {f});
      }
    }
  }

  /** The group a member was in before. */
  lemma FusedFromWhere<F>(groups: seq<Group<F>>, g2: nat, g: nat, i: nat, x: F) returns (i': nat)
    requires g2 < g < |groups| && i < |groups| - 1 && x in Fused(groups, g2, g)[i].members
    ensures i' < |groups| && x in groups[i'].members
    ensures i' == (if i < g then i else i + 1) || (i == g2 && i' == g)
  {
    i' := if i == g2 && x !in groups[g2].members then g else if i < g then i else i + 1;
  }

  lemma {:induction false} FusedFromFusing<F(!new)>(touch: (F, F) -> bool, groups: seq<Group<F>>, g2: nat, g: nat, f: F)
    requires Symmetric(touch) && Fusing(touch, groups, g2, f) && g2 < g
    ensures Fusing(touch, FusedFrom(groups, g2, g), g2, f)
    decreases |groups| - g
  {
    hide Fused;
    if g < |groups| {
      if groups[g].flag {
        FusedFusing(touch, groups, g2, g, f);
        FusedFromFusing(touch, Fused(groups, g2, g), g2, g + 1, f);
      } else {
        FusedFromFusing(touch, groups, g2, g + 1, f);
      }
    }
  }

  ghost predicate SomeFlag<F>(groups: seq<Group<F>>) {
    exists g :: 0 <= g < |groups| && groups[g].flag
  }

  /** Two groups next to each other, from `g` on, are flagged. */
  ghost predicate Adjacent<F>(groups: seq<Group<F>>, g: nat) {
    exists h :: g <= h < |groups| - 1 && groups[h].flag && NextFlag(groups, h)
  }

  predicate NextFlag<F>(groups: seq<Group<F>>, h: nat)
    requires h < |groups| - 1
  {
    groups[h + 1].flag
  }

  lemma FlagStays<F>(groups: seq<Group<F>>, g2: nat, g: nat, h: nat)
    requires g2 < g && g2 < |groups| && h < g && h < |groups| && groups[h].flag
    ensures SomeFlag(FusedFrom(groups, g2, g))
    decreases |groups| - g
  {
    if g < |groups| {
      if groups[g].flag {
        assert Fused(groups, g2, g)[h].flag;
        FlagStays(Fused(groups, g2, g), g2, g + 1, h);
      } else {
        FlagStays(groups, g2, g + 1, h);
      }
    }
  }

  /** A flag is left behind exactly if two flagged groups are next to each other. */
  lemma {:induction false} FlagLeft<F>(groups: seq<Group<F>>, g2: nat, g: nat)
    requires g2 < g && g2 < |groups| && forall h :: 0 <= h < g && h < |groups| ==> !groups[h].flag
    ensures SomeFlag(FusedFrom(groups, g2, g)) <==> Adjacent(groups, g)
    decreases |groups| - g
  {
    if g < |groups| {
      if groups[g].flag {
        var r := Fused(groups, g2, g);
        ShiftedFlags(groups, g2, g);
        if g + 1 < |groups| && groups[g + 1].flag {
          assert NextFlag(groups, g);
          FlagStays(r, g2, g + 1, g);
        } else {
          FlagLeft(r, g2, g + 1);
          AdjacentShifted(groups, g2, g);
        }
      } else {
        FlagLeft(groups, g2, g + 1);
      }
    }
  }

  lemma ShiftedFlags<F>(groups: seq<Group<F>>, g2: nat, g: nat)
    requires g2 < g < |groups|
    ensures var r := Fused(groups, g2, g);
      forall h :: 0 <= h < |r| ==> r[h].flag == groups[if h < g then h else h + 1].flag
  {
  }

  lemma AdjacentShifted<F>(groups: seq<Group<F>>, g2: nat, g: nat)
    requires g2 < g < |groups| && (g + 1 < |groups| ==> !groups[g + 1].flag)
    ensures Adjacent(Fused(groups, g2, g), g + 1) <==> Adjacent(groups, g)
  {
    var r := Fused(groups, g2, g);
    ShiftedFlags(groups, g2, g);
    if Adjacent(groups, g) {
      var h :| g <= h < |groups| - 1 && groups[h].flag && NextFlag(groups, h);
      assert h > g + 1;
      assert NextFlag(r, h - 1);
    }
    if Adjacent(r, g + 1) {
      var h :| g + 1 <= h < |r| - 1 && r[h].flag && NextFlag(r, h);
      assert NextFlag(groups, h + 1);
    }
  }

  // ---- One arrival ----

  lemma JoinedFusing<F(!new)>(touch: (F, F) -> bool, f: F, groups: seq<Group<F>>, g2: nat)
    requires Symmetric(touch) && AreComponents(touch, groups) && !SomeFlag(groups) && f !in All(groups)
    requires g2 == FirstFlagged(Flagged(touch, f, groups)) < |groups|
    ensures Fusing(touch, Joined(Flagged(touch, f, groups), g2, f), g2, f)
  {
    hide Connected, Crossed, FirstFlagged, Disjoint, All;
    var flagged := Flagged(touch, f, groups);
    var r := Joined(flagged, g2, f);
    SameMembers(touch, f, groups);
    JoinedKeeps(flagged, g2, f);
    var m :| m in groups[g2].members && touch(f, m);
    SingleConnected(touch, f);
    NotMember(groups, f);
    UnionConnected(touch, groups[g2].members, {f}, m, f);
    assert forall g :: 0 <= g < |groups| ==> r[g].members - {f} == groups[g].members;
  }

  lemma SameMembers<F>(touch: (F, F) -> bool, f: F, groups: seq<Group<F>>)
    requires Disjoint(groups)
    ensures Disjoint(Flagged(touch, f, groups)) && All(Flagged(touch, f, groups)) == All(groups)
  {
  }

  lemma NotMember<F>(groups: seq<Group<F>>, f: F)
    requires f !in All(groups)
    ensures forall g :: 0 <= g < |groups| ==> f !in groups[g].members
  {
  }

  lemma SingleConnected<F(!new)>(touch: (F, F) -> bool, f: F)
    ensures Connected(touch, {f})
  {
    forall a: set<F> ensures a < {f} ==> a == {} {
      ProperOfSingle(a, f);
    }
  }

  lemma ProperOfSingle<F(!new)>(a: set<F>, f: F)
    ensures a < {f} ==> a == {}
  {
    if f in a {
      assert {f} <= a;
    } else if a != {} {
      var x :| x in a;
      assert x != f;
    }
  }

  /** The member sets are the components exactly if no flag is left: a group that still has one touches the newcomer,
      which is in another group. */
  lemma FusedComponents<F(!new)>(touch: (F, F) -> bool, groups: seq<Group<F>>, g2: nat, f: F)
    requires Fusing(touch, groups, g2, f) && Symmetric(touch)
    ensures AreComponents(touch, groups) <==> !SomeFlag(groups)
  {
    if !SomeFlag(groups) {
      forall g, h | 0 <= g < |groups| && 0 <= h < |groups|
        && g != h ensures !Crossed(touch, groups[g].members, groups[h].members) {
        forall x, y | x in groups[g].members && y in groups[h].members ensures !touch(x, y) {
          assert !Crossed(touch, groups[g].members - {f}, groups[h].members - {f});
          assert touch(x, y) == touch(y, x);
          if x == f || y == f {
            NewcomerIn(groups, g2, f, g, h);
            assert g != g2 ==> !TouchesGroup(touch, f, groups[g].members);
            assert h != g2 ==> !TouchesGroup(touch, f, groups[h].members);
          }
        }
      }
    } else {
      var g :| 0 <= g < |groups| && groups[g].flag;
      assert TouchesGroup(touch, f, groups[g].members);
      assert Crossed(touch, groups[g2].members, groups[g].members);
    }
  }

  lemma NewcomerIn<F>(groups: seq<Group<F>>, g2: nat, f: F, g: nat, h: nat)
    requires Disjoint(groups) && g2 < |groups| && f in groups[g2].members && g < |groups| && h < |groups|
    ensures f in groups[g].members ==> g == g2
    ensures f in groups[h].members ==> h == g2
  {
  }

  /** The newcomer touches two groups next to each other behind the first that it touches. */
  ghost predicate Blind<F>(touch: (F, F) -> bool, f: F, groups: seq<Group<F>>) {
    var flagged := Flagged(touch, f, groups);
    Adjacent(flagged, FirstFlagged(flagged) + 1)
  }

  /** An arrival keeps connected components exactly if it does not touch two groups next to each other behind the
      first it touches. */
  lemma ArrivedComponents<F(!new)>(touch: (F, F) -> bool, f: F, groups: seq<Group<F>>)
    requires Symmetric(touch) && AreComponents(touch, groups) && !SomeFlag(groups) && f !in All(groups)
    ensures AreComponents(touch, Arrived(touch, f, groups)) <==> !Blind(touch, f, groups)
    ensures SomeFlag(Arrived(touch, f, groups)) <==> Blind(touch, f, groups)
  {
    hide Symmetric, IsComponent, Crossed, FusedFrom, Fusing, FirstFlagged;
    var flagged := Flagged(touch, f, groups);
    var g2 := FirstFlagged(flagged);
    if Found(touch, f, groups) {
      var r := Joined(flagged, g2, f);
      JoinedFusing(touch, f, groups, g2);
      FusedFromFusing(touch, r, g2, g2 + 1, f);
      FusedComponents(touch, FusedFrom(r, g2, g2 + 1), g2, f);
      FlagLeft(r, g2, g2 + 1);
      SameAdjacent(flagged, g2, f);
    } else {
      NoneFlagged(touch, f, groups);
    }
  }

  lemma SameAdjacent<F>(flagged: seq<Group<F>>, g2: nat, f: F)
    requires g2 < |flagged|
    ensures Adjacent(Joined(flagged, g2, f), g2 + 1) <==> Adjacent(flagged, g2 + 1)
  {
    var r := Joined(flagged, g2, f);
    forall h | g2 < h < |r| - 1 ensures NextFlag(r, h) == NextFlag(flagged, h) && r[h].flag == flagged[h].flag {
    }
  }

  lemma NoneFlagged<F(!new)>(touch: (F, F) -> bool, f: F, groups: seq<Group<F>>)
    requires Symmetric(touch) && AreComponents(touch, groups) && !SomeFlag(groups) && f !in All(groups)
    requires !Found(touch, f, groups)
    ensures AreComponents(touch, Arrived(touch, f, groups)) && !SomeFlag(Arrived(touch, f, groups))
    ensures !Blind(touch, f, groups)
  {
    hide Connected;
    var flagged := Flagged(touch, f, groups);
    var r := flagged + [Group({f}, false)];
    SameMembers(touch, f, groups);
    SingleAdded(flagged, f);
    SingleConnected(touch, f);
    forall g | 0 <= g < |groups| ensures !Crossed(touch, groups[g].members, {f})
      && !Crossed(touch, {f}, groups[g].members) {
      assert !TouchesGroup(touch, f, groups[g].members);
      forall m | m in groups[g].members ensures !touch(m, f) {
        assert touch(m, f) == touch(f, m);
      }
    }
  }

  // ---- All arrivals ----

  ghost function Grouped<F>(touch: (F, F) -> bool, fields: seq<F>): seq<Group<F>> {
    if fields == [] then [] else Arrived(touch, fields[|fields| - 1], Grouped(touch, fields[..|fields| - 1]))
  }

  /** In the end every field is in exactly one group. */
  lemma {:induction false} GroupedPartition<F>(touch: (F, F) -> bool, fields: seq<F>)
    requires Distinct(fields)
    ensures Disjoint(Grouped(touch, fields)) && All(Grouped(touch, fields)) == set f | f in fields
  {
    if fields != [] {
      var n := |fields| - 1;
      GroupedPartition(touch, fields[..n]);
      ArrivedPartition(touch, fields[n], Grouped(touch, fields[..n]));
      assert fields == fields[..n] + [fields[n]];
    }
  }

  /** If no arrival is blind, the groups are the connected components. */
  lemma {:induction false} GroupedComponents<F(!new)>(touch: (F, F) -> bool, fields: seq<F>)
    requires Symmetric(touch) && Distinct(fields)
    requires forall n :: 0 <= n < |fields| ==> !Blind(touch, fields[n], Grouped(touch, fields[..n]))
    ensures AreComponents(touch, Grouped(touch, fields)) && !SomeFlag(Grouped(touch, fields))
  {
    if fields != [] {
      var n := |fields| - 1;
      forall m | 0 <= m < n ensures !Blind(touch, fields[..n][m], Grouped(touch, fields[..n][..m])) {
        assert fields[..n][..m] == fields[..m];
        assert !Blind(touch, fields[m], Grouped(touch, fields[..m]));
      }
      GroupedComponents(touch, fields[..n]);
      GroupedPartition(touch, fields[..n]);
      assert !Blind(touch, fields[n], Grouped(touch, fields[..n]));
      ArrivedComponents(touch, fields[n], Grouped(touch, fields[..n]));
    }
  }

  /** The groups are the connected components after every arrival exactly if no arrival is blind: the first one that
      is spoils them. */
  lemma AlwaysComponents<F(!new)>(touch: (F, F) -> bool, fields: seq<F>)
    requires Symmetric(touch) && Distinct(fields)
    ensures (forall n :: 0 <= n <= |fields| ==> AreComponents(touch, Grouped(touch, fields[..n]))) <==>
      (forall n :: 0 <= n < |fields| ==> !Blind(touch, fields[n], Grouped(touch, fields[..n])))
  {
    hide AreComponents, Blind, Symmetric;
    if forall n :: 0 <= n <= |fields| ==> AreComponents(touch, Grouped(touch, fields[..n])) {
      for k := 0 to |fields|
        invariant forall n :: 0 <= n < k ==> !Blind(touch, fields[n], Grouped(touch, fields[..n]))
      {
        PrefixComponents(touch, fields, k);
        assert AreComponents(touch, Grouped(touch, fields[..k + 1]));
        NextArrival(touch, fields, k);
      }
    }
    if forall n :: 0 <= n < |fields| ==> !Blind(touch, fields[n], Grouped(touch, fields[..n])) {
      forall n | 0 <= n <= |fields| ensures AreComponents(touch, Grouped(touch, fields[..n])) {
        PrefixComponents(touch, fields, n);
      }
    }
  }

  lemma PrefixComponents<F(!new)>(touch: (F, F) -> bool, fields: seq<F>, k: nat)
    requires Symmetric(touch) && Distinct(fields) && k <= |fields|
    requires forall n :: 0 <= n < k ==> !Blind(touch, fields[n], Grouped(touch, fields[..n]))
    ensures AreComponents(touch, Grouped(touch, fields[..k])) && !SomeFlag(Grouped(touch, fields[..k]))
  {
    hide AreComponents, Blind, Symmetric;
    forall m | 0 <= m < k ensures !Blind(touch, fields[..k][m], Grouped(touch, fields[..k][..m])) {
      assert fields[..k][..m] == fields[..m];
    }
    GroupedComponents(touch, fields[..k]);
  }

  lemma NextArrival<F(!new)>(touch: (F, F) -> bool, fields: seq<F>, n: nat)
    requires Symmetric(touch) && Distinct(fields) && n < |fields|
    requires AreComponents(touch, Grouped(touch, fields[..n])) && !SomeFlag(Grouped(touch, fields[..n]))
    ensures AreComponents(touch, Grouped(touch, fields[..n + 1])) <==>
      !Blind(touch, fields[n], Grouped(touch, fields[..n]))
  {
    hide AreComponents, Blind, Arrived;
    assert fields[..n + 1][..n] == fields[..n];
    GroupedPartition(touch, fields[..n]);
    ArrivedComponents(touch, fields[n], Grouped(touch, fields[..n]));
  }

  // ---- A blind arrival ----

  /** Field 3 touches fields 0, 1 and 2, which do not touch each other. */
  predicate Star(a: int, b: int) {
    (a == 3 && 0 <= b < 3) || (b == 3 && 0 <= a < 3)
  }

  /** An overlap that is the same between the first four fields. */
  ghost predicate LikeStar(touch: (int, int) -> bool) {
    forall a, b :: 0 <= a < 4 && 0 <= b < 4 ==> touch(a, b) == Star(a, b)
  }

  lemma StarApart(touch: (int, int) -> bool, groups: seq<Group<int>>, f: int)
    requires LikeStar(touch) && 0 <= f < 3
    requires |groups| <= 3 && forall g :: 0 <= g < |groups| ==> groups[g] == Group({g}, false)
    ensures Arrived(touch, f, groups) == groups + [Group({f}, false)]
  {
    assert Flagged(touch, f, groups) == groups;
  }

  lemma ThreeApart(touch: (int, int) -> bool)
    requires LikeStar(touch)
    ensures Grouped(touch, [0, 1, 2]) == [Group({0}, false), Group({1}, false), Group({2}, false)]
  {
    hide Arrived, LikeStar;
    assert [0, 1, 2][..2] == [0, 1] && [0, 1][..1] == [0] && [0][..0] == [];
    StarApart(touch, [], 0);
    StarApart(touch, [Group({0}, false)], 1);
    StarApart(touch, [Group({0}, false), Group({1}, false)], 2);
    assert Grouped(touch, []) == [];
    assert Grouped(touch, [0]) == [Group({0}, false)];
    assert Grouped(touch, [0, 1]) == [Group({0}, false), Group({1}, false)];
  }

  /** The arrival of a field that touches three groups: the second one is fused with the first, the third keeps its
      flag. */
  lemma ArrivedAtThree<F>(touch: (F, F) -> bool, f: F, a: Group<F>, b: Group<F>, c: Group<F>)
    requires !a.flag && TouchesGroup(touch, f, a.members) && TouchesGroup(touch, f, b.members)
      && TouchesGroup(touch, f, c.members)
    ensures Arrived(touch, f, [a, b, c]) == [Group(a.members + {f} + b.members, false), c.(flag := true)]
  {
    hide TouchesGroup;
    var groups := [a, b, c];
    var flagged := Flagged(touch, f, groups);
    assert Found(touch, f, groups) by {
      assert !groups[0].flag && TouchesGroup(touch, f, groups[0].members);
    }
    assert flagged == [a.(flag := true), b.(flag := true), c.(flag := true)];
    assert FirstFlagged(flagged) == 0;
    var joined := [Group(a.members + {f}, false), b.(flag := true), c.(flag := true)];
    assert Joined(flagged, 0, f) == joined;
    var fused := [Group(a.members + {f} + b.members, false), c.(flag := true)];
    assert Fused(joined, 0, 1) == fused;
    assert FusedFrom(joined, 0, 1) == FusedFrom(fused, 0, 2) == fused;
  }

  /** What the star ends with. */
  lemma StarGroups(touch: (int, int) -> bool)
    requires LikeStar(touch)
    ensures Grouped(touch, [0, 1, 2, 3]) == [Group({0, 1, 3}, false), Group({2}, true)]
  {
    ThreeApart(touch);
    assert touch(3, 0) && touch(3, 1) && touch(3, 2);
    hide Arrived, Grouped, Star;
    ArrivedAtThree(touch, 3, Group({0}, false), Group({1}, false), Group({2}, false));
    assert {0} + {3} + {1} == {0, 1, 3};
    assert [0, 1, 2, 3][..3] == [0, 1, 2];
    GroupedLast(touch, [0, 1, 2, 3]);
  }

  lemma GroupedLast<F>(touch: (F, F) -> bool, fields: seq<F>)
    requires fields != []
    ensures Grouped(touch, fields) == Arrived(touch, fields[|fields| - 1], Grouped(touch, fields[..|fields| - 1]))
  {
  }

  lemma StarIsBlind()
    ensures Blind(Star, 3, Grouped(Star, [0, 1, 2]))
  {
    ThreeApart(Star);
    var flagged := Flagged(Star, 3, Grouped(Star, [0, 1, 2]));
    assert Star(3, 0) && Star(3, 1) && Star(3, 2);
    assert flagged[0].flag && flagged[1].flag && NextFlag(flagged, 1);
    assert FirstFlagged(flagged) == 0;
  }

  /** The third group is left out, although the newcomer touches it. */
  lemma StarIsMissed()
    ensures Symmetric(Star) && Grouped(Star, [0, 1, 2, 3]) == [Group({0, 1, 3}, false), Group({2}, true)]
    ensures Star(3, 2) && !AreComponents(Star, Grouped(Star, [0, 1, 2, 3]))
  {
    StarGroups(Star);
    TouchAcross(Star, Group({0, 1, 3}, false), Group({2}, true), 3, 2);
  }

  /** The star, and field 4, which touches field 0. */
  predicate Repairing(a: int, b: int) {
    Star(a, b) || (a == 0 && b == 4) || (a == 4 && b == 0)
  }

  /** A later arrival may repair the omission: the flag that was left lets it fuse the two groups. */
  lemma LaterRepair()
    ensures Symmetric(Repairing) && !AreComponents(Repairing, Grouped(Repairing, [0, 1, 2, 3]))
    ensures AreComponents(Repairing, Grouped(Repairing, [0, 1, 2, 3, 4]))
  {
    hide *;
    BeforeRepair();
    AfterRepair();
    OneComponent(Repairing, {0, 1, 2, 3, 4});
  }

  lemma BeforeRepair()
    ensures Symmetric(Repairing) && !AreComponents(Repairing, Grouped(Repairing, [0, 1, 2, 3]))
  {
    StarGroups(Repairing);
    assert Repairing(3, 2);
    hide Grouped, AreComponents;
    TouchAcross(Repairing, Group({0, 1, 3}, false), Group({2}, true), 3, 2);
  }

  lemma AfterRepair()
    ensures Grouped(Repairing, [0, 1, 2, 3, 4]) == [Group({0, 1, 2, 3, 4}, false)]
    ensures IsComponent(Repairing, {0, 1, 2, 3, 4})
  {
    StarGroups(Repairing);
    assert Repairing(4, 0);
    RepairedConnected();
    hide Arrived, Grouped, Connected, Crossed;
    assert [0, 1, 2, 3, 4][..4] == [0, 1, 2, 3];
    GroupedLast(Repairing, [0, 1, 2, 3, 4]);
    ArrivedAtTwo(Repairing, 4, Group({0, 1, 3}, false), Group({2}, true));
    assert {0, 1, 3} + {4} + {2} == {0, 1, 2, 3, 4};
  }

  lemma OneComponent<F(!new)>(touch: (F, F) -> bool, c: set<F>)
    ensures IsComponent(touch, c) ==> AreComponents(touch, [Group(c, false)])
  {
    hide IsComponent;
  }

  /** Two groups with members that touch are no components. */
  lemma TouchAcross<F(!new)>(touch: (F, F) -> bool, a: Group<F>, b: Group<F>, x: F, y: F)
    requires x in a.members && y in b.members && touch(x, y)
    ensures !AreComponents(touch, [a, b])
  {
    var groups := [a, b];
    assert Crossed(touch, groups[0].members, groups[1].members);
  }

  /** The arrival of a field that touches the first of two groups, of which the second has a flag. */
  lemma ArrivedAtTwo<F>(touch: (F, F) -> bool, f: F, a: Group<F>, b: Group<F>)
    requires !a.flag && TouchesGroup(touch, f, a.members) && b.flag
    ensures Arrived(touch, f, [a, b]) == [Group(a.members + {f} + b.members, false)]
  {
    hide TouchesGroup;
    var groups := [a, b];
    var flagged := Flagged(touch, f, groups);
    assert Found(touch, f, groups) by {
      assert !groups[0].flag && TouchesGroup(touch, f, groups[0].members);
    }
    assert flagged == [a.(flag := true), b];
    assert FirstFlagged(flagged) == 0;
    var joined := [Group(a.members + {f}, false), b];
    assert Joined(flagged, 0, f) == joined;
    var fused := [Group(a.members + {f} + b.members, false)];
    assert Fused(joined, 0, 1) == fused;
    assert FusedFrom(joined, 0, 1) == FusedFrom(fused, 0, 2) == fused;
  }

  lemma RepairedConnected()
    ensures Connected(Repairing, {0, 1, 2, 3, 4})
  {
    var s := {0, 1, 2, 3, 4};
    forall a: set<int> | a < s && a != {} ensures Crossed(Repairing, a, s - a) {
      assert Repairing(3, 0) && Repairing(3, 1) && Repairing(3, 2) && Repairing(0, 3) && Repairing(1, 3)
        && Repairing(2, 3);
      assert Repairing(0, 4) && Repairing(4, 0);
      if 3 in a && 0 in a && 1 in a && 2 in a {
        assert 4 !in a;
      }
    }
  }

  /** The star, and fields 4 and 5, which touch each other. */
  predicate Apart(a: int, b: int) {
    Star(a, b) || (a == 4 && b == 5) || (a == 5 && b == 4)
  }

  /** But that flag also makes a later arrival join and fuse groups that it does not touch. */
  lemma LaterIntrusion()
    ensures Symmetric(Apart) && Grouped(Apart, [0, 1, 2, 3, 4, 5]) == [Group({0, 1, 3}, false), Group({2, 4, 5}, false)]
    ensures !Apart(5, 2) && !Apart(4, 2) && !AreComponents(Apart, Grouped(Apart, [0, 1, 2, 3, 4, 5]))
  {
    StarGroups(Apart);
    FourAlone();
    TouchesFour();
    assert Apart(3, 2);
    TouchAcross(Apart, Group({0, 1, 3}, false), Group({2, 4, 5}, false), 3, 2);
    hide Arrived, Grouped, TouchesGroup, AreComponents, Flagged, Found;
    assert [0, 1, 2, 3, 4, 5][..5] == [0, 1, 2, 3, 4] && [0, 1, 2, 3, 4][..4] == [0, 1, 2, 3];
    GroupedLast(Apart, [0, 1, 2, 3, 4]);
    GroupedLast(Apart, [0, 1, 2, 3, 4, 5]);
    ArrivedBehind(Apart, 5, Group({0, 1, 3}, false), Group({2}, true), Group({4}, false));
    assert {2} + {5} + {4} == {2, 4, 5};
  }

  /** Field 4 makes a group of its own, and the flag stays. */
  lemma FourAlone()
    ensures Arrived(Apart, 4, [Group({0, 1, 3}, false), Group({2}, true)]) ==
      [Group({0, 1, 3}, false), Group({2}, true), Group({4}, false)]
  {
    var stale := [Group({0, 1, 3}, false), Group({2}, true)];
    assert Flagged(Apart, 4, stale) == stale && !Found(Apart, 4, stale);
  }

  lemma TouchesFour()
    ensures TouchesGroup(Apart, 5, {4}) && !TouchesGroup(Apart, 5, {0, 1, 3})
  {
    assert Apart(5, 4);
  }

  /** The arrival of a field that touches the last of three groups, of which the second has a flag. */
  lemma ArrivedBehind<F>(touch: (F, F) -> bool, f: F, a: Group<F>, b: Group<F>, c: Group<F>)
    requires !a.flag && !TouchesGroup(touch, f, a.members) && b.flag && !c.flag && TouchesGroup(touch, f, c.members)
    ensures Arrived(touch, f, [a, b, c]) == [a, Group(b.members + {f} + c.members, false)]
  {
    hide TouchesGroup;
    var groups := [a, b, c];
    var flagged := Flagged(touch, f, groups);
    assert Found(touch, f, groups) by {
      assert !groups[2].flag && TouchesGroup(touch, f, groups[2].members);
    }
    assert flagged == [a, b, c.(flag := true)];
    assert FirstFlagged(flagged) == 1;
    var joined := [a, Group(b.members + {f}, false), c.(flag := true)];
    assert Joined(flagged, 1, f) == joined;
    var fused := [a, Group(b.members + {f} + c.members, false)];
    assert Fused(joined, 1, 2) == fused;
    assert FusedFrom(joined, 1, 2) == FusedFrom(fused, 1, 3) == fused;
  }
}
