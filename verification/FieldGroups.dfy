// Grouping fields in place (group_fields, addfield_fgroup and addfgroup_fgroup, scamp/src/fgroup.c).

module FieldGroups {
  import opened Basics
  import opened Components

  class FieldRec {
    const id: int
    var fgroup: FGroup?
    var distance: real

    constructor (id: int)
      ensures this.id == id && fgroup == null
    {
      this.id, fgroup, distance := id, null, 0.0;
    }
  }

  class FGroup {
    var field: seq<FieldRec>
    var flag: bool

    /** new_fgroup. */
    constructor ()
      ensures field == [] && !flag
    {
      field, flag := [], false;
    }
  }

  // ---- Geometry ----

  /** What the sky tells: distances of fields and of sets, their radii, and whether the frames of two sets overlap. */
  datatype Sky = Sky(
    fielddist: (int, int) -> real, maxradius: int -> real, nset: int -> nat,
    setdist: (int, nat, int, nat) -> real, radius: (int, nat) -> real, frame: (int, nat, int, nat) -> bool)

  /** The distance of two fields less their radii. */
  function Dist(sky: Sky, a: int, b: int): real {
    sky.fielddist(a, b) - sky.maxradius(a) - sky.maxradius(b)
  }

  /** Whether two sets overlap. */
  predicate Meet(sky: Sky, a: int, s1: nat, b: int, s2: nat) {
    sky.setdist(a, s1, b, s2) - sky.radius(a, s1) - sky.radius(b, s2) <= 0.0 && sky.frame(a, s1, b, s2)
  }

  /** Set `s1` of field `a` overlaps some set of field `b`, and the fields are near enough. */
  predicate SetTouches(sky: Sky, a: int, s1: nat, b: int) {
    Dist(sky, a, b) <= 0.0 && exists s2 :: 0 <= s2 < sky.nset(b) && Meet(sky, a, s1, b, s2)
  }

  /** The overlap of two fields. */
  function TouchOf(sky: Sky): (int, int) -> bool {
    (a, b) => exists s1 :: 0 <= s1 < sky.nset(a) && SetTouches(sky, a, s1, b)
  }

  /** Two fields overlap: their circles meet, and so do the circles and the frames of some set of one and some set of
      the other. */
  ghost predicate Overlap(sky: Sky, a: int, b: int) {
    && sky.fielddist(a, b) <= sky.maxradius(a) + sky.maxradius(b)
    && exists s1: nat, s2: nat :: s1 < sky.nset(a) && s2 < sky.nset(b) && sky.frame(a, s1, b, s2)
         && sky.setdist(a, s1, b, s2) <= sky.radius(a, s1) + sky.radius(b, s2)
  }

  lemma TouchIs(sky: Sky, a: int, b: int)
    ensures TouchOf(sky)(a, b) <==> Overlap(sky, a, b)
  {
    if Overlap(sky, a, b) {
      var s1: nat, s2: nat :| s1 < sky.nset(a) && s2 < sky.nset(b) && sky.frame(a, s1, b, s2)
        && sky.setdist(a, s1, b, s2) <= sky.radius(a, s1) + sky.radius(b, s2);
      assert Meet(sky, a, s1, b, s2);
      assert SetTouches(sky, a, s1, b);
    }
    if TouchOf(sky)(a, b) {
      var s1 :| 0 <= s1 < sky.nset(a) && SetTouches(sky, a, s1, b);
      var s2 :| 0 <= s2 < sky.nset(b) && Meet(sky, a, s1, b, s2);
      assert sky.frame(a, s1, b, s2);
    }
  }

  /** Distances are symmetric, and so is the overlap of frames. */
  ghost predicate SkySymmetric(sky: Sky) {
    && (forall a, b :: sky.fielddist(a, b) == sky.fielddist(b, a))
    && (forall a, s1, b, s2 :: sky.setdist(a, s1, b, s2) == sky.setdist(b, s2, a, s1))
    && forall a, s1, b, s2 :: sky.frame(a, s1, b, s2) == sky.frame(b, s2, a, s1)
  }

  /** Then so is the overlap of fields. */
  lemma TouchSymmetric(sky: Sky)
    requires SkySymmetric(sky)
    ensures Symmetric(TouchOf(sky))
  {
    forall a, b | Overlap(sky, a, b) ensures Overlap(sky, b, a) {
      OverlapBack(sky, a, b);
    }
    hide TouchOf, Overlap, SkySymmetric;
    forall a, b ensures TouchOf(sky)(a, b) == TouchOf(sky)(b, a) {
      TouchIs(sky, a, b);
      TouchIs(sky, b, a);
    }
  }

  lemma OverlapBack(sky: Sky, a: int, b: int)
    requires SkySymmetric(sky) && Overlap(sky, a, b)
    ensures Overlap(sky, b, a)
  {
    var s1: nat, s2: nat :| s1 < sky.nset(a) && s2 < sky.nset(b) && sky.frame(a, s1, b, s2)
      && sky.setdist(a, s1, b, s2) <= sky.radius(a, s1) + sky.radius(b, s2);
    assert sky.frame(b, s2, a, s1) && sky.setdist(b, s2, a, s1) == sky.setdist(a, s1, b, s2);
  }

  // ---- What the heap stands for ----

  ghost function Ids(fields: seq<FieldRec>): set<int> {
    set f | f in fields :: f.id
  }

  ghost function Abs(fgroups: seq<FGroup>): (r: seq<Group<int>>)
    reads fgroups
    ensures |r| == |fgroups|
    ensures forall g :: 0 <= g < |r| ==> r[g] == Group(Ids(fgroups[g].field), fgroups[g].flag)
  {
    seq(|fgroups|, g requires 0 <= g < |fgroups| reads fgroups => Group(Ids(fgroups[g].field), fgroups[g].flag))
  }

  lemma SameIds(s: seq<FieldRec>, t: seq<FieldRec>)
    requires forall f :: f in s <==> f in t
    ensures Ids(s) == Ids(t)
  {
  }

  /** Every field seen is listed once, in one group, and points back to it. */
  ghost predicate Listed(fgroups: seq<FGroup>, seen: set<FieldRec>)
    reads fgroups, seen
  {
    && Distinct(fgroups)
    && (forall g :: g in fgroups ==> Distinct(g.field))
    && (forall g, f :: g in fgroups && f in g.field ==> f in seen && f.fgroup == g)
    && (forall f :: f in seen ==> f.fgroup != null && f.fgroup in fgroups && f in f.fgroup.field)
  }

  // ---- Sorting ----

  ghost predicate ByDistance(s: seq<FieldRec>)
    reads s
  {
    forall i, j :: 0 <= i < j < |s| ==> s[i].distance <= s[j].distance
  }

  /** A stand-in for qsort with group_compfielddist. */
  method Qsort(s: seq<FieldRec>) returns (t: seq<FieldRec>)
    ensures ByDistance(t) && multiset(t) == multiset(s)
  {
    t := [];
    for n := 0 to |s|
      invariant ByDistance(t) && multiset(t) == multiset(s[..n])
    {
      var k := 0;
      while k < |t| && t[k].distance <= s[n].distance
        invariant k <= |t| && forall i :: 0 <= i < k ==> t[i].distance <= s[n].distance
      {
        k := k + 1;
      }
      InsertedByDistance(t, k, s[n]);
      assert s[..n + 1] == s[..n] + [s[n]];
      t := t[..k] + [s[n]] + t[k..];
    }
    assert s[..|s|] == s;
  }

  lemma InsertedByDistance(t: seq<FieldRec>, k: nat, x: FieldRec)
    requires ByDistance(t) && k <= |t| && (forall i :: 0 <= i < k ==> t[i].distance <= x.distance)
    requires k < |t| ==> x.distance <= t[k].distance
    ensures ByDistance(t[..k] + [x] + t[k..]) && multiset(t[..k] + [x] + t[k..]) == multiset(t) + multiset{x}
  {
    assert t == t[..k] + t[k..];
  }

  lemma PermutedOnce<T>(s: seq<T>, t: seq<T>)
    requires multiset(s) == multiset(t) && Distinct(s)
    ensures Distinct(t) && forall x :: x in s <==> x in t
  {
    forall x ensures x in s <==> x in t {
      assert x in multiset(s) <==> x in multiset(t);
    }
    forall i, j | 0 <= i < j < |t| ensures t[i] != t[j] {
      if t[i] == t[j] {
        TwiceCounted(t, i, j);
        OnceCounted(s, t[i]);
      }
    }
  }

  lemma TwiceCounted<T>(t: seq<T>, i: nat, j: nat)
    requires i < j < |t| && t[i] == t[j]
    ensures multiset(t)[t[i]] >= 2
  {
    assert t == t[..i] + [t[i]] + t[i + 1..j] + [t[j]] + t[j + 1..];
  }

  lemma {:induction false} OnceCounted<T>(s: seq<T>, x: T)
    requires Distinct(s)
    ensures multiset(s)[x] <= 1
  {
    if s != [] {
      assert s == [s[0]] + s[1..];
      OnceCounted(s[1..], x);
      if s[0] == x {
        assert x !in s[1..];
      }
    }
  }

  // ---- The newcomer's distances ----

  /** The distances of the members of one group, and their order. */
  method SortGroup(fgroup: FGroup, sky: Sky, f1: int)
    requires Distinct(fgroup.field)
    modifies fgroup, fgroup.field
    ensures Distinct(fgroup.field) && forall f :: f in fgroup.field <==> f in old(fgroup.field)
    ensures Sorted(fgroup, sky, f1)
    ensures fgroup.flag == old(fgroup.flag) && forall f :: f in old(fgroup.field) ==> f.fgroup == old(f.fgroup)
  {
    for f2 := 0 to |fgroup.field|
      invariant fgroup.field == old(fgroup.field) && fgroup.flag == old(fgroup.flag)
      invariant forall i :: 0 <= i < f2 ==> fgroup.field[i].distance == Dist(sky, f1, fgroup.field[i].id)
      invariant forall f :: f in fgroup.field ==> f.fgroup == old(f.fgroup)
    {
      var field2 := fgroup.field[f2];
      field2.distance := Dist(sky, f1, field2.id);
    }
    var sorted := Qsort(fgroup.field);
    PermutedOnce(fgroup.field, sorted);
    fgroup.field := sorted;
  }

  /** The groups are ready to be compared with a newcomer. */
  ghost predicate Sorted(fgroup: FGroup, sky: Sky, f1: int)
    reads fgroup, fgroup.field
  {
    ByDistance(fgroup.field) && forall f :: f in fgroup.field ==> f.distance == Dist(sky, f1, f.id)
  }

  lemma GroupsApart(fgroups: seq<FGroup>, seen: set<FieldRec>, g: nat, h: nat)
    requires Listed(fgroups, seen) && g < |fgroups| && h < |fgroups| && g != h
    ensures fgroups[g] != fgroups[h] && forall f :: f in fgroups[g].field ==> f !in fgroups[h].field
  {
    forall f | f in fgroups[g].field ensures f !in fgroups[h].field {
      assert fgroups[g] in fgroups && f.fgroup == fgroups[g];
      assert fgroups[h] in fgroups;
    }
  }

  method SortListed(fgroups: seq<FGroup>, g: nat, sky: Sky, f1: int, ghost seen: set<FieldRec>)
    requires Listed(fgroups, seen) && g < |fgroups|
    modifies fgroups[g], fgroups[g].field
    ensures Listed(fgroups, seen) && Sorted(fgroups[g], sky, f1)
    ensures fgroups[g].flag == old(fgroups[g].flag) && forall f :: f in fgroups[g].field <==> f in old(fgroups[g].field)
    ensures forall h :: 0 <= h < |fgroups| && h != g && old(Sorted(fgroups[h], sky, f1)) ==> Sorted(fgroups[h], sky, f1)
  {
    forall h | 0 <= h < |fgroups| && h != g
      ensures fgroups[h] != fgroups[g] && forall f :: f in fgroups[h].field ==> f !in fgroups[g].field
    {
      GroupsApart(fgroups, seen, h, g);
    }
    SortGroup(fgroups[g], sky, f1);
  }

  /** "Sort group fields by increasing distance to current field". */
  method SortGroups(fgroups: seq<FGroup>, sky: Sky, f1: int, ghost seen: set<FieldRec>)
    requires Listed(fgroups, seen)
    modifies fgroups, seen
    ensures Listed(fgroups, seen) && Abs(fgroups) == old(Abs(fgroups))
    ensures forall g :: 0 <= g < |fgroups| ==> Sorted(fgroups[g], sky, f1)
  {
    hide Listed, ByDistance;
    for g := 0 to |fgroups|
      invariant Listed(fgroups, seen)
      invariant Abs(fgroups) == old(Abs(fgroups))
      invariant forall h :: 0 <= h < g ==> Sorted(fgroups[h], sky, f1)
    {
      MembersSeen(fgroups, seen, g);
      forall h | 0 <= h < |fgroups| && h != g
        ensures fgroups[g] != fgroups[h] && forall f :: f in fgroups[g].field ==> f !in fgroups[h].field
      {
        GroupsApart(fgroups, seen, g, h);
      }
      ghost var was := Abs(fgroups);
      ghost var before := fgroups[g].field;
      SortListed(fgroups, g, sky, f1, seen);
      SameIds(before, fgroups[g].field);
      assert Abs(fgroups) == was;
    }
  }

  lemma MembersSeen(fgroups: seq<FGroup>, seen: set<FieldRec>, g: nat)
    requires Listed(fgroups, seen) && g < |fgroups|
    ensures forall f :: f in fgroups[g].field ==> f in seen
  {
  }

  // ---- Testing the groups ----

  /** Some of the first `upto` sets of field `f1` touches a member. */
  ghost predicate TouchedUpTo(sky: Sky, f1: int, upto: int, fields: seq<FieldRec>) {
    exists s1, f :: 0 <= s1 < upto && f in fields && SetTouches(sky, f1, s1, f.id)
  }

  ghost predicate TouchedBy(sky: Sky, f1: int, s1: nat, fields: seq<FieldRec>) {
    exists f :: f in fields && SetTouches(sky, f1, s1, f.id)
  }

  lemma TouchedMore(sky: Sky, f1: int, s1: nat, fields: seq<FieldRec>)
    ensures TouchedUpTo(sky, f1, s1 + 1, fields) <==> TouchedUpTo(sky, f1, s1, fields) || TouchedBy(sky, f1, s1, fields)
  {
    hide SetTouches;
  }

  lemma TouchedAll(sky: Sky, f1: int, fields: seq<FieldRec>)
    ensures TouchedUpTo(sky, f1, sky.nset(f1), fields) <==> TouchesGroup(TouchOf(sky), f1, Ids(fields))
  {
    hide SetTouches;
    if TouchedUpTo(sky, f1, sky.nset(f1), fields) {
      var s1, f: FieldRec :| 0 <= s1 < sky.nset(f1) && f in fields && SetTouches(sky, f1, s1, f.id);
      assert f.id in Ids(fields) && TouchOf(sky)(f1, f.id);
    }
    if TouchesGroup(TouchOf(sky), f1, Ids(fields)) {
      var m :| m in Ids(fields) && TouchOf(sky)(f1, m);
      var s1 :| 0 <= s1 < sky.nset(f1) && SetTouches(sky, f1, s1, m);
      var f: FieldRec :| f in fields && f.id == m;
    }
  }

  /** The sets of one member, up to the first that overlaps. */
  method TestSets(sky: Sky, f1: int, s1: nat, field2: FieldRec) returns (hit: bool)
    requires field2.distance == Dist(sky, f1, field2.id) <= 0.0
    ensures hit <==> SetTouches(sky, f1, s1, field2.id)
  {
    hit := false;
    for s2 := 0 to sky.nset(field2.id)
      invariant !hit && forall s :: 0 <= s < s2 ==> !Meet(sky, f1, s1, field2.id, s)
    {
      if Meet(sky, f1, s1, field2.id, s2) {
        hit := true;
        break;
      }
    }
  }

  /** The members of one group in order of distance, while it is not flagged and they are near enough. */
  method TestGroup(fgroup: FGroup, sky: Sky, f1: int, s1: nat) returns (hit: bool)
    requires Sorted(fgroup, sky, f1)
    modifies fgroup
    ensures fgroup.field == old(fgroup.field)
    ensures fgroup.flag <==> old(fgroup.flag) || TouchedBy(sky, f1, s1, fgroup.field)
    ensures hit <==> !old(fgroup.flag) && fgroup.flag
  {
    hide SetTouches;
    hit := false;
    var f2 := 0;
    while f2 < |fgroup.field| && !fgroup.flag
      invariant f2 <= |fgroup.field| && fgroup.field == old(fgroup.field)
      invariant hit <==> !old(fgroup.flag) && fgroup.flag
      invariant fgroup.flag ==> old(fgroup.flag) || TouchedBy(sky, f1, s1, fgroup.field)
      invariant !fgroup.flag ==> !old(fgroup.flag) && forall i :: 0 <= i < f2 ==>
        !SetTouches(sky, f1, s1, fgroup.field[i].id)
    {
      var field2 := fgroup.field[f2];
      if field2.distance > 0.0 {
        FarMembers(fgroup, sky, f1, s1, f2);
        break;
      }
      var overlap := TestSets(sky, f1, s1, field2);
      if overlap {
        hit := true;
        fgroup.flag := true;
      }
      f2 := f2 + 1;
    }
  }

  lemma FarMembers(fgroup: FGroup, sky: Sky, f1: int, s1: nat, f2: nat)
    requires Sorted(fgroup, sky, f1) && f2 < |fgroup.field| && fgroup.field[f2].distance > 0.0
    ensures forall i :: f2 <= i < |fgroup.field| ==> !SetTouches(sky, f1, s1, fgroup.field[i].id)
  {
  }

  /** The flags and `testflag` after all sets of the newcomer are compared with all groups. */
  method TestGroups(fgroups: seq<FGroup>, sky: Sky, f1: int) returns (testflag: bool)
    requires Distinct(fgroups) && forall g :: 0 <= g < |fgroups| ==> Sorted(fgroups[g], sky, f1)
    modifies fgroups
    ensures forall g :: 0 <= g < |fgroups| ==> fgroups[g].field == old(fgroups[g].field)
    ensures Abs(fgroups) == Flagged(TouchOf(sky), f1, old(Abs(fgroups)))
    ensures testflag <==> !Found(TouchOf(sky), f1, old(Abs(fgroups)))
  {
    hide Sorted, TouchedUpTo, TouchedBy;
    testflag := true;
    assert forall g :: 0 <= g < |fgroups| ==> !TouchedUpTo(sky, f1, 0, fgroups[g].field) by {
      NoneTouched(sky, f1, fgroups);
    }
    for s1 := 0 to sky.nset(f1)
      invariant forall g :: 0 <= g < |fgroups| ==>
        fgroups[g].field == old(fgroups[g].field) && Sorted(fgroups[g], sky, f1)
      invariant forall g :: 0 <= g < |fgroups| ==>
        (fgroups[g].flag <==> old(fgroups[g].flag) || TouchedUpTo(sky, f1, s1, fgroups[g].field))
      invariant testflag <==> forall g :: 0 <= g < |fgroups| ==> fgroups[g].flag == old(fgroups[g].flag)
    {
      var hit := TestSet(fgroups, sky, f1, s1);
      if hit {
        testflag := false;
      }
      forall g | 0 <= g < |fgroups|
        ensures TouchedUpTo(sky, f1, s1 + 1, fgroups[g].field)
          <==> TouchedUpTo(sky, f1, s1, fgroups[g].field) || TouchedBy(sky, f1, s1, fgroups[g].field)
      {
        TouchedMore(sky, f1, s1, fgroups[g].field);
      }
    }
    forall g | 0 <= g < |fgroups|
      ensures TouchedUpTo(sky, f1, sky.nset(f1), fgroups[g].field) <==>
        TouchesGroup(TouchOf(sky), f1, Ids(fgroups[g].field))
    {
      TouchedAll(sky, f1, fgroups[g].field);
    }
    assert Abs(fgroups) == Flagged(TouchOf(sky), f1, old(Abs(fgroups)));
    FoundInHeap(sky, f1, old(Abs(fgroups)), Abs(fgroups));
  }

  lemma NoneTouched(sky: Sky, f1: int, fgroups: seq<FGroup>)
    ensures forall g :: 0 <= g < |fgroups| ==> !TouchedUpTo(sky, f1, 0, fgroups[g].field)
  {
  }

  lemma FoundInHeap(sky: Sky, f1: int, was: seq<Group<int>>, now: seq<Group<int>>)
    requires now == Flagged(TouchOf(sky), f1, was)
    ensures Found(TouchOf(sky), f1, was) <==> exists g :: 0 <= g < |was| && now[g].flag != was[g].flag
  {
  }

  /** One set of the newcomer against all groups. */
  method TestSet(fgroups: seq<FGroup>, sky: Sky, f1: int, s1: nat) returns (hit: bool)
    requires Distinct(fgroups) && forall g :: 0 <= g < |fgroups| ==> Sorted(fgroups[g], sky, f1)
    modifies fgroups
    ensures forall g :: 0 <= g < |fgroups| ==> fgroups[g].field == old(fgroups[g].field) && Sorted(fgroups[g], sky, f1)
    ensures forall g :: 0 <= g < |fgroups| ==>
      (fgroups[g].flag <==> old(fgroups[g].flag) || TouchedBy(sky, f1, s1, fgroups[g].field))
    ensures hit <==> exists g :: 0 <= g < |fgroups| && fgroups[g].flag != old(fgroups[g].flag)
  {
    hide TouchedBy;
    hit := false;
    for g := 0 to |fgroups|
      invariant forall h :: 0 <= h < |fgroups| ==>
        fgroups[h].field == old(fgroups[h].field) && Sorted(fgroups[h], sky, f1)
      invariant forall h :: 0 <= h < g ==>
        (fgroups[h].flag <==> old(fgroups[h].flag) || TouchedBy(sky, f1, s1, fgroups[h].field))
      invariant forall h :: g <= h < |fgroups| ==> fgroups[h].flag == old(fgroups[h].flag)
      invariant hit <==> exists h :: 0 <= h < g && fgroups[h].flag != old(fgroups[h].flag)
    {
      var one := TestGroup(fgroups[g], sky, f1, s1);
      hit := hit || one;
    }
  }

  // ---- Joining and fusing ----

  /** addfield_fgroup. */
  method AddField(fgroup: FGroup, field: FieldRec)
    modifies fgroup, field
    ensures fgroup.field == old(fgroup.field) + [field] && fgroup.flag == old(fgroup.flag)
    ensures field.fgroup == fgroup && field.distance == old(field.distance)
  {
    fgroup.field := fgroup.field + [field];
    field.fgroup := fgroup;
  }

  /** addfgroup_fgroup. */
  method AddGroup(fgroupin: FGroup, fgroup: FGroup)
    requires fgroupin != fgroup
    modifies fgroup, fgroupin.field
    ensures fgroup.field == old(fgroup.field) + fgroupin.field && fgroup.flag == old(fgroup.flag)
    ensures forall f :: f in fgroupin.field ==> f.fgroup == fgroup
  {
    fgroup.field := fgroup.field + fgroupin.field;
    for f := 0 to |fgroupin.field|
      invariant fgroup.field == old(fgroup.field) + fgroupin.field && fgroup.flag == old(fgroup.flag)
      invariant forall i :: 0 <= i < f ==> fgroupin.field[i].fgroup == fgroup
    {
      fgroupin.field[f].fgroup := fgroup;
    }
  }

  lemma IdsAdd(s: seq<FieldRec>, t: seq<FieldRec>)
    ensures Ids(s + t) == Ids(s) + Ids(t)
  {
  }

  lemma OnceAdd<T>(s: seq<T>, t: seq<T>)
    requires Distinct(s) && Distinct(t) && forall x :: x in s ==> x !in t
    ensures Distinct(s + t)
  {
    forall i, j | 0 <= i < j < |s + t| ensures (s + t)[i] != (s + t)[j] {
      if i < |s| <= j {
        assert (s + t)[i] in s && (s + t)[j] in t;
      }
    }
  }

  lemma OnceWithout<T>(s: seq<T>, g: nat)
    requires Distinct(s) && g < |s|
    ensures Distinct(s[..g] + s[g + 1..]) && forall x :: x in s[..g] + s[g + 1..] <==> x in s && x != s[g]
  {
    forall x | x in s && x != s[g] ensures x in s[..g] + s[g + 1..] {
      var i :| 0 <= i < |s| && s[i] == x;
      assert x == (s[..g] + s[g + 1..])[if i < g then i else i - 1];
    }
  }

  /** The lists of the groups before a step, and the place of every field in them. */
  ghost predicate Homes(lists: seq<seq<FieldRec>>, home: map<FieldRec, nat>, seen: set<FieldRec>) {
    && home.Keys == seen
    && (forall h :: 0 <= h < |lists| ==> Distinct(lists[h]))
    && (forall f :: f in seen ==> home[f] < |lists| && f in lists[home[f]])
    && (forall h, f :: 0 <= h < |lists| && f in lists[h] ==> f in seen && home[f] == h)
  }

  lemma FindHomes(fgroups: seq<FGroup>, seen: set<FieldRec>)
      returns (lists: seq<seq<FieldRec>>, home: map<FieldRec, nat>)
    requires Listed(fgroups, seen)
    ensures |lists| == |fgroups| && (forall h :: 0 <= h < |lists| ==> lists[h] == fgroups[h].field)
      && Homes(lists, home, seen)
    ensures forall f :: f in seen ==> f.fgroup == fgroups[home[f]]
  {
    lists := seq(|fgroups|, h requires 0 <= h < |fgroups| reads fgroups => fgroups[h].field);
    home := map f | f in seen :: IndexOf(fgroups, f.fgroup);
    forall h, f | 0 <= h < |lists| && f in lists[h] ensures f in seen && home[f] == h {
      assert fgroups[h] in fgroups;
    }
  }

  function IndexOf(fgroups: seq<FGroup>, g: FGroup?): (h: nat)
    ensures g in fgroups ==> h < |fgroups| && fgroups[h] == g
  {
    if fgroups == [] || fgroups[0] == g then 0 else 1 + IndexOf(fgroups[1..], g)
  }

  /** The groups left by a fusion, by their numbers before. */
  ghost predicate AfterFusion(fgroups: seq<FGroup>, seen: set<FieldRec>, lists: seq<seq<FieldRec>>, home: map<FieldRec,
      nat>, g2: nat, g: nat)
    reads fgroups, seen
  {
    && g2 < g < |fgroups| == |lists| && Distinct(fgroups) && Homes(lists, home, seen)
    && (forall h :: 0 <= h < |fgroups| ==> fgroups[h].field == if h == g2 then lists[g2] + lists[g] else lists[h])
    && (forall f :: f in seen ==> f.fgroup == fgroups[if home[f] == g then g2 else home[f]])
  }

  lemma FusionListsOnce(fgroups: seq<FGroup>, seen: set<FieldRec>, lists: seq<seq<FieldRec>>, home: map<FieldRec, nat>,
      g2: nat, g: nat, h: nat)
    requires AfterFusion(fgroups, seen, lists, home, g2, g) && h < |fgroups| && h != g
    ensures Distinct(fgroups[h].field) && forall f :: f in fgroups[h].field ==> f in seen && f.fgroup == fgroups[h]
  {
    forall f | f in lists[g2] ensures f !in lists[g] {
      assert home[f] == g2;
    }
    OnceAdd(lists[g2], lists[g]);
  }

  lemma FusionPointsBack(fgroups: seq<FGroup>, seen: set<FieldRec>, lists: seq<seq<FieldRec>>, home: map<FieldRec, nat>,
      g2: nat, g: nat, f: FieldRec)
    requires AfterFusion(fgroups, seen, lists, home, g2, g) && f in seen
    ensures f.fgroup != null && f.fgroup in fgroups && f.fgroup != fgroups[g] && f in f.fgroup.field
  {
    var h := if home[f] == g then g2 else home[f];
    assert fgroups[h] in fgroups && f in lists[home[f]];
  }

  /** The heap after a fusion. */
  lemma ListedFused(fgroups: seq<FGroup>, fgroups': seq<FGroup>, seen: set<FieldRec>, lists: seq<seq<FieldRec>>,
      home: map<FieldRec, nat>, g2: nat, g: nat)
    requires AfterFusion(fgroups, seen, lists, home, g2, g) && fgroups' == fgroups[..g] + fgroups[g + 1..]
    ensures Listed(fgroups', seen)
  {
    OnceWithout(fgroups, g);
    forall h | 0 <= h < |fgroups| && h != g
      ensures Distinct(fgroups[h].field) && forall f :: f in fgroups[h].field ==> f in seen && f.fgroup == fgroups[h]
    {
      FusionListsOnce(fgroups, seen, lists, home, g2, g, h);
    }
    forall f | f in seen ensures f.fgroup != null && f.fgroup in fgroups' && f in f.fgroup.field {
      FusionPointsBack(fgroups, seen, lists, home, g2, g, f);
    }
    hide AfterFusion;
    forall x | x in fgroups' ensures Distinct(x.field) && forall f :: f in x.field ==> f in seen && f.fgroup == x {
      var h :| 0 <= h < |fgroups| && fgroups[h] == x;
    }
  }

  /** A flagged group goes into the newcomer's, and the groups behind it move up. */
  method Fuse(fgroups: seq<FGroup>, g2: nat, g: nat, ghost seen: set<FieldRec>) returns (fgroups': seq<FGroup>)
    requires Listed(fgroups, seen) && g2 < g < |fgroups|
    modifies fgroups[g2], fgroups[g], fgroups[g].field
    ensures Listed(fgroups', seen) && Abs(fgroups') == Fused(old(Abs(fgroups)), g2, g)
    ensures forall x :: x in fgroups' ==> x in fgroups
  {
    hide Homes;
    ghost var was := Abs(fgroups);
    ghost var lists, home := FindHomes(fgroups, seen);
    HomesApart(lists, home, seen, g);
    DistinctListed(fgroups, seen);
    hide Listed;
    ghost var flags := seq(|fgroups|, h requires 0 <= h < |fgroups| reads fgroups => fgroups[h].flag);
    fgroups[g].flag := false;
    AddGroup(fgroups[g], fgroups[g2]);
    fgroups' := fgroups[..g] + fgroups[g + 1..];
    ListedFused(fgroups, fgroups', seen, lists, home, g2, g);
    AbsFused(fgroups, fgroups', lists, flags, was, g2, g);
  }

  lemma AbsFused(fgroups: seq<FGroup>, fgroups': seq<FGroup>, lists: seq<seq<FieldRec>>, flags: seq<bool>,
      was: seq<Group<int>>, g2: nat, g: nat)
    requires g2 < g < |fgroups| == |lists| == |flags| == |was| && fgroups' == fgroups[..g] + fgroups[g + 1..]
    requires forall h :: 0 <= h < |fgroups| ==> was[h] == Group(Ids(lists[h]), flags[h])
    requires forall h :: 0 <= h < |fgroups| ==> fgroups[h].field == if h == g2 then lists[g2] + lists[g] else lists[h]
    requires forall h :: 0 <= h < |fgroups| && h != g ==> fgroups[h].flag == flags[h]
    ensures Abs(fgroups') == Fused(was, g2, g)
  {
    IdsAdd(lists[g2], lists[g]);
    FusedHeap(was, g2, g, Abs(fgroups'));
  }

  lemma HomesApart(lists: seq<seq<FieldRec>>, home: map<FieldRec, nat>, seen: set<FieldRec>, g: nat)
    requires Homes(lists, home, seen) && g < |lists|
    ensures forall f :: f in seen ==> (f in home && (f in lists[g] <==> home[f] == g)) && home[f] < |lists|
    ensures forall f :: f in lists[g] ==> f in seen
  {
  }

  lemma DistinctListed(fgroups: seq<FGroup>, seen: set<FieldRec>)
    requires Listed(fgroups, seen)
    ensures Distinct(fgroups)
  {
  }

  lemma FusedHeap(was: seq<Group<int>>, g2: nat, g: nat, now: seq<Group<int>>)
    requires g2 < g < |was| && |now| == |was| - 1
    requires now[g2] == Group(was[g2].members + was[g].members, was[g2].flag)
    requires forall h :: 0 <= h < |now| && h != g2 ==> now[h] == was[if h < g then h else h + 1]
    ensures now == Fused(was, g2, g)
  {
  }

  /** "Add to an existing group". */
  method Join(fgroups: seq<FGroup>, g2: nat, field1: FieldRec, ghost seen: set<FieldRec>)
    requires Listed(fgroups, seen) && field1 !in seen && g2 < |fgroups|
    modifies fgroups[g2], field1
    ensures Listed(fgroups, seen + {field1}) && Abs(fgroups) == Joined(old(Abs(fgroups)), g2, field1.id)
  {
    hide Homes;
    ghost var was := Abs(fgroups);
    ghost var lists, home := FindHomes(fgroups, seen);
    ghost var flags := seq(|fgroups|, h requires 0 <= h < |fgroups| reads fgroups => fgroups[h].flag);
    DistinctListed(fgroups, seen);
    hide Listed;
    HomesApart(lists, home, seen, g2);
    fgroups[g2].flag := false;
    AddField(fgroups[g2], field1);
    ListedJoined(fgroups, seen, lists, home, g2, field1);
    AbsJoined(fgroups, lists, flags, was, g2, field1);
  }

  lemma ListedJoined(fgroups: seq<FGroup>, seen: set<FieldRec>, lists: seq<seq<FieldRec>>, home: map<FieldRec, nat>,
      g2: nat, field1: FieldRec)
    requires g2 < |fgroups| == |lists| && Distinct(fgroups) && Homes(lists, home, seen) && field1 !in seen
      && field1.fgroup == fgroups[g2]
    requires forall h :: 0 <= h < |fgroups| ==> fgroups[h].field == if h == g2 then lists[g2] + [field1] else lists[h]
    requires forall f :: f in seen ==> f.fgroup == fgroups[home[f]]
    ensures Listed(fgroups, seen + {field1})
  {
    OnceAdd(lists[g2], [field1]);
    forall x | x in fgroups ensures Distinct(x.field) && forall f :: f in x.field ==>
      f in seen + {field1} && f.fgroup == x {
      var h :| 0 <= h < |fgroups| && fgroups[h] == x;
    }
    forall f | f in seen + {field1} ensures f.fgroup != null && f.fgroup in fgroups && f in f.fgroup.field {
      if f == field1 {
        assert field1 == fgroups[g2].field[|lists[g2]|];
      } else {
        assert f in lists[home[f]];
      }
    }
  }

  lemma AbsJoined(fgroups: seq<FGroup>, lists: seq<seq<FieldRec>>, flags: seq<bool>, was: seq<Group<int>>, g2: nat,
      field1: FieldRec)
    requires g2 < |fgroups| == |lists| == |flags| == |was| && !fgroups[g2].flag
    requires forall h :: 0 <= h < |fgroups| ==> was[h] == Group(Ids(lists[h]), flags[h])
    requires forall h :: 0 <= h < |fgroups| ==> fgroups[h].field == if h == g2 then lists[g2] + [field1] else lists[h]
    requires forall h :: 0 <= h < |fgroups| && h != g2 ==> fgroups[h].flag == flags[h]
    ensures Abs(fgroups) == Joined(was, g2, field1.id)
  {
    IdsAdd(lists[g2], [field1]);
    assert Ids([field1]) == {field1.id};
  }

  /** "Create a new group". */
  method Establish(fgroups: seq<FGroup>, field1: FieldRec, ghost seen: set<FieldRec>) returns (fgroups': seq<FGroup>)
    requires Listed(fgroups, seen) && field1 !in seen
    modifies field1
    ensures Listed(fgroups', seen + {field1}) && Abs(fgroups') == old(Abs(fgroups)) + [Group({field1.id}, false)]
    ensures forall i :: 0 <= i < |fgroups'| ==> fgroups'[i] in fgroups || fresh(fgroups'[i])
  {
    var fgroup := new FGroup();
    AddField(fgroup, field1);
    fgroups' := fgroups + [fgroup];
    assert fgroup.field == [field1] && Ids([field1]) == {field1.id};
    OnceAdd(fgroups, [fgroup]);
    forall x, f | x in fgroups' && f in x.field ensures f in seen + {field1} && f.fgroup == x {
      if x != fgroup {
        assert x in fgroups;
      }
    }
  }

  /** "Check that the newcomer doesn't link groups together". */
  method FuseAll(fgroups: seq<FGroup>, g2: nat, ghost seen: set<FieldRec>) returns (fgroups': seq<FGroup>)
    requires Listed(fgroups, seen) && g2 < |fgroups|
    modifies fgroups, seen
    ensures Listed(fgroups', seen) && Abs(fgroups') == FusedFrom(old(Abs(fgroups)), g2, g2 + 1)
    ensures forall i :: 0 <= i < |fgroups'| ==> fgroups'[i] in fgroups
  {
    hide Listed, Fused;
    fgroups' := fgroups;
    ghost var goal := FusedFrom(Abs(fgroups), g2, g2 + 1);
    var g := g2 + 1;
    while g < |fgroups'|
      invariant g2 < g && g2 < |fgroups'| && Listed(fgroups', seen) && forall x :: x in fgroups' ==> x in fgroups
      invariant FusedFrom(Abs(fgroups'), g2, g) == goal
      decreases |fgroups'| - g
    {
      if fgroups'[g].flag {
        MembersSeen(fgroups', seen, g);
        assert fgroups'[g] in fgroups' && fgroups'[g2] in fgroups';
        fgroups' := Fuse(fgroups', g2, g, seen);
      }
      g := g + 1;
    }
  }

  /** The search for the first flagged group. */
  method FindFlagged(fgroups: seq<FGroup>) returns (g: nat)
    ensures g == FirstFlagged(Abs(fgroups))
  {
    g := 0;
    while g < |fgroups| && !fgroups[g].flag
      invariant g <= |fgroups| && forall h :: 0 <= h < g ==> !fgroups[h].flag
    {
      g := g + 1;
    }
    FirstIs(Abs(fgroups), g);
  }

  lemma FirstIs(groups: seq<Group<int>>, g: nat)
    requires g <= |groups| && (forall h :: 0 <= h < g ==> !groups[h].flag) && (g < |groups| ==> groups[g].flag)
    ensures FirstFlagged(groups) == g
  {
  }

  /** The body of the loop of group_fields. */
  method Arrive(fgroups: seq<FGroup>, field1: FieldRec, sky: Sky, ghost seen: set<FieldRec>)
      returns (fgroups': seq<FGroup>)
    requires Listed(fgroups, seen) && field1 !in seen
    modifies fgroups, seen, field1
    ensures Listed(fgroups', seen + {field1}) && Abs(fgroups') == Arrived(TouchOf(sky), field1.id, old(Abs(fgroups)))
    ensures forall i :: 0 <= i < |fgroups'| ==> fgroups'[i] in fgroups || fresh(fgroups'[i])
  {
    hide Listed, FirstFlagged, FusedFrom, Flagged, TouchOf;
    ghost var was := Abs(fgroups);
    var testflag := Prepare(fgroups, sky, field1.id, seen);
    if testflag {
      fgroups' := Establish(fgroups, field1, seen);
    } else {
      SomeFlagged(TouchOf(sky), field1.id, was);
      fgroups' := AddTo(fgroups, field1, seen);
    }
  }

  /** The distances, the order and the flags of the groups for a newcomer. */
  method Prepare(fgroups: seq<FGroup>, sky: Sky, f1: int, ghost seen: set<FieldRec>) returns (testflag: bool)
    requires Listed(fgroups, seen)
    modifies fgroups, seen
    ensures Listed(fgroups, seen) && Abs(fgroups) == Flagged(TouchOf(sky), f1, old(Abs(fgroups)))
    ensures testflag <==> !Found(TouchOf(sky), f1, old(Abs(fgroups)))
  {
    hide Listed, Sorted, Flagged, TouchOf;
    SortGroups(fgroups, sky, f1, seen);
    testflag := TestListed(fgroups, sky, f1, seen);
  }

  /** The branch for a newcomer that touches some group. */
  method AddTo(fgroups: seq<FGroup>, field1: FieldRec, ghost seen: set<FieldRec>) returns (fgroups': seq<FGroup>)
    requires Listed(fgroups, seen) && field1 !in seen && FirstFlagged(Abs(fgroups)) < |fgroups|
    modifies fgroups, seen, field1
    ensures Listed(fgroups', seen + {field1})
    ensures var g2 := FirstFlagged(old(Abs(fgroups)));
      Abs(fgroups') == FusedFrom(Joined(old(Abs(fgroups)), g2, field1.id), g2, g2 + 1)
    ensures forall i :: 0 <= i < |fgroups'| ==> fgroups'[i] in fgroups
  {
    hide Listed, FirstFlagged, FusedFrom, Joined;
    var g2 := FindFlagged(fgroups);
    Join(fgroups, g2, field1, seen);
    fgroups' := FuseAll(fgroups, g2, seen + {field1});
  }

  lemma SomeFlagged(touch: (int, int) -> bool, f: int, groups: seq<Group<int>>)
    requires Found(touch, f, groups)
    ensures FirstFlagged(Flagged(touch, f, groups)) < |groups|
  {
    var g :| 0 <= g < |groups| && !groups[g].flag && TouchesGroup(touch, f, groups[g].members);
    assert Flagged(touch, f, groups)[g].flag;
  }

  method TestListed(fgroups: seq<FGroup>, sky: Sky, f1: int, ghost seen: set<FieldRec>) returns (testflag: bool)
    requires Listed(fgroups, seen) && forall g :: 0 <= g < |fgroups| ==> Sorted(fgroups[g], sky, f1)
    modifies fgroups
    ensures Listed(fgroups, seen) && Abs(fgroups) == Flagged(TouchOf(sky), f1, old(Abs(fgroups)))
    ensures testflag <==> !Found(TouchOf(sky), f1, old(Abs(fgroups)))
  {
    hide Sorted;
    DistinctListed(fgroups, seen);
    testflag := TestGroups(fgroups, sky, f1);
    assert forall x :: x in fgroups ==> x.field == old(x.field);
  }

  lemma ListedNone()
    ensures Listed([], {})
  {
  }

  function IdList(fields: seq<FieldRec>): seq<int> {
    seq(|fields|, i requires 0 <= i < |fields| => fields[i].id)
  }

  /** No field touches, when it arrives, two groups next to each other behind the first that it touches. */
  ghost predicate NoneBlind(sky: Sky, ids: seq<int>) {
    forall n :: 0 <= n < |ids| ==> !Blind(TouchOf(sky), ids[n], Grouped(TouchOf(sky), ids[..n]))
  }

  /** Exactly then the groups are the connected components of the overlap after every arrival. */
  lemma OverlapComponents(sky: Sky, ids: seq<int>)
    requires SkySymmetric(sky) && Distinct(ids)
    ensures NoneBlind(sky, ids) <==>
      forall n :: 0 <= n <= |ids| ==> AreComponents(TouchOf(sky), Grouped(TouchOf(sky), ids[..n]))
  {
    TouchSymmetric(sky);
    AlwaysComponents(TouchOf(sky), ids);
    hide TouchOf, Blind, AreComponents, Symmetric, SkySymmetric;
  }

  /** Fields that overlap lead from one to the other. */
  ghost predicate LedTo(sky: Sky, ids: seq<int>, a: int, b: int) {
    exists p: seq<int> :: LeadsTo(sky, ids, p, a, b)
  }

  ghost predicate LeadsTo(sky: Sky, ids: seq<int>, p: seq<int>, a: int, b: int) {
    && p != [] && p[0] == a && p[|p| - 1] == b && (forall i :: 0 <= i < |p| ==> p[i] in ids)
    && forall i, j :: 0 <= i && j == i + 1 < |p| ==> Overlap(sky, p[i], p[j])
  }

  lemma LedToIs(sky: Sky, ids: seq<int>, a: int, b: int)
    ensures LedTo(sky, ids, a, b) <==> Reaches(TouchOf(sky), Elements(ids), a, b)
  {
    hide TouchOf, Overlap;
    forall x, y ensures TouchOf(sky)(x, y) <==> Overlap(sky, x, y) {
      TouchIs(sky, x, y);
    }
    if LedTo(sky, ids, a, b) {
      var p: seq<int> :| LeadsTo(sky, ids, p, a, b);
      assert Path(TouchOf(sky), Elements(ids), p);
    }
    if Reaches(TouchOf(sky), Elements(ids), a, b) {
      var p: seq<int> :| Path(TouchOf(sky), Elements(ids), p) && p[0] == a && p[|p| - 1] == b;
      assert LeadsTo(sky, ids, p, a, b);
    }
  }

  /** What the groups on the heap say of two fields. */
  lemma OneGroup(fgroups: seq<FGroup>, fields: seq<FieldRec>, sky: Sky, i: nat, j: nat)
    requires Listed(fgroups, set f | f in fields) && Abs(fgroups) == Grouped(TouchOf(sky), IdList(fields))
    requires SkySymmetric(sky) && Distinct(IdList(fields)) && NoneBlind(sky, IdList(fields))
    requires i < |fields| && j < |fields|
    ensures fields[i].fgroup == fields[j].fgroup <==> LedTo(sky, IdList(fields), fields[i].id, fields[j].id)
  {
    hide NoneBlind, SkySymmetric, LedTo;
    var ids := IdList(fields);
    GroupsAre(sky, ids);
    GroupedPartition(TouchOf(sky), ids);
    LedToIs(sky, ids, fields[i].id, fields[j].id);
    var g := GroupOf(fgroups, fields, i);
    GroupHolds(fgroups, fields, g, i);
    GroupHolds(fgroups, fields, g, j);
    hide Listed, AreComponents, Reaches, TouchOf, Abs, Grouped;
    assert ids[j] in Elements(ids);
    SameGroupExactly(TouchOf(sky), Abs(fgroups), g, fields[i].id, fields[j].id);
  }

  lemma GroupsAre(sky: Sky, ids: seq<int>)
    requires SkySymmetric(sky) && Distinct(ids) && NoneBlind(sky, ids)
    ensures AreComponents(TouchOf(sky), Grouped(TouchOf(sky), ids))
  {
    OverlapComponents(sky, ids);
    assert ids[..|ids|] == ids;
    hide TouchOf, AreComponents, SkySymmetric, NoneBlind, Grouped;
  }

  lemma GroupOf(fgroups: seq<FGroup>, fields: seq<FieldRec>, i: nat) returns (g: nat)
    requires Listed(fgroups, set f | f in fields) && i < |fields|
    ensures g < |fgroups| && fgroups[g] == fields[i].fgroup
  {
    var seen := set f | f in fields;
    var f := fields[i];
    assert f in seen && f.fgroup in fgroups;
    g :| 0 <= g < |fgroups| && fgroups[g] == f.fgroup;
  }

  lemma GroupHolds(fgroups: seq<FGroup>, fields: seq<FieldRec>, g: nat, j: nat)
    requires Listed(fgroups, set f | f in fields) && g < |fgroups| && j < |fields| && Distinct(IdList(fields))
    ensures fields[j].id in Abs(fgroups)[g].members <==> fields[j].fgroup == fgroups[g]
  {
    if fields[j].id in Abs(fgroups)[g].members {
      var f: FieldRec :| f in fgroups[g].field && f.id == fields[j].id;
      var seen := set f: FieldRec | f in fields;
      assert fgroups[g] in fgroups && f in seen;
      var k :| 0 <= k < |fields| && fields[k] == f;
      assert IdList(fields)[k] == IdList(fields)[j];
    }
  }

  /** group_fields, up to the numbering of the groups. */
  method GroupFields(fields: seq<FieldRec>, sky: Sky) returns (fgroups: seq<FGroup>)
    requires Distinct(fields)
    modifies fields
    ensures Listed(fgroups, set f | f in fields) && Abs(fgroups) == Grouped(TouchOf(sky), IdList(fields))
    ensures forall i :: 0 <= i < |fgroups| ==> fresh(fgroups[i])
    ensures SkySymmetric(sky) && Distinct(IdList(fields)) && NoneBlind(sky, IdList(fields)) ==>
      forall i, j :: 0 <= i < |fields| && 0 <= j < |fields| ==>
        (fields[i].fgroup == fields[j].fgroup <==> LedTo(sky, IdList(fields), fields[i].id, fields[j].id))
  {
    hide Listed, Arrived, NoneBlind, SkySymmetric, LedTo;
    fgroups := [];
    ghost var seen: set<FieldRec> := {};
    ListedNone();
    assert IdList(fields[..0]) == [];
    for f1 := 0 to |fields|
      invariant Listed(fgroups, seen) && seen == set f | f in fields[..f1]
      invariant Abs(fgroups) == Grouped(TouchOf(sky), IdList(fields[..f1]))
      invariant forall i :: 0 <= i < |fgroups| ==> fresh(fgroups[i])
    {
      assert fields[f1] !in seen;
      assert forall f :: f in seen ==> f in fields;
      fgroups := Arrive(fgroups, fields[f1], sky, seen);
      seen := seen + {fields[f1]};
      assert fields[..f1 + 1] == fields[..f1] + [fields[f1]];
      assert IdList(fields[..f1 + 1])[..f1] == IdList(fields[..f1]);
    }
    assert fields[..|fields|] == fields;
    if SkySymmetric(sky) && Distinct(IdList(fields)) && NoneBlind(sky, IdList(fields)) {
      forall i, j | 0 <= i < |fields| && 0 <= j < |fields|
        ensures fields[i].fgroup == fields[j].fgroup <==> LedTo(sky, IdList(fields), fields[i].id, fields[j].id)
      {
        OneGroup(fgroups, fields, sky, i, j);
      }
    }
  }
}
