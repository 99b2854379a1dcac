// Loading and labelling fields by several threads (pthread_load_field, pthread_load_fields and label_field,
// scamp/src/field.c), as a state machine whose steps are what one thread does between two points where another may run.

module Loading {
  import opened Basics

  // ---- Labels ----

  /** What label_field looks at in a field: the compared parts of its two dummy headers, and its number of sets. */
  datatype Field = Field(astrom: string, nset: nat, photom: string)

  /** The instruments met so far. */
  datatype Tables = Tables(astr: seq<(string, nat)>, phot: seq<string>)

  datatype Labels = Labels(astrom: nat, photom: nat)

  /** The place of the first entry equal to `x`, or the length of the table. */
  function Lookup<T(==)>(table: seq<T>, x: T): (j: nat)
    ensures j <= |table| && (j < |table| ==> table[j] == x) && forall i :: 0 <= i < j ==> table[i] != x
  {
    if table == [] then 0 else if table[0] == x then 0
    else
      var j := Lookup(table[1..], x);
      assert forall i :: 1 <= i < j + 1 ==> table[i] == table[1..][i - 1];
      1 + j
  }

  function Listed<T(==)>(table: seq<T>, x: T): seq<T> {
    if Lookup(table, x) < |table| then table else table + [x]
  }

  function LabelsOf(t: Tables, f: Field): Labels {
    Labels(Lookup(t.astr, (f.astrom, f.nset)), Lookup(t.phot, f.photom))
  }

  function Extended(t: Tables, f: Field): Tables {
    Tables(Listed(t.astr, (f.astrom, f.nset)), Listed(t.phot, f.photom))
  }

  /** The tables after the first `k` fields, labelled one after the other. */
  function TablesAfter(cat: seq<Field>, k: nat): Tables
    requires k <= |cat|
  {
    if k == 0 then Tables([], []) else Extended(TablesAfter(cat, k - 1), cat[k - 1])
  }

  /** The labels field `i` gets when fields are labelled one after the other. */
  function LabelsInOrder(cat: seq<Field>, i: nat): Labels
    requires i < |cat|
  {
    LabelsOf(TablesAfter(cat, i), cat[i])
  }

  /** Fields get the same astrometric label exactly if their headers and numbers of sets agree. */
  lemma {:induction false} SameLabel(cat: seq<Field>, i: nat, j: nat)
    requires i < j < |cat|
    ensures LabelsInOrder(cat, i).astrom == LabelsInOrder(cat, j).astrom <==>
      (cat[i].astrom, cat[i].nset) == (cat[j].astrom, cat[j].nset)
    ensures LabelsInOrder(cat, i).photom == LabelsInOrder(cat, j).photom <==> cat[i].photom == cat[j].photom
  {
    hide Listed;
    TablesGrow(cat, i + 1, j);
    SameEntry(TablesAfter(cat, i).astr, TablesAfter(cat, j).astr, (cat[i].astrom, cat[i].nset),
      (cat[j].astrom, cat[j].nset));
    SameEntry(TablesAfter(cat, i).phot, TablesAfter(cat, j).phot, cat[i].photom, cat[j].photom);
  }

  lemma SameEntry<T>(t: seq<T>, u: seq<T>, x: T, y: T)
    requires Listed(t, x) <= u
    ensures Lookup(t, x) == Lookup(u, y) <==> x == y
  {
    ListedAt(t, x);
    var j := Lookup(t, x);
    assert u[j] == x;
    forall i | 0 <= i < j ensures u[i] != x {
      assert t[i] == Listed(t, x)[i] == u[i];
    }
  }

  lemma ListedAt<T>(table: seq<T>, x: T)
    ensures Lookup(table, x) < |Listed(table, x)| && Listed(table, x)[Lookup(table, x)] == x
      && table <= Listed(table, x)
  {
  }

  lemma PrefixOfPrefix<T>(a: seq<T>, b: seq<T>, c: seq<T>)
    requires a <= b && b <= c
    ensures a <= c
  {
  }

  lemma {:induction false} TablesGrow(cat: seq<Field>, i: nat, j: nat)
    requires i <= j <= |cat|
    ensures TablesAfter(cat, i).astr <= TablesAfter(cat, j).astr && TablesAfter(cat, i).phot <= TablesAfter(cat, j).phot
    decreases j
  {
    if i < j {
      hide Listed, Lookup;
      TablesGrow(cat, i, j - 1);
      var t, t' := TablesAfter(cat, j - 1), TablesAfter(cat, j);
      ListedAt(t.astr, (cat[j - 1].astrom, cat[j - 1].nset));
      ListedAt(t.phot, cat[j - 1].photom);
      PrefixOfPrefix(TablesAfter(cat, i).astr, t.astr, t'.astr);
      PrefixOfPrefix(TablesAfter(cat, i).phot, t.phot, t'.phot);
    }
  }

  /** A label is the index of the field's own entry, in the tables right after the field was labelled and ever after. */
  lemma OwnEntry(cat: seq<Field>, i: nat, k: nat)
    requires i < k <= |cat|
    ensures var t, l := TablesAfter(cat, k), LabelsInOrder(cat, i);
      && l.astrom < |t.astr| && t.astr[l.astrom] == (cat[i].astrom, cat[i].nset)
      && l.photom < |t.phot| && t.phot[l.photom] == cat[i].photom
  {
    var t := TablesAfter(cat, i);
    ListedAt(t.astr, (cat[i].astrom, cat[i].nset));
    ListedAt(t.phot, cat[i].photom);
    TablesGrow(cat, i + 1, k);
    hide Listed, Lookup;
  }

  /** The tables list every instrument of the fields once, and no other. */
  lemma {:induction false} TablesList(cat: seq<Field>, k: nat)
    requires k <= |cat|
    ensures Distinct(TablesAfter(cat, k).astr) && Distinct(TablesAfter(cat, k).phot)
    ensures forall x :: x in TablesAfter(cat, k).astr ==> exists i :: 0 <= i < k && x == (cat[i].astrom, cat[i].nset)
    ensures forall x :: x in TablesAfter(cat, k).phot ==> exists i :: 0 <= i < k && x == cat[i].photom
  {
    if k > 0 {
      TablesList(cat, k - 1);
      var t := TablesAfter(cat, k - 1);
      ListedOnce(t.astr, (cat[k - 1].astrom, cat[k - 1].nset));
      ListedOnce(t.phot, cat[k - 1].photom);
      hide Listed;
    }
  }

  lemma ListedOnce<T>(table: seq<T>, x: T)
    requires Distinct(table)
    ensures Distinct(Listed(table, x)) && forall y :: y in Listed(table, x) <==> y in table || y == x
  {
  }

  /** The tables of the run-time preferences. */
  class Prefs {
    var astrinstru: seq<(string, nat)>
    var photinstru: seq<string>

    constructor ()
      ensures astrinstru == [] && photinstru == []
    {
      astrinstru, photinstru := [], [];
    }

    ghost function Value(): Tables
      reads this
    {
      Tables(astrinstru, photinstru)
    }

    /** label_field. */
    method LabelField(field: Field) returns (labels: Labels)
      modifies this
      ensures labels == LabelsOf(old(Value()), field) && Value() == Extended(old(Value()), field)
      ensures old(astrinstru) <= astrinstru && old(photinstru) <= photinstru
      ensures labels.astrom < |astrinstru| && astrinstru[labels.astrom] == (field.astrom, field.nset)
      ensures labels.photom < |photinstru| && photinstru[labels.photom] == field.photom
    {
      var j := 0;
      while j < |astrinstru| && astrinstru[j] != (field.astrom, field.nset)
        invariant j <= |astrinstru| && forall i :: 0 <= i < j ==> astrinstru[i] != (field.astrom, field.nset)
      {
        j := j + 1;
      }
      var astromlabel := j;
      FirstPlace(astrinstru, (field.astrom, field.nset), j);
      if j >= |astrinstru| {
        astrinstru := astrinstru + [(field.astrom, field.nset)];
      }
      j := 0;
      while j < |photinstru| && photinstru[j] != field.photom
        invariant j <= |photinstru| && forall i :: 0 <= i < j ==> photinstru[i] != field.photom
      {
        j := j + 1;
      }
      FirstPlace(photinstru, field.photom, j);
      if j >= |photinstru| {
        photinstru := photinstru + [field.photom];
      }
      labels := Labels(astromlabel, j);
    }
  }

  lemma FirstPlace<T>(table: seq<T>, x: T, j: nat)
    requires j <= |table| && (forall i :: 0 <= i < j ==> table[i] != x) && (j < |table| ==> table[j] == x)
    ensures Lookup(table, x) == j
  {
  }

  // ---- The protocol ----

  datatype Pc = AtStart | AtCheck | AtLock | InView | InLoad | AtStop | AtRestart | Exited

  /** A worker: where it is, and the index of the last field it took, or -1. */
  datatype Thread = Thread(pc: Pc, findex: int)

  datatype Master = MBegin | MWork | MStopped | MRestart | MJoin | MDone

  /** The shared variables, the threads, and a record of what was done: how often each field was loaded and by whom,
      and in which order fields were labelled. */
  datatype State = State(
    threads: seq<Thread>, master: Master, holder: Option<nat>, endflag: bool,
    next: nat, view: nat, flag: seq<bool>, fields: seq<Option<Field>>, tables: Tables, labels: seq<Option<Labels>>,
    loads: seq<nat>, owner: seq<nat>, order: seq<nat>)

  datatype Action = Begin | Check(p: nat) | Lock(p: nat) | View(p: nat) | Take(p: nat) | Give(p: nat)
    | Load(p: nat) | Stop | SetEnd | Restart | Join

  function Initial(nproc: nat, nfield: nat): State {
    State(seq(nproc, p => Thread(AtStart, -1)), MBegin, None, false, 0, 0, seq(nfield, i => false),
      seq(nfield, i => None),
          Tables([], []), seq(nfield, i => None), seq(nfield, i => 0), seq(nfield, i => 0), [])
  }

  predicate AllAt(s: State, pc: Pc) {
    forall p :: 0 <= p < |s.threads| ==> s.threads[p].pc == pc
  }

  predicate ThreadAt(s: State, p: nat, pc: Pc) {
    p < |s.threads| && s.threads[p].pc == pc
  }

  /** The next field to be labelled has been announced. */
  predicate Ready(s: State) {
    s.view < |s.flag| && s.flag[s.view]
  }

  predicate Enabled(s: State, a: Action) {
    match a
    case Begin => s.master == MBegin && AllAt(s, AtStart)
    case Check(p) => ThreadAt(s, p, AtCheck)
    case Lock(p) => ThreadAt(s, p, AtLock) && s.holder == None
    case View(p) => ThreadAt(s, p, InView) && Ready(s)
    case Take(p) => ThreadAt(s, p, InView) && !Ready(s) && s.next < |s.fields|
    case Give(p) => ThreadAt(s, p, InView) && !Ready(s) && s.next >= |s.fields|
    case Load(p) => ThreadAt(s, p, InLoad)
    case Stop => s.master == MWork && AllAt(s, AtStop)
    case SetEnd => s.master == MStopped
    case Restart => s.master == MRestart && AllAt(s, AtRestart)
    case Join => s.master == MJoin && AllAt(s, Exited)
  }

  function Moved(s: State, p: nat, pc: Pc): seq<Thread>
    requires p < |s.threads|
  {
    s.threads[p := s.threads[p].(pc := pc)]
  }

  function AllMoved(s: State, pc: Pc): seq<Thread> {
    seq(|s.threads|, p requires 0 <= p < |s.threads| => s.threads[p].(pc := pc))
  }

  /** Sizes that every step needs. */
  predicate Sized(cat: seq<Field>, s: State) {
    && |s.flag| == |s.fields| == |s.labels| == |s.loads| == |s.owner| == |cat|
    && forall p :: 0 <= p < |s.threads| ==>
      -1 <= s.threads[p].findex < |cat| && (s.threads[p].pc == InLoad ==> s.threads[p].findex >= 0)
  }

  /** One step; `cat[i]` is what load_field makes of file `i`. */
  function Do(cat: seq<Field>, s: State, a: Action): State
    requires Sized(cat, s) && Enabled(s, a)
  {
    match a
    case Begin => s.(threads := AllMoved(s, AtCheck), master := MWork)
    case Check(p) => s.(threads := Moved(s, p, if s.endflag then Exited else AtLock))
    case Lock(p) =>
      var f := s.threads[p].findex;
      s.(threads := Moved(s, p, InView), holder := Some(p), flag := if f > -1 then s.flag[f := true] else s.flag)
    case View(p) =>
      (match s.fields[s.view]
       case None => s.(view := s.view + 1)
       case Some(f) =>
         s.(labels := s.labels[s.view := Some(LabelsOf(s.tables, f))], tables := Extended(s.tables, f),
            order := s.order + [s.view], view := s.view + 1))
    case Take(p) =>
      s.(threads := s.threads[p := Thread(InLoad, s.next)], holder := None, owner := s.owner[s.next := p],
        next := s.next + 1)
    case Give(p) => s.(threads := Moved(s, p, AtStop), holder := None)
    case Load(p) =>
      var f := s.threads[p].findex;
      s.(threads := Moved(s, p, AtCheck), fields := s.fields[f := Some(cat[f])], loads := s.loads[f := s.loads[f] + 1])
    case Stop => s.(threads := AllMoved(s, AtRestart), master := MStopped)
    case SetEnd => s.(endflag := true, master := MRestart)
    case Restart => s.(threads := AllMoved(s, AtCheck), master := MJoin)
    case Join => s.(master := MDone)
  }

  // ---- What every step keeps ----

  /** A thread has field `i` in hand: it is loading it, or has loaded it and not announced it. */
  predicate InHand(t: Thread, i: int) {
    t.findex == i && (t.pc == InLoad || t.pc == AtCheck || t.pc == AtLock)
  }

  ghost predicate FieldsInv(cat: seq<Field>, s: State) {
    && Sized(cat, s) && s.view <= s.next <= |cat|
    && (forall i :: 0 <= i < |cat| ==> s.loads[i] == if s.fields[i] == None then 0 else 1)
    && (forall i :: 0 <= i < |cat| && s.fields[i] != None ==> s.fields[i] == Some(cat[i]) && i < s.next)
    && (forall i :: 0 <= i < s.view ==> s.flag[i])
    && (forall i :: 0 <= i < |cat| && s.flag[i] ==> s.fields[i] != None)
    && (forall i :: 0 <= i < s.next && !s.flag[i] ==> s.owner[i] < |s.threads| && InHand(s.threads[s.owner[i]], i))
  }

  ghost predicate ThreadsInv(cat: seq<Field>, s: State) {
    && Sized(cat, s)
    && (forall p :: 0 <= p < |s.threads| && s.threads[p].findex >= 0 ==> s.threads[p].findex < s.next)
    && (forall p :: 0 <= p < |s.threads| && s.threads[p].findex >= 0 ==>
          if s.threads[p].pc == InLoad then s.fields[s.threads[p].findex] == None && s.owner[s.threads[p].findex] == p
          else s.fields[s.threads[p].findex] != None)
    && (forall p :: 0 <= p < |s.threads| && s.threads[p].pc == InView ==> s.holder == Some(p))
    && (s.holder != None ==> s.holder.value < |s.threads| && s.threads[s.holder.value].pc == InView)
    && (s.holder == None ==> !Ready(s))
    && (forall p :: 0 <= p < |s.threads| && s.threads[p].pc == AtStop ==> s.next == |cat|)
  }

  ghost predicate LabelsInv(cat: seq<Field>, s: State) {
    && |s.labels| == |cat| && s.view <= |cat|
    && |s.order| == s.view && (forall i :: 0 <= i < s.view ==> s.order[i] == i)
    && s.tables == TablesAfter(cat, s.view)
    && (forall i :: 0 <= i < |cat| ==> s.labels[i] == if i < s.view then Some(LabelsInOrder(cat, i)) else None)
  }

  predicate PhaseOf(m: Master, pc: Pc) {
    match m
    case MBegin => pc == AtStart
    case MWork => pc == AtCheck || pc == AtLock || pc == InView || pc == InLoad || pc == AtStop
    case MStopped => pc == AtRestart
    case MRestart => pc == AtRestart
    case MJoin => pc == AtCheck || pc == Exited
    case MDone => pc == Exited
  }

  ghost predicate PhaseInv(cat: seq<Field>, s: State) {
    && |s.threads| > 0
    && (forall p :: 0 <= p < |s.threads| ==> PhaseOf(s.master, s.threads[p].pc))
    && (s.endflag <==> s.master == MRestart || s.master == MJoin || s.master == MDone)
    && (s.master == MStopped || s.endflag ==> s.view == |cat|)
  }

  ghost predicate Inv(cat: seq<Field>, s: State) {
    FieldsInv(cat, s) && ThreadsInv(cat, s) && LabelsInv(cat, s) && PhaseInv(cat, s)
  }

  lemma InitialInv(cat: seq<Field>, nproc: nat)
    requires nproc > 0
    ensures Inv(cat, Initial(nproc, |cat|))
  {
  }

  /** When all threads are at the stop gate, everything is labelled. */
  lemma AllLabelledAtStop(cat: seq<Field>, s: State)
    requires FieldsInv(cat, s) && ThreadsInv(cat, s) && AllAt(s, AtStop) && |s.threads| > 0
    ensures s.view == s.next == |cat|
  {
    assert s.threads[0].pc == AtStop;
    assert s.holder == None;
    forall i | 0 <= i < |cat| ensures s.flag[i] {
      if !s.flag[i] {
        assert false;
      }
    }
  }

  lemma FieldsAfterBegin(cat: seq<Field>, s: State)
    requires FieldsInv(cat, s) && ThreadsInv(cat, s) && Enabled(s, Begin)
    ensures FieldsInv(cat, Do(cat, s, Begin))
  {
  }

  lemma FieldsAfterCheck(cat: seq<Field>, s: State, p: nat)
    requires FieldsInv(cat, s) && ThreadsInv(cat, s) && Enabled(s, Check(p)) && (s.endflag ==> s.view == |cat|)
    ensures FieldsInv(cat, Do(cat, s, Check(p)))
  {
  }

  lemma FieldsAfterLock(cat: seq<Field>, s: State, p: nat)
    requires FieldsInv(cat, s) && ThreadsInv(cat, s) && Enabled(s, Lock(p))
    ensures FieldsInv(cat, Do(cat, s, Lock(p)))
  {
    var f := s.threads[p].findex;
    assert f >= 0 ==> s.fields[f] != None;
    hide ThreadsInv;
    var s' := Do(cat, s, Lock(p));
    forall i | 0 <= i < s'.next && !s'.flag[i] ensures s'.owner[i] < |s'.threads|
      && InHand(s'.threads[s'.owner[i]], i) {
      assert i != f && InHand(s.threads[s.owner[i]], i);
    }
  }

  lemma FieldsAfterView(cat: seq<Field>, s: State, p: nat)
    requires FieldsInv(cat, s) && ThreadsInv(cat, s) && Enabled(s, View(p))
    ensures FieldsInv(cat, Do(cat, s, View(p)))
  {
  }

  lemma FieldsAfterTake(cat: seq<Field>, s: State, p: nat)
    requires FieldsInv(cat, s) && ThreadsInv(cat, s) && Enabled(s, Take(p))
    ensures FieldsInv(cat, Do(cat, s, Take(p)))
  {
  }

  lemma FieldsAfterGive(cat: seq<Field>, s: State, p: nat)
    requires FieldsInv(cat, s) && ThreadsInv(cat, s) && Enabled(s, Give(p))
    ensures FieldsInv(cat, Do(cat, s, Give(p)))
  {
  }

  lemma FieldsAfterLoad(cat: seq<Field>, s: State, p: nat)
    requires FieldsInv(cat, s) && ThreadsInv(cat, s) && Enabled(s, Load(p))
    ensures FieldsInv(cat, Do(cat, s, Load(p)))
  {
  }

  lemma FieldsAfterStop(cat: seq<Field>, s: State)
    requires FieldsInv(cat, s) && ThreadsInv(cat, s) && Enabled(s, Stop)
    ensures FieldsInv(cat, Do(cat, s, Stop))
  {
  }

  lemma FieldsAfterRestart(cat: seq<Field>, s: State)
    requires FieldsInv(cat, s) && ThreadsInv(cat, s) && Enabled(s, Restart)
    ensures FieldsInv(cat, Do(cat, s, Restart))
  {
  }

  lemma StepKeepsFields(cat: seq<Field>, s: State, a: Action)
    requires FieldsInv(cat, s) && ThreadsInv(cat, s) && Enabled(s, a) && (s.endflag ==> s.view == |cat|)
    ensures FieldsInv(cat, Do(cat, s, a))
  {
    match a
    case Begin => FieldsAfterBegin(cat, s);
    case Check(p) => FieldsAfterCheck(cat, s, p);
    case Lock(p) => FieldsAfterLock(cat, s, p);
    case View(p) => FieldsAfterView(cat, s, p);
    case Take(p) => FieldsAfterTake(cat, s, p);
    case Give(p) => FieldsAfterGive(cat, s, p);
    case Load(p) => FieldsAfterLoad(cat, s, p);
    case Stop => FieldsAfterStop(cat, s);
    case SetEnd =>
    case Restart => FieldsAfterRestart(cat, s);
    case Join =>
  }

  lemma ThreadsAfterBegin(cat: seq<Field>, s: State)
    requires FieldsInv(cat, s) && ThreadsInv(cat, s) && Enabled(s, Begin)
    ensures ThreadsInv(cat, Do(cat, s, Begin))
  {
  }

  lemma ThreadsAfterCheck(cat: seq<Field>, s: State, p: nat)
    requires FieldsInv(cat, s) && ThreadsInv(cat, s) && Enabled(s, Check(p))
    ensures ThreadsInv(cat, Do(cat, s, Check(p)))
  {
  }

  lemma ThreadsAfterLock(cat: seq<Field>, s: State, p: nat)
    requires FieldsInv(cat, s) && ThreadsInv(cat, s) && Enabled(s, Lock(p))
    ensures ThreadsInv(cat, Do(cat, s, Lock(p)))
  {
  }

  lemma ThreadsAfterView(cat: seq<Field>, s: State, p: nat)
    requires FieldsInv(cat, s) && ThreadsInv(cat, s) && Enabled(s, View(p))
    ensures ThreadsInv(cat, Do(cat, s, View(p)))
  {
  }

  lemma ThreadsAfterTake(cat: seq<Field>, s: State, p: nat)
    requires FieldsInv(cat, s) && ThreadsInv(cat, s) && Enabled(s, Take(p))
    ensures ThreadsInv(cat, Do(cat, s, Take(p)))
  {
  }

  lemma ThreadsAfterGive(cat: seq<Field>, s: State, p: nat)
    requires FieldsInv(cat, s) && ThreadsInv(cat, s) && Enabled(s, Give(p))
    ensures ThreadsInv(cat, Do(cat, s, Give(p)))
  {
  }

  lemma ThreadsAfterLoad(cat: seq<Field>, s: State, p: nat)
    requires FieldsInv(cat, s) && ThreadsInv(cat, s) && Enabled(s, Load(p))
    ensures ThreadsInv(cat, Do(cat, s, Load(p)))
  {
  }

  lemma ThreadsAfterStop(cat: seq<Field>, s: State)
    requires FieldsInv(cat, s) && ThreadsInv(cat, s) && Enabled(s, Stop)
    ensures ThreadsInv(cat, Do(cat, s, Stop))
  {
  }

  lemma ThreadsAfterRestart(cat: seq<Field>, s: State)
    requires FieldsInv(cat, s) && ThreadsInv(cat, s) && Enabled(s, Restart)
    ensures ThreadsInv(cat, Do(cat, s, Restart))
  {
  }

  lemma StepKeepsThreads(cat: seq<Field>, s: State, a: Action)
    requires FieldsInv(cat, s) && ThreadsInv(cat, s) && Enabled(s, a)
    ensures ThreadsInv(cat, Do(cat, s, a))
  {
    match a
    case Begin => ThreadsAfterBegin(cat, s);
    case Check(p) => ThreadsAfterCheck(cat, s, p);
    case Lock(p) => ThreadsAfterLock(cat, s, p);
    case View(p) => ThreadsAfterView(cat, s, p);
    case Take(p) => ThreadsAfterTake(cat, s, p);
    case Give(p) => ThreadsAfterGive(cat, s, p);
    case Load(p) => ThreadsAfterLoad(cat, s, p);
    case Stop => ThreadsAfterStop(cat, s);
    case SetEnd =>
    case Restart => ThreadsAfterRestart(cat, s);
    case Join =>
  }

  lemma StepKeepsLabels(cat: seq<Field>, s: State, a: Action)
    requires FieldsInv(cat, s) && LabelsInv(cat, s) && Enabled(s, a)
    ensures LabelsInv(cat, Do(cat, s, a))
  {
    hide LabelsOf, Extended;
    if a.View? {
      assert s.fields[s.view] == Some(cat[s.view]);
    }
  }

  lemma StepKeepsPhase(cat: seq<Field>, s: State, a: Action)
    requires Inv(cat, s) && Enabled(s, a)
    ensures PhaseInv(cat, Do(cat, s, a))
  {
    hide FieldsInv, ThreadsInv, LabelsInv, LabelsOf, Extended;
    BoundsInv(cat, s);
    if a.Stop? {
      AllLabelledAtStop(cat, s);
    }
  }

  lemma BoundsInv(cat: seq<Field>, s: State)
    requires FieldsInv(cat, s)
    ensures Sized(cat, s) && s.view <= s.next <= |cat|
  {
  }

  lemma EndIsLabelled(cat: seq<Field>, s: State)
    requires PhaseInv(cat, s)
    ensures s.endflag ==> s.view == |cat|
  {
  }

  /** Every step of every thread and of the master keeps the invariant. */
  lemma StepKeeps(cat: seq<Field>, s: State, a: Action)
    requires Inv(cat, s) && Enabled(s, a)
    ensures Sized(cat, s) && Inv(cat, Do(cat, s, a))
  {
    hide FieldsInv, ThreadsInv, LabelsInv, PhaseInv, Do, Enabled;
    BoundsInv(cat, s);
    EndIsLabelled(cat, s);
    StepKeepsFields(cat, s, a);
    StepKeepsThreads(cat, s, a);
    StepKeepsLabels(cat, s, a);
    StepKeepsPhase(cat, s, a);
  }

  // ---- Runs ----

  /** The steps can be taken one after the other. */
  ghost predicate IsRun(cat: seq<Field>, s: State, run: seq<Action>)
    decreases |run|
  {
    run == [] || (Sized(cat, s) && Enabled(s, run[0]) && IsRun(cat, Do(cat, s, run[0]), run[1..]))
  }

  ghost function After(cat: seq<Field>, s: State, run: seq<Action>): State
    requires IsRun(cat, s, run)
    decreases |run|
  {
    if run == [] then s else After(cat, Do(cat, s, run[0]), run[1..])
  }

  lemma {:induction false} RunKeeps(cat: seq<Field>, s: State, run: seq<Action>)
    requires Inv(cat, s) && IsRun(cat, s, run)
    ensures Inv(cat, After(cat, s, run))
    decreases |run|
  {
    hide Inv, Do, Enabled;
    if run != [] {
      StepKeeps(cat, s, run[0]);
      RunKeeps(cat, Do(cat, s, run[0]), run[1..]);
    }
  }

  /** In every interleaving: fields are labelled in index order, each after it was loaded, no field is loaded twice,
      and tables and labels are those of the sequential loop. */
  lemma AlwaysInOrder(cat: seq<Field>, nproc: nat, run: seq<Action>)
    requires nproc > 0 && IsRun(cat, Initial(nproc, |cat|), run)
    ensures var s := After(cat, Initial(nproc, |cat|), run);
      && s.view <= |cat| == |s.loads| == |s.labels| == |s.fields| && s.order == seq(s.view, i => i)
      && (forall i :: 0 <= i < |cat| ==> s.loads[i] <= 1 && (i < s.view ==> s.loads[i] == 1))
      && (forall i :: 0 <= i < |cat| ==> s.fields[i] == if s.loads[i] == 1 then Some(cat[i]) else None)
      && (forall i :: 0 <= i < |cat| ==> s.labels[i] == if i < s.view then Some(LabelsInOrder(cat, i)) else None)
      && s.tables == TablesAfter(cat, s.view)
  {
    hide Do, Enabled, LabelsInOrder, TablesAfter;
    InitialInv(cat, nproc);
    RunKeeps(cat, Initial(nproc, |cat|), run);
  }

  /** When pthread_load_fields returns, every field is loaded once and labelled as by the sequential loop. */
  lemma CompleteAtEnd(cat: seq<Field>, nproc: nat, run: seq<Action>)
    requires nproc > 0 && IsRun(cat, Initial(nproc, |cat|), run)
      && After(cat, Initial(nproc, |cat|), run).master == MDone
    ensures var s := After(cat, Initial(nproc, |cat|), run);
      && |s.loads| == |s.labels| == |cat| && s.order == seq(|cat|, i => i) && s.tables == TablesAfter(cat, |cat|)
      && forall i :: 0 <= i < |cat| ==> s.loads[i] == 1 && s.labels[i] == Some(LabelsInOrder(cat, i))
  {
    hide Do, Enabled, LabelsInOrder, TablesAfter;
    InitialInv(cat, nproc);
    RunKeeps(cat, Initial(nproc, |cat|), run);
    AlwaysInOrder(cat, nproc, run);
  }

  /** Some step can be taken in every reachable state before the end: no deadlock. */
  lemma NoDeadlock(cat: seq<Field>, s: State) returns (a: Action)
    requires Inv(cat, s) && s.master != MDone
    ensures Enabled(s, a)
  {
    match s.master
    case MBegin => a := Begin;
    case MStopped => a := SetEnd;
    case MRestart => a := Restart;
    case MWork =>
      if AllAt(s, AtStop) {
        a := Stop;
      } else {
        var p :| 0 <= p < |s.threads| && s.threads[p].pc != AtStop;
        a := WorkerStep(cat, s, p);
      }
    case MJoin =>
      if AllAt(s, Exited) {
        a := Join;
      } else {
        var p :| 0 <= p < |s.threads| && s.threads[p].pc != Exited;
        a := Check(p);
      }
  }

  lemma WorkerStep(cat: seq<Field>, s: State, p: nat) returns (a: Action)
    requires Inv(cat, s) && s.master == MWork && p < |s.threads| && s.threads[p].pc != AtStop
    ensures Enabled(s, a)
  {
    match s.threads[p].pc
    case AtCheck => a := Check(p);
    case InLoad => a := Load(p);
    case InView => a := HolderStep(s, p);
    case AtLock =>
      if s.holder == None {
        a := Lock(p);
      } else {
        a := HolderStep(s, s.holder.value);
      }
  }

  lemma HolderStep(s: State, p: nat) returns (a: Action)
    requires ThreadAt(s, p, InView)
    ensures Enabled(s, a)
  {
    a := if Ready(s) then View(p) else if s.next < |s.fields| then Take(p) else Give(p);
  }

  // ---- Termination ----

  function Rank(pc: Pc): nat {
    match pc
    case AtStart => 5
    case AtCheck => 4
    case AtLock => 3
    case InView => 2
    case InLoad => 5
    case AtStop => 1
    case AtRestart => 1
    case Exited => 0
  }

  function Ranks(threads: seq<Thread>): nat {
    if threads == [] then 0 else Rank(threads[0].pc) + Ranks(threads[1..])
  }

  function MasterRank(m: Master, w: nat): nat {
    match m
    case MBegin => 5 * w
    case MWork => 4 * w
    case MStopped => 3 * w
    case MRestart => 2 * w
    case MJoin => w
    case MDone => 0
  }

  function Measure(cat: seq<Field>, s: State): nat
    requires s.view <= |cat| && s.next <= |cat|
  {
    MasterRank(s.master, 5 * |s.threads| + 1) + Ranks(s.threads) + 10 * (|cat| - s.next) + (|cat| - s.view)
  }

  lemma {:induction false} RanksMoved(threads: seq<Thread>, p: nat, t: Thread)
    requires p < |threads|
    ensures Ranks(threads[p := t]) == Ranks(threads) - Rank(threads[p].pc) + Rank(t.pc)
  {
    if p == 0 {
      assert threads[0 := t][1..] == threads[1..];
    } else {
      assert threads[p := t][1..] == threads[1..][p - 1 := t];
      RanksMoved(threads[1..], p - 1, t);
    }
  }

  lemma {:induction false} RanksBound(threads: seq<Thread>)
    ensures Ranks(threads) <= 5 * |threads|
  {
    if threads != [] {
      RanksBound(threads[1..]);
    }
  }

  lemma ThreadNearer(cat: seq<Field>, s: State, a: Action, p: nat)
    requires Sized(cat, s) && s.view <= s.next <= |cat| && Enabled(s, a)
    requires a == Check(p) || a == Lock(p) || a == Take(p) || a == Give(p) || a == Load(p)
    ensures Do(cat, s, a).view <= |cat| && Do(cat, s, a).next <= |cat| && Measure(cat, Do(cat, s, a)) < Measure(cat, s)
  {
    hide MasterRank, Ranks;
    RanksMoved(s.threads, p, Do(cat, s, a).threads[p]);
  }

  lemma GateNearer(cat: seq<Field>, s: State, a: Action)
    requires Sized(cat, s) && s.view <= s.next <= |cat| && Enabled(s, a)
    requires a.Begin? || a.Stop? || a.SetEnd? || a.Restart? || a.Join?
    ensures Do(cat, s, a).view <= |cat| && Do(cat, s, a).next <= |cat| && Measure(cat, Do(cat, s, a)) < Measure(cat, s)
  {
    hide Ranks;
    RanksBound(Do(cat, s, a).threads);
  }

  /** Every step brings the end nearer, so every run ends. */
  lemma StepNearer(cat: seq<Field>, s: State, a: Action)
    requires Inv(cat, s) && Enabled(s, a)
    ensures Sized(cat, s) && Do(cat, s, a).view <= |cat| && Do(cat, s, a).next <= |cat| && s.view <= |cat|
      && s.next <= |cat|
    ensures Measure(cat, Do(cat, s, a)) < Measure(cat, s)
  {
    hide LabelsOf, Extended, FieldsInv, ThreadsInv, LabelsInv, PhaseInv, Ranks;
    BoundsInv(cat, s);
    match a
    case Check(p) => ThreadNearer(cat, s, a, p);
    case Lock(p) => ThreadNearer(cat, s, a, p);
    case Take(p) => ThreadNearer(cat, s, a, p);
    case Give(p) => ThreadNearer(cat, s, a, p);
    case Load(p) => ThreadNearer(cat, s, a, p);
    case View(p) =>
    case _ => GateNearer(cat, s, a);
  }
}
