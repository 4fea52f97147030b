/** The ISM collapser of one sample: classification rows are grouped by
    associated transcript; every group other than "novel" with more than one
    member is reduced to one survivor, and the junction, expression and GTF
    tables follow that decision. */
module CollapseIsm {
  import opened Wrappers
  import opened Text
  import opened Order
  import opened Dicts
  import opened Tables
  import opened GtfAttributes

  const Novel := "novel"
  const FullSpliceMatch := "full_splice_match"
  /** Subcategory priority among full-splice matches, best first. */
  const FsmPriority: seq<string> := ["reference_match", "alternative_5end", "alternative_3end", "alternative_3end5end"]
  /** Subcategory priority when the group has no full-splice match, best first. */
  const IsmPriority: seq<string> := ["5prime_fragment", "3prime_fragment", "internal_fragment"]

  /** `priority.index(x) if x in priority else len(priority)`: the sort key
      of a subcategory; every unlisted subcategory shares the last rank. */
  function Rank(priority: seq<string>, x: string): (r: nat)
    ensures r <= |priority|
    ensures r < |priority| ==> priority[r] == x && x !in priority[..r]
    ensures r == |priority| <==> x !in priority
  {
    if priority == [] then 0
    else if priority[0] == x then 0
    else
      var r := 1 + Rank(priority[1..], x);
      assert priority[..r] == [priority[0]] + priority[1..][..r - 1];
      r
  }

  /** The rows of one `groupby("associated_transcript")` group, in table order. */
  function Group(rows: seq<ClassRow>, at: string): (g: seq<ClassRow>)
    ensures forall r :: r in g <==> r in rows && r.associatedTranscript == at
    ensures |g| <= |rows|
  {
    if rows == [] then []
    else
      var g := Group(rows[1..], at);
      if rows[0].associatedTranscript == at then [rows[0]] + g else g
  }

  /** The `isoform` column of some rows. */
  function Isoforms(rows: seq<ClassRow>): (r: seq<string>)
    ensures |r| == |rows|
    ensures forall i :: 0 <= i < |rows| ==> r[i] == rows[i].isoform
  {
    if rows == [] then [] else [rows[0].isoform] + Isoforms(rows[1..])
  }

  lemma IsoformsIn(rows: seq<ClassRow>, x: string)
    ensures x in Isoforms(rows) <==> exists r :: r in rows && r.isoform == x
  {
    var iso := Isoforms(rows);
    if x in iso {
      var i :| 0 <= i < |iso| && iso[i] == x;
      assert rows[i] in rows;
    }
  }

  function AssociatedTranscripts(rows: seq<ClassRow>): (r: seq<string>)
    ensures forall x :: x in r <==> exists row :: row in rows && row.associatedTranscript == x
  {
    if rows == [] then []
    else
      var r := [rows[0].associatedTranscript] + AssociatedTranscripts(rows[1..]);
      assert forall row :: row in rows <==> row == rows[0] || row in rows[1..];
      r
  }

  predicate IsFsm(r: ClassRow) {
    r.category == FullSpliceMatch
  }

  /** `"full_splice_match" in group["structural_category"]` */
  predicate HasFsm(group: seq<ClassRow>) {
    exists r :: r in group && IsFsm(r)
  }

  /** The rows of a group whose category is full_splice_match. */
  function FsmRows(group: seq<ClassRow>): (f: seq<ClassRow>)
    ensures forall r :: r in f <==> r in group && IsFsm(r)
  {
    if group == [] then []
    else
      var f := FsmRows(group[1..]);
      if IsFsm(group[0]) then [group[0]] + f else f
  }

  /** The selection rule: a member of the group; if the group holds a full
      splice match, a full splice match of least FSM rank; otherwise a member
      of least fragment rank, whatever its category. Which of several equally
      ranked members is chosen is left open. */
  predicate IsSurvivor(group: seq<ClassRow>, s: ClassRow) {
    && s in group
    && (HasFsm(group) ==>
          IsFsm(s) &&
          forall r :: r in group && IsFsm(r) ==> Rank(FsmPriority, s.subcategory) <= Rank(FsmPriority, r.subcategory))
    && (!HasFsm(group) ==>
          forall r :: r in group ==> Rank(IsmPriority, s.subcategory) <= Rank(IsmPriority, r.subcategory))
  }

  /** `sort_values(by="subcategory", key=rank).iloc[0]`: the index of a row of
      least rank. The sort is not stable, so the contract does not say which
      tied row comes first. */
  method LeastRanked(cands: seq<ClassRow>, priority: seq<string>) returns (k: nat)
    requires |cands| > 0
    ensures k < |cands|
    ensures forall j :: 0 <= j < |cands| ==> Rank(priority, cands[k].subcategory) <= Rank(priority, cands[j].subcategory)
  {
    k := 0;
    for i := 1 to |cands|
      invariant k < i
      invariant forall j :: 0 <= j < i ==> Rank(priority, cands[k].subcategory) <= Rank(priority, cands[j].subcategory)
    {
      if Rank(priority, cands[i].subcategory) < Rank(priority, cands[k].subcategory) {
        k := i;
      }
    }
  }

  /** Survivor choice for a group of several members. */
  method PickSurvivor(group: seq<ClassRow>) returns (s: ClassRow)
    requires |group| > 0
    ensures IsSurvivor(group, s)
  {
    var fsm := FsmRows(group);
    if |fsm| > 0 {
      assert fsm[0] in fsm;
      if |fsm| == 1 {
        s := fsm[0];
        assert forall r :: r in group && IsFsm(r) ==> r == s;
      } else {
        var k := LeastRanked(fsm, FsmPriority);
        s := fsm[k];
        forall r | r in group && IsFsm(r)
          ensures Rank(FsmPriority, s.subcategory) <= Rank(FsmPriority, r.subcategory)
        {
          var j :| 0 <= j < |fsm| && fsm[j] == r;
        }
      }
    } else {
      var k := LeastRanked(group, IsmPriority);
      s := group[k];
      forall r | r in group
        ensures Rank(IsmPriority, s.subcategory) <= Rank(IsmPriority, r.subcategory)
      {
        var j :| 0 <= j < |group| && group[j] == r;
      }
    }
  }

  /** `[i for i in isoforms if i != survivor]` */
  function Removed(group: seq<ClassRow>, survivor: string): (r: seq<string>)
    ensures forall x :: x in r <==> x != survivor && exists m :: m in group && m.isoform == x
    ensures survivor !in r
  {
    if group == [] then []
    else
      var rest := Removed(group[1..], survivor);
      assert forall m :: m in group <==> m == group[0] || m in group[1..];
      if group[0].isoform != survivor then [group[0].isoform] + rest else rest
  }

  /** Groups that are collapsed: not "novel" and more than one member. */
  predicate Collapsible(rows: seq<ClassRow>, at: string) {
    at != Novel && |Group(rows, at)| > 1
  }

  /** Groups whose members all pass through: "novel", or a single member. */
  predicate PassesThrough(rows: seq<ClassRow>, at: string) {
    at == Novel || |Group(rows, at)| == 1
  }

  /** The isoform column is a key of the table. */
  predicate UniqueIds(rows: seq<ClassRow>) {
    forall i, j :: 0 <= i < j < |rows| ==> rows[i].isoform != rows[j].isoform
  }

  /** `survivorOf` assigns a survivor to exactly the collapsible groups among
      `done`, each chosen by the selection rule. */
  ghost predicate ChoiceOn(rows: seq<ClassRow>, done: set<string>, survivorOf: map<string, ClassRow>) {
    && (forall at :: at in survivorOf <==> at in done && Collapsible(rows, at))
    && (forall at | at in survivorOf :: IsSurvivor(Group(rows, at), survivorOf[at]))
  }

  ghost function AllGroups(rows: seq<ClassRow>): set<string> {
    set r | r in rows :: r.associatedTranscript
  }

  /** A survivor assignment for every collapsible group of the table. */
  ghost predicate ValidChoice(rows: seq<ClassRow>, survivorOf: map<string, ClassRow>) {
    ChoiceOn(rows, AllGroups(rows), survivorOf)
  }

  ghost function SurvivorIds(survivorOf: map<string, ClassRow>): set<string> {
    set at | at in survivorOf :: survivorOf[at].isoform
  }

  /** Isoforms of the pass-through groups among `done`. */
  ghost function PassedThrough(rows: seq<ClassRow>, done: set<string>): set<string> {
    set r | r in rows && r.associatedTranscript in done && PassesThrough(rows, r.associatedTranscript) :: r.isoform
  }

  /** What ends up in `kept`: pass-through isoforms and the survivors. */
  ghost function KeptSet(rows: seq<ClassRow>, survivorOf: map<string, ClassRow>): set<string> {
    PassedThrough(rows, AllGroups(rows)) + SurvivorIds(survivorOf)
  }

  /** What ends up in `dropped`: every other member of a collapsed group. */
  ghost function DroppedSet(rows: seq<ClassRow>, survivorOf: map<string, ClassRow>): set<string> {
    set at, x | at in survivorOf && x in Removed(Group(rows, at), survivorOf[at].isoform) :: x
  }

  /** Removed lists of distinct survivors share nothing, and no survivor is
      listed as removed under any survivor. */
  ghost predicate CollapseRecordOk(d: Dict<string, seq<string>>) {
    && d.Valid()
    && (forall s, t, x :: s in d.entries && t in d.entries && s != t && x in d.entries[s] ==> x !in d.entries[t])
    && (forall s, t :: s in d.entries && t in d.entries ==> s !in d.entries[t])
  }

  /** With unique isoform ids, two different rows have different ids. */
  lemma DistinctRowsDistinctIds(rows: seq<ClassRow>, m: ClassRow, n: ClassRow)
    requires UniqueIds(rows) && m in rows && n in rows && m != n
    ensures m.isoform != n.isoform
  {
    var i :| 0 <= i < |rows| && rows[i] == m;
    var j :| 0 <= j < |rows| && rows[j] == n;
    if i < j {
      assert rows[i].isoform != rows[j].isoform;
    } else {
      assert rows[j].isoform != rows[i].isoform;
    }
  }

  /** Members of different groups are different rows, so they carry
      different ids. */
  lemma OtherGroupOtherIds(rows: seq<ClassRow>, a: string, b: string, m: ClassRow)
    requires UniqueIds(rows) && a != b && m in Group(rows, a)
    ensures forall n :: n in Group(rows, b) ==> n.isoform != m.isoform
  {
    forall n | n in Group(rows, b)
      ensures n.isoform != m.isoform
    {
      DistinctRowsDistinctIds(rows, m, n);
    }
  }

  /** The groups handled by the first `i` iterations. */
  ghost function Visited(keys: seq<string>, i: nat): set<string>
    requires i <= |keys|
  {
    set k | k in keys[..i]
  }

  lemma VisitedStep(keys: seq<string>, i: nat)
    requires i < |keys|
    ensures Visited(keys, i + 1) == Visited(keys, i) + {keys[i]}
  {
    assert keys[..i + 1] == keys[..i] + [keys[i]];
  }
  /** `kept` lists the pass-through isoforms of the groups in `done` and the
      survivors chosen so far. */
  ghost predicate KeptOk(rows: seq<ClassRow>, done: set<string>, kept: seq<string>, survivorOf: map<string, ClassRow>) {
    (set x | x in kept) == PassedThrough(rows, done) + SurvivorIds(survivorOf)
  }

  /** The collapse record maps each chosen survivor to its group's other members. */
  ghost predicate RecordMatches(rows: seq<ClassRow>, collapsed: Dict<string, seq<string>>, survivorOf: map<string, ClassRow>) {
    && collapsed.Valid() && collapsed.entries.Keys == SurvivorIds(survivorOf)
    && (UniqueIds(rows) ==>
          forall at | at in survivorOf ::
            collapsed.entries[survivorOf[at].isoform] == Removed(Group(rows, at), survivorOf[at].isoform))
  }

  /** What the grouping loop has built after handling the groups in `done`. */
  ghost predicate LoopInv(rows: seq<ClassRow>, done: set<string>, kept: seq<string>, dropped: seq<string>,
                          collapsed: Dict<string, seq<string>>, survivorOf: map<string, ClassRow>)
  {
    && ChoiceOn(rows, done, survivorOf)
    && KeptOk(rows, done, kept, survivorOf)
    && (set x | x in dropped) == DroppedSet(rows, survivorOf)
    && RecordMatches(rows, collapsed, survivorOf)
  }

  /** The grouping loop of `collapse_ISM`: visits the groups in sorted order
      and fills `kept`, `dropped` and `collapsed_dict`. The ghost result
      `survivorOf` records, per collapsed group, the row chosen. */
  method CollapseGroups(rows: seq<ClassRow>)
    returns (kept: seq<string>, dropped: seq<string>, collapsed: Dict<string, seq<string>>,
             ghost survivorOf: map<string, ClassRow>)
    ensures ValidChoice(rows, survivorOf)
    ensures (set x | x in kept) == KeptSet(rows, survivorOf)
    ensures (set x | x in dropped) == DroppedSet(rows, survivorOf)
    ensures collapsed.Valid() && collapsed.entries.Keys == SurvivorIds(survivorOf)
    ensures UniqueIds(rows) ==>
      forall at | at in survivorOf ::
        collapsed.entries[survivorOf[at].isoform] == Removed(Group(rows, at), survivorOf[at].isoform)
  {
    var keys := SortedKeys(AssociatedTranscripts(rows));
    kept, dropped, collapsed, survivorOf := [], [], Empty(), map[];
    assert (set x | x in dropped) == {};
    for i := 0 to |keys|
      invariant LoopInv(rows, Visited(keys, i), kept, dropped, collapsed, survivorOf)
    {
      var at := keys[i];
      VisitedStep(keys, i);
      SortedDistinct(keys, i);
      var group := Group(rows, at);
      NonEmptyGroup(rows, at);
      if at == Novel || |group| == 1 {
        PassStep(rows, Visited(keys, i), at, kept, dropped, collapsed, survivorOf);
        kept := kept + Isoforms(group);
      } else {
        var s := PickSurvivor(group);
        var removed := Removed(group, s.isoform);
        CollapseStep(rows, Visited(keys, i), at, s, kept, dropped, collapsed, survivorOf);
        collapsed := collapsed.Put(s.isoform, removed);
        kept := kept + [s.isoform];
        dropped := dropped + removed;
        survivorOf := survivorOf[at := s];
      }
    }
    assert Visited(keys, |keys|) == AllGroups(rows) by {
      assert keys[..|keys|] == keys;
    }
  }

  lemma NonEmptyGroup(rows: seq<ClassRow>, at: string)
    requires at in AssociatedTranscripts(rows)
    ensures |Group(rows, at)| > 0
  {
    var r :| r in rows && r.associatedTranscript == at;
    assert r in Group(rows, at);
  }

  lemma PassStep(rows: seq<ClassRow>, done: set<string>, at: string, kept: seq<string>, dropped: seq<string>,
                 collapsed: Dict<string, seq<string>>, survivorOf: map<string, ClassRow>)
    requires LoopInv(rows, done, kept, dropped, collapsed, survivorOf)
    requires at !in done && PassesThrough(rows, at)
    ensures LoopInv(rows, done + {at}, kept + Isoforms(Group(rows, at)), dropped, collapsed, survivorOf)
  {
    PassChoice(rows, done, at, survivorOf);
    PassKept(rows, done, at, kept, survivorOf);
  }

  lemma PassChoice(rows: seq<ClassRow>, done: set<string>, at: string, survivorOf: map<string, ClassRow>)
    requires ChoiceOn(rows, done, survivorOf) && PassesThrough(rows, at)
    ensures ChoiceOn(rows, done + {at}, survivorOf)
  {
  }

  lemma PassKept(rows: seq<ClassRow>, done: set<string>, at: string, kept: seq<string>, survivorOf: map<string, ClassRow>)
    requires KeptOk(rows, done, kept, survivorOf) && PassesThrough(rows, at)
    ensures KeptOk(rows, done + {at}, kept + Isoforms(Group(rows, at)), survivorOf)
  {
    var iso := Isoforms(Group(rows, at));
    assert (set x | x in kept + iso) == (set x | x in kept) + (set x | x in iso);
    PassThroughStep(rows, done, at);
  }

  lemma PassThroughStep(rows: seq<ClassRow>, done: set<string>, at: string)
    requires PassesThrough(rows, at)
    ensures PassedThrough(rows, done + {at}) ==
            PassedThrough(rows, done) + (set x | x in Isoforms(Group(rows, at)))
  {
    forall x | x in Isoforms(Group(rows, at))
      ensures x in PassedThrough(rows, done + {at})
    {
      IsoformsIn(Group(rows, at), x);
    }
    forall x | x in PassedThrough(rows, done + {at}) && x !in PassedThrough(rows, done)
      ensures x in Isoforms(Group(rows, at))
    {
      var r :| r in rows && r.associatedTranscript in done + {at} && PassesThrough(rows, r.associatedTranscript) && r.isoform == x;
      IsoformsIn(Group(rows, at), x);
    }
  }

  lemma CollapseStep(rows: seq<ClassRow>, done: set<string>, at: string, s: ClassRow, kept: seq<string>, dropped: seq<string>,
                     collapsed: Dict<string, seq<string>>, survivorOf: map<string, ClassRow>)
    requires LoopInv(rows, done, kept, dropped, collapsed, survivorOf)
    requires at !in done && Collapsible(rows, at) && IsSurvivor(Group(rows, at), s)
    ensures var removed := Removed(Group(rows, at), s.isoform);
      LoopInv(rows, done + {at}, kept + [s.isoform], dropped + removed,
              collapsed.Put(s.isoform, removed), survivorOf[at := s])
  {
    var removed := Removed(Group(rows, at), s.isoform);
    assert ChoiceOn(rows, done, survivorOf);
    assert at !in survivorOf;
    CollapseChoice(rows, done, at, s, survivorOf);
    CollapseKept(rows, done, at, s, kept, survivorOf);
    CollapseDropped(rows, at, s, dropped, survivorOf);
    CollapseRecord(rows, at, s, collapsed, survivorOf);
  }

  lemma CollapseChoice(rows: seq<ClassRow>, done: set<string>, at: string, s: ClassRow, survivorOf: map<string, ClassRow>)
    requires ChoiceOn(rows, done, survivorOf)
    requires Collapsible(rows, at) && IsSurvivor(Group(rows, at), s)
    ensures ChoiceOn(rows, done + {at}, survivorOf[at := s])
  {
  }

  lemma CollapseKept(rows: seq<ClassRow>, done: set<string>, at: string, s: ClassRow, kept: seq<string>, survivorOf: map<string, ClassRow>)
    requires KeptOk(rows, done, kept, survivorOf) && Collapsible(rows, at) && at !in survivorOf
    ensures KeptOk(rows, done + {at}, kept + [s.isoform], survivorOf[at := s])
  {
    SurvivorIdsStep(survivorOf, at, s);
    assert PassedThrough(rows, done + {at}) == PassedThrough(rows, done);
    assert (set x | x in kept + [s.isoform]) == (set x | x in kept) + {s.isoform};
  }

  lemma SurvivorIdsStep(survivorOf: map<string, ClassRow>, at: string, s: ClassRow)
    requires at !in survivorOf
    ensures SurvivorIds(survivorOf[at := s]) == SurvivorIds(survivorOf) + {s.isoform}
  {
    var surv := survivorOf[at := s];
    forall x | x in SurvivorIds(surv)
      ensures x in SurvivorIds(survivorOf) + {s.isoform}
    {
      var a :| a in surv && surv[a].isoform == x;
      if a != at {
        assert a in survivorOf && survivorOf[a] == surv[a];
      }
    }
    forall x | x in SurvivorIds(survivorOf)
      ensures x in SurvivorIds(surv)
    {
      var a :| a in survivorOf && survivorOf[a].isoform == x;
      assert a in surv && surv[a] == survivorOf[a];
    }
    assert at in surv && surv[at] == s;
  }

  lemma CollapseRecord(rows: seq<ClassRow>, at: string, s: ClassRow, collapsed: Dict<string, seq<string>>,
                       survivorOf: map<string, ClassRow>)
    requires RecordMatches(rows, collapsed, survivorOf) && at !in survivorOf
    requires forall a | a in survivorOf :: survivorOf[a] in Group(rows, a)
    requires s in Group(rows, at)
    ensures RecordMatches(rows, collapsed.Put(s.isoform, Removed(Group(rows, at), s.isoform)), survivorOf[at := s])
  {
    var removed := Removed(Group(rows, at), s.isoform);
    RecordKeysStep(collapsed, survivorOf, at, s, removed);
    if UniqueIds(rows) {
      forall a | a in survivorOf
        ensures survivorOf[a] in rows && survivorOf[a].associatedTranscript == a && survivorOf[a].isoform in collapsed.entries
      {
        assert survivorOf[a] in Group(rows, a);
        assert survivorOf[a].isoform in SurvivorIds(survivorOf);
      }
      assert s in rows && s.associatedTranscript == at;
      RecordEntriesStep(rows, at, s, collapsed.entries, survivorOf);
    }
  }

  lemma RecordKeysStep(collapsed: Dict<string, seq<string>>, survivorOf: map<string, ClassRow>, at: string, s: ClassRow,
                       removed: seq<string>)
    requires collapsed.Valid() && collapsed.entries.Keys == SurvivorIds(survivorOf) && at !in survivorOf
    ensures var d := collapsed.Put(s.isoform, removed);
      d.Valid() && d.entries.Keys == SurvivorIds(survivorOf[at := s])
  {
    SurvivorIdsStep(survivorOf, at, s);
  }

  lemma RecordEntriesStep(rows: seq<ClassRow>, at: string, s: ClassRow, entries: map<string, seq<string>>,
                          survivorOf: map<string, ClassRow>)
    requires UniqueIds(rows) && at !in survivorOf && s in rows && s.associatedTranscript == at
    requires forall a | a in survivorOf ::
      survivorOf[a] in rows && survivorOf[a].associatedTranscript == a && survivorOf[a].isoform in entries
    requires forall a | a in survivorOf ::
      entries[survivorOf[a].isoform] == Removed(Group(rows, a), survivorOf[a].isoform)
    ensures var surv := survivorOf[at := s];
      var e := entries[s.isoform := Removed(Group(rows, at), s.isoform)];
      forall a | a in surv :: e[surv[a].isoform] == Removed(Group(rows, a), surv[a].isoform)
  {
    var surv := survivorOf[at := s];
    var e := entries[s.isoform := Removed(Group(rows, at), s.isoform)];
    forall a | a in surv
      ensures e[surv[a].isoform] == Removed(Group(rows, a), surv[a].isoform)
    {
      if a != at {
        DistinctRowsDistinctIds(rows, survivorOf[a], s);
      }
    }
  }

  lemma CollapseDropped(rows: seq<ClassRow>, at: string, s: ClassRow, dropped: seq<string>, survivorOf: map<string, ClassRow>)
    requires (set x | x in dropped) == DroppedSet(rows, survivorOf) && at !in survivorOf
    ensures var removed := Removed(Group(rows, at), s.isoform);
      (set x | x in dropped + removed) == DroppedSet(rows, survivorOf[at := s])
  {
    var removed := Removed(Group(rows, at), s.isoform);
    assert (set x | x in dropped + removed) == (set x | x in dropped) + (set x | x in removed);
    DroppedStep(rows, survivorOf, at, s);
  }

  lemma DroppedStep(rows: seq<ClassRow>, survivorOf: map<string, ClassRow>, at: string, s: ClassRow)
    requires at !in survivorOf
    ensures DroppedSet(rows, survivorOf[at := s]) ==
            DroppedSet(rows, survivorOf) + (set x | x in Removed(Group(rows, at), s.isoform))
  {
    var surv := survivorOf[at := s];
    forall x | x in DroppedSet(rows, surv)
      ensures x in DroppedSet(rows, survivorOf) || x in Removed(Group(rows, at), s.isoform)
    {
      var a :| a in surv && x in Removed(Group(rows, a), surv[a].isoform);
      if a != at {
        assert a in survivorOf && surv[a] == survivorOf[a];
      }
    }
    forall x | x in DroppedSet(rows, survivorOf)
      ensures x in DroppedSet(rows, surv)
    {
      var a :| a in survivorOf && x in Removed(Group(rows, a), survivorOf[a].isoform);
      assert a in surv && surv[a] == survivorOf[a];
    }
    forall x | x in Removed(Group(rows, at), s.isoform)
      ensures x in DroppedSet(rows, surv)
    {
      assert at in surv && surv[at] == s;
    }
  }

  /** `class_df[class_df["isoform"].isin(kept)]` */
  function KeepIsoforms(rows: seq<ClassRow>, keep: set<string>): (r: seq<ClassRow>)
    ensures forall x :: x in r <==> x in rows && x.isoform in keep
    ensures |r| <= |rows|
  {
    if rows == [] then []
    else
      var r := KeepIsoforms(rows[1..], keep);
      if rows[0].isoform in keep then [rows[0]] + r else r
  }

  /** `junc_df[~junc_df["isoform"].isin(dropped)]` */
  function DropJunctions(rows: seq<JunctionRow>, drop: set<string>): (r: seq<JunctionRow>)
    ensures forall x :: x in r <==> x in rows && x.isoform !in drop
    ensures |r| <= |rows|
  {
    if rows == [] then []
    else
      var r := DropJunctions(rows[1..], drop);
      if rows[0].isoform !in drop then [rows[0]] + r else r
  }

  /** The survivor whose removed list holds `x`, searching survivors in
      insertion order, or `x` itself when no list holds it: the first
      owner in that order, as `next(...)` yields it. */
  function FindOwner(keys: seq<string>, entries: map<string, seq<string>>, x: string): (s: string)
    requires forall k :: k in keys ==> k in entries
    ensures s == x || (s in keys && x in entries[s])
    ensures (forall k :: k in keys ==> x !in entries[k]) ==> s == x
    ensures (exists i :: 0 <= i < |keys| && x in entries[keys[i]]) ==>
      exists i :: 0 <= i < |keys| && s == keys[i] && x in entries[s] && forall j :: 0 <= j < i ==> x !in entries[keys[j]]
  {
    if keys == [] then x
    else if x in entries[keys[0]] then keys[0]
    else FindOwner(keys[1..], entries, x)
  }

  /** The `survivor` column computed for an expression row with id `x`:
      a survivor of the record whose removed list holds `x`, or `x` itself
      exactly when no list holds it. */
  function SurvivorFor(d: Dict<string, seq<string>>, x: string): (s: string)
    requires d.Valid()
    ensures (exists k :: k in d.entries && x in d.entries[k]) ==> s in d.entries && x in d.entries[s]
    ensures (forall k :: k in d.entries ==> x !in d.entries[k]) ==> s == x
  {
    FindOwner(d.keys, d.entries, x)
  }

  /** In a well-formed collapse record an id maps to the survivor that
      removed it, and every other id to itself. */
  lemma SurvivorForOk(d: Dict<string, seq<string>>, x: string)
    requires CollapseRecordOk(d)
    ensures forall s :: s in d.entries && x in d.entries[s] ==> SurvivorFor(d, x) == s
    ensures (forall s :: s in d.entries ==> x !in d.entries[s]) ==> SurvivorFor(d, x) == x
  {
    forall s | s in d.entries && x in d.entries[s]
      ensures SurvivorFor(d, x) == s
    {
      FindOwnerUnique(d.keys, d.entries, x, s);
    }
  }

  lemma FindOwnerUnique(keys: seq<string>, entries: map<string, seq<string>>, x: string, s: string)
    requires forall k :: k in keys ==> k in entries
    requires s in keys && x in entries[s]
    requires forall t :: t in keys && t != s ==> x !in entries[t]
    ensures FindOwner(keys, entries, x) == s
  {
    if keys[0] != s {
      FindOwnerUnique(keys[1..], entries, x, s);
    }
  }

  /** The expression rows re-keyed to survivor `s`, in table order. */
  function Members(expr: seq<ExprRow>, d: Dict<string, seq<string>>, s: string): (m: seq<ExprRow>)
    requires d.Valid()
    ensures forall e :: e in m <==> e in expr && SurvivorFor(d, e.id) == s
    ensures |m| <= |expr|
  {
    if expr == [] then []
    else
      var m := Members(expr[1..], d, s);
      if SurvivorFor(d, expr[0].id) == s then [expr[0]] + m else m
  }

  /** Sum of the second column. */
  function Total(rows: seq<ExprRow>): int {
    if rows == [] then 0 else rows[0].value + Total(rows[1..])
  }

  function SurvivorColumn(expr: seq<ExprRow>, d: Dict<string, seq<string>>): (r: seq<string>)
    requires d.Valid()
    ensures forall s :: s in r <==> exists e :: e in expr && SurvivorFor(d, e.id) == s
  {
    if expr == [] then []
    else
      assert forall e :: e in expr <==> e == expr[0] || e in expr[1..];
      [SurvivorFor(d, expr[0].id)] + SurvivorColumn(expr[1..], d)
  }

  /** One `groupby('survivor').agg(first, sum)` row per key of `keys`: the
      first row's original id and the group's total. */
  function MergedAsWritten(expr: seq<ExprRow>, d: Dict<string, seq<string>>, keys: seq<string>): (r: seq<ExprRow>)
    requires d.Valid()
    requires forall s :: s in keys ==> s in SurvivorColumn(expr, d)
    ensures |r| == |keys|
    ensures forall i :: 0 <= i < |keys| ==>
      var m := Members(expr, d, keys[i]); |m| > 0 && r[i] == ExprRow(m[0].id, Total(m), [])
  {
    if keys == [] then []
    else
      var m := Members(expr, d, keys[0]);
      assert m != [] by {
        assert keys[0] in SurvivorColumn(expr, d);
        var e :| e in expr && SurvivorFor(d, e.id) == keys[0];
        assert e in m;
      }
      [ExprRow(m[0].id, Total(m), [])] + MergedAsWritten(expr, d, keys[1..])
  }

  /** `expr_df[expr_df[first column].isin(kept)]` */
  function KeepExpression(rows: seq<ExprRow>, keep: set<string>): (r: seq<ExprRow>)
    ensures forall x :: x in r <==> x in rows && x.id in keep
  {
    if rows == [] then []
    else
      var r := KeepExpression(rows[1..], keep);
      if rows[0].id in keep then [rows[0]] + r else r
  }

  /** `o` is the merged row of some survivor group: it carries the id of the
      group's first row and the group's total. */
  ghost predicate FirstIdRow(expr: seq<ExprRow>, d: Dict<string, seq<string>>, o: ExprRow)
    requires d.Valid()
  {
    exists s :: s in SurvivorColumn(expr, d) && var m := Members(expr, d, s); |m| > 0 && o == ExprRow(m[0].id, Total(m), [])
  }

  /** The expression update of `collapse_ISM` as written: rows are grouped by
      survivor (groups in sorted order), each group becomes one row holding
      the FIRST row's original id and the summed count, and only rows whose
      id is kept remain. */
  function RekeyExpression(expr: seq<ExprRow>, d: Dict<string, seq<string>>, kept: set<string>): (r: seq<ExprRow>)
    requires d.Valid()
    ensures forall o :: o in r <==> o.id in kept && FirstIdRow(expr, d, o)
  {
    var keys := SortedKeys(SurvivorColumn(expr, d));
    var merged := MergedAsWritten(expr, d, keys);
    var r := KeepExpression(merged, kept);
    assert forall o :: o in r ==> o in merged;
    forall o | o in r
      ensures FirstIdRow(expr, d, o)
    {
      var i :| 0 <= i < |merged| && merged[i] == o;
      assert keys[i] in keys;
    }
    forall o: ExprRow | o.id in kept && FirstIdRow(expr, d, o)
      ensures o in r
    {
      var t :| t in SurvivorColumn(expr, d) && var m := Members(expr, d, t); |m| > 0 && o == ExprRow(m[0].id, Total(m), []);
      var i :| 0 <= i < |keys| && keys[i] == t;
      assert merged[i] == o;
    }
    r
  }

  /** The survivor's merged row, with the survivor's own id. */
  function MergedBySurvivor(expr: seq<ExprRow>, d: Dict<string, seq<string>>, keys: seq<string>): (r: seq<ExprRow>)
    requires d.Valid()
    ensures |r| == |keys|
    ensures forall i :: 0 <= i < |keys| ==> r[i] == ExprRow(keys[i], Total(Members(expr, d, keys[i])), [])
  {
    if keys == [] then []
    else [ExprRow(keys[0], Total(Members(expr, d, keys[0])), [])] + MergedBySurvivor(expr, d, keys[1..])
  }

  /** Corrected re-keying: each survivor group becomes one row keyed by the
      survivor itself, so the group's evidence stays with the survivor. */
  function RekeyBySurvivor(expr: seq<ExprRow>, d: Dict<string, seq<string>>, kept: set<string>): (r: seq<ExprRow>)
    requires d.Valid()
    ensures forall o :: o in r <==>
      o.id in kept && o.id in SurvivorColumn(expr, d) && o == ExprRow(o.id, Total(Members(expr, d, o.id)), [])
  {
    var keys := SortedKeys(SurvivorColumn(expr, d));
    var merged := MergedBySurvivor(expr, d, keys);
    forall o: ExprRow | o.id in kept && o.id in SurvivorColumn(expr, d) && o == ExprRow(o.id, Total(Members(expr, d, o.id)), [])
      ensures o in merged
    {
      var i :| 0 <= i < |keys| && keys[i] == o.id;
    }
    KeepExpression(merged, kept)
  }

  /** Total of the rows whose id is in `ids`. */
  function TotalOf(expr: seq<ExprRow>, ids: set<string>): int {
    if expr == [] then 0
    else (if expr[0].id in ids then expr[0].value else 0) + TotalOf(expr[1..], ids)
  }

  lemma {:induction false} MembersTotal(expr: seq<ExprRow>, d: Dict<string, seq<string>>, s: string)
    requires CollapseRecordOk(d) && s in d.entries
    ensures Total(Members(expr, d, s)) == TotalOf(expr, {s} + set x | x in d.entries[s])
  {
    if expr != [] {
      MembersTotal(expr[1..], d, s);
      SurvivorIs(d, expr[0].id, s);
    }
  }

  /** In a well-formed record, an id maps to survivor `s` exactly when it is
      `s` or one of the isoforms `s` removed. */
  lemma SurvivorIs(d: Dict<string, seq<string>>, x: string, s: string)
    requires CollapseRecordOk(d) && s in d.entries
    ensures SurvivorFor(d, x) == s <==> x in {s} + set y | y in d.entries[s]
  {
    SurvivorForOk(d, x);
    if x == s {
      assert forall k :: k in d.entries ==> x !in d.entries[k];
    }
  }

  /** Evidence conservation for the corrected re-keying: a kept survivor with
      any expression evidence gets one row whose count is the sum of the
      counts of the survivor and of every isoform merged into it. */
  lemma EvidenceConserved(expr: seq<ExprRow>, d: Dict<string, seq<string>>, kept: set<string>, s: string)
    requires CollapseRecordOk(d) && s in d.entries && s in kept
    requires exists e :: e in expr && (e.id == s || e.id in d.entries[s])
    ensures ExprRow(s, TotalOf(expr, {s} + set x | x in d.entries[s]), []) in RekeyBySurvivor(expr, d, kept)
  {
    var e :| e in expr && (e.id == s || e.id in d.entries[s]);
    SurvivorForOk(d, e.id);
    assert s in SurvivorColumn(expr, d);
    MembersTotal(expr, d, s);
  }

  /** The defect of the code as written: when the first expression row of a
      survivor's group belongs to an isoform it absorbed, the merged row
      carries that absorbed id, so no row is keyed by the survivor and its
      merged evidence survives only under an id the `isin(kept)` filter
      discards. */
  lemma AsWrittenLosesEvidence(expr: seq<ExprRow>, d: Dict<string, seq<string>>, kept: set<string>, s: string)
    requires CollapseRecordOk(d) && s in d.entries
    requires |expr| > 0 && expr[0].id in d.entries[s]
    ensures forall o :: o in RekeyExpression(expr, d, kept) ==> o.id != s
  {
    SurvivorForOk(d, expr[0].id);
    SurvivorForOk(d, s);
    assert SurvivorFor(d, s) == s;
    assert Members(expr, d, s)[0] == expr[0];
    forall o | o in RekeyExpression(expr, d, kept)
      ensures o.id != s
    {
      var t :| t in SurvivorColumn(expr, d) && var m := Members(expr, d, t); |m| > 0 && o == ExprRow(m[0].id, Total(m), []);
      var m := Members(expr, d, t);
      assert m[0] in m;
      assert SurvivorFor(d, o.id) == t;
      if t == s {
        assert o.id == expr[0].id;
        assert s !in d.entries[s];
      }
    }
  }

  /** The grouping of the example below: both rows belong to survivor "A". */
  lemma ExampleGroup()
    ensures var d := Dict(["A"], map["A" := ["B"]]);
            var expr := [ExprRow("B", 5, []), ExprRow("A", 10, [])];
            && SortedKeys(SurvivorColumn(expr, d)) == ["A"]
            && Members(expr, d, "A") == expr
  {
    var d := Dict(["A"], map["A" := ["B"]]);
    var expr := [ExprRow("B", 5, []), ExprRow("A", 10, [])];
    assert SurvivorFor(d, "B") == "A";
    assert SurvivorFor(d, "A") == "A";
    SortedKeysConstant(SurvivorColumn(expr, d), "A");
  }

  /** A concrete instance: survivor "A" absorbed "B"; the expression table
      lists B (count 5) before A (count 10). As written, no row survives;
      the corrected re-keying keeps A with 15. */
  lemma AsWrittenCounterexample()
    ensures var d := Dict(["A"], map["A" := ["B"]]);
            var expr := [ExprRow("B", 5, []), ExprRow("A", 10, [])];
            RekeyExpression(expr, d, {"A"}) == [] &&
            RekeyBySurvivor(expr, d, {"A"}) == [ExprRow("A", 15, [])]
  {
    var d := Dict(["A"], map["A" := ["B"]]);
    var expr := [ExprRow("B", 5, []), ExprRow("A", 10, [])];
    ExampleGroup();
    assert MergedAsWritten(expr, d, ["A"]) == [ExprRow("B", 15, [])];
    assert MergedBySurvivor(expr, d, ["A"]) == [ExprRow("A", 15, [])];
  }

  /** `collapse_ISM(sample, class_df, junc_df, expr_df)`: the collapsed
      classification, junction and expression tables and the sample's
      collapse record. The expression table is re-keyed as written
      (`RekeyExpression`); `RekeyBySurvivor` is the corrected re-keying. */
  method CollapseIsm(sample: string, rows: seq<ClassRow>, junctions: seq<JunctionRow>, expr: Option<seq<ExprRow>>)
    returns (classOut: seq<ClassRow>, junctionsOut: seq<JunctionRow>, exprOut: Option<seq<ExprRow>>,
             record: (string, Dict<string, seq<string>>), ghost survivorOf: map<string, ClassRow>)
    ensures ValidChoice(rows, survivorOf)
    ensures record.0 == sample && record.1.Valid() && record.1.entries.Keys == SurvivorIds(survivorOf)
    ensures classOut == KeepIsoforms(rows, KeptSet(rows, survivorOf))
    ensures junctionsOut == DropJunctions(junctions, DroppedSet(rows, survivorOf))
    ensures exprOut.None? <==> expr.None?
    ensures expr.Some? ==> exprOut == Some(RekeyExpression(expr.value, record.1, KeptSet(rows, survivorOf)))
    ensures UniqueIds(rows) ==> CollapseRecordOk(record.1)
    ensures UniqueIds(rows) ==>
      forall at | at in survivorOf ::
        record.1.entries[survivorOf[at].isoform] == Removed(Group(rows, at), survivorOf[at].isoform)
  {
    var kept, dropped, collapsed;
    kept, dropped, collapsed, survivorOf := CollapseGroups(rows);
    var keptSet := set x | x in kept;
    var droppedSet := set x | x in dropped;
    classOut := KeepIsoforms(rows, keptSet);
    junctionsOut := DropJunctions(junctions, droppedSet);
    if expr.Some? {
      exprOut := Some(RekeyExpression(expr.value, collapsed, keptSet));
    } else {
      exprOut := None;
    }
    record := (sample, collapsed);
    if UniqueIds(rows) {
      RecordOk(rows, survivorOf, collapsed);
    }
  }

  lemma RemovedListsDisjoint(rows: seq<ClassRow>, survivorOf: map<string, ClassRow>, a: string, b: string, x: string)
    requires UniqueIds(rows) && a != b
    requires a in survivorOf && b in survivorOf
    requires x in Removed(Group(rows, a), survivorOf[a].isoform)
    ensures x !in Removed(Group(rows, b), survivorOf[b].isoform)
  {
    var m :| m in Group(rows, a) && m.isoform == x;
    assert m in rows && m.associatedTranscript == a;
    forall n | n in Group(rows, b)
      ensures n.isoform != x
    {
      DistinctRowsDistinctIds(rows, m, n);
    }
  }

  lemma SurvivorNotRemoved(rows: seq<ClassRow>, survivorOf: map<string, ClassRow>, a: string, b: string)
    requires UniqueIds(rows) && ValidChoice(rows, survivorOf)
    requires a in survivorOf && b in survivorOf
    ensures survivorOf[a].isoform !in Removed(Group(rows, b), survivorOf[b].isoform)
  {
    if a != b {
      var s := survivorOf[a];
      assert s in Group(rows, a);
      assert s in rows && s.associatedTranscript == a;
      forall n | n in Group(rows, b)
        ensures n.isoform != s.isoform
      {
        DistinctRowsDistinctIds(rows, s, n);
      }
    }
  }

  /** The collapse record of a table with unique isoform ids is well formed. */
  lemma RecordOk(rows: seq<ClassRow>, survivorOf: map<string, ClassRow>, d: Dict<string, seq<string>>)
    requires UniqueIds(rows) && ValidChoice(rows, survivorOf)
    requires d.Valid() && d.entries.Keys == SurvivorIds(survivorOf)
    requires forall at | at in survivorOf ::
      d.entries[survivorOf[at].isoform] == Removed(Group(rows, at), survivorOf[at].isoform)
    ensures CollapseRecordOk(d)
  {
    forall s, t, x | s in d.entries && t in d.entries && s != t && x in d.entries[s]
      ensures x !in d.entries[t]
    {
      var a :| a in survivorOf && survivorOf[a].isoform == s;
      var b :| b in survivorOf && survivorOf[b].isoform == t;
      RemovedListsDisjoint(rows, survivorOf, a, b, x);
    }
    forall s, t | s in d.entries && t in d.entries
      ensures s !in d.entries[t]
    {
      var a :| a in survivorOf && survivorOf[a].isoform == s;
      var b :| b in survivorOf && survivorOf[b].isoform == t;
      SurvivorNotRemoved(rows, survivorOf, a, b);
    }
  }

  /** Every row of a "novel" group is kept and never dropped. */
  lemma NovelPassesThrough(rows: seq<ClassRow>, survivorOf: map<string, ClassRow>, r: ClassRow)
    requires UniqueIds(rows) && ValidChoice(rows, survivorOf)
    requires r in rows && r.associatedTranscript == Novel
    ensures r.isoform in KeptSet(rows, survivorOf)
    ensures r.isoform !in DroppedSet(rows, survivorOf)
  {
    NotDropped(rows, survivorOf, r);
  }

  /** The only member of a singleton group is kept, is never dropped and
      heads no entry of the collapse record. */
  lemma SingletonPassesThrough(rows: seq<ClassRow>, survivorOf: map<string, ClassRow>, r: ClassRow)
    requires UniqueIds(rows) && ValidChoice(rows, survivorOf)
    requires r in rows && |Group(rows, r.associatedTranscript)| == 1
    ensures r.isoform in KeptSet(rows, survivorOf)
    ensures r.isoform !in DroppedSet(rows, survivorOf)
    ensures r.associatedTranscript !in survivorOf && r.isoform !in SurvivorIds(survivorOf)
  {
    NotDropped(rows, survivorOf, r);
    forall a | a in survivorOf
      ensures survivorOf[a].isoform != r.isoform
    {
      assert survivorOf[a] in Group(rows, a);
      OtherGroupOtherIds(rows, a, r.associatedTranscript, survivorOf[a]);
      assert r in Group(rows, r.associatedTranscript);
    }
  }

  /** A row of a group that is not collapsed is never dropped. */
  lemma NotDropped(rows: seq<ClassRow>, survivorOf: map<string, ClassRow>, r: ClassRow)
    requires UniqueIds(rows) && ValidChoice(rows, survivorOf)
    requires r in rows && PassesThrough(rows, r.associatedTranscript)
    ensures r.isoform !in DroppedSet(rows, survivorOf)
  {
    forall a, x | a in survivorOf && x in Removed(Group(rows, a), survivorOf[a].isoform)
      ensures x != r.isoform
    {
      var m :| m in Group(rows, a) && m.isoform == x;
      assert r in Group(rows, r.associatedTranscript);
      OtherGroupOtherIds(rows, r.associatedTranscript, a, r);
    }
  }

  /** No isoform is both kept and dropped. */
  lemma KeptDroppedDisjoint(rows: seq<ClassRow>, survivorOf: map<string, ClassRow>)
    requires UniqueIds(rows) && ValidChoice(rows, survivorOf)
    ensures KeptSet(rows, survivorOf) !! DroppedSet(rows, survivorOf)
  {
    forall x | x in DroppedSet(rows, survivorOf)
      ensures x !in KeptSet(rows, survivorOf)
    {
      var a :| a in survivorOf && x in Removed(Group(rows, a), survivorOf[a].isoform);
      DroppedNotKept(rows, survivorOf, a, x);
    }
  }

  lemma DroppedNotKept(rows: seq<ClassRow>, survivorOf: map<string, ClassRow>, a: string, x: string)
    requires UniqueIds(rows) && ValidChoice(rows, survivorOf)
    requires a in survivorOf && x in Removed(Group(rows, a), survivorOf[a].isoform)
    ensures x !in KeptSet(rows, survivorOf)
  {
    var m :| m in Group(rows, a) && m.isoform == x;
    assert m in rows && m.associatedTranscript == a;
    assert Collapsible(rows, a);
    forall r | r in rows && PassesThrough(rows, r.associatedTranscript)
      ensures r.isoform != x
    {
      DistinctRowsDistinctIds(rows, r, m);
    }
    forall b | b in survivorOf
      ensures survivorOf[b].isoform != x
    {
      if b != a {
        assert survivorOf[b] in Group(rows, b);
        DistinctRowsDistinctIds(rows, survivorOf[b], m);
      }
    }
  }

  /** `gtf_df[gtf_df['transcript_id'].isin(class_df['isoform'])]`: a GTF
      row stays iff the id the regular expression captures from its
      attribute is the id of a remaining classification row; a row without
      a match is dropped. */
  function KeepGtf(gtf: seq<GtfRow>, isoforms: set<string>): (r: seq<GtfRow>)
    ensures forall g :: g in r <==>
      g in gtf && ExtractTranscriptId(g.attribute).Some? && ExtractTranscriptId(g.attribute).value in isoforms
    ensures |r| <= |gtf|
  {
    if gtf == [] then []
    else
      var t := ExtractTranscriptId(gtf[0].attribute);
      var r := KeepGtf(gtf[1..], isoforms);
      if t.Some? && t.value in isoforms then [gtf[0]] + r else r
  }

  const SummaryHeader := "sample\tsurvivor_isoform\tcollapsed_isoforms"

  /** One line of ISMcollapsed_summary.tsv (without its newline): it
      starts with the sample and a tab, and it stays a single line when no
      name holds a newline. */
  function SummaryLine(sample: string, survivor: string, removed: seq<string>): (line: string)
    ensures |line| > |sample| && line[..|sample|] == sample && line[|sample|] == '\t'
    ensures '\n' !in sample && '\n' !in survivor && (forall k :: 0 <= k < |removed| ==> '\n' !in removed[k]) ==>
      '\n' !in line
  {
    var line := sample + "\t" + survivor + "\t" + Join(removed, ',');
    assert line[..|sample|] == sample && line[|sample|] == '\t';
    line
  }

  lemma {:induction false} JoinKeepsOut(fs: seq<string>, sep: char, c: char)
    requires c != sep && forall k :: 0 <= k < |fs| ==> c !in fs[k]
    ensures c !in Join(fs, sep)
  {
    if |fs| > 1 {
      JoinKeepsOut(fs[1..], sep, c);
    }
  }

  /** A summary line splits back into its sample, its survivor and the
      removed isoforms, when no name holds a tab or a comma. */
  lemma SummaryLineRoundTrip(sample: string, survivor: string, removed: seq<string>)
    requires '\t' !in sample && '\t' !in survivor && |removed| > 0
    requires forall k :: 0 <= k < |removed| ==> '\t' !in removed[k] && ',' !in removed[k]
    ensures var cells := Split(SummaryLine(sample, survivor, removed), '\t');
      |cells| == 3 && cells[0] == sample && cells[1] == survivor && Split(cells[2], ',') == removed
  {
    var joined := Join(removed, ',');
    JoinKeepsOut(removed, ',', '\t');
    assert [sample, survivor, joined][1..] == [survivor, joined] && [survivor, joined][1..] == [joined];
    assert Join([survivor, joined], '\t') == survivor + "\t" + joined;
    assert SummaryLine(sample, survivor, removed) == Join([sample, survivor, joined], '\t');
    SplitJoin([sample, survivor, joined], '\t');
    SplitJoin(removed, ',');
  }

  function SummaryLinesFrom(sample: string, keys: seq<string>, entries: map<string, seq<string>>): (r: seq<string>)
    requires forall k :: k in keys ==> k in entries
    ensures forall line :: line in r <==>
      exists k :: k in keys && entries[k] != [] && line == SummaryLine(sample, k, entries[k])
  {
    if keys == [] then []
    else
      var rest := SummaryLinesFrom(sample, keys[1..], entries);
      assert forall k :: k in keys <==> k == keys[0] || k in keys[1..];
      if entries[keys[0]] != [] then [SummaryLine(sample, keys[0], entries[keys[0]])] + rest else rest
  }

  /** The lines follow the key order: the lines of an earlier run of keys
      all come before those of a later run. */
  lemma {:induction false} SummaryLinesAppend(sample: string, k1: seq<string>, k2: seq<string>, entries: map<string, seq<string>>)
    requires forall k :: k in k1 + k2 ==> k in entries
    ensures SummaryLinesFrom(sample, k1 + k2, entries) == SummaryLinesFrom(sample, k1, entries) + SummaryLinesFrom(sample, k2, entries)
  {
    if k1 != [] {
      assert (k1 + k2)[0] == k1[0] && (k1 + k2)[1..] == k1[1..] + k2;
      SummaryLinesAppend(sample, k1[1..], k2, entries);
    }
    else {
      assert k1 + k2 == k2;
    }
  }

  /** A key whose removed list is non-empty writes exactly its own line. */
  lemma SummaryLinesSingle(sample: string, k: string, entries: map<string, seq<string>>)
    requires k in entries
    ensures SummaryLinesFrom(sample, [k], entries) == if entries[k] != [] then [SummaryLine(sample, k, entries[k])] else []
  {
    assert [k][1..] == [];
  }

  /** The lines written for one sample's collapse record, in the record's
      insertion order: one per survivor whose removed list is non-empty. */
  function SummaryLines(sample: string, d: Dict<string, seq<string>>): (r: seq<string>)
    requires d.Valid()
    ensures forall line :: line in r <==>
      exists s :: s in d.entries && d.entries[s] != [] && line == SummaryLine(sample, s, d.entries[s])
  {
    SummaryLinesFrom(sample, d.keys, d.entries)
  }

  /** `out` is what the loop of `main` stores for a sample after collapsing
      `tables` with the survivor choice `survivorOf`, and `d` is the
      collapse record of that call. */
  ghost predicate CollapsedWith(tables: SampleTables, out: SampleTables, survivorOf: map<string, ClassRow>,
                                d: Dict<string, seq<string>>) {
    var rows := tables.classification;
    && ValidChoice(rows, survivorOf)
    && RecordMatches(rows, d, survivorOf)
    && out.classification == KeepIsoforms(rows, KeptSet(rows, survivorOf))
    && out.junctions == DropJunctions(tables.junctions, DroppedSet(rows, survivorOf))
    && out.gtf == KeepGtf(tables.gtf, set r | r in out.classification :: r.isoform)
    && (out.expression.None? <==> tables.expression.None?)
    && (tables.expression.Some? ==>
          out.expression == Some(RekeyExpression(tables.expression.value, d, KeptSet(rows, survivorOf))))
  }

  /** One iteration of the loop of `main`: collapse the sample, then keep
      the GTF rows of the remaining isoforms. */
  method CollapseSample(sample: string, tables: SampleTables)
    returns (out: SampleTables, record: (string, Dict<string, seq<string>>), ghost survivorOf: map<string, ClassRow>)
    ensures CollapsedWith(tables, out, survivorOf, record.1)
    ensures record.0 == sample
    ensures UniqueIds(tables.classification) ==> CollapseRecordOk(record.1)
  {
    var classOut, juncOut, exprOut;
    classOut, juncOut, exprOut, record, survivorOf := CollapseIsm(sample, tables.classification, tables.junctions, tables.expression);
    var gtfOut := KeepGtf(tables.gtf, set r | r in classOut :: r.isoform);
    out := SampleTables(classOut, juncOut, gtfOut, exprOut);
  }

  /** `out` is a collapse of `tables` under some survivor choice. */
  ghost predicate IsCollapseOf(tables: SampleTables, out: SampleTables) {
    exists survivorOf, d :: CollapsedWith(tables, out, survivorOf, d)
  }

  /** Every sample of `done` holds a collapse of its original tables. */
  ghost predicate AllCollapsed(data: map<string, SampleTables>, current: map<string, SampleTables>, done: seq<string>) {
    forall s :: s in done ==> s in data && s in current && IsCollapseOf(data[s], current[s])
  }

  lemma AllCollapsedStep(data: map<string, SampleTables>, current: map<string, SampleTables>, done: seq<string>,
                         sample: string, out: SampleTables)
    requires AllCollapsed(data, current, done) && sample !in done && sample in data
    requires IsCollapseOf(data[sample], out)
    ensures AllCollapsed(data, current[sample := out], done + [sample])
  {
    var next := current[sample := out];
    forall s | s in done + [sample]
      ensures s in data && s in next && IsCollapseOf(data[s], next[s])
    {
      if s != sample {
        assert s in done && next[s] == current[s];
      }
    }
  }

  /** The state of the loop of `main` after its first `i` iterations. */
  ghost predicate Progress(samples: seq<string>, data: map<string, SampleTables>, current: map<string, SampleTables>, i: nat)
    requires i <= |samples|
  {
    && current.Keys == data.Keys
    && (forall s :: s in samples[..i] ==> s in data)
    && (forall s :: s in data && s !in samples[..i] ==> current[s] == data[s])
    && (Distinct(samples) ==> AllCollapsed(data, current, samples[..i]))
  }

  lemma ProgressStep(samples: seq<string>, data: map<string, SampleTables>, current: map<string, SampleTables>, i: nat,
                     next: map<string, SampleTables>)
    requires i < |samples| && Progress(samples, data, current, i)
    requires samples[i] in current && samples[i] in next && next == current[samples[i] := next[samples[i]]]
    requires IsCollapseOf(current[samples[i]], next[samples[i]])
    ensures Progress(samples, data, next, i + 1)
  {
    var sample := samples[i];
    assert samples[..i + 1] == samples[..i] + [sample];
    if Distinct(samples) {
      assert sample !in samples[..i];
      AllCollapsedStep(data, current, samples[..i], sample, next[sample]);
    }
  }

  datatype CollapseError = MissingSample(name: string) | NoSamples

  /** Collapse one sample of `data` and store its new tables back in place
      of the old ones. */
  method CollapseInto(data: map<string, SampleTables>, sample: string)
    returns (next: map<string, SampleTables>, record: (string, Dict<string, seq<string>>),
             ghost survivorOf: map<string, ClassRow>)
    requires sample in data
    ensures sample in next && next == data[sample := next[sample]]
    ensures CollapsedWith(data[sample], next[sample], survivorOf, record.1)
    ensures record.0 == sample
  {
    var out;
    out, record, survivorOf := CollapseSample(sample, data[sample]);
    next := data[sample := out];
  }

  /** The loop of `main` over `data['samples']`: each listed sample is
      collapsed in turn and stored back; the collapse record of the last
      sample stays bound after the loop. A sample missing from `data` fails
      the lookup. The ghost results describe the last iteration: the
      tables it started from and the survivor choice it made. */
  method CollapseSamples(samples: seq<string>, data: map<string, SampleTables>)
    returns (r: Result<(map<string, SampleTables>, Option<(string, Dict<string, seq<string>>)>), CollapseError>,
             ghost lastInput: SampleTables, ghost lastChoice: map<string, ClassRow>)
    ensures r.Err? ==> r.error.MissingSample? && r.error.name in samples && r.error.name !in data
    ensures (forall s :: s in samples ==> s in data) <==> r.Ok?
    ensures r.Ok? ==> r.value.0.Keys == data.Keys
    ensures r.Ok? ==> forall s :: s in data && s !in samples ==> r.value.0[s] == data[s]
    ensures r.Ok? && Distinct(samples) ==> AllCollapsed(data, r.value.0, samples)
    ensures r.Ok? ==> (r.value.1.None? <==> samples == [])
    ensures r.Ok? && r.value.1.Some? ==>
      var last := samples[|samples| - 1];
      && r.value.1.value.0 == last && last in r.value.0
      && CollapsedWith(lastInput, r.value.0[last], lastChoice, r.value.1.value.1)
      && (Distinct(samples) ==> lastInput == data[last])
  {
    var current := data;
    var last: Option<(string, Dict<string, seq<string>>)> := None;
    lastInput, lastChoice := SampleTables([], [], [], None), map[];
    for i := 0 to |samples|
      invariant Progress(samples, data, current, i)
      invariant i == 0 <==> last.None?
      invariant last.Some? ==>
        && last.value.0 == samples[i - 1] && samples[i - 1] in current
        && CollapsedWith(lastInput, current[samples[i - 1]], lastChoice, last.value.1)
        && (Distinct(samples) ==> lastInput == data[samples[i - 1]])
    {
      var sample := samples[i];
      if sample !in current {
        r := Err(MissingSample(sample));
        return;
      }
      assert Distinct(samples) ==> sample !in samples[..i] && current[sample] == data[sample];
      ghost var before := current[sample];
      var next, record, choice := CollapseInto(current, sample);
      ProgressStep(samples, data, current, i, next);
      current := next;
      last := Some(record);
      lastInput, lastChoice := before, choice;
    }
    assert samples[..|samples|] == samples;
    r := Ok((current, last));
  }

  /** `main`: collapse every listed sample, then write the summary from the
      collapse record bound last, so the summary holds the lines of the last
      sample only; with no samples that name is unbound and the write fails.
      The ghost results are the last iteration's input tables, survivor
      choice and collapse record. */
  method CollapseAll(samples: seq<string>, data: map<string, SampleTables>)
    returns (r: Result<(map<string, SampleTables>, seq<string>), CollapseError>,
             ghost lastInput: SampleTables, ghost lastChoice: map<string, ClassRow>,
             ghost lastRecord: Dict<string, seq<string>>)
    ensures r.Err? && r.error.MissingSample? ==> r.error.name in samples && r.error.name !in data
    ensures r.Err? && r.error.NoSamples? ==> samples == []
    ensures (forall s :: s in samples ==> s in data) ==> (r.Ok? <==> samples != [])
    ensures (exists s :: s in samples && s !in data) ==> r.Err? && r.error.MissingSample?
    ensures r.Ok? ==> r.value.0.Keys == data.Keys
    ensures r.Ok? ==> forall s :: s in data && s !in samples ==> r.value.0[s] == data[s]
    ensures r.Ok? && Distinct(samples) ==> AllCollapsed(data, r.value.0, samples)
    ensures r.Ok? ==> |r.value.1| >= 1 && r.value.1[0] == SummaryHeader
    ensures r.Ok? ==>
      var last := samples[|samples| - 1];
      && last in r.value.0
      && CollapsedWith(lastInput, r.value.0[last], lastChoice, lastRecord)
      && (Distinct(samples) ==> lastInput == data[last])
      && r.value.1 == [SummaryHeader] + SummaryLines(last, lastRecord)
  {
    var collapsed;
    collapsed, lastInput, lastChoice := CollapseSamples(samples, data);
    lastRecord := Empty();
    if collapsed.Err? {
      return Err(collapsed.error), lastInput, lastChoice, lastRecord;
    }
    var (current, last) := collapsed.value;
    if last.None? {
      return Err(NoSamples), lastInput, lastChoice, lastRecord;
    }
    var (sample, d) := last.value;
    lastRecord := d;
    r := Ok((current, [SummaryHeader] + SummaryLines(sample, d)));
  }

  /** The summary lines of a collapse with unique isoform ids are exactly
      one line per collapsed group that removed something: the group's
      survivor followed by its other members. */
  lemma SummaryLinesOfChoice(sample: string, rows: seq<ClassRow>, survivorOf: map<string, ClassRow>,
                             d: Dict<string, seq<string>>)
    requires UniqueIds(rows) && RecordMatches(rows, d, survivorOf)
    ensures forall line :: line in SummaryLines(sample, d) <==>
      exists at :: (at in survivorOf && Removed(Group(rows, at), survivorOf[at].isoform) != [] &&
        line == SummaryLine(sample, survivorOf[at].isoform, Removed(Group(rows, at), survivorOf[at].isoform)))
  {
    var lines := SummaryLines(sample, d);
    forall line | line in lines
      ensures exists at :: (at in survivorOf && Removed(Group(rows, at), survivorOf[at].isoform) != [] &&
        line == SummaryLine(sample, survivorOf[at].isoform, Removed(Group(rows, at), survivorOf[at].isoform)))
    {
      var s :| s in d.entries && d.entries[s] != [] && line == SummaryLine(sample, s, d.entries[s]);
      var at := SurvivorGroup(rows, survivorOf, d, s);
    }
    forall at | at in survivorOf && Removed(Group(rows, at), survivorOf[at].isoform) != []
      ensures SummaryLine(sample, survivorOf[at].isoform, Removed(Group(rows, at), survivorOf[at].isoform)) in lines
    {
      var s := survivorOf[at].isoform;
      assert s in SurvivorIds(survivorOf);
    }
  }

  /** The collapsed group a survivor of the record was chosen for. */
  lemma SurvivorGroup(rows: seq<ClassRow>, survivorOf: map<string, ClassRow>, d: Dict<string, seq<string>>, s: string)
    returns (at: string)
    requires UniqueIds(rows) && RecordMatches(rows, d, survivorOf) && s in d.entries
    ensures at in survivorOf && survivorOf[at].isoform == s
    ensures d.entries[s] == Removed(Group(rows, at), s)
  {
    assert s in SurvivorIds(survivorOf);
    at :| at in survivorOf && survivorOf[at].isoform == s;
  }
}
