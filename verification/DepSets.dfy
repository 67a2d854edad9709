/** The dependency sets of a package: a slot table indexed by tag, each set sorted and without duplicates. */
module DepSets {
  import opened DepCodec
  import HeaderSpec
  import HeaderProofs

  datatype Tag = Provide | Require | Recommend | Suggest | Supplement | Enhance | Conflict | Obsolete

  const TAGS: set<Tag> := {Provide, Require, Recommend, Suggest, Supplement, Enhance, Conflict, Obsolete}

  const PACKAGE_NUM_DEPS := 12

  // ----- one sorted set, as kept by librpm

  /** The order of a dependency set: by name, version and flags. */
  predicate Less(a: Dep, b: Dep) {
    HeaderSpec.Before(a.name, b.name)
    || (a.name == b.name && (HeaderSpec.Before(a.evr, b.evr) || (a.evr == b.evr && a.flags < b.flags)))
  }

  ghost predicate SortedSet(ds: seq<Dep>) {
    forall i, j | 0 <= i < j < |ds| :: Less(ds[i], ds[j])
  }

  lemma {:induction false} BeforeTrans(a: string, b: string, c: string)
    requires HeaderSpec.Before(a, b) && HeaderSpec.Before(b, c)
    ensures HeaderSpec.Before(a, c)
  {
    if a != "" && a[0] == b[0] == c[0] {
      BeforeTrans(a[1..], b[1..], c[1..]);
    }
  }

  lemma LessTrans(a: Dep, b: Dep, c: Dep)
    requires Less(a, b) && Less(b, c)
    ensures Less(a, c)
  {
    hide HeaderSpec.Before;
    if HeaderSpec.Before(a.name, b.name) && HeaderSpec.Before(b.name, c.name) {
      BeforeTrans(a.name, b.name, c.name);
    }
    if HeaderSpec.Before(a.evr, b.evr) && HeaderSpec.Before(b.evr, c.evr) {
      BeforeTrans(a.evr, b.evr, c.evr);
    }
  }

  lemma LessTotal(a: Dep, b: Dep)
    ensures a == b || Less(a, b) || Less(b, a)
  {
    hide HeaderSpec.Before;
    HeaderProofs.BeforeTotal(a.name, b.name);
    HeaderProofs.BeforeTotal(a.evr, b.evr);
  }

  /** rpmdsMerge of a single dependency. */
  function Insert(ds: seq<Dep>, d: Dep): seq<Dep> {
    if ds == [] then [d]
    else if ds[0] == d then ds
    else if Less(d, ds[0]) then [d] + ds
    else [ds[0]] + Insert(ds[1..], d)
  }

  lemma {:induction false} InsertIs(ds: seq<Dep>, d: Dep)
    requires SortedSet(ds)
    ensures SortedSet(Insert(ds, d)) && forall x :: x in Insert(ds, d) <==> x in ds || x == d
  {
    hide Less;
    if ds != [] {
      assert ds == [ds[0]] + ds[1..];
      if ds[0] == d {
      } else if Less(d, ds[0]) {
        forall j | 0 < j < |ds| ensures Less(d, ds[j]) {
          LessTrans(d, ds[0], ds[j]);
        }
      } else {
        InsertIs(ds[1..], d);
        var rest := Insert(ds[1..], d);
        LessTotal(d, ds[0]);
        forall j | 0 <= j < |rest| ensures Less(ds[0], rest[j]) {
          assert rest[j] in rest;
        }
      }
    }
  }

  /** rpmdsFind: the index of a dependency, or -1. */
  function Find(ds: seq<Dep>, d: Dep): (i: int)
    ensures -1 <= i < |ds|
    ensures i >= 0 ==> ds[i] == d
    ensures i < 0 ==> d !in ds
  {
    if ds == [] then -1
    else if ds[|ds| - 1] == d then |ds| - 1
    else Find(ds[..|ds| - 1], d)
  }

  // ----- the slot table

  datatype Slot = Empty | Filled(tag: Tag, deps: seq<Dep>)

  /** The dependencies under a tag in the first slots. */
  function DepsIn(slots: seq<Slot>, tag: Tag): seq<Dep> {
    if slots == [] then []
    else if slots[0].Filled? && slots[0].tag == tag then slots[0].deps
    else DepsIn(slots[1..], tag)
  }

  /** Slots are filled from the front, each with a sorted set of its own tag. */
  ghost predicate ValidSlots(slots: seq<Slot>) {
    && |slots| == PACKAGE_NUM_DEPS
    && (forall i, j | 0 <= i < j < |slots| && slots[j].Filled? :: slots[i].Filled? && slots[i].tag != slots[j].tag)
    && forall i | 0 <= i < |slots| && slots[i].Filled? :: SortedSet(slots[i].deps)
  }

  /** Slot i is the one that packageDependencies finds. */
  ghost predicate SlotFor(slots: seq<Slot>, tag: Tag, i: nat) {
    && i < |slots| && (slots[i].Filled? ==> slots[i].tag == tag)
    && forall j | 0 <= j < i :: slots[j].Filled? && slots[j].tag != tag
  }

  lemma {:induction false} DepsAt(slots: seq<Slot>, tag: Tag, i: nat)
    requires SlotFor(slots, tag, i)
    requires forall k, m | 0 <= k < m < |slots| && slots[m].Filled? :: slots[k].Filled? && slots[k].tag != slots[m].tag
    ensures DepsIn(slots, tag) == if slots[i].Filled? then slots[i].deps else []
    decreases |slots|
  {
    if i > 0 {
      DepsAt(slots[1..], tag, i - 1);
    } else if slots[0].Empty? {
      NoDeps(slots, tag);
    }
  }

  lemma {:induction false} NoDeps(slots: seq<Slot>, tag: Tag)
    requires forall i | 0 <= i < |slots| :: slots[i].Filled? ==> slots[i].tag != tag
    ensures DepsIn(slots, tag) == []
  {
    if slots != [] {
      NoDeps(slots[1..], tag);
    }
  }

  /** Filling the slot of a tag leaves the other tags alone. */
  lemma {:induction false} DepsOther(slots: seq<Slot>, i: nat, s: Slot, tag: Tag)
    requires i < |slots| && s.Filled? && s.tag != tag && (slots[i].Filled? ==> slots[i].tag != tag)
    ensures DepsIn(slots[i := s], tag) == DepsIn(slots, tag)
    decreases |slots|
  {
    if i > 0 {
      assert slots[i := s][1..] == slots[1..][i - 1 := s];
      DepsOther(slots[1..], i - 1, s, tag);
    } else {
      assert slots[i := s][1..] == slots[1..];
    }
  }

  lemma {:induction false} TagsOf(slots: seq<Slot>, n: nat) returns (ts: set<Tag>)
    requires n <= |slots| && forall i | 0 <= i < n :: slots[i].Filled?
    requires forall i, j | 0 <= i < j < n :: slots[i].tag != slots[j].tag
    ensures |ts| == n && forall t :: t in ts <==> exists i :: 0 <= i < n && slots[i].tag == t
  {
    if n == 0 {
      ts := {};
    } else {
      var us := TagsOf(slots, n - 1);
      ts := us + {slots[n - 1].tag};
    }
  }

  /** There are more slots than tags. */
  lemma SlotLeft(slots: seq<Slot>)
    requires ValidSlots(slots)
    ensures exists i :: 0 <= i < |slots| && slots[i].Empty?
  {
    if forall i | 0 <= i < |slots| :: slots[i].Filled? {
      var ts := TagsOf(slots, |slots|);
      TagCount(ts);
    }
  }

  lemma AllTags(t: Tag)
    ensures t in TAGS
  {
    match t
    case Provide =>
    case Require =>
    case Recommend =>
    case Suggest =>
    case Supplement =>
    case Enhance =>
    case Conflict =>
    case Obsolete =>
  }

  lemma TagCount(ts: set<Tag>)
    ensures |ts| <= 8
  {
    assert ts <= TAGS by {
      forall t | t in ts ensures t in TAGS {
        AllTags(t);
      }
    }
    assert TAGS == ts + (TAGS - ts);
    assert |TAGS| == 8;
  }

  ghost function SetsIn(slots: seq<Slot>): map<Tag, seq<Dep>> {
    map t | t in TAGS :: DepsIn(slots, t)
  }

  class Package {
    const slots: array<Slot>

    ghost predicate Valid()
      reads this, slots
    {
      ValidSlots(slots[..])
    }

    ghost function Sets(): map<Tag, seq<Dep>>
      reads this, slots
    {
      SetsIn(slots[..])
    }

    constructor ()
      ensures Valid() && fresh(slots) && Sets() == map t | t in TAGS :: []
    {
      hide DepsIn;
      slots := new Slot[PACKAGE_NUM_DEPS](_ => Empty);
      new;
      assert forall i | 0 <= i < slots.Length :: slots[..][i] == Empty;
      forall t | t in TAGS ensures DepsIn(slots[..], t) == [] {
        NoDeps(slots[..], t);
      }
    }

    /** packageDependencies: the slot of the tag or the first free one. It never runs out of slots. */
    method Dependencies(tag: Tag) returns (i: nat)
      requires Valid()
      ensures SlotFor(slots[..], tag, i)
      ensures Sets()[tag] == if slots[i].Filled? then slots[i].deps else []
    {
      SlotLeft(slots[..]);
      i := 0;
      while slots[i].Filled? && slots[i].tag != tag
        invariant 0 <= i < slots.Length
        invariant forall j | 0 <= j < i :: slots[j].Filled? && slots[j].tag != tag
        decreases slots.Length - i
      {
        i := i + 1;
      }
      DepsAt(slots[..], tag, i);
    }

    /** rpmdsMerge into the slot of the tag. */
    method Merge(tag: Tag, d: Dep)
      requires Valid()
      modifies slots
      ensures Valid() && Sets() == old(Sets()[tag := Insert(Sets()[tag], d)])
    {
      hide Insert, SortedSet, DepsIn, SetsIn, ValidSlots, SlotFor;
      var i := Dependencies(tag);
      SlotsMerged(slots[..], tag, i, d);
      var deps := if slots[i].Filled? then slots[i].deps else [];
      slots[i] := Filled(tag, Insert(deps, d));
      assert slots[..] == old(slots[..])[i := slots[i]];
    }
  }

  lemma SlotsMerged(slots: seq<Slot>, tag: Tag, i: nat, d: Dep)
    requires ValidSlots(slots) && SlotFor(slots, tag, i)
    ensures var deps := if slots[i].Filled? then slots[i].deps else [];
            var slots' := slots[i := Filled(tag, Insert(deps, d))];
            && ValidSlots(slots') && tag in SetsIn(slots)
            && SetsIn(slots') == SetsIn(slots)[tag := Insert(SetsIn(slots)[tag], d)]
  {
    hide Insert, SortedSet, DepsIn;
    var deps := if slots[i].Filled? then slots[i].deps else [];
    var slots' := slots[i := Filled(tag, Insert(deps, d))];
    EmptySorted();
    InsertIs(deps, d);
    forall t | t in TAGS && t != tag ensures DepsIn(slots', t) == DepsIn(slots, t) {
      DepsOther(slots, i, slots'[i], t);
    }
    DepsAt(slots, tag, i);
    DepsAt(slots', tag, i);
    AllTags(tag);
  }

  lemma EmptySorted()
    ensures SortedSet([])
  {
  }
}
