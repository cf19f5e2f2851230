/** The registry of frame tables: an intrusive linked list (src/unwinder/find_fde/registry.rs). */
module Registry {
  import opened Words
  import opened Wrappers

  /** `Multiple` points to a table of addresses that ends with a null one. */
  datatype Table = Single(addr: Word) | Multiple(addrs: seq<Word>)

  class Object {
    var next: Object?
    var tbase: Word
    var dbase: Word
    var table: Table
  }

  // ----- The list as a value -----

  datatype Entry = Entry(tbase: Word, dbase: Word, table: Table)

  datatype Bases = Bases(text: Word, data: Word, ehFrame: Word)

  datatype SearchResult = SearchResult(fde: nat, bases: Bases)

  /** gimli's search of one `.eh_frame` section for the entry of an address. */
  type Lookup = (Bases, Word) -> Option<nat>

  /** The sections a table names: its one address, or its addresses before the first null. */
  function SectionsOf(table: Table): seq<Word> {
    match table
    case Single(addr) => [addr]
    case Multiple(addrs) => UntilNull(addrs)
  }

  function UntilNull(addrs: seq<Word>): (r: seq<Word>)
    ensures r <= addrs && 0 !in r
    ensures |r| < |addrs| ==> addrs[|r|] == 0
  {
    if addrs == [] || addrs[0] == 0 then [] else [addrs[0]] + UntilNull(addrs[1..])
  }

  function BasesFor(tbase: Word, dbase: Word, addrs: seq<Word>): seq<Bases> {
    seq(|addrs|, i requires 0 <= i < |addrs| => Bases(tbase, dbase, addrs[i]))
  }

  function EntrySections(e: Entry): seq<Bases> {
    BasesFor(e.tbase, e.dbase, SectionsOf(e.table))
  }

  /** Every section of the registry in the order it is searched, with the bases of its object. */
  function Sections(entries: seq<Entry>): seq<Bases> {
    if entries == [] then []
    else EntrySections(entries[0]) + Sections(entries[1..])
  }

  /** The first section that has the address answers. */
  function FirstHit(lookup: Lookup, sections: seq<Bases>, pc: Word): (r: Option<SearchResult>)
    ensures r == None <==> forall i | 0 <= i < |sections| :: lookup(sections[i], pc) == None
    ensures r.Some? ==> exists i | 0 <= i < |sections| ::
              && r == Some(SearchResult(if lookup(sections[i], pc).Some? then lookup(sections[i], pc).value else 0,
                                        sections[i]))
              && lookup(sections[i], pc).Some?
              && forall j | 0 <= j < i :: lookup(sections[j], pc) == None
  {
    if sections == [] then None
    else
      match lookup(sections[0], pc)
      case Some(fde) => Some(SearchResult(fde, sections[0]))
      case None =>
        var r := FirstHit(lookup, sections[1..], pc);
        assert forall i | 1 <= i < |sections| :: sections[i] == sections[1..][i - 1];
        assert r.Some? ==> exists i | 0 <= i < |sections[1..]| ::
            lookup(sections[1..][i], pc).Some? && sections[1..][i] == sections[i + 1]
              && r.value.bases == sections[i + 1] &&
            (forall j | 0 <= j < i :: lookup(sections[1..][j], pc) == None) &&
            (forall j | 1 <= j < i + 1 :: lookup(sections[j], pc) == None) &&
            r.value.fde == lookup(sections[1..][i], pc).value;
        r
  }

  lemma {:induction false} FirstHitSum(lookup: Lookup, a: seq<Bases>, b: seq<Bases>, pc: Word)
    ensures FirstHit(lookup, a + b, pc) ==
            if FirstHit(lookup, a, pc).Some? then FirstHit(lookup, a, pc) else FirstHit(lookup, b, pc)
  {
    if a == [] {
      assert a + b == b;
    } else {
      assert (a + b)[1..] == a[1..] + b;
      FirstHitSum(lookup, a[1..], b, pc);
    }
  }

  /** The first object registered for exactly this address, or the number of objects. */
  function FirstSingle(entries: seq<Entry>, begin: Word): (k: nat)
    ensures k <= |entries|
    ensures forall j | 0 <= j < k :: entries[j].table != Single(begin)
    ensures k < |entries| ==> entries[k].table == Single(begin)
  {
    if entries == [] || entries[0].table == Single(begin) then 0
    else
      assert forall j | 1 <= j < |entries| :: entries[j] == entries[1..][j - 1];
      1 + FirstSingle(entries[1..], begin)
  }

  lemma FirstSingleIs(entries: seq<Entry>, begin: Word, k: nat)
    requires k <= |entries| && forall j | 0 <= j < k :: entries[j].table != Single(begin)
    requires k < |entries| ==> entries[k].table == Single(begin)
    ensures FirstSingle(entries, begin) == k
  {
  }

  function Without<T>(s: seq<T>, k: nat): seq<T> {
    if k < |s| then s[..k] + s[k + 1..] else s
  }

  lemma WithoutAt<T>(s: seq<T>, i: nat)
    requires i < |s|
    ensures |Without(s, i)| == |s| - 1
    ensures forall j | 0 <= j < i :: Without(s, i)[j] == s[j]
    ensures forall j | i <= j < |s| - 1 :: Without(s, i)[j] == s[j + 1]
  {
  }

  // ----- The list on the heap -----

  class GlobalState {
    var head: Object?
    ghost var Objects: seq<Object>

    ghost function At(i: int): Object?
      reads this
    {
      if 0 <= i < |Objects| then Objects[i] else null
    }

    /** The head and the `next` fields link exactly `Objects`, with no object twice and null at the end. */
    ghost predicate Valid()
      reads this, Objects
    {
      && head == At(0)
      && (forall i, j | 0 <= i && j == i + 1 && j < |Objects| :: Objects[i].next == Objects[j])
      && (Objects != [] ==> Objects[|Objects| - 1].next == null)
      && (forall i, j | 0 <= i < j < |Objects| :: Objects[i] != Objects[j])
      && (forall i | 0 <= i < |Objects| && Objects[i].table.Multiple? :: 0 in Objects[i].table.addrs)
    }

    ghost function Entries(): seq<Entry>
      reads this, Objects
    {
      seq(|Objects|, i requires 0 <= i < |Objects| reads this, Objects =>
            Entry(Objects[i].tbase, Objects[i].dbase, Objects[i].table))
    }

    constructor ()
      ensures Valid() && Objects == []
    {
      head := null;
      Objects := [];
    }

    /** `__register_frame_info_bases`: null registers nothing; otherwise the object goes to the front. */
    method RegisterFrameInfoBases(begin: Word, ob: Object, tbase: Word, dbase: Word)
      requires Valid() && ob !in Objects
      modifies this, ob
      ensures Valid()
      ensures begin == 0 ==> unchanged(this) && unchanged(ob)
      ensures begin != 0 ==> Objects == [ob] + old(Objects) &&
                             Entries() == [Entry(tbase, dbase, Single(begin))] + old(Entries())
      ensures Entries() == Apply(old(Entries()), Register(begin, tbase, dbase))
    {
      hide Apply;
      RegisterApplies(Entries(), begin, tbase, dbase);
      if begin == 0 {
        return;
      }
      ob.next, ob.tbase, ob.dbase, ob.table := null, tbase, dbase, Single(begin);
      ob.next := head;
      head := ob;
      Objects := [ob] + Objects;
    }

    /** `__register_frame_info_table_bases` looks at no null: the table itself must end with one. */
    method RegisterFrameInfoTableBases(addrs: seq<Word>, ob: Object, tbase: Word, dbase: Word)
      requires Valid() && ob !in Objects && 0 in addrs
      modifies this, ob
      ensures Valid()
      ensures Objects == [ob] + old(Objects)
      ensures Entries() == [Entry(tbase, dbase, Multiple(addrs))] + old(Entries())
    {
      ob.next, ob.tbase, ob.dbase, ob.table := null, tbase, dbase, Multiple(addrs);
      ob.next := head;
      head := ob;
      Objects := [ob] + Objects;
    }

    /** `*prev = (*cur).next`, where a null `prev` stands for the head cell. */
    method Unlink(prev: Object?, cur: Object, ghost i: nat)
      requires Valid() && cur == At(i) && prev == At(i - 1)
      modifies this, Objects
      ensures Valid() && Objects == Without(old(Objects), i)
      ensures forall o | o in old(Objects) ::
                o.tbase == old(o.tbase) && o.dbase == old(o.dbase) && o.table == old(o.table)
    {
      hide Without;
      ghost var was := Objects;
      if prev == null {
        head := cur.next;
      } else {
        prev.next := cur.next;
      }
      Objects := Without(Objects, i);
      WithoutAt(was, i);
      forall j, k | 0 <= j && k == j + 1 && k < |Objects| ensures Objects[j].next == Objects[k] {
        if k < i {
          assert was[j].next == was[k];
        } else if k == i {
          assert Objects[j] == prev && Objects[k] == was[i + 1];
        } else {
          assert was[j + 1].next == was[k + 1];
        }
      }
    }

    lemma EntriesWithout(entries: seq<Entry>, i: nat)
      requires i < |entries| && |Objects| == |entries| - 1
      requires forall j | 0 <= j < i :: Entries()[j] == entries[j]
      requires forall j | i <= j < |Objects| :: Entries()[j] == entries[j + 1]
      ensures Entries() == Without(entries, i)
    {
    }

    /**
     `__deregister_frame_info_bases`: unlinks and returns the first object registered for exactly
     this address, and leaves the rest linked in their order.
     */
    method DeregisterFrameInfoBases(begin: Word) returns (r: Object?)
      requires Valid()
      modifies this, Objects
      ensures Valid()
      ensures var k := FirstSingle(old(Entries()), begin);
              if begin == 0 || k == |old(Objects)|
              then r == null && Objects == old(Objects) && Entries() == old(Entries())
              else r == old(Objects)[k] && Objects == Without(old(Objects), k) &&
                   Entries() == Without(old(Entries()), k)
      ensures Entries() == Apply(old(Entries()), Deregister(begin))
    {
      hide FirstSingle, Without, Apply;
      DeregisterApplies(Entries(), begin);
      if begin == 0 {
        return null;
      }
      var prev: Object? := null;
      var cur := head;
      ghost var i := 0;
      ghost var entries := Entries();
      while cur != null
        invariant Valid() && Objects == old(Objects) && Entries() == entries
        invariant unchanged(this) && unchanged(Objects)
        invariant 0 <= i <= |Objects| && cur == At(i) && prev == At(i - 1)
        invariant forall j | 0 <= j < i :: entries[j].table != Single(begin)
        decreases |Objects| - i
      {
        var found := match cur.table { case Single(addr) => addr == begin case Multiple(_) => false };
        assert entries[i].table == cur.table;
        if found {
          FirstSingleIs(entries, begin, i);
          Unlink(prev, cur, i);
          WithoutAt(old(Objects), i);
          EntriesWithout(entries, i);
          return cur;
        }
        prev := cur;
        cur := cur.next;
        i := i + 1;
      }
      FirstSingleIs(entries, begin, i);
      return null;
    }

    /** `find_fde`: the nested loops search the sections in order and answer from the first that has the address. */
    method FindFde(lookup: Lookup, pc: Word) returns (r: Option<SearchResult>)
      requires Valid()
      ensures r == FirstHit(lookup, Sections(Entries()), pc)
    {
      hide FirstHit, Sections, EntrySections, UntilNull;
      var cur := head;
      ghost var i := 0;
      ghost var entries := Entries();
      assert entries[0..] == entries;
      while cur != null
        invariant 0 <= i <= |Objects| && cur == At(i)
        invariant FirstHit(lookup, Sections(entries), pc) == FirstHit(lookup, Sections(entries[i..]), pc)
        decreases |Objects| - i
      {
        SectionsStep(lookup, entries, i, pc);
        match cur.table {
          case Single(addr) =>
            var bases := Bases(cur.tbase, cur.dbase, addr);
            OneSection(lookup, entries[i], bases, pc);
            var fde := lookup(bases, pc);
            if fde.Some? {
              return Some(SearchResult(fde.value, bases));
            }
          case Multiple(addrs) =>
            var hit := SearchTable(lookup, addrs, cur.tbase, cur.dbase, pc);
            TableSections(entries[i], addrs);
            if hit.Some? {
              return hit;
            }
        }
        cur := cur.next;
        i := i + 1;
      }
      NoSections(lookup, entries, pc);
      return None;
    }
  }

  /** The inner loop of `find_fde`: a table is searched up to its null. */
  method SearchTable(lookup: Lookup, addrs: seq<Word>, tbase: Word, dbase: Word, pc: Word)
    returns (r: Option<SearchResult>)
    requires 0 in addrs
    ensures r == FirstHit(lookup, BasesFor(tbase, dbase, UntilNull(addrs)), pc)
  {
    hide UntilNull, FirstHit;
    ghost var sections := BasesFor(tbase, dbase, UntilNull(addrs));
    var k := 0;
    var addr := addrs[k];
    assert sections[0..] == sections;
    while addr != 0
      invariant 0 <= k <= |sections| && k < |addrs| && addr == addrs[k]
      invariant FirstHit(lookup, sections, pc) == FirstHit(lookup, sections[k..], pc)
      decreases |sections| - k
    {
      var bases := Bases(tbase, dbase, addr);
      HitStep(lookup, sections, k, pc);
      var fde := lookup(bases, pc);
      if fde.Some? {
        return Some(SearchResult(fde.value, bases));
      }
      k := k + 1;
      addr := addrs[k];
    }
    NoHit(lookup, sections[k..], pc);
    return None;
  }

  lemma HitStep(lookup: Lookup, sections: seq<Bases>, k: nat, pc: Word)
    requires k < |sections|
    ensures FirstHit(lookup, sections[k..], pc) ==
            match lookup(sections[k], pc)
            case Some(fde) => Some(SearchResult(fde, sections[k]))
            case None => FirstHit(lookup, sections[k + 1..], pc)
  {
    assert sections[k..][1..] == sections[k + 1..];
  }

  lemma NoHit(lookup: Lookup, sections: seq<Bases>, pc: Word)
    requires sections == []
    ensures FirstHit(lookup, sections, pc) == None
  {
  }

  lemma SectionsStep(lookup: Lookup, entries: seq<Entry>, i: nat, pc: Word)
    requires i < |entries|
    ensures FirstHit(lookup, Sections(entries[i..]), pc) ==
            if FirstHit(lookup, EntrySections(entries[i]), pc).Some?
            then FirstHit(lookup, EntrySections(entries[i]), pc)
            else FirstHit(lookup, Sections(entries[i + 1..]), pc)
  {
    assert entries[i..][1..] == entries[i + 1..];
    FirstHitSum(lookup, EntrySections(entries[i]), Sections(entries[i + 1..]), pc);
  }

  lemma OneSection(lookup: Lookup, e: Entry, bases: Bases, pc: Word)
    requires e.table.Single? && bases == Bases(e.tbase, e.dbase, e.table.addr)
    ensures FirstHit(lookup, EntrySections(e), pc) ==
            match lookup(bases, pc) case None => None case Some(fde) => Some(SearchResult(fde, bases))
  {
    assert EntrySections(e) == [bases];
  }

  lemma TableSections(e: Entry, addrs: seq<Word>)
    requires e.table == Multiple(addrs)
    ensures EntrySections(e) == BasesFor(e.tbase, e.dbase, UntilNull(addrs))
  {
  }

  lemma NoSections(lookup: Lookup, entries: seq<Entry>, pc: Word)
    ensures FirstHit(lookup, Sections(entries[|entries|..]), pc) == None
  {
  }

  // ----- What is found -----

  /** The `j`-th section that a table names: a single address, or one of a list's before any null. */
  ghost predicate Names(table: Table, j: nat, addr: Word) {
    match table
    case Single(a) => j == 0 && addr == a
    case Multiple(addrs) => j < |addrs| && addrs[j] == addr && 0 !in addrs[..j + 1]
  }

  lemma {:induction false} UntilNullAt(addrs: seq<Word>, j: nat, addr: Word)
    ensures j < |UntilNull(addrs)| && UntilNull(addrs)[j] == addr <==> Names(Multiple(addrs), j, addr)
    decreases j
  {
    if addrs != [] && addrs[0] != 0 {
      assert forall k | 1 <= k < |addrs| :: addrs[k] == addrs[1..][k - 1];
      if 0 < j < |addrs| {
        UntilNullAt(addrs[1..], j - 1, addr);
        assert addrs[..j + 1] == [addrs[0]] + addrs[1..][..j];
      } else if j == 0 {
        assert addrs[..1] == [addrs[0]];
      }
    }
  }

  lemma SectionNamed(e: Entry, j: nat, addr: Word)
    ensures j < |EntrySections(e)| && EntrySections(e)[j] == Bases(e.tbase, e.dbase, addr) <==> Names(e.table, j, addr)
    ensures j < |EntrySections(e)| ==> EntrySections(e)[j] == Bases(e.tbase, e.dbase, EntrySections(e)[j].ehFrame)
  {
    if e.table.Multiple? { UntilNullAt(e.table.addrs, j, addr); }
  }

  /** The section that entry `e` names as its `j`-th has the address. */
  ghost predicate Has(lookup: Lookup, e: Entry, j: nat, addr: Word, pc: Word) {
    Names(e.table, j, addr) && lookup(Bases(e.tbase, e.dbase, addr), pc).Some?
  }

  /** A hit in the section at `addr`, the `j`-th of entry `e`, and in none that `e` names before it. */
  ghost predicate HitsFirst(lookup: Lookup, e: Entry, j: nat, addr: Word, pc: Word, r: SearchResult) {
    && Has(lookup, e, j, addr, pc) && r.bases == Bases(e.tbase, e.dbase, addr) && lookup(r.bases, pc) == Some(r.fde)
    && forall k, other | 0 <= k < j :: !Has(lookup, e, k, other, pc)
  }

  lemma EntryHit(lookup: Lookup, e: Entry, pc: Word)
    ensures var r := FirstHit(lookup, EntrySections(e), pc);
            && (r == None <==> forall j, addr :: !Has(lookup, e, j, addr, pc))
            && (r.Some? ==> exists j, addr :: HitsFirst(lookup, e, j, addr, pc, r.value))
  {
    hide EntrySections, Names, FirstHit;
    var sections := EntrySections(e);
    var r := FirstHit(lookup, sections, pc);
    FirstHitIs(lookup, sections, pc);
    forall j: nat, addr
      ensures j < |sections| && sections[j] == Bases(e.tbase, e.dbase, addr) <==> Names(e.table, j, addr)
    {
      SectionNamed(e, j, addr);
    }
    if r.Some? {
      var j :| 0 <= j < |sections| && sections[j] == r.value.bases && lookup(sections[j], pc) == Some(r.value.fde) &&
               forall k | 0 <= k < j :: lookup(sections[k], pc) == None;
      SectionNamed(e, j, 0);
      assert HitsFirst(lookup, e, j, sections[j].ehFrame, pc, r.value);
    } else {
      forall j: nat | j < |sections| ensures Has(lookup, e, j, sections[j].ehFrame, pc) ==> false {
        SectionNamed(e, j, 0);
      }
    }
  }

  lemma FirstHitIs(lookup: Lookup, sections: seq<Bases>, pc: Word)
    ensures var r := FirstHit(lookup, sections, pc);
            && (r == None <==> forall i | 0 <= i < |sections| :: lookup(sections[i], pc) == None)
            && (r.Some? ==> exists i | 0 <= i < |sections| ::
                  && sections[i] == r.value.bases && lookup(sections[i], pc) == Some(r.value.fde)
                  && forall j | 0 <= j < i :: lookup(sections[j], pc) == None)
  {
  }

  /**
   The newest object that names a section with the address answers, with the first such section it
   names and its own bases; no object does just when none names one.
   */
  lemma {:induction false} NewestHit(lookup: Lookup, entries: seq<Entry>, pc: Word)
    ensures var r := FirstHit(lookup, Sections(entries), pc);
            && (r == None <==> forall i, j, addr | 0 <= i < |entries| :: !Has(lookup, entries[i], j, addr, pc))
            && (r.Some? ==> exists i, j, addr | 0 <= i < |entries| ::
                  && HitsFirst(lookup, entries[i], j, addr, pc, r.value)
                  && forall n, k, other | 0 <= n < i :: !Has(lookup, entries[n], k, other, pc))
  {
    hide FirstHit, EntrySections, Has, HitsFirst;
    if entries == [] {
      NoHit(lookup, [], pc);
    } else {
      EntryHit(lookup, entries[0], pc);
      NewestHit(lookup, entries[1..], pc);
      FirstHitSum(lookup, EntrySections(entries[0]), Sections(entries[1..]), pc);
      assert forall i | 1 <= i < |entries| :: entries[i] == entries[1..][i - 1];
      assert forall i | 0 <= i < |entries| - 1 :: entries[1..][i] == entries[i + 1];
    }
  }

  // ----- Series of registrations and deregistrations -----

  datatype Op = Register(begin: Word, tbase: Word, dbase: Word) | Deregister(begin: Word)

  /** What the two operations on single tables do to the list. */
  function Apply(entries: seq<Entry>, op: Op): seq<Entry> {
    match op
    case Register(begin, tbase, dbase) =>
      if begin == 0 then entries else [Entry(tbase, dbase, Single(begin))] + entries
    case Deregister(begin) => if begin == 0 then entries else Without(entries, FirstSingle(entries, begin))
  }

  lemma RegisterApplies(entries: seq<Entry>, begin: Word, tbase: Word, dbase: Word)
    ensures Apply(entries, Register(begin, tbase, dbase)) ==
            if begin == 0 then entries else [Entry(tbase, dbase, Single(begin))] + entries
  {
  }

  lemma DeregisterApplies(entries: seq<Entry>, begin: Word)
    ensures Apply(entries, Deregister(begin)) ==
            if begin == 0 || FirstSingle(entries, begin) == |entries| then entries
            else Without(entries, FirstSingle(entries, begin))
  {
  }

  function Run(entries: seq<Entry>, ops: seq<Op>): seq<Entry>
    decreases |ops|
  {
    if ops == [] then entries else Run(Apply(entries, ops[0]), ops[1..])
  }

  /**
   With the addresses in `open` registered before it, the series registers an address only while it
   is not open, deregisters only open ones, and leaves none open. The order is otherwise free.
   */
  ghost predicate Balanced(ops: seq<Op>, open: set<Word>) {
    if ops == [] then open == {}
    else
      match ops[0]
      case Register(begin, _, _) =>
        begin != 0 && begin !in open && Balanced(ops[1..], open + {begin})
      case Deregister(begin) => begin in open && Balanced(ops[1..], open - {begin})
  }

  /** Entries added since: one for each open address. */
  ghost predicate Opened(added: seq<Entry>, open: set<Word>) {
    if added == [] then open == {}
    else
      && added[0].table.Single? && added[0].table.addr != 0 && added[0].table.addr in open
      && Opened(added[1..], open - {added[0].table.addr})
  }

  lemma FirstPast(e: Entry, entries: seq<Entry>, begin: Word)
    requires e.table != Single(begin)
    ensures FirstSingle([e] + entries, begin) == FirstSingle(entries, begin) + 1
  {
    assert ([e] + entries)[1..] == entries;
  }

  lemma WithoutPast<T>(e: T, s: seq<T>, k: nat)
    ensures Without([e] + s, k + 1) == [e] + Without(s, k)
  {
    if k < |s| {
      var head, tail := s[..k], s[k + 1..];
      assert ([e] + s)[..k + 1] == [e] + head;
      assert ([e] + s)[k + 2..] == tail;
      assert ([e] + head) + tail == [e] + (head + tail);
    }
  }

  /** Deregistering looks past an entry for something else. */
  lemma LooksPast(e: Entry, entries: seq<Entry>, begin: Word)
    requires e.table != Single(begin)
    ensures Apply([e] + entries, Deregister(begin)) == [e] + Apply(entries, Deregister(begin))
  {
    hide FirstSingle, Without;
    FirstPast(e, entries, begin);
    WithoutPast(e, entries, FirstSingle(entries, begin));
  }

  lemma TakesHead(e: Entry, entries: seq<Entry>, begin: Word)
    requires e.table == Single(begin) && begin != 0
    ensures Apply([e] + entries, Deregister(begin)) == entries
  {
    FirstSingleIs([e] + entries, begin, 0);
  }

  lemma {:induction false} CloseOne(added: seq<Entry>, entries: seq<Entry>, open: set<Word>, begin: Word)
    returns (left: seq<Entry>)
    requires Opened(added, open) && begin in open
    ensures Apply(added + entries, Deregister(begin)) == left + entries && Opened(left, open - {begin})
    ensures begin != 0
    decreases |added|
  {
    hide Apply;
    var first, rest := added[0], added[1..];
    assert added + entries == [first] + (rest + entries);
    if first.table == Single(begin) {
      TakesHead(first, rest + entries, begin);
      left := rest;
    } else {
      var left' := CloseOne(rest, entries, open - {first.table.addr}, begin);
      LooksPast(first, rest + entries, begin);
      left := [first] + left';
      assert [first] + (left' + entries) == left + entries;
      assert left[1..] == left' && open - {begin} - {first.table.addr} == open - {first.table.addr} - {begin};
    }
  }

  lemma OpenOne(added: seq<Entry>, open: set<Word>, e: Entry)
    requires Opened(added, open) && e.table.Single? && e.table.addr != 0 && e.table.addr !in open
    ensures Opened([e] + added, open + {e.table.addr})
  {
    assert ([e] + added)[1..] == added && open + {e.table.addr} - {e.table.addr} == open;
  }

  lemma {:induction false} BalancedUndoes(ops: seq<Op>, open: set<Word>, added: seq<Entry>, entries: seq<Entry>)
    requires Balanced(ops, open) && Opened(added, open)
    ensures Run(added + entries, ops) == entries
    decreases |ops|
  {
    hide FirstSingle, Without;
    if ops == [] {
      assert added == [] && added + entries == entries;
    } else {
      match ops[0]
      case Register(begin, tbase, dbase) =>
        var e := Entry(tbase, dbase, Single(begin));
        OpenOne(added, open, e);
        assert [e] + (added + entries) == ([e] + added) + entries;
        BalancedUndoes(ops[1..], open + {begin}, [e] + added, entries);
      case Deregister(begin) =>
        var left := CloseOne(added, entries, open, begin);
        BalancedUndoes(ops[1..], open - {begin}, left, entries);
    }
  }

  /**
   After any balanced series, in whatever order its registrations are undone, the list is as it was
   and every address looks up as before.
   */
  lemma SeriesRestoresLookups(ops: seq<Op>, entries: seq<Entry>, lookup: Lookup, pc: Word)
    requires Balanced(ops, {})
    ensures Run(entries, ops) == entries
    ensures FirstHit(lookup, Sections(Run(entries, ops)), pc) == FirstHit(lookup, Sections(entries), pc)
  {
    hide FirstHit, Sections;
    assert [] + entries == entries;
    BalancedUndoes(ops, {}, [], entries);
  }
}
