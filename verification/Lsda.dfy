/** Reading the call-site table of a language-specific data area (src/personality.rs:81-154). */
module Lsda {
  import opened Words
  import opened Wrappers
  import opened Slices
  import opened Leb128
  import opened Pointers

  datatype EHAction = NoAction | Cleanup(lpad: Word) | Catch(lpad: Word) | Filter(lpad: Word) | Terminate

  /** The address looked up: the return address points past the call, unless a signal interrupted. */
  function LookupIp(view: View): Word {
    if view.signal then view.ip else WrappingSub(view.ip, 1)
  }

  function ReadValue(e: Byte, view: View, s: Slice): (r: Outcome<(Word, Slice)>)
    ensures r.Done? ==> Shorter(r.value.1, s, 1)
  {
    var (p, rest) :- EncodedPointer(e, view, s);
    Done((Deref(view.memory, p), rest))
  }

  datatype Entry = Entry(start: Word, len: Word, lpad: Word, action: Word)

  function ReadEntry(e: Byte, view: View, s: Slice): (r: Outcome<(Entry, Slice)>)
    ensures r.Done? ==> Shorter(r.value.1, s, 4)
  {
    var (start, s1) :- ReadValue(e, view, s);
    var (len, s2) :- ReadValue(e, view, s1);
    var (lpad, s3) :- ReadValue(e, view, s2);
    var (action, s4) :- ReadUleb128(s3);
    Done((Entry(start, len, lpad, action), s4))
  }

  function ActionOf(index: int, lpad: Word): EHAction {
    if index == 0 then Cleanup(lpad) else if index > 0 then Catch(lpad) else Filter(lpad)
  }

  /** The action of the entry that covers the instruction. */
  function EntryAction(entry: Entry, lpadBase: Word, actions: Slice): (r: Outcome<EHAction>)
    ensures r != Panic
  {
    if entry.lpad == 0 then Done(NoAction)
    else
      var lpad := WrappingAdd(lpadBase, entry.lpad);
      if entry.action == 0 then Done(Cleanup(lpad))
      else
        var record :- Skip(actions, entry.action - 1);
        var (index, _) :- ReadSleb128(record);
        Done(ActionOf(index, lpad))
  }

  /** Scans the table until an entry covers the instruction or starts after it. */
  function Scan(e: Byte, view: View, lpadBase: Word, table: Slice, actions: Slice): Outcome<EHAction>
    decreases |table.data|
  {
    if table.data == [] then Done(Terminate)
    else
      var (entry, rest) :- ReadEntry(e, view, table);
      var start := WrappingAdd(view.regionStart, entry.start);
      if LookupIp(view) < start then Done(Terminate)
      else if LookupIp(view) < WrappingAdd(start, entry.len) then EntryAction(entry, lpadBase, actions)
      else Scan(e, view, lpadBase, rest, actions)
  }

  /** The landing-pad base, the call-site encoding and the length of the call-site table. */
  datatype Header = Header(lpadBase: Word, siteEncoding: Byte, tableLength: Word)

  function ReadLpadBase(view: View, s: Slice): Outcome<(Word, Slice)> {
    var (e, s1) :- PointerEncoding(s);
    if e == OMIT then Done((view.regionStart, s1)) else ReadValue(e, view, s1)
  }

  function SkipTypeTable(s: Slice): (r: Outcome<Slice>)
    ensures r != Panic
  {
    var (e, s1) :- PointerEncoding(s);
    if e == OMIT then Done(s1)
    else
      var (_, s2) :- ReadUleb128(s1);
      Done(s2)
  }

  function ReadHeader(view: View, s: Slice): Outcome<(Header, Slice)> {
    var (lpadBase, s1) :- ReadLpadBase(view, s);
    var s2 :- SkipTypeTable(s1);
    var (siteEncoding, s3) :- PointerEncoding(s2);
    var (tableLength, s4) :- ReadUleb128(s3);
    Done((Header(lpadBase, siteEncoding, tableLength), s4))
  }

  /** `split_at` panics when the stated length runs past the input. */
  function FindAction(view: View, s: Slice): Outcome<EHAction> {
    var (h, s1) :- ReadHeader(view, s);
    if h.tableLength > |s1.data| then Panic
    else Scan(h.siteEncoding, view, h.lpadBase, Slice(s1.ptr, s1.data[..h.tableLength]), Drop(s1, h.tableLength))
  }

  // ----- What any bytes are read as -----

  /** An entry is three encoded values and a ULEB128; it fails as the first of them that does. */
  lemma EntryMeans(e: Byte, view: View, s: Slice)
    ensures var r, a := ReadEntry(e, view, s), ReadValue(e, view, s);
            if !a.Done? then r == a.PropagateFailure()
            else
              var b := ReadValue(e, view, a.value.1);
              if !b.Done? then r == b.PropagateFailure()
              else
                var c := ReadValue(e, view, b.value.1);
                if !c.Done? then r == c.PropagateFailure()
                else
                  var d := ReadUleb128(c.value.1);
                  if !d.Done? then r == Error
                  else r == Done((Entry(a.value.0, b.value.0, c.value.0, d.value.0), d.value.1))
  {
    hide ReadValue, ReadUleb128;
    forall s { UlebNeverPanics(s); }
  }

  /** What the covering entry leads to: its action record is at one less than its action field, past the table. */
  lemma EntryActionMeans(entry: Entry, lpadBase: Word, actions: Slice)
    ensures var pad, r := (lpadBase + entry.lpad) % WORD, EntryAction(entry, lpadBase, actions);
            if entry.lpad == 0 then r == Done(NoAction)
            else if entry.action == 0 then r == Done(Cleanup(pad))
            else if entry.action - 1 > |actions.data| then r == Error
            else
              var record := ReadSleb128(Slice(actions.ptr + (entry.action - 1), actions.data[entry.action - 1..]));
              if !record.Done? then r == Error
              else if record.value.0 == 0 then r == Done(Cleanup(pad))
              else if record.value.0 > 0 then r == Done(Catch(pad))
              else r == Done(Filter(pad))
  {
    hide ReadSleb128;
    if 0 < entry.action && entry.action - 1 <= |actions.data| {
      UlebNeverPanics(Drop(actions, entry.action - 1));
    }
  }

  /** The entry is wholly before the instruction, so that the scan goes past it. */
  ghost predicate Passed(view: View, entry: Entry) {
    var start := (view.regionStart + entry.start) % WORD;
    start <= LookupIp(view) && (start + entry.len) % WORD <= LookupIp(view)
  }

  /** The scan comes to `rest`, past entries that can be read and lie before the instruction. */
  ghost predicate Comes(e: Byte, view: View, table: Slice, rest: Slice)
    decreases |table.data|
  {
    || rest == table
    || (table.data != [] && ReadEntry(e, view, table).Done? && Passed(view, ReadEntry(e, view, table).value.0)
        && Comes(e, view, ReadEntry(e, view, table).value.1, rest))
  }

  /**
   What decides a scan, on any bytes: the place where it stops. At the end of the table, or at an entry
   that starts after the instruction, it terminates; an entry that cannot be read is an error; and the
   entry that has the instruction gives its action.
   */
  lemma {:induction false} ScanDecides(e: Byte, view: View, lpadBase: Word, table: Slice, actions: Slice)
    returns (rest: Slice)
    ensures Comes(e, view, table, rest)
    ensures var r, entry := Scan(e, view, lpadBase, table, actions), ReadEntry(e, view, rest);
            if rest.data == [] then r == Done(Terminate)
            else if !entry.Done? then r == entry.PropagateFailure()
            else if LookupIp(view) < (view.regionStart + entry.value.0.start) % WORD then r == Done(Terminate)
            else !Passed(view, entry.value.0) && r == EntryAction(entry.value.0, lpadBase, actions)
    decreases |table.data|
  {
    hide ReadEntry, EntryAction, LookupIp;
    rest := table;
    if table.data != [] {
      var entry := ReadEntry(e, view, table);
      if entry.Done? && Passed(view, entry.value.0) {
        rest := ScanDecides(e, view, lpadBase, entry.value.1, actions);
      }
    }
  }

  /** The header's four parts; each may fail, and the type table's offset is read but not used. */
  lemma HeaderMeans(view: View, s: Slice)
    ensures var r, base := ReadHeader(view, s), ReadLpadBase(view, s);
            if !base.Done? then r == base.PropagateFailure()
            else
              var types := SkipTypeTable(base.value.1);
              if !types.Done? then r == Error
              else
                var e := PointerEncoding(types.value);
                if !e.Done? then r == Error
                else
                  var n := ReadUleb128(e.value.1);
                  if !n.Done? then r == Error
                  else r == Done((Header(base.value.0, e.value.0, n.value.0), n.value.1))
    ensures var r, e := ReadLpadBase(view, s), PointerEncoding(s);
            if !e.Done? then r == Error
            else if e.value.0 == 0xff then r == Done((view.regionStart, e.value.1))
            else r == ReadValue(e.value.0, view, e.value.1)
    ensures forall s :: SkipTypeTable(s) ==
              if !PointerEncoding(s).Done? then Error
              else if PointerEncoding(s).value.0 == 0xff then Done(PointerEncoding(s).value.1)
              else if !ReadUleb128(PointerEncoding(s).value.1).Done? then Error
              else Done(ReadUleb128(PointerEncoding(s).value.1).value.1)
  {
    hide ReadValue, ReadUleb128, PointerEncoding;
    forall s { UlebNeverPanics(s); }
  }

  /** The table is what the header says, the action table what follows it; a table that runs past the input panics. */
  lemma ActionMeans(view: View, s: Slice)
    ensures var r, header := FindAction(view, s), ReadHeader(view, s);
            if !header.Done? then r == header.PropagateFailure()
            else
              var (h, rest) := header.value;
              if h.tableLength > |rest.data| then r == Panic
              else
                r == Scan(h.siteEncoding, view, h.lpadBase, Slice(rest.ptr, rest.data[..h.tableLength]),
                          Slice(rest.ptr + h.tableLength, rest.data[h.tableLength..]))
  {
    hide ReadHeader, Scan;
  }

  /** An encoded value is the pointer itself, or the word that it points to. */
  lemma ValueMeans(e: Byte, view: View, s: Slice)
    ensures var r, p := ReadValue(e, view, s), EncodedPointer(e, view, s);
            if !p.Done? then r == p.PropagateFailure()
            else r == Done((if p.value.0.Direct? then p.value.0.address else Load(view.memory, p.value.0.address),
                            p.value.1))
  {
    hide EncodedPointer;
  }

  // ----- What is read of memory -----

  ghost predicate SameWords(m: Memory, m': Memory, words: set<Word>) {
    forall a | a in words :: Load(m', a) == Load(m, a)
  }

  /** The word that an encoded value is loaded from, when it is indirect. */
  function ValueReads(e: Byte, view: View, s: Slice): set<Word> {
    var p := EncodedPointer(e, view, s);
    if p.Done? && p.value.0.Indirect? then {p.value.0.address} else {}
  }

  function EntryReads(e: Byte, view: View, s: Slice): set<Word> {
    var start := ReadValue(e, view, s);
    if !start.Done? then {}
    else
      var len := ReadValue(e, view, start.value.1);
      ValueReads(e, view, s) + ValueReads(e, view, start.value.1) +
      if len.Done? then ValueReads(e, view, len.value.1) else {}
  }

  /** The words that scanning a table loads, up to the entry where the scan stops. */
  function ScanReads(e: Byte, view: View, table: Slice): set<Word>
    decreases |table.data|
  {
    if table.data == [] then {}
    else
      var entry := ReadEntry(e, view, table);
      EntryReads(e, view, table) +
      if !entry.Done? then {}
      else
        var start := WrappingAdd(view.regionStart, entry.value.0.start);
        if LookupIp(view) < start || LookupIp(view) < WrappingAdd(start, entry.value.0.len) then {}
        else ScanReads(e, view, entry.value.1)
  }

  function LpadBaseReads(view: View, s: Slice): set<Word> {
    var e := PointerEncoding(s);
    if e.Done? && e.value.0 != OMIT then ValueReads(e.value.0, view, e.value.1) else {}
  }

  /** The words that looking up the action loads through indirect pointers. */
  function ActionReads(view: View, s: Slice): set<Word> {
    var header := ReadHeader(view, s);
    LpadBaseReads(view, s) +
    if header.Done? && header.value.0.tableLength <= |header.value.1.data| then
      var (h, s1) := header.value;
      ScanReads(h.siteEncoding, view, Slice(s1.ptr, s1.data[..h.tableLength]))
    else {}
  }

  lemma SameValue(e: Byte, view: View, m: Memory, s: Slice)
    requires SameWords(view.memory, m, ValueReads(e, view, s))
    ensures ReadValue(e, view.(memory := m), s) == ReadValue(e, view, s)
    ensures ValueReads(e, view.(memory := m), s) == ValueReads(e, view, s)
  {
    hide PointerBase, ReadOffset;
    SameBase(e, view, m, s);
  }

  lemma SameBase(e: Byte, view: View, m: Memory, s: Slice)
    ensures PointerBase(Application(e), view.(memory := m), s) == PointerBase(Application(e), view, s)
  {
  }

  lemma SameEntry(e: Byte, view: View, m: Memory, s: Slice)
    requires SameWords(view.memory, m, EntryReads(e, view, s)) && ReadValue(e, view, s).Done?
    ensures ReadEntry(e, view.(memory := m), s) == ReadEntry(e, view, s)
    ensures EntryReads(e, view.(memory := m), s) == EntryReads(e, view, s)
  {
    hide ReadValue, ValueReads, ReadUleb128;
    var start := ReadValue(e, view, s);
    SameValue(e, view, m, s);
    SameValue(e, view, m, start.value.1);
    var len := ReadValue(e, view, start.value.1);
    if len.Done? { SameValue(e, view, m, len.value.1); }
  }

  lemma SameFailure(e: Byte, view: View, m: Memory, s: Slice)
    requires !ReadValue(e, view, s).Done?
    ensures ReadValue(e, view.(memory := m), s) == ReadValue(e, view, s)
    ensures ReadEntry(e, view.(memory := m), s) == ReadEntry(e, view, s)
    ensures EntryReads(e, view.(memory := m), s) == EntryReads(e, view, s)
  {
    hide PointerBase, ReadOffset;
    SameBase(e, view, m, s);
  }

  lemma {:induction false} SameScan(e: Byte, view: View, m: Memory, lpadBase: Word, table: Slice, actions: Slice)
    requires SameWords(view.memory, m, ScanReads(e, view, table))
    ensures Scan(e, view.(memory := m), lpadBase, table, actions) == Scan(e, view, lpadBase, table, actions)
    ensures ScanReads(e, view.(memory := m), table) == ScanReads(e, view, table)
    decreases |table.data|
  {
    hide ReadValue, ReadEntry, EntryReads, EntryAction;
    if table.data != [] {
      if ReadValue(e, view, table).Done? {
        SameEntry(e, view, m, table);
      } else {
        SameFailure(e, view, m, table);
      }
      var entry := ReadEntry(e, view, table);
      if entry.Done? {
        var start := WrappingAdd(view.regionStart, entry.value.0.start);
        if start <= LookupIp(view) && WrappingAdd(start, entry.value.0.len) <= LookupIp(view) {
          SameScan(e, view, m, lpadBase, entry.value.1, actions);
        }
      }
    }
  }

  lemma SameHeader(view: View, m: Memory, s: Slice)
    requires SameWords(view.memory, m, LpadBaseReads(view, s))
    ensures ReadHeader(view.(memory := m), s) == ReadHeader(view, s)
    ensures LpadBaseReads(view.(memory := m), s) == LpadBaseReads(view, s)
  {
    hide ReadValue, ValueReads, PointerEncoding, SkipTypeTable, ReadUleb128;
    var e := PointerEncoding(s);
    if e.Done? && e.value.0 != OMIT {
      SameValue(e.value.0, view, m, e.value.1);
    }
  }

  /** Memories that agree on the words read give the same action. */
  lemma SameAction(view: View, m: Memory, s: Slice)
    requires SameWords(view.memory, m, ActionReads(view, s))
    ensures FindAction(view.(memory := m), s) == FindAction(view, s)
    ensures ActionReads(view.(memory := m), s) == ActionReads(view, s)
  {
    hide ReadHeader, Scan, ScanReads, LpadBaseReads;
    SameHeader(view, m, s);
    var header := ReadHeader(view, s);
    if header.Done? && header.value.0.tableLength <= |header.value.1.data| {
      var (h, s1) := header.value;
      SameScan(h.siteEncoding, view, m, h.lpadBase, Slice(s1.ptr, s1.data[..h.tableLength]), Drop(s1, h.tableLength));
    }
  }

  // ----- Panics -----

  /** A pointer encoding relative to a base that the frame does not have. */
  predicate LacksBase(e: Byte, view: View) {
    e != OMIT && ((Application(e) == TEXTREL && view.textBase == None)
                  || (Application(e) == DATAREL && view.dataBase == None))
  }

  lemma EntryPanics(e: Byte, view: View, s: Slice)
    requires ValidEncoding(e)
    ensures ReadEntry(e, view, s) == Panic <==> LacksBase(e, view)
  {
    hide EncodedPointer;
    forall s: Slice ensures EncodedPointer(e, view, s) == Panic <==> LacksBase(e, view) {
      ValidatedNeverUnreachable(e, view, s);
    }
  }

  /** On any bytes the scan panics only at the first entry, and only for want of a base. */
  lemma {:induction false} ScanPanics(e: Byte, view: View, lpadBase: Word, table: Slice, actions: Slice)
    requires ValidEncoding(e)
    ensures Scan(e, view, lpadBase, table, actions) == Panic <==> table.data != [] && LacksBase(e, view)
    decreases |table.data|
  {
    hide ReadEntry, EntryAction, LacksBase;
    if table.data != [] {
      EntryPanics(e, view, table);
      var entry := ReadEntry(e, view, table);
      if entry.Done? {
        ScanPanics(e, view, lpadBase, entry.value.1, actions);
      }
    }
  }

  lemma HeaderPanics(view: View, s: Slice)
    ensures ReadHeader(view, s) == Panic <==> PointerEncoding(s).Done? && LacksBase(PointerEncoding(s).value.0, view)
    ensures ReadHeader(view, s).Done? ==> ValidEncoding(ReadHeader(view, s).value.0.siteEncoding)
  {
    hide EncodedPointer, LacksBase;
    var e := PointerEncoding(s);
    if e.Done? {
      LacksNone(view);
      ValidatedNeverUnreachable(e.value.0, view, e.value.1);
      LacksBaseIs(e.value.0, view);
    }
  }

  lemma LacksNone(view: View)
    ensures !LacksBase(OMIT, view)
  {
  }

  lemma LacksBaseIs(e: Byte, view: View)
    ensures LacksBase(e, view) <==>
            e != OMIT && ((Application(e) == TEXTREL && view.textBase == None) ||
                          (Application(e) == DATAREL && view.dataBase == None))
  {
  }

  /**
   On any bytes, the parser panics in three cases only: the landing-pad base is relative to a base that
   the frame does not have, the stated length of the call-site table runs past the input, or there are
   call sites and they are relative to such a base. In particular no `unreachable!` is ever hit.
   */
  lemma PanicsExactly(view: View, s: Slice)
    ensures FindAction(view, s) == Panic <==>
            var e, header := PointerEncoding(s), ReadHeader(view, s);
            || (e.Done? && LacksBase(e.value.0, view))
            || (header.Done? &&
                var (h, s1) := header.value;
                h.tableLength > |s1.data| || (h.tableLength > 0 && LacksBase(h.siteEncoding, view)))
  {
    hide ReadHeader, PointerEncoding, LacksBase, Scan;
    HeaderPanics(view, s);
    var header := ReadHeader(view, s);
    if header.Done? {
      var (h, s1) := header.value;
      if h.tableLength <= |s1.data| {
        ScanPanics(h.siteEncoding, view, h.lpadBase, Slice(s1.ptr, s1.data[..h.tableLength]), Drop(s1, h.tableLength));
      }
    }
  }

  // ----- The parser as written -----

  method ParseLpadBase(reader: Reader, view: View) returns (r: Outcome<Word>)
    modifies reader
    ensures match ReadLpadBase(view, old(reader.rest)) {
      case Done((base, rest)) => r == Done(base) && reader.rest == rest
      case Error => r == Error
      case Panic => r == Panic
    }
  {
    var e := ParsePointerEncoding(reader);
    if e.IsFailure() { return e.PropagateFailure(); }
    if e.value == OMIT { return Done(view.regionStart); }
    var p := ParseEncodedPointer(e.value, view, reader);
    if p.IsFailure() { return p.PropagateFailure(); }
    return Done(Deref(view.memory, p.value));
  }

  method ParseTypeTable(reader: Reader) returns (r: Outcome<()>)
    modifies reader
    ensures match SkipTypeTable(old(reader.rest)) {
      case Done(rest) => r == Done(()) && reader.rest == rest
      case Error => r == Error
      case Panic => false
    }
  {
    var e := ParsePointerEncoding(reader);
    if e.IsFailure() { return e.PropagateFailure(); }
    if e.value != OMIT {
      var offset := ReadUleb128(reader.rest);
      if offset.IsFailure() { return offset.PropagateFailure(); }
      reader.rest := offset.value.1;
    }
    return Done(());
  }

  method FindEhAction(reader: Reader, view: View) returns (r: Outcome<EHAction>)
    modifies reader
    ensures r == FindAction(view, old(reader.rest))
  {
    var ip := if view.signal then view.ip else WrappingSub(view.ip, 1);

    var lpadBase := ParseLpadBase(reader, view);
    if lpadBase.IsFailure() { return lpadBase.PropagateFailure(); }
    var ttype := ParseTypeTable(reader);
    if ttype.IsFailure() { return ttype.PropagateFailure(); }
    var siteEncoding := ParsePointerEncoding(reader);
    if siteEncoding.IsFailure() { return siteEncoding.PropagateFailure(); }
    var tableLength := ReadUleb128(reader.rest);
    if tableLength.IsFailure() { return tableLength.PropagateFailure(); }
    reader.rest := tableLength.value.1;
    var n := tableLength.value.0;
    assert ReadHeader(view, old(reader.rest)) == Done((Header(lpadBase.value, siteEncoding.value, n), reader.rest));

    if n > |reader.rest.data| { return Panic; }
    var table := new Reader(Slice(reader.rest.ptr, reader.rest.data[..n]));
    var actions := Drop(reader.rest, n);
    r := ScanTable(siteEncoding.value, view, ip, lpadBase.value, table, actions);
  }

  /** The `while` loop of `find_eh_action`. */
  method ScanTable(e: Byte, view: View, ip: Word, lpadBase: Word, table: Reader, actions: Slice)
    returns (r: Outcome<EHAction>)
    requires ip == LookupIp(view)
    modifies table
    ensures r == Scan(e, view, lpadBase, old(table.rest), actions)
  {
    while table.rest.data != []
      invariant Scan(e, view, lpadBase, old(table.rest), actions) == Scan(e, view, lpadBase, table.rest, actions)
      decreases |table.rest.data|
    {
      ghost var s := table.rest;
      var start := ParseEncodedPointer(e, view, table);
      if start.IsFailure() { return start.PropagateFailure(); }
      var csStart := Deref(view.memory, start.value);
      var len := ParseEncodedPointer(e, view, table);
      if len.IsFailure() { return len.PropagateFailure(); }
      var csLen := Deref(view.memory, len.value);
      var lpad := ParseEncodedPointer(e, view, table);
      if lpad.IsFailure() { return lpad.PropagateFailure(); }
      var csLpad := Deref(view.memory, lpad.value);
      var action := ReadUleb128(table.rest);
      if action.IsFailure() { return action.PropagateFailure(); }
      table.rest := action.value.1;
      var csAction := action.value.0;
      assert ReadEntry(e, view, s) == Done((Entry(csStart, csLen, csLpad, csAction), table.rest));

      if ip < WrappingAdd(view.regionStart, csStart) {
        break;
      }
      if ip < WrappingAdd(WrappingAdd(view.regionStart, csStart), csLen) {
        if csLpad == 0 {
          return Done(NoAction);
        }
        var pad := WrappingAdd(lpadBase, csLpad);
        if csAction == 0 {
          return Done(Cleanup(pad));
        }
        var record := Skip(actions, csAction - 1);
        if record.IsFailure() { return record.PropagateFailure(); }
        var index := ReadSleb128(record.value);
        if index.IsFailure() { return index.PropagateFailure(); }
        return Done(if index.value.0 == 0 then Cleanup(pad)
                    else if index.value.0 > 0 then Catch(pad) else Filter(pad));
      }
    }
    return Done(Terminate);
  }
}
