/**
 The independent reading of an LSDA: an abstract table, its encoding as bytes, and a
 proof that the parser run on the encoding answers an unrestricted search of the table.
 */
module LsdaEncoding {
  import opened Words
  import opened Wrappers
  import opened Slices
  import opened Leb128
  import opened Pointers
  import opened Lsda

  /** Code addresses as the operands of their encoded pointers; `action` is the index of a record. */
  datatype CallSite = CallSite(start: Word, len: Word, lpad: Word, action: Option<nat>)

  datatype ActionRecord = ActionRecord(typeIndex: Signed, next: Signed)

  datatype Table = Table(
    lpadStart: Option<(Byte, Word)>,
    typeTable: Option<(Byte, Word)>,
    siteEncoding: Byte,
    sites: seq<CallSite>,
    actions: seq<ActionRecord>
  )

  // ----- Meaning -----

  function ValueOf(e: Byte, view: View, operand: Word): Word {
    Deref(view.memory, Encoded(e, operand))
  }

  function SiteStart(t: Table, view: View, site: CallSite): int {
    view.regionStart + ValueOf(t.siteEncoding, view, site.start)
  }

  function SiteEnd(t: Table, view: View, site: CallSite): int {
    SiteStart(t, view, site) + ValueOf(t.siteEncoding, view, site.len)
  }

  predicate Covers(t: Table, view: View, site: CallSite) {
    SiteStart(t, view, site) <= LookupIp(view) < SiteEnd(t, view, site)
  }

  function LpadBase(t: Table, view: View): Word {
    match t.lpadStart
    case None => view.regionStart
    case Some((e, operand)) => ValueOf(e, view, operand)
  }

  function Lpad(t: Table, view: View, site: CallSite): int {
    LpadBase(t, view) + ValueOf(t.siteEncoding, view, site.lpad)
  }

  function SiteAction(t: Table, view: View, site: CallSite): EHAction
    requires site.action.Some? ==> site.action.value < |t.actions|
    requires Lpad(t, view, site) < WORD
  {
    if ValueOf(t.siteEncoding, view, site.lpad) == 0 then NoAction
    else if site.action == None then Cleanup(Lpad(t, view, site))
    else
      var index := t.actions[site.action.value].typeIndex;
      if index < 0 then Filter(Lpad(t, view, site))
      else if index == 0 then Cleanup(Lpad(t, view, site))
      else Catch(Lpad(t, view, site))
  }

  /** Sites are sorted and disjoint, no address sum overflows, and every action index exists. */
  ghost predicate WellFormed(t: Table, view: View, sites: seq<CallSite>) {
    && (forall i, j | 0 <= i < j < |sites| :: SiteEnd(t, view, sites[i]) <= SiteStart(t, view, sites[j]))
    && (forall i | 0 <= i < |sites| :: SiteEnd(t, view, sites[i]) < WORD && Lpad(t, view, sites[i]) < WORD)
    && (forall i | 0 <= i < |sites| && sites[i].action.Some? :: sites[i].action.value < |t.actions|)
  }

  /** `a` answers an unrestricted search: the action of whichever site covers, else Terminate. */
  ghost predicate Answers(t: Table, view: View, sites: seq<CallSite>, a: EHAction)
    requires WellFormed(t, view, sites)
  {
    && (forall i | 0 <= i < |sites| && Covers(t, view, sites[i]) :: a == SiteAction(t, view, sites[i]))
    && ((forall i | 0 <= i < |sites| :: !Covers(t, view, sites[i])) ==> a == Terminate)
  }

  // ----- Encoding -----

  function EncodeAt(e: Byte, view: View, p: int, operand: Word): Option<seq<Byte>> {
    if 0 <= p < WORD && Encodable(e, view, p, operand) then Some(EncodePointer(e, view, p, operand)) else None
  }

  function EncodeRecord(r: ActionRecord): seq<Byte> {
    EncodeSigned(r.typeIndex) + EncodeSigned(r.next)
  }

  function EncodeRecords(records: seq<ActionRecord>): seq<Byte> {
    if records == [] then [] else EncodeRecord(records[0]) + EncodeRecords(records[1..])
  }

  /** Where a record starts in the action table. */
  function RecordOffset(records: seq<ActionRecord>, k: nat): nat
    requires k <= |records|
  {
    if k == 0 then 0 else |EncodeRecord(records[0])| + RecordOffset(records[1..], k - 1)
  }

  predicate ActionEncodable(t: Table, site: CallSite) {
    site.action.Some? ==>
      site.action.value < |t.actions| && RecordOffset(t.actions, site.action.value) + 1 < WORD
  }

  /** The action field of a site: zero, or one more than the offset of its record. */
  function ActionField(t: Table, site: CallSite): Word
    requires ActionEncodable(t, site)
  {
    if site.action == None then 0 else 1 + RecordOffset(t.actions, site.action.value)
  }

  function EncodeSite(t: Table, view: View, p: int, site: CallSite): Option<seq<Byte>> {
    if !ActionEncodable(t, site) then None
    else
      match EncodeAt(t.siteEncoding, view, p, site.start)
      case None => None
      case Some(start) =>
        match EncodeAt(t.siteEncoding, view, p + |start|, site.len)
        case None => None
        case Some(len) =>
          match EncodeAt(t.siteEncoding, view, p + |start| + |len|, site.lpad)
          case None => None
          case Some(lpad) => Some(start + (len + (lpad + EncodeUnsigned(ActionField(t, site)))))
  }

  function EncodeSites(t: Table, view: View, p: int, sites: seq<CallSite>): Option<seq<Byte>>
    decreases |sites|
  {
    if sites == [] then Some([])
    else
      match EncodeSite(t, view, p, sites[0])
      case None => None
      case Some(first) =>
        match EncodeSites(t, view, p + |first|, sites[1..])
        case None => None
        case Some(rest) => Some(first + rest)
  }

  function EncodeLpadStart(t: Table, view: View, p: int): Option<seq<Byte>> {
    match t.lpadStart
    case None => Some([OMIT])
    case Some((e, operand)) =>
      match EncodeAt(e, view, p + 1, operand)
      case None => None
      case Some(bytes) => Some([e] + bytes)
  }

  function EncodeTypeTable(t: Table): Option<seq<Byte>> {
    match t.typeTable
    case None => Some([OMIT])
    case Some((e, offset)) => if ValidEncoding(e) && e != OMIT then Some([e] + EncodeUnsigned(offset)) else None
  }

  /**
   The bytes of a table placed at address `p`, when they exist. Pointers are relative to where
   they stand, so the length of the call-site table, which comes before it, is given as `n`.
   */
  function Encode(t: Table, view: View, p: int, n: Word): Option<seq<Byte>>
  {
    match EncodeLpadStart(t, view, p)
    case None => None
    case Some(base) =>
      match EncodeTypeTable(t)
      case None => None
      case Some(types) =>
        var header := base + (types + ([t.siteEncoding] + EncodeUnsigned(n)));
        match EncodeSites(t, view, p + |header|, t.sites)
        case None => None
        case Some(sites) =>
          if |sites| == n && ValidEncoding(t.siteEncoding)
          then Some(header + (sites + EncodeRecords(t.actions))) else None
  }

  // ----- Decoding one piece at a time -----

  lemma ValueRoundTrip(e: Byte, view: View, p: Word, operand: Word, bytes: seq<Byte>, t: seq<Byte>)
    requires EncodeAt(e, view, p, operand) == Some(bytes) && p + |bytes| + |t| < WORD
    ensures ReadValue(e, view, Slice(p, bytes + t)) == Done((ValueOf(e, view, operand), Slice(p + |bytes|, t)))
    ensures e != OMIT && ValidEncoding(e) && |bytes| >= 1
  {
    PointerRoundTrip(e, view, p, operand, t);
  }

  /** The entry that a site is read back as. */
  function EntryOf(t: Table, view: View, site: CallSite): Entry
    requires ActionEncodable(t, site)
  {
    Entry(ValueOf(t.siteEncoding, view, site.start), ValueOf(t.siteEncoding, view, site.len),
          ValueOf(t.siteEncoding, view, site.lpad), ActionField(t, site))
  }

  lemma EntrySteps(e: Byte, view: View, s: Slice, s1: Slice, s2: Slice, s3: Slice, s4: Slice, entry: Entry)
    requires ReadValue(e, view, s) == Done((entry.start, s1))
    requires ReadValue(e, view, s1) == Done((entry.len, s2))
    requires ReadValue(e, view, s2) == Done((entry.lpad, s3))
    requires ReadUleb128(s3) == Done((entry.action, s4))
    ensures ReadEntry(e, view, s) == Done((entry, s4))
  {
  }

  lemma FieldsRoundTrip(t: Table, view: View, p: Word, site: CallSite,
                        start: seq<Byte>, len: seq<Byte>, lpad: seq<Byte>, action: seq<Byte>, tail: seq<Byte>)
    requires ActionEncodable(t, site)
    requires action == EncodeUnsigned(ActionField(t, site))
    requires EncodeAt(t.siteEncoding, view, p, site.start) == Some(start)
    requires EncodeAt(t.siteEncoding, view, p + |start|, site.len) == Some(len)
    requires EncodeAt(t.siteEncoding, view, p + |start| + |len|, site.lpad) == Some(lpad)
    requires p + |start| + |len| + |lpad| + |action| + |tail| < WORD
    ensures ReadEntry(t.siteEncoding, view, Slice(p, start + (len + (lpad + (action + tail)))))
         == Done((EntryOf(t, view, site), Slice(p + |start| + |len| + |lpad| + |action|, tail)))
    ensures |start| >= 1
  {
    hide ReadValue, ReadUleb128, ReadEntry, Encodable, EncodePointer, RecordOffset, EncodeUnsigned;
    var e := t.siteEncoding;
    var t3 := action + tail;
    var t2 := lpad + t3;
    var t1 := len + t2;
    var p1, p2, p3 := p + |start|, p + |start| + |len|, p + |start| + |len| + |lpad|;
    ValueRoundTrip(e, view, p, site.start, start, t1);
    ValueRoundTrip(e, view, p1, site.len, len, t2);
    ValueRoundTrip(e, view, p2, site.lpad, lpad, t3);
    UlebRoundTrip(p3, ActionField(t, site), tail);
    EntrySteps(e, view, Slice(p, start + t1), Slice(p1, t1), Slice(p2, t2), Slice(p3, t3),
               Slice(p3 + |action|, tail), EntryOf(t, view, site));
  }

  lemma SiteRoundTrip(t: Table, view: View, p: Word, site: CallSite, bytes: seq<Byte>, tail: seq<Byte>)
    requires EncodeSite(t, view, p, site) == Some(bytes) && p + |bytes| + |tail| < WORD
    ensures ActionEncodable(t, site) && bytes != []
    ensures ReadEntry(t.siteEncoding, view, Slice(p, bytes + tail))
         == Done((EntryOf(t, view, site), Slice(p + |bytes|, tail)))
  {
    hide ReadEntry, EncodeAt, EncodeUnsigned, RecordOffset;
    var start := EncodeAt(t.siteEncoding, view, p, site.start).value;
    var len := EncodeAt(t.siteEncoding, view, p + |start|, site.len).value;
    var lpad := EncodeAt(t.siteEncoding, view, p + |start| + |len|, site.lpad).value;
    var action := EncodeUnsigned(ActionField(t, site));
    Regroup(start, len, lpad, action, tail);
    FieldsRoundTrip(t, view, p, site, start, len, lpad, action, tail);
  }

  lemma Regroup(a: seq<Byte>, b: seq<Byte>, c: seq<Byte>, d: seq<Byte>, tail: seq<Byte>)
    ensures (a + (b + (c + d))) + tail == a + (b + (c + (d + tail)))
  {
  }

  /** Skipping a record's offset leaves the action table from that record on. */
  lemma {:induction false} RecordsFrom(records: seq<ActionRecord>, k: nat, junk: seq<Byte>)
    requires k <= |records|
    ensures RecordOffset(records, k) <= |EncodeRecords(records)|
    ensures (EncodeRecords(records) + junk)[RecordOffset(records, k)..] == EncodeRecords(records[k..]) + junk
  {
    if k == 0 {
      assert records[0..] == records;
    } else {
      RecordsFrom(records[1..], k - 1, junk);
      assert records[1..][k - 1..] == records[k..];
      var first, rest := EncodeRecord(records[0]), EncodeRecords(records[1..]) + junk;
      assert EncodeRecords(records) + junk == first + rest;
      assert (first + rest)[|first| + RecordOffset(records[1..], k - 1)..] == rest[RecordOffset(records[1..], k - 1)..];
    }
  }

  lemma FirstRecord(p: Word, records: seq<ActionRecord>, junk: seq<Byte>)
    requires records != [] && p + |EncodeRecords(records)| + |junk| < WORD
    ensures var r := ReadSleb128(Slice(p, EncodeRecords(records) + junk));
            r.Done? && r.value.0 == records[0].typeIndex
  {
    hide ReadSleb128, EncodeSigned;
    var index := EncodeSigned(records[0].typeIndex);
    var rest := EncodeSigned(records[0].next) + EncodeRecords(records[1..]) + junk;
    assert EncodeRecords(records) + junk == index + rest;
    SlebRoundTrip(p, records[0].typeIndex, rest);
  }

  lemma RecordRoundTrip(p: Word, records: seq<ActionRecord>, k: nat, junk: seq<Byte>)
    requires k < |records|
    requires p + |EncodeRecords(records)| + |junk| < WORD
    ensures var s := Skip(Slice(p, EncodeRecords(records) + junk), RecordOffset(records, k));
            s.Done? && ReadSleb128(s.value).Done? && ReadSleb128(s.value).value.0 == records[k].typeIndex
  {
    hide ReadSleb128, EncodeRecords, RecordOffset;
    RecordsFrom(records, k, junk);
    FirstRecord(p + RecordOffset(records, k), records[k..], junk);
  }

  lemma EntryActionMatches(t: Table, view: View, site: CallSite, p: Word, junk: seq<Byte>)
    requires ActionEncodable(t, site) && Lpad(t, view, site) < WORD
    requires p + |EncodeRecords(t.actions)| + |junk| < WORD
    ensures EntryAction(EntryOf(t, view, site), LpadBase(t, view), Slice(p, EncodeRecords(t.actions) + junk))
         == Done(SiteAction(t, view, site))
  {
    if site.action.Some? {
      RecordRoundTrip(p, t.actions, site.action.value, junk);
    }
  }

  // ----- The whole table -----

  lemma ScanStep(e: Byte, view: View, lpadBase: Word, table: Slice, actions: Slice, entry: Entry, rest: Slice)
    requires table.data != [] && ReadEntry(e, view, table) == Done((entry, rest))
    ensures var start := WrappingAdd(view.regionStart, entry.start);
            Scan(e, view, lpadBase, table, actions) ==
            if LookupIp(view) < start then Done(Terminate)
            else if LookupIp(view) < WrappingAdd(start, entry.len) then EntryAction(entry, lpadBase, actions)
            else Scan(e, view, lpadBase, rest, actions)
  {
    hide ReadEntry, EntryAction;
  }

  /** The early exit of the scan changes nothing: it answers an unrestricted search of the sites. */
  lemma {:induction false} ScanAnswers(t: Table, view: View, p: Word, sites: seq<CallSite>, bytes: seq<Byte>,
                                       q: Word, junk: seq<Byte>, a: EHAction)
    requires EncodeSites(t, view, p, sites) == Some(bytes) && p + |bytes| < WORD
    requires q + |EncodeRecords(t.actions)| + |junk| < WORD
    requires WellFormed(t, view, sites)
    requires Answers(t, view, sites, a)
    ensures Scan(t.siteEncoding, view, LpadBase(t, view), Slice(p, bytes), Slice(q, EncodeRecords(t.actions) + junk))
         == Done(a)
    decreases |sites|
  {
    hide ReadEntry, EntryAction, EncodeSite, EncodeRecords, Scan, RecordOffset;
    var actions := Slice(q, EncodeRecords(t.actions) + junk);
    if sites == [] {
      EmptyScan(t.siteEncoding, view, LpadBase(t, view), p, actions);
    } else {
      var first := EncodeSite(t, view, p, sites[0]).value;
      var rest := EncodeSites(t, view, p + |first|, sites[1..]).value;
      SiteRoundTrip(t, view, p, sites[0], first, rest);
      ScanStep(t.siteEncoding, view, LpadBase(t, view), Slice(p, bytes), actions,
               EntryOf(t, view, sites[0]), Slice(p + |first|, rest));
      assert LookupIp(view) < SiteStart(t, view, sites[0]) ==>
               forall i | 0 <= i < |sites| :: !Covers(t, view, sites[i]);
      if Covers(t, view, sites[0]) {
        EntryActionMatches(t, view, sites[0], q, junk);
      } else if SiteEnd(t, view, sites[0]) <= LookupIp(view) {
        RestAnswers(t, view, sites, a);
        ScanAnswers(t, view, p + |first|, sites[1..], rest, q, junk, a);
      }
    }
  }

  lemma EmptyScan(e: Byte, view: View, lpadBase: Word, p: Word, actions: Slice)
    ensures Scan(e, view, lpadBase, Slice(p, []), actions) == Done(Terminate)
  {
  }

  lemma RestAnswers(t: Table, view: View, sites: seq<CallSite>, a: EHAction)
    requires sites != [] && WellFormed(t, view, sites) && Answers(t, view, sites, a)
    requires !Covers(t, view, sites[0])
    ensures WellFormed(t, view, sites[1..]) && Answers(t, view, sites[1..], a)
  {
    forall i | 1 <= i < |sites| ensures sites[i] == sites[1..][i - 1] {}
    if forall i | 0 <= i < |sites[1..]| :: !Covers(t, view, sites[1..][i]) {
      forall i | 0 <= i < |sites| ensures !Covers(t, view, sites[i]) {
        if i > 0 { assert sites[i] == sites[1..][i - 1]; }
      }
    }
  }

  lemma LpadStartRoundTrip(t: Table, view: View, p: Word, bytes: seq<Byte>, tail: seq<Byte>)
    requires EncodeLpadStart(t, view, p) == Some(bytes) && p + |bytes| + |tail| < WORD
    ensures ReadLpadBase(view, Slice(p, bytes + tail)) == Done((LpadBase(t, view), Slice(p + |bytes|, tail)))
  {
    hide ReadValue, EncodeAt;
    match t.lpadStart
    case None => EncodingByte(p, OMIT, tail);
    case Some((e, operand)) =>
      var pointer := EncodeAt(e, view, p + 1, operand).value;
      assert [e] + pointer + tail == [e] + (pointer + tail);
      ValueRoundTrip(e, view, p + 1, operand, pointer, tail);
      EncodingByte(p, e, pointer + tail);
  }

  lemma EncodingByte(p: Word, e: Byte, tail: seq<Byte>)
    requires ValidEncoding(e) && p + 1 + |tail| < WORD
    ensures PointerEncoding(Slice(p, [e] + tail)) == Done((e, Slice(p + 1, tail)))
  {
    DropPrefix(p, [e], tail);
  }

  lemma TypeTableRoundTrip(t: Table, p: Word, bytes: seq<Byte>, tail: seq<Byte>)
    requires EncodeTypeTable(t) == Some(bytes) && p + |bytes| + |tail| < WORD
    ensures SkipTypeTable(Slice(p, bytes + tail)) == Done(Slice(p + |bytes|, tail))
  {
    hide EncodeUnsigned, ReadUleb128;
    match t.typeTable
    case None => EncodingByte(p, OMIT, tail);
    case Some((e, offset)) =>
      assert [e] + EncodeUnsigned(offset) + tail == [e] + (EncodeUnsigned(offset) + tail);
      EncodingByte(p, e, EncodeUnsigned(offset) + tail);
      UlebRoundTrip(p + 1, offset, tail);
  }

  lemma HeaderRoundTrip(t: Table, view: View, p: Word, n: Word, base: seq<Byte>, types: seq<Byte>, tail: seq<Byte>)
    requires EncodeLpadStart(t, view, p) == Some(base) && EncodeTypeTable(t) == Some(types)
    requires ValidEncoding(t.siteEncoding)
    requires p + |base| + |types| + 1 + |EncodeUnsigned(n)| + |tail| < WORD
    ensures ReadHeader(view, Slice(p, base + (types + ([t.siteEncoding] + (EncodeUnsigned(n) + tail)))))
         == Done((Header(LpadBase(t, view), t.siteEncoding, n),
                  Slice(p + |base| + |types| + 1 + |EncodeUnsigned(n)|, tail)))
  {
    hide ReadLpadBase, SkipTypeTable, PointerEncoding, ReadUleb128, EncodeLpadStart, EncodeTypeTable, EncodeUnsigned;
    var t3 := EncodeUnsigned(n) + tail;
    var t2 := [t.siteEncoding] + t3;
    LpadStartRoundTrip(t, view, p, base, types + t2);
    TypeTableRoundTrip(t, p + |base|, types, t2);
    EncodingByte(p + |base| + |types|, t.siteEncoding, t3);
    UlebRoundTrip(p + |base| + |types| + 1, n, tail);
  }

  /** The action a table promises for the instruction. */
  function Lookup(t: Table, view: View, sites: seq<CallSite>): (a: EHAction)
    requires WellFormed(t, view, sites)
    ensures Answers(t, view, sites, a)
    decreases |sites|
  {
    if sites == [] then Terminate
    else if Covers(t, view, sites[0]) then SiteAction(t, view, sites[0])
    else
      assert forall i | 1 <= i < |sites| :: sites[i] == sites[1..][i - 1];
      Lookup(t, view, sites[1..])
  }

  /** For every table and instruction, the parser run on the encoding answers what the table promises. */
  lemma ParserAnswers(t: Table, view: View, p: Word, n: Word, bytes: seq<Byte>, junk: seq<Byte>)
    requires Encode(t, view, p, n) == Some(bytes) && p + |bytes| + |junk| < WORD
    requires WellFormed(t, view, t.sites)
    ensures FindAction(view, Slice(p, bytes + junk)) == Done(Lookup(t, view, t.sites))
  {
    hide ReadHeader, Scan, EncodeLpadStart, EncodeTypeTable, EncodeSites, EncodeUnsigned, EncodeRecords, Lookup,
         WellFormed, Answers, LpadBase;
    var base := EncodeLpadStart(t, view, p).value;
    var types := EncodeTypeTable(t).value;
    var length := EncodeUnsigned(n);
    var header := base + (types + ([t.siteEncoding] + length));
    var sites := EncodeSites(t, view, p + |header|, t.sites).value;
    var records := EncodeRecords(t.actions);
    var q := p + |header|;
    assert bytes == header + (sites + records);
    RegroupAll(base, types, t.siteEncoding, length, sites, records, junk);
    HeaderRoundTrip(t, view, p, n, base, types, sites + (records + junk));
    DropPrefix(q, sites, records + junk);
    assert (sites + (records + junk))[..n] == sites;
    ScanAnswers(t, view, q, t.sites, sites, q + n, junk, Lookup(t, view, t.sites));
  }

  lemma RegroupAll(base: seq<Byte>, types: seq<Byte>, e: Byte, length: seq<Byte>,
                   sites: seq<Byte>, records: seq<Byte>, junk: seq<Byte>)
    ensures (base + (types + ([e] + length))) + (sites + records) + junk
         == base + (types + ([e] + (length + (sites + (records + junk)))))
  {
  }

  /**
   A return address is looked up at the call before it: even when the call ends its site and the
   next site starts right there, it is the site holding the call that answers.
   */
  lemma CallSelectsItsSite(t: Table, view: View, p: Word, n: Word, bytes: seq<Byte>, junk: seq<Byte>, k: nat)
    requires Encode(t, view, p, n) == Some(bytes) && p + |bytes| + |junk| < WORD
    requires WellFormed(t, view, t.sites)
    requires k < |t.sites| && !view.signal
    requires SiteStart(t, view, t.sites[k]) < view.ip <= SiteEnd(t, view, t.sites[k])
    ensures FindAction(view, Slice(p, bytes + junk)) == Done(SiteAction(t, view, t.sites[k]))
  {
    hide FindAction, Encode;
    ParserAnswers(t, view, p, n, bytes, junk);
  }

  /** An instruction that a signal interrupted is looked up as it stands: its own site answers. */
  lemma InterruptedSelectsItsSite(t: Table, view: View, p: Word, n: Word, bytes: seq<Byte>, junk: seq<Byte>, k: nat)
    requires Encode(t, view, p, n) == Some(bytes) && p + |bytes| + |junk| < WORD
    requires WellFormed(t, view, t.sites)
    requires k < |t.sites| && view.signal
    requires SiteStart(t, view, t.sites[k]) <= view.ip < SiteEnd(t, view, t.sites[k])
    ensures FindAction(view, Slice(p, bytes + junk)) == Done(SiteAction(t, view, t.sites[k]))
  {
    hide FindAction, Encode;
    ParserAnswers(t, view, p, n, bytes, junk);
  }

  /** Where no site has the instruction, or the call before a return address, unwinding terminates. */
  lemma GapTerminates(t: Table, view: View, p: Word, n: Word, bytes: seq<Byte>, junk: seq<Byte>)
    requires Encode(t, view, p, n) == Some(bytes) && p + |bytes| + |junk| < WORD
    requires WellFormed(t, view, t.sites) && 0 < view.ip
    requires forall k | 0 <= k < |t.sites| ::
               var start, end := SiteStart(t, view, t.sites[k]), SiteEnd(t, view, t.sites[k]);
               if view.signal then !(start <= view.ip < end) else !(start < view.ip <= end)
    ensures FindAction(view, Slice(p, bytes + junk)) == Done(Terminate)
  {
    hide FindAction, Encode, SiteStart, SiteEnd;
    ParserAnswers(t, view, p, n, bytes, junk);
  }

  /** What a site's action is, from its landing pad and the type index of its action record. */
  lemma SiteActionIs(t: Table, view: View, site: CallSite)
    requires site.action.Some? ==> site.action.value < |t.actions|
    requires Lpad(t, view, site) < WORD
    ensures var pad := ValueOf(t.siteEncoding, view, site.lpad);
            var index := if site.action.Some? then t.actions[site.action.value].typeIndex else 0;
            SiteAction(t, view, site) ==
            if pad == 0 then NoAction
            else if index > 0 then Catch(LpadBase(t, view) + pad)
            else if index < 0 then Filter(LpadBase(t, view) + pad)
            else Cleanup(LpadBase(t, view) + pad)
  {
  }

  // ----- Layouts exist -----

  lemma {:induction false} SitesMovable(t: Table, view: View, p: int, q: int, sites: seq<CallSite>)
    requires Application(t.siteEncoding) != PCREL && Application(t.siteEncoding) != ALIGNED
    requires EncodeSites(t, view, p, sites).Some? && 0 <= q
    requires q + |EncodeSites(t, view, p, sites).value| < WORD
    ensures EncodeSites(t, view, q, sites) == EncodeSites(t, view, p, sites)
    decreases |sites|
  {
    hide EncodeSite;
    if sites != [] {
      SiteMovable(t, view, p, q, sites[0]);
      var n := |EncodeSite(t, view, p, sites[0]).value|;
      SitesMovable(t, view, p + n, q + n, sites[1..]);
    }
  }

  lemma SiteMovable(t: Table, view: View, p: int, q: int, site: CallSite)
    requires Application(t.siteEncoding) != PCREL && Application(t.siteEncoding) != ALIGNED
    requires EncodeSite(t, view, p, site).Some? && 0 <= q
    requires q + |EncodeSite(t, view, p, site).value| < WORD
    ensures EncodeSite(t, view, q, site) == EncodeSite(t, view, p, site)
  {
  }

  /**
   Encodings exist: when call sites do not depend on where they stand, the length of their
   encoding anywhere is the length to state in the header.
   */
  lemma LayoutExists(t: Table, view: View, p: Word, base: seq<Byte>, types: seq<Byte>, sites: seq<Byte>)
    requires ValidEncoding(t.siteEncoding)
    requires Application(t.siteEncoding) != PCREL && Application(t.siteEncoding) != ALIGNED
    requires EncodeLpadStart(t, view, p) == Some(base) && EncodeTypeTable(t) == Some(types)
    requires EncodeSites(t, view, 0, t.sites) == Some(sites)
    requires p + |base| + |types| + 11 + |sites| < WORD
    ensures Encode(t, view, p, |sites|).Some?
  {
    hide EncodeLpadStart, EncodeTypeTable, EncodeSites, EncodeUnsigned;
    EncodeUnsignedLength(|sites|, 0);
    var header := base + (types + ([t.siteEncoding] + EncodeUnsigned(|sites|)));
    SitesMovable(t, view, 0, p + |header|, t.sites);
  }

  lemma UlebOperand(view: View, p: Word, operand: Word)
    ensures EncodeAt(ULEB128, view, p, operand).Some?
    ensures 1 <= |EncodeAt(ULEB128, view, p, operand).value| <= 10
  {
    EncodeUnsignedLength(operand, 0);
    assert Encodable(ULEB128, view, p, operand) && OffsetAt(ULEB128, view, p, operand) == operand;
    assert EncodePointer(ULEB128, view, p, operand) == EncodeUnsigned(operand);
  }

  lemma UlebSite(t: Table, view: View, p: Word, site: CallSite)
    requires t.siteEncoding == ULEB128 && ActionEncodable(t, site) && p + 40 < WORD
    ensures EncodeSite(t, view, p, site).Some? && |EncodeSite(t, view, p, site).value| <= 40
  {
    hide EncodeAt, EncodeUnsigned, RecordOffset;
    UlebOperand(view, p, site.start);
    var p1 := p + |EncodeAt(ULEB128, view, p, site.start).value|;
    UlebOperand(view, p1, site.len);
    UlebOperand(view, p1 + |EncodeAt(ULEB128, view, p1, site.len).value|, site.lpad);
    EncodeUnsignedLength(ActionField(t, site), 0);
  }

  lemma {:induction false} UlebSites(t: Table, view: View, p: nat, sites: seq<CallSite>)
    requires t.siteEncoding == ULEB128 && p + 40 * |sites| < WORD
    requires forall i | 0 <= i < |sites| :: ActionEncodable(t, sites[i])
    ensures EncodeSites(t, view, p, sites).Some? && |EncodeSites(t, view, p, sites).value| <= 40 * |sites|
    decreases |sites|
  {
    hide EncodeSite, ActionEncodable;
    if sites != [] {
      UlebSite(t, view, p, sites[0]);
      UlebSites(t, view, p + |EncodeSite(t, view, p, sites[0]).value|, sites[1..]);
    }
  }

  /** Every table in the form that Rust emits, with no landing-pad base and ULEB128 call sites, has an encoding. */
  lemma UlebTableEncodes(t: Table, view: View, p: Word) returns (n: Word)
    requires t.siteEncoding == ULEB128 && t.lpadStart == None
    requires t.typeTable.Some? ==> ValidEncoding(t.typeTable.value.0) && t.typeTable.value.0 != OMIT
    requires forall i | 0 <= i < |t.sites| :: ActionEncodable(t, t.sites[i])
    requires p + 23 + 40 * |t.sites| < WORD
    ensures Encode(t, view, p, n).Some?
    ensures |Encode(t, view, p, n).value| <= 23 + 40 * |t.sites| + |EncodeRecords(t.actions)|
  {
    hide EncodeSites, EncodeUnsigned, ActionEncodable, Encode, EncodeRecords;
    UlebSites(t, view, 0, t.sites);
    var sites := EncodeSites(t, view, 0, t.sites).value;
    if t.typeTable.Some? {
      EncodeUnsignedLength(t.typeTable.value.1, 0);
    }
    LayoutExists(t, view, p, [OMIT], EncodeTypeTable(t).value, sites);
    n := |sites|;
    EncodeLength(t, view, p, n, [OMIT], EncodeTypeTable(t).value);
    EncodeUnsignedLength(n, 0);
  }

  lemma EncodeLength(t: Table, view: View, p: Word, n: Word, base: seq<Byte>, types: seq<Byte>)
    requires EncodeLpadStart(t, view, p) == Some(base) && EncodeTypeTable(t) == Some(types)
    requires Encode(t, view, p, n).Some?
    ensures |Encode(t, view, p, n).value| ==
            |base| + |types| + 1 + |EncodeUnsigned(n)| + n + |EncodeRecords(t.actions)|
  {
    hide EncodeLpadStart, EncodeTypeTable, EncodeSites, EncodeUnsigned, EncodeRecords;
  }

  // ----- What an encoding depends on -----

  /** Call sites are encoded by where the bases are, not by the instruction or by memory. */
  lemma {:induction false} SitesSameBases(t: Table, view: View, view': View, p: int, sites: seq<CallSite>)
    requires view' == view.(memory := view'.memory, ip := view'.ip, signal := view'.signal)
    ensures EncodeSites(t, view', p, sites) == EncodeSites(t, view, p, sites)
    decreases |sites|
  {
    hide EncodeSite;
    if sites != [] {
      SiteSameBases(t, view, view', p, sites[0]);
      var first := EncodeSite(t, view, p, sites[0]);
      if first.Some? { SitesSameBases(t, view, view', p + |first.value|, sites[1..]); }
    }
  }

  lemma SiteSameBases(t: Table, view: View, view': View, p: int, site: CallSite)
    requires view' == view.(memory := view'.memory, ip := view'.ip, signal := view'.signal)
    ensures EncodeSite(t, view', p, site) == EncodeSite(t, view, p, site)
  {
    hide EncodeAt, EncodeUnsigned, RecordOffset;
    forall q, operand
      ensures EncodeAt(t.siteEncoding, view', q, operand) == EncodeAt(t.siteEncoding, view, q, operand)
    {
      OperandSameBases(t.siteEncoding, view, view', q, operand);
    }
  }

  lemma OperandSameBases(e: Byte, view: View, view': View, p: int, operand: Word)
    requires view' == view.(memory := view'.memory, ip := view'.ip, signal := view'.signal)
    ensures EncodeAt(e, view', p, operand) == EncodeAt(e, view, p, operand)
  {
    hide EncodeOffset, FitsFormat;
  }

  lemma EncodeSameBases(t: Table, view: View, view': View, p: int, n: Word)
    requires view' == view.(memory := view'.memory, ip := view'.ip, signal := view'.signal)
    ensures Encode(t, view', p, n) == Encode(t, view, p, n)
  {
    hide EncodeSites, EncodeUnsigned, EncodeRecords;
    forall q { SitesSameBases(t, view, view', q, t.sites); }
  }

  lemma {:induction false} DirectScanReadsNothing(e: Byte, view: View, table: Slice)
    requires !IsIndirect(e)
    ensures ScanReads(e, view, table) == {}
    decreases |table.data|
  {
    hide ReadEntry, ReadValue, PointerBase, ReadOffset;
    if table.data != [] && ReadEntry(e, view, table).Done? {
      DirectScanReadsNothing(e, view, ReadEntry(e, view, table).value.1);
    }
  }

  /** Without a landing-pad base and with direct call sites, the parser reads no memory besides the table itself. */
  lemma DirectTableReadsNothing(t: Table, view: View, p: Word, n: Word, bytes: seq<Byte>, junk: seq<Byte>)
    requires Encode(t, view, p, n) == Some(bytes) && p + |bytes| + |junk| < WORD
    requires t.lpadStart == None && !IsIndirect(t.siteEncoding)
    ensures ActionReads(view, Slice(p, bytes + junk)) == {}
  {
    hide ReadHeader, ScanReads, EncodeTypeTable, EncodeSites, EncodeUnsigned, EncodeRecords, LpadBase;
    var types := EncodeTypeTable(t).value;
    var length := EncodeUnsigned(n);
    var header := [OMIT] + (types + ([t.siteEncoding] + length));
    var sites := EncodeSites(t, view, p + |header|, t.sites).value;
    var records := EncodeRecords(t.actions);
    var rest := types + ([t.siteEncoding] + (length + (sites + (records + junk))));
    assert bytes == header + (sites + records);
    RegroupAll([OMIT], types, t.siteEncoding, length, sites, records, junk);
    HeaderRoundTrip(t, view, p, n, [OMIT], types, sites + (records + junk));
    EncodingByte(p, OMIT, rest);
    var h, s1 := ReadHeader(view, Slice(p, [OMIT] + rest)).value.0, ReadHeader(view, Slice(p, [OMIT] + rest)).value.1;
    if h.tableLength <= |s1.data| {
      DirectScanReadsNothing(h.siteEncoding, view, Slice(s1.ptr, s1.data[..h.tableLength]));
    }
  }
}
