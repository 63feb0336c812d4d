/** The scan of the .eh_frame sections for the frame description entry that
    covers an instruction pointer. */
module EhFrame {
  import opened Bits

  /** eh_frame_t; a module without one has address and size 0. */
  datatype Section = Section(addr: nat, size: nat)

  ghost predicate InAddressSpace(s: Section) {
    s.addr + s.size < WORD
  }

  /** Flat memory. */
  type Memory = nat -> Byte

  function Word32(mem: Memory, a: nat): (r: nat)
    ensures r < 0x1_0000_0000
  {
    mem(a) + 0x100 * mem(a + 1) + 0x1_0000 * mem(a + 2) + 0x100_0000 * mem(a + 3)
  }

  function Word64(mem: Memory, a: nat): (r: nat)
    ensures r < WORD
  {
    Word32(mem, a) + 0x1_0000_0000 * Word32(mem, a + 4)
  }

  /** A record, or the end of the scan. */
  datatype Entry = Record(start: nat, payload: nat, end: nat, isCie: bool) | NoEntry

  predicate Is64(mem: Memory, a: nat) { Word32(mem, a) == 0xFFFF_FFFF }
  function HeaderSize(mem: Memory, a: nat): nat { if Is64(mem, a) then 12 else 4 }
  function Length(mem: Memory, a: nat): nat { if Is64(mem, a) then Word64(mem, a + 4) else Word32(mem, a) }

  /** common_entry::non_virtual_parse; pointers wrap like 64-bit words. */
  function Parse(s: Section, mem: Memory, a: nat): Entry {
    if a == 0 then NoEntry
    else if a < s.addr then NoEntry
    else if Length(mem, a) == 0 then NoEntry
    else
      var payload := (a + HeaderSize(mem, a)) % WORD;
      var end := (payload + Length(mem, a)) % WORD;
      if end > s.addr + s.size then NoEntry
      else Record(a, payload, end, Word32(mem, payload) == 0)
  }

  /** operator++ */
  function Advance(s: Section, mem: Memory, e: Entry): Entry {
    if e.NoEntry? then e
    else if (e.end + 4) % WORD < s.addr + s.size then Parse(s, mem, e.end)
    else NoEntry
  }

  /** Bytes from the start of the record at a to its end. */
  function Extent(mem: Memory, a: nat): nat {
    HeaderSize(mem, a) + Length(mem, a)
  }

  /** The end of the record stays in the address space, or goes more than once
      around it (an extended length within 11 of 2^64 lands in the header). */
  predicate MovesOn(mem: Memory, a: nat) {
    a + Extent(mem, a) < WORD || WORD < Extent(mem, a) < 2 * WORD - a
  }

  lemma EndIsExtent(mem: Memory, a: nat)
    ensures ((a + HeaderSize(mem, a)) % WORD + Length(mem, a)) % WORD == (a + Extent(mem, a)) % WORD
  {
    WrapTwice(a + HeaderSize(mem, a), Length(mem, a));
  }

  lemma WrapSmall(x: nat)
    requires x < WORD
    ensures x % WORD == x
  {
  }

  lemma WrapTwice(x: nat, n: nat)
    ensures (x % WORD + n) % WORD == (x + n) % WORD
  {
  }

  lemma WrapForward(a: nat, n: nat)
    requires a < WORD && 0 < n < WORD + 12
    ensures a < (a + n) % WORD <==> a + n < WORD || WORD < n < 2 * WORD - a
  {
    if a + n < WORD {
      assert (a + n) % WORD == a + n;
    } else if a + n < 2 * WORD {
      assert (a + n) % WORD == a + n - WORD;
    } else {
      assert (a + n) % WORD == a + n - 2 * WORD;
    }
  }

  /** A record ends behind its start iff its length does not wrap it back. */
  lemma RecordMovesOn(s: Section, mem: Memory, a: nat)
    requires a < WORD && Parse(s, mem, a).Record?
    ensures var e := Parse(s, mem, a);
            && e.start == a && s.addr <= a && e.end <= s.addr + s.size && e.end < WORD
            && (a < e.end <==> MovesOn(mem, a))
  {
    EndIsExtent(mem, a);
    WrapForward(a, Extent(mem, a));
  }

  /** A record whose extended length is 2^64 - 12 ends where it starts: from
      there the scan never gets on. */
  lemma WrappedLengthStalls(s: Section, mem: Memory, a: nat)
    requires 0 < s.addr <= a && a + 4 < s.addr + s.size < WORD
    requires Is64(mem, a) && Word64(mem, a + 4) == WORD - 12
    ensures Parse(s, mem, a).Record? && Advance(s, mem, Parse(s, mem, a)) == Parse(s, mem, a)
  {
    EndIsExtent(mem, a);
    assert (a + WORD) % WORD == a;
  }

  /** The cut-off in front of a record: fewer than five bytes before the end of
      the section a record parses iff its length wraps around the address space
      to in front of that end. So nothing that fits is skipped. */
  lemma CutOffSkipsOnlyWrapped(s: Section, mem: Memory, a: nat)
    requires InAddressSpace(s) && 0 < s.addr <= a <= s.addr + s.size <= a + 4
    ensures Parse(s, mem, a).Record? <==>
            Length(mem, a) != 0 && a + Extent(mem, a) >= WORD && (a + Extent(mem, a)) % WORD <= s.addr + s.size
  {
    EndIsExtent(mem, a);
    if a + Extent(mem, a) < WORD {
      WrapSmall(a + Extent(mem, a));
    }
  }

  // ---------------------------------------------------------------------------
  // The chain of records
  // ---------------------------------------------------------------------------

  /** Every record the scan reaches from e on moves on. */
  ghost predicate Scannable(s: Section, mem: Memory, e: Entry)
    requires InAddressSpace(s)
    decreases if e.Record? then s.addr + s.size + 1 - e.start else 0
  {
    e.Record? ==>
      && e.start < WORD && e == Parse(s, mem, e.start) && MovesOn(mem, e.start)
      && (RecordMovesOn(s, mem, e.start);
          Advance(s, mem, e).Record? ==> Advance(s, mem, e).start == e.end && Scannable(s, mem, Advance(s, mem, e)))
  }

  /** The records from e on. */
  ghost function Chain(s: Section, mem: Memory, e: Entry): seq<Entry>
    requires InAddressSpace(s) && Scannable(s, mem, e)
    decreases if e.Record? then s.addr + s.size + 1 - e.start else 0
  {
    if e.NoEntry? then []
    else
      RecordMovesOn(s, mem, e.start);
      var next := Advance(s, mem, e);
      [e] + (if next.NoEntry? then [] else Chain(s, mem, next))
  }

  /** A record in front of records that move on. */
  lemma ScannableStep(s: Section, mem: Memory, e: Entry)
    requires InAddressSpace(s) && e.Record? && e.start < WORD && e == Parse(s, mem, e.start) && MovesOn(mem, e.start)
    requires Scannable(s, mem, Advance(s, mem, e))
    ensures Scannable(s, mem, e)
  {
    RecordMovesOn(s, mem, e.start);
  }

  /** No record, wherever in the section it is taken to start, wraps. */
  ghost predicate NoWrap(s: Section, mem: Memory) {
    forall x :: s.addr <= x < s.addr + s.size ==> x + Extent(mem, x) < WORD
  }

  lemma NextIsInside(s: Section, mem: Memory, e: Entry)
    requires s.addr + s.size + 4 < WORD && e.Record? && e.end <= s.addr + s.size && Advance(s, mem, e).Record?
    ensures e.end < s.addr + s.size && Advance(s, mem, e) == Parse(s, mem, e.end)
  {
    WrapSmall(e.end + 4);
  }

  lemma NoWrapMovesOn(s: Section, mem: Memory, a: nat)
    requires s.addr + s.size < WORD && NoWrap(s, mem) && a < s.addr + s.size && Parse(s, mem, a).Record?
    ensures var e := Parse(s, mem, a); e.start == a && MovesOn(mem, a) && a < e.end <= s.addr + s.size
  {
    RecordMovesOn(s, mem, a);
  }

  /** If no length can wrap, every record the scan reaches moves on. */
  lemma {:induction false} NoWrapIsScannable(s: Section, mem: Memory, a: nat)
    requires s.addr + s.size + 4 < WORD && NoWrap(s, mem) && a < s.addr + s.size
    ensures Scannable(s, mem, Parse(s, mem, a))
    decreases s.addr + s.size - a
  {
    var e := Parse(s, mem, a);
    if e.Record? {
      NoWrapMovesOn(s, mem, a);
      if Advance(s, mem, e).Record? {
        NextIsInside(s, mem, e);
        NoWrapIsScannable(s, mem, e.end);
      }
      ScannableStep(s, mem, e);
    }
  }

  // ---------------------------------------------------------------------------
  // find_fde
  // ---------------------------------------------------------------------------

  /** The code range of a frame description entry, decoded from its payload. */
  datatype Range = Range(begin: nat, length: nat)

  /** is_in_range */
  predicate InRange(r: Range, pc: nat) {
    pc > r.begin && pc <= (r.begin + r.length) % WORD
  }

  predicate Matches(e: Entry, ranges: nat -> Range, pc: nat) {
    e.Record? && !e.isCie && InRange(ranges(e.payload), pc)
  }

  /** The first matching record of a sequence. */
  ghost function FirstMatch(es: seq<Entry>, ranges: nat -> Range, pc: nat): Entry {
    if es == [] then NoEntry
    else if Matches(es[0], ranges, pc) then es[0]
    else FirstMatch(es[1..], ranges, pc)
  }

  /** FirstMatch is the first: nothing in front of it matches, and there is none
      exactly when nothing matches at all. */
  lemma {:induction false} FirstMatchIsFirst(es: seq<Entry>, ranges: nat -> Range, pc: nat)
    ensures var e := FirstMatch(es, ranges, pc);
            if e.NoEntry? then forall i :: 0 <= i < |es| ==> !Matches(es[i], ranges, pc)
            else
              exists k :: 0 <= k < |es| && e == es[k] && Matches(e, ranges, pc)
                          && forall i :: 0 <= i < k ==> !Matches(es[i], ranges, pc)
  {
    if es != [] && !Matches(es[0], ranges, pc) {
      FirstMatchIsFirst(es[1..], ranges, pc);
      var e := FirstMatch(es, ranges, pc);
      if e.Record? {
        var k :| 0 <= k < |es[1..]| && e == es[1..][k] && Matches(e, ranges, pc)
                 && forall i :: 0 <= i < k ==> !Matches(es[1..][i], ranges, pc);
        assert es[k + 1] == e;
        forall i | 0 <= i < k + 1 ensures !Matches(es[i], ranges, pc) {
          if i > 0 { assert es[i] == es[1..][i - 1]; }
        }
      } else {
        forall i | 0 <= i < |es| ensures !Matches(es[i], ranges, pc) {
          if i > 0 { assert es[i] == es[1..][i - 1]; }
        }
      }
    }
  }

  lemma {:induction false} FirstMatchAppend(a: seq<Entry>, b: seq<Entry>, ranges: nat -> Range, pc: nat)
    ensures FirstMatch(a + b, ranges, pc) ==
            if FirstMatch(a, ranges, pc).Record? then FirstMatch(a, ranges, pc) else FirstMatch(b, ranges, pc)
  {
    if a == [] {
      assert a + b == b;
    } else {
      assert (a + b)[1..] == a[1..] + b;
      FirstMatchAppend(a[1..], b, ranges, pc);
    }
  }

  ghost predicate AllScannable(modules: seq<Section>, mem: Memory) {
    forall i :: 0 <= i < |modules| ==>
      InAddressSpace(modules[i]) && Scannable(modules[i], mem, Parse(modules[i], mem, modules[i].addr))
  }

  /** All records of all modules, in module and record order. */
  ghost function AllRecords(modules: seq<Section>, mem: Memory): seq<Entry>
    requires AllScannable(modules, mem)
  {
    if modules == [] then []
    else
      Chain(modules[0], mem, Parse(modules[0], mem, modules[0].addr)) + AllRecords(modules[1..], mem)
  }

  /** The scan from e visits the records of list, in that order, and ends: with
      the first match, or where there is no further record. */
  ghost predicate Visits(s: Section, mem: Memory, ranges: nat -> Range, pc: nat, e: Entry, list: seq<Entry>)
    decreases |list|
  {
    if list == [] then e.NoEntry?
    else
      && e.Record? && e == list[0]
      && if Matches(e, ranges, pc) then |list| == 1 else Visits(s, mem, ranges, pc, Advance(s, mem, e), list[1..])
  }

  /** The same over the modules; a match ends the search. */
  ghost predicate Searches(modules: seq<Section>, mem: Memory, ranges: nat -> Range, pc: nat, lists: seq<seq<Entry>>)
    decreases |modules|
  {
    if modules == [] then lists == []
    else
      && lists != []
      && Visits(modules[0], mem, ranges, pc, Parse(modules[0], mem, modules[0].addr), lists[0])
      && if FirstMatch(lists[0], ranges, pc).Record? then |lists| == 1
         else Searches(modules[1..], mem, ranges, pc, lists[1..])
  }

  /** All records visited, in module and record order. */
  ghost function Visited(lists: seq<seq<Entry>>): seq<Entry> {
    if lists == [] then [] else lists[0] + Visited(lists[1..])
  }

  /** The inner loop of find_fde, for every section on which it ends. */
  method ScanModule(s: Section, mem: Memory, ranges: nat -> Range, pc: nat, ghost list: seq<Entry>)
    returns (found: Entry)
    requires InAddressSpace(s) && Visits(s, mem, ranges, pc, Parse(s, mem, s.addr), list)
    ensures found == FirstMatch(list, ranges, pc)
  {
    var fde := Parse(s, mem, s.addr);
    ghost var rest := list;
    while fde.Record?
      invariant Visits(s, mem, ranges, pc, fde, rest)
      invariant FirstMatch(rest, ranges, pc) == FirstMatch(list, ranges, pc)
      decreases |rest|
    {
      if !fde.isCie && InRange(ranges(fde.payload), pc) {
        return fde;
      }
      fde := Advance(s, mem, fde);
      rest := rest[1..];
    }
    return NoEntry;
  }

  /** find_fde, whenever it ends: the first matching record in module and record
      order, or none exactly when no record visited matches. */
  method FindFde(modules: seq<Section>, mem: Memory, ranges: nat -> Range, pc: nat, ghost lists: seq<seq<Entry>>)
    returns (found: Entry)
    requires forall m :: 0 <= m < |modules| ==> InAddressSpace(modules[m])
    requires Searches(modules, mem, ranges, pc, lists)
    ensures found == FirstMatch(Visited(lists), ranges, pc)
  {
    var m := 0;
    ghost var rest := lists;
    while m < |modules|
      invariant 0 <= m <= |modules| && Searches(modules[m..], mem, ranges, pc, rest)
      invariant FirstMatch(Visited(rest), ranges, pc) == FirstMatch(Visited(lists), ranges, pc)
    {
      assert modules[m..][0] == modules[m] && modules[m..][1..] == modules[m + 1..];
      found := ScanModule(modules[m], mem, ranges, pc, rest[0]);
      FirstMatchAppend(rest[0], Visited(rest[1..]), ranges, pc);
      if found.Record? {
        return;
      }
      rest := rest[1..];
      m := m + 1;
    }
    return NoEntry;
  }

  /** A scan in which every record moves on ends, having visited the records up
      to the first match of the whole chain. */
  lemma {:induction false} ScannableVisits(s: Section, mem: Memory, ranges: nat -> Range, pc: nat, e: Entry)
    returns (list: seq<Entry>)
    requires InAddressSpace(s) && Scannable(s, mem, e)
    ensures Visits(s, mem, ranges, pc, e, list)
    ensures FirstMatch(list, ranges, pc) == FirstMatch(Chain(s, mem, e), ranges, pc)
    decreases if e.Record? then s.addr + s.size + 1 - e.start else 0
  {
    if e.NoEntry? {
      list := [];
    } else if Matches(e, ranges, pc) {
      list := [e];
    } else {
      RecordMovesOn(s, mem, e.start);
      var rest := ScannableVisits(s, mem, ranges, pc, Advance(s, mem, e));
      list := [e] + rest;
      assert list[1..] == rest;
      assert Chain(s, mem, e)[1..] == Chain(s, mem, Advance(s, mem, e));
    }
  }

  /** If every record of every module moves on, the search ends with the first
      match among all records. */
  lemma {:induction false} ScannableSearches(modules: seq<Section>, mem: Memory, ranges: nat -> Range, pc: nat)
    returns (lists: seq<seq<Entry>>)
    requires AllScannable(modules, mem)
    ensures Searches(modules, mem, ranges, pc, lists)
    ensures FirstMatch(Visited(lists), ranges, pc) == FirstMatch(AllRecords(modules, mem), ranges, pc)
    decreases |modules|
  {
    if modules == [] {
      lists := [];
    } else {
      var first := Parse(modules[0], mem, modules[0].addr);
      var list := ScannableVisits(modules[0], mem, ranges, pc, first);
      var rest := ScannableSearches(modules[1..], mem, ranges, pc);
      FirstMatchAppend(Chain(modules[0], mem, first), AllRecords(modules[1..], mem), ranges, pc);
      lists := if FirstMatch(list, ranges, pc).Record? then [list] else [list] + rest;
      assert lists[0] == list && (lists == [list] + rest ==> lists[1..] == rest);
      FirstMatchAppend(list, Visited(lists[1..]), ranges, pc);
    }
  }

  // ---------------------------------------------------------------------------
  // When the scan ends
  // ---------------------------------------------------------------------------

  /** The scan from e ends after at most n records. */
  predicate EndsWithin(s: Section, mem: Memory, ranges: nat -> Range, pc: nat, e: Entry, n: nat)
    decreases n
  {
    || e.NoEntry?
    || (n > 0 && (Matches(e, ranges, pc) || EndsWithin(s, mem, ranges, pc, Advance(s, mem, e), n - 1)))
  }

  /** An entry that the scan of s can be at: a record of the section, or none. */
  ghost predicate Reachable(s: Section, mem: Memory, e: Entry) {
    e.Record? ==> e == Parse(s, mem, e.start) && s.addr <= e.start <= s.addr + s.size
  }

  lemma AdvanceIsReachable(s: Section, mem: Memory, e: Entry)
    requires Reachable(s, mem, e)
    ensures Reachable(s, mem, Advance(s, mem, e))
  {
  }

  /** The records that the scan visits are determined by where it starts. */
  lemma {:induction false} VisitsOnce(s: Section, mem: Memory, ranges: nat -> Range, pc: nat, e: Entry,
                                      a: seq<Entry>, b: seq<Entry>)
    requires Visits(s, mem, ranges, pc, e, a) && Visits(s, mem, ranges, pc, e, b)
    ensures a == b
    decreases |a|
  {
    if a != [] && !Matches(e, ranges, pc) {
      VisitsOnce(s, mem, ranges, pc, Advance(s, mem, e), a[1..], b[1..]);
      assert a == [a[0]] + a[1..] && b == [b[0]] + b[1..];
    }
  }

  /** From record k on the scan visits the rest of the list. */
  lemma {:induction false} VisitsFrom(s: Section, mem: Memory, ranges: nat -> Range, pc: nat, e: Entry,
                                      list: seq<Entry>, k: nat)
    requires Visits(s, mem, ranges, pc, e, list) && Reachable(s, mem, e) && k < |list|
    ensures Visits(s, mem, ranges, pc, list[k], list[k..]) && Reachable(s, mem, list[k]) && list[k].Record?
    decreases k
  {
    if k == 0 {
      assert list[0..] == list;
    } else {
      AdvanceIsReachable(s, mem, e);
      VisitsFrom(s, mem, ranges, pc, Advance(s, mem, e), list[1..], k - 1);
      assert list[1..][k - 1..] == list[k..];
    }
  }

  /** A scan that ends visits no record twice. */
  lemma NoRecordTwice(s: Section, mem: Memory, ranges: nat -> Range, pc: nat, e: Entry, list: seq<Entry>,
                      i: nat, j: nat)
    requires Visits(s, mem, ranges, pc, e, list) && Reachable(s, mem, e) && i < j < |list|
    ensures list[i].Record? && list[j].Record? && list[i].start != list[j].start
  {
    VisitsFrom(s, mem, ranges, pc, e, list, i);
    VisitsFrom(s, mem, ranges, pc, e, list, j);
    if list[i].start == list[j].start {
      VisitsOnce(s, mem, ranges, pc, list[i], list[i..], list[j..]);
    }
  }

  /** Distinct numbers in a range are no more than the range is long. */
  lemma {:induction false} Pigeonhole(xs: seq<nat>, lo: nat, n: nat)
    requires forall i :: 0 <= i < |xs| ==> lo <= xs[i] < lo + n
    requires forall i, j :: 0 <= i < j < |xs| ==> xs[i] != xs[j]
    ensures |xs| <= n
    decreases n
  {
    if xs != [] {
      assert lo <= xs[0] < lo + n;
      if k :| 0 <= k < |xs| && xs[k] == lo + n - 1 {
        var rest := xs[..k] + xs[k + 1..];
        assert forall i :: 0 <= i < |rest| ==> rest[i] == xs[if i < k then i else i + 1];
        Pigeonhole(rest, lo, n - 1);
      } else {
        Pigeonhole(xs, lo, n - 1);
      }
    }
  }

  /** A scan that ends does so within as many records as the section has places
      for one to start. */
  lemma VisitsFew(s: Section, mem: Memory, ranges: nat -> Range, pc: nat, e: Entry, list: seq<Entry>)
    requires Visits(s, mem, ranges, pc, e, list) && Reachable(s, mem, e)
    ensures |list| <= s.size + 1
  {
    forall k | 0 <= k < |list| ensures list[k].Record? && s.addr <= list[k].start < s.addr + (s.size + 1) {
      VisitsFrom(s, mem, ranges, pc, e, list, k);
    }
    var starts := seq(|list|, k requires 0 <= k < |list| => list[k].start);
    forall i, j | 0 <= i < j < |list| ensures starts[i] != starts[j] {
      NoRecordTwice(s, mem, ranges, pc, e, list, i, j);
    }
    Pigeonhole(starts, s.addr, s.size + 1);
  }

  lemma {:induction false} VisitsWithin(s: Section, mem: Memory, ranges: nat -> Range, pc: nat, e: Entry,
                                        list: seq<Entry>, n: nat)
    requires Visits(s, mem, ranges, pc, e, list) && |list| <= n
    ensures EndsWithin(s, mem, ranges, pc, e, n)
    decreases |list|
  {
    if list != [] && !Matches(e, ranges, pc) {
      VisitsWithin(s, mem, ranges, pc, Advance(s, mem, e), list[1..], n - 1);
    }
  }

  lemma {:induction false} WithinVisits(s: Section, mem: Memory, ranges: nat -> Range, pc: nat, e: Entry, n: nat)
    returns (list: seq<Entry>)
    requires EndsWithin(s, mem, ranges, pc, e, n)
    ensures Visits(s, mem, ranges, pc, e, list)
    decreases n
  {
    if e.NoEntry? {
      list := [];
    } else if Matches(e, ranges, pc) {
      list := [e];
    } else {
      var rest := WithinVisits(s, mem, ranges, pc, Advance(s, mem, e), n - 1);
      list := [e] + rest;
      assert list[1..] == rest;
    }
  }

  /** The scan of a module ends. */
  ghost predicate ScanEnds(s: Section, mem: Memory, ranges: nat -> Range, pc: nat) {
    exists list: seq<Entry> :: Visits(s, mem, ranges, pc, Parse(s, mem, s.addr), list)
  }

  /** It does so iff it ends within size + 1 records, which can be tried out. */
  lemma ScanEndsIff(s: Section, mem: Memory, ranges: nat -> Range, pc: nat)
    ensures ScanEnds(s, mem, ranges, pc) <==>
            EndsWithin(s, mem, ranges, pc, Parse(s, mem, s.addr), s.size + 1)
  {
    var n := s.size + 1;
    if ScanEnds(s, mem, ranges, pc) {
      var list: seq<Entry> :| Visits(s, mem, ranges, pc, Parse(s, mem, s.addr), list);
      VisitsFew(s, mem, ranges, pc, Parse(s, mem, s.addr), list);
      VisitsWithin(s, mem, ranges, pc, Parse(s, mem, s.addr), list, n);
    }
    if EndsWithin(s, mem, ranges, pc, Parse(s, mem, s.addr), n) {
      var list := WithinVisits(s, mem, ranges, pc, Parse(s, mem, s.addr), n);
    }
  }

  /** What a scan that ends within n records finds. */
  function ScanResult(s: Section, mem: Memory, ranges: nat -> Range, pc: nat, e: Entry, n: nat): Entry
    decreases n
  {
    if e.NoEntry? || n == 0 then NoEntry
    else if Matches(e, ranges, pc) then e
    else ScanResult(s, mem, ranges, pc, Advance(s, mem, e), n - 1)
  }

  lemma {:induction false} ResultIsFirstMatch(s: Section, mem: Memory, ranges: nat -> Range, pc: nat, e: Entry,
                                              list: seq<Entry>, n: nat)
    requires Visits(s, mem, ranges, pc, e, list) && |list| <= n
    ensures ScanResult(s, mem, ranges, pc, e, n) == FirstMatch(list, ranges, pc)
    decreases |list|
  {
    if list != [] && !Matches(e, ranges, pc) {
      ResultIsFirstMatch(s, mem, ranges, pc, Advance(s, mem, e), list[1..], n - 1);
    }
  }

  /** The scan of each module up to the first that holds a match ends in time. */
  predicate SearchEndsInTime(modules: seq<Section>, mem: Memory, ranges: nat -> Range, pc: nat)
    decreases |modules|
  {
    modules == [] ||
    var s := modules[0];
    var e := Parse(s, mem, s.addr);
    && EndsWithin(s, mem, ranges, pc, e, s.size + 1)
    && (ScanResult(s, mem, ranges, pc, e, s.size + 1).Record? || SearchEndsInTime(modules[1..], mem, ranges, pc))
  }

  ghost predicate SearchEnds(modules: seq<Section>, mem: Memory, ranges: nat -> Range, pc: nat) {
    exists lists: seq<seq<Entry>> :: Searches(modules, mem, ranges, pc, lists)
  }

  /** find_fde ends iff it ends in time. */
  lemma {:induction false} SearchEndsIff(modules: seq<Section>, mem: Memory, ranges: nat -> Range, pc: nat)
    ensures SearchEnds(modules, mem, ranges, pc) <==> SearchEndsInTime(modules, mem, ranges, pc)
    decreases |modules|
  {
    if modules == [] {
      assert Searches(modules, mem, ranges, pc, []);
    } else {
      SearchEndsIff(modules[1..], mem, ranges, pc);
      if SearchEnds(modules, mem, ranges, pc) {
        EndsInTime(modules, mem, ranges, pc);
      }
      if SearchEndsInTime(modules, mem, ranges, pc) {
        InTimeEnds(modules, mem, ranges, pc);
      }
    }
  }

  lemma EndsInTime(modules: seq<Section>, mem: Memory, ranges: nat -> Range, pc: nat)
    requires modules != [] && SearchEnds(modules, mem, ranges, pc)
    requires SearchEnds(modules[1..], mem, ranges, pc) ==> SearchEndsInTime(modules[1..], mem, ranges, pc)
    ensures SearchEndsInTime(modules, mem, ranges, pc)
  {
    var s := modules[0];
    var lists: seq<seq<Entry>> :| Searches(modules, mem, ranges, pc, lists);
    assert ScanEnds(s, mem, ranges, pc) by {
      assert Visits(s, mem, ranges, pc, Parse(s, mem, s.addr), lists[0]);
    }
    ScanEndsIff(s, mem, ranges, pc);
    VisitsFew(s, mem, ranges, pc, Parse(s, mem, s.addr), lists[0]);
    ResultIsFirstMatch(s, mem, ranges, pc, Parse(s, mem, s.addr), lists[0], s.size + 1);
    if FirstMatch(lists[0], ranges, pc).NoEntry? {
      assert Searches(modules[1..], mem, ranges, pc, lists[1..]);
    }
  }

  lemma InTimeEnds(modules: seq<Section>, mem: Memory, ranges: nat -> Range, pc: nat)
    requires modules != [] && SearchEndsInTime(modules, mem, ranges, pc)
    requires SearchEndsInTime(modules[1..], mem, ranges, pc) ==> SearchEnds(modules[1..], mem, ranges, pc)
    ensures SearchEnds(modules, mem, ranges, pc)
  {
    var s := modules[0];
    ScanEndsIff(s, mem, ranges, pc);
    var list: seq<Entry> :| Visits(s, mem, ranges, pc, Parse(s, mem, s.addr), list);
    VisitsFew(s, mem, ranges, pc, Parse(s, mem, s.addr), list);
    ResultIsFirstMatch(s, mem, ranges, pc, Parse(s, mem, s.addr), list, s.size + 1);
    if FirstMatch(list, ranges, pc).Record? {
      assert Searches(modules, mem, ranges, pc, [list]);
    } else {
      var rest: seq<seq<Entry>> :| Searches(modules[1..], mem, ranges, pc, rest);
      var lists := [list] + rest;
      assert lists[0] == list && lists[1..] == rest;
      assert Searches(modules, mem, ranges, pc, lists);
    }
  }

  // ---------------------------------------------------------------------------
  // Sections as a compiler lays them out
  // ---------------------------------------------------------------------------

  /** A record to be laid out: the length of its payload, which of the two length
      formats it uses, and whether its identifier is that of a common information
      entry. */
  datatype Item = Item(length: nat, extended: bool, isCie: bool)

  ghost predicate HoldsBytes(mem: Memory, a: nat, bytes: seq<Byte>) {
    forall k :: 0 <= k < |bytes| ==> mem(a + k) == bytes[k]
  }

  /** The record stands at a: four bytes of length, or four of ones and eight of
      length; then the identifier, zero for a common information entry. */
  ghost predicate ItemAt(mem: Memory, a: nat, it: Item) {
    && 4 <= it.length
    && (if it.extended then
          && it.length < WORD && HoldsBytes(mem, a, LittleEndian(0xFFFF_FFFF, 4))
          && HoldsBytes(mem, a + 4, LittleEndian(it.length, 8))
        else it.length < 0xFFFF_FFFF && HoldsBytes(mem, a, LittleEndian(it.length, 4)))
    && (it.isCie <==> HoldsBytes(mem, PayloadOf(a, it), LittleEndian(0, 4)))
  }

  function PayloadOf(a: nat, it: Item): nat {
    if it.extended then a + 12 else a + 4
  }

  function EndOf(a: nat, it: Item): nat {
    PayloadOf(a, it) + it.length
  }

  /** The records stand one behind the other from a to the end of the section, or
      to a length of zero. */
  ghost predicate Laid(s: Section, mem: Memory, a: nat, items: seq<Item>)
    decreases |items|
  {
    if items == [] then a == s.addr + s.size || (a + 4 <= s.addr + s.size && HoldsBytes(mem, a, LittleEndian(0, 4)))
    else
      && ItemAt(mem, a, items[0]) && EndOf(a, items[0]) <= s.addr + s.size
      && Laid(s, mem, EndOf(a, items[0]), items[1..])
  }

  function EntryOf(a: nat, it: Item): Entry {
    Record(a, PayloadOf(a, it), EndOf(a, it), it.isCie)
  }

  function EntriesOf(a: nat, items: seq<Item>): seq<Entry>
    decreases |items|
  {
    if items == [] then [] else [EntryOf(a, items[0])] + EntriesOf(EndOf(a, items[0]), items[1..])
  }

  lemma ReadsWord32(mem: Memory, a: nat, v: nat)
    requires v < 0x1_0000_0000
    ensures HoldsBytes(mem, a, LittleEndian(v, 4)) <==> Word32(mem, a) == v
  {
    var b := LittleEndian(v, 4);
    Digits4(v, b);
    if Word32(mem, a) == v {
      SameDigits(mem(a), mem(a + 1), mem(a + 2), mem(a + 3), b[0], b[1], b[2], b[3]);
    }
  }

  lemma Digits4(v: nat, b: seq<nat>)
    requires b == LittleEndian(v, 4) && v < 0x1_0000_0000
    ensures v == b[0] + 0x100 * b[1] + 0x1_0000 * b[2] + 0x100_0000 * b[3]
  {
    assert LittleEndian(v, 4)[1..] == LittleEndian(v / 0x100, 3);
    assert LittleEndian(v / 0x100, 3)[1..] == LittleEndian(v / 0x100 / 0x100, 2);
    assert b[0] == v % 0x100 && b[1] == v / 0x100 % 0x100;
    assert b[2] == v / 0x100 / 0x100 % 0x100 && b[3] == v / 0x100 / 0x100 / 0x100 % 0x100;
  }

  lemma SameDigits(a: Byte, b: Byte, c: Byte, d: Byte, e: Byte, f: Byte, g: Byte, h: Byte)
    requires a + 0x100 * b + 0x1_0000 * c + 0x100_0000 * d == e + 0x100 * f + 0x1_0000 * g + 0x100_0000 * h
    ensures a == e && b == f && c == g && d == h
  {
  }

  lemma DropByte(v: nat, n: nat)
    requires n > 0
    ensures LittleEndian(v, n)[0] == v % 0x100 && LittleEndian(v, n)[1..] == LittleEndian(v / 0x100, n - 1)
  {
  }

  /** The first four of eight bytes, and the rest. */
  lemma Digits8(v: nat, b: seq<Byte>)
    requires b == LittleEndian(v, 8)
    ensures v == b[0] + 0x100 * b[1] + 0x1_0000 * b[2] + 0x100_0000 * b[3] + 0x1_0000_0000 * (v / 0x1_0000_0000)
    ensures b[4..] == LittleEndian(v / 0x1_0000_0000, 4)
  {
    var v1 := v / 0x100;
    var v2 := v1 / 0x100;
    var v3 := v2 / 0x100;
    DropByte(v, 8);
    DropByte(v1, 7);
    DropByte(v2, 6);
    DropByte(v3, 5);
    assert b[1] == v1 % 0x100 && b[2] == v2 % 0x100 && b[3] == v3 % 0x100;
    assert b[4..] == b[1..][1..][1..][1..];
    assert v3 / 0x100 == v / 0x1_0000_0000;
  }

  lemma HoldsTail(mem: Memory, a: nat, b: seq<Byte>, k: nat)
    requires HoldsBytes(mem, a, b) && k <= |b|
    ensures HoldsBytes(mem, a + k, b[k..])
  {
    forall j | 0 <= j < |b[k..]| ensures mem(a + k + j) == b[k..][j] {
      assert mem(a + (k + j)) == b[k + j];
    }
  }

  /** The lower word is in the first four bytes. */
  lemma LowWord(mem: Memory, a: nat, b: seq<Byte>, v: nat, high: nat)
    requires |b| == 8 && HoldsBytes(mem, a, b) && Word32(mem, a + 4) == high
    requires v == b[0] + 0x100 * b[1] + 0x1_0000 * b[2] + 0x100_0000 * b[3] + 0x1_0000_0000 * high
    ensures Word64(mem, a) == v
  {
    assert mem(a + 0) == b[0] && mem(a + 1) == b[1] && mem(a + 2) == b[2] && mem(a + 3) == b[3];
  }

  lemma ReadsWord64(mem: Memory, a: nat, v: nat)
    requires v < WORD && HoldsBytes(mem, a, LittleEndian(v, 8))
    ensures Word64(mem, a) == v
  {
    var b, high := LittleEndian(v, 8), v / 0x1_0000_0000;
    Digits8(v, b);
    HoldsTail(mem, a, b, 4);
    ReadsWord32(mem, a + 4, high);
    LowWord(mem, a, b, v, high);
  }

  /** What is read of a record. */
  ghost predicate Reads(mem: Memory, a: nat, it: Item) {
    && it.length >= 4 && HeaderSize(mem, a) == PayloadOf(a, it) - a && Length(mem, a) == it.length
    && (Word32(mem, PayloadOf(a, it)) == 0 <==> it.isCie)
  }

  lemma ItemReads(mem: Memory, a: nat, it: Item)
    requires ItemAt(mem, a, it)
    ensures Reads(mem, a, it)
  {
    ReadsWord32(mem, PayloadOf(a, it), 0);
    if it.extended {
      ReadsWord32(mem, a, 0xFFFF_FFFF);
      ReadsWord64(mem, a + 4, it.length);
    } else {
      ReadsWord32(mem, a, it.length);
    }
  }

  /** A record that stands in the section is parsed as what it is. */
  lemma ParsesItem(s: Section, mem: Memory, a: nat, it: Item)
    requires Reads(mem, a, it) && 0 < s.addr <= a && EndOf(a, it) <= s.addr + s.size < WORD
    ensures Parse(s, mem, a) == EntryOf(a, it)
  {
    WrapSmall(PayloadOf(a, it));
    WrapSmall(EndOf(a, it));
  }

  /** The first of the records that are laid out from a on, or their end. */
  lemma FirstReads(s: Section, mem: Memory, a: nat, items: seq<Item>)
    requires Laid(s, mem, a, items)
    ensures if items == [] then a == s.addr + s.size || (a + 4 <= s.addr + s.size && Word32(mem, a) == 0)
            else Reads(mem, a, items[0]) && EndOf(a, items[0]) <= s.addr + s.size
  {
    if items == [] {
      ReadsWord32(mem, a, 0);
    } else {
      ItemReads(mem, a, items[0]);
    }
  }

  lemma NoLengthNoEntry(s: Section, mem: Memory, a: nat)
    requires Word32(mem, a) == 0
    ensures Parse(s, mem, a).NoEntry?
  {
  }

  /** The step to a. */
  lemma StepsTo(s: Section, mem: Memory, e: Entry, it: Item)
    requires e.Record? && 0 < s.addr <= e.end && s.addr + s.size + 4 < WORD
    requires Reads(mem, e.end, it) && EndOf(e.end, it) <= s.addr + s.size
    ensures Advance(s, mem, e) == EntryOf(e.end, it)
  {
    WrapSmall(e.end + 4);
    ParsesItem(s, mem, e.end, it);
  }

  lemma StepsOut(s: Section, mem: Memory, e: Entry)
    requires e.Record? && e.end <= s.addr + s.size && s.addr + s.size + 4 < WORD
    requires e.end == s.addr + s.size || Word32(mem, e.end) == 0
    ensures Advance(s, mem, e) == NoEntry
  {
    WrapSmall(e.end + 4);
    if Word32(mem, e.end) == 0 {
      NoLengthNoEntry(s, mem, e.end);
    }
  }

  /** The step behind the record before. */
  lemma NextItem(s: Section, mem: Memory, e: Entry, items: seq<Item>)
    requires e.Record? && 0 < s.addr <= e.end && s.addr + s.size + 4 < WORD && Laid(s, mem, e.end, items)
    ensures Advance(s, mem, e) == if items == [] then NoEntry else EntryOf(e.end, items[0])
  {
    FirstReads(s, mem, e.end, items);
    if items == [] {
      StepsOut(s, mem, e);
    } else {
      StepsTo(s, mem, e, items[0]);
    }
  }

  /** The scan of a section that was laid out visits its records up to the first
      match. */
  lemma {:induction false} LaidVisits(s: Section, mem: Memory, ranges: nat -> Range, pc: nat, a: nat, items: seq<Item>)
    returns (list: seq<Entry>)
    requires 0 < s.addr <= a && s.addr + s.size + 4 < WORD && Laid(s, mem, a, items) && items != []
    ensures Visits(s, mem, ranges, pc, EntryOf(a, items[0]), list)
    ensures FirstMatch(list, ranges, pc) == FirstMatch(EntriesOf(a, items), ranges, pc)
    decreases |items|
  {
    var e := EntryOf(a, items[0]);
    var es := EntriesOf(a, items);
    assert es[1..] == EntriesOf(EndOf(a, items[0]), items[1..]);
    if Matches(e, ranges, pc) {
      list := [e];
    } else {
      NextItem(s, mem, e, items[1..]);
      var rest := [];
      if items[1..] != [] {
        rest := LaidVisits(s, mem, ranges, pc, e.end, items[1..]);
      }
      list := [e] + rest;
      assert list[1..] == rest;
    }
  }

  /** A module without a section, or one that was laid out. */
  ghost predicate LaidModule(s: Section, mem: Memory, items: seq<Item>) {
    if s.addr == 0 then s.size == 0 && items == []
    else s.addr + s.size + 4 < WORD && Laid(s, mem, s.addr, items) && (items == [] ==> s.size > 0)
  }

  ghost predicate AllLaid(modules: seq<Section>, mem: Memory, items: seq<seq<Item>>) {
    |items| == |modules| && forall m :: 0 <= m < |modules| ==> LaidModule(modules[m], mem, items[m])
  }

  lemma LaidModuleVisits(s: Section, mem: Memory, ranges: nat -> Range, pc: nat, items: seq<Item>)
    returns (list: seq<Entry>)
    requires LaidModule(s, mem, items)
    ensures Visits(s, mem, ranges, pc, Parse(s, mem, s.addr), list)
    ensures FirstMatch(list, ranges, pc) == FirstMatch(EntriesOf(s.addr, items), ranges, pc)
  {
    if s.addr == 0 {
      list := [];
      return;
    }
    FirstReads(s, mem, s.addr, items);
    if items == [] {
      NoLengthNoEntry(s, mem, s.addr);
      list := [];
    } else {
      ParsesItem(s, mem, s.addr, items[0]);
      list := LaidVisits(s, mem, ranges, pc, s.addr, items);
    }
  }

  /** All records of all modules. */
  ghost function LaidRecords(modules: seq<Section>, items: seq<seq<Item>>): seq<Entry>
    requires |items| == |modules|
  {
    if modules == [] then [] else EntriesOf(modules[0].addr, items[0]) + LaidRecords(modules[1..], items[1..])
  }

  lemma {:induction false} LaidSearches(modules: seq<Section>, mem: Memory, ranges: nat -> Range, pc: nat,
                                        items: seq<seq<Item>>)
    returns (lists: seq<seq<Entry>>)
    requires AllLaid(modules, mem, items)
    ensures Searches(modules, mem, ranges, pc, lists)
    ensures FirstMatch(Visited(lists), ranges, pc) == FirstMatch(LaidRecords(modules, items), ranges, pc)
    decreases |modules|
  {
    if modules == [] {
      lists := [];
    } else {
      var list := LaidModuleVisits(modules[0], mem, ranges, pc, items[0]);
      var rest := LaidSearches(modules[1..], mem, ranges, pc, items[1..]);
      FirstMatchAppend(EntriesOf(modules[0].addr, items[0]), LaidRecords(modules[1..], items[1..]), ranges, pc);
      lists := if FirstMatch(list, ranges, pc).Record? then [list] else [list] + rest;
      assert lists[0] == list && (lists == [list] + rest ==> lists[1..] == rest);
      FirstMatchAppend(list, Visited(lists[1..]), ranges, pc);
    }
  }

  /** The record covers pc: begin < pc <= begin + length, as the return address
      lies behind the call. */
  ghost predicate Covers(e: Entry, ranges: nat -> Range, pc: nat) {
    && e.Record? && !e.isCie
    && ranges(e.payload).begin < pc <= ranges(e.payload).begin + ranges(e.payload).length
  }

  /** Ranges that end inside the address space. */
  ghost predicate RangesFit(all: seq<Entry>, ranges: nat -> Range) {
    forall i :: 0 <= i < |all| && all[i].Record? ==>
      ranges(all[i].payload).begin + ranges(all[i].payload).length < WORD
  }

  /** No two records cover a common address. */
  ghost predicate RangesDisjoint(all: seq<Entry>, ranges: nat -> Range) {
    forall i, j :: 0 <= i < j < |all| && all[i].Record? && all[j].Record? && !all[i].isCie && !all[j].isCie ==>
      var r, q := ranges(all[i].payload), ranges(all[j].payload);
      r.begin + r.length <= q.begin || q.begin + q.length <= r.begin
  }

  /** The search over sections as compilers lay them out: among all their records
      it finds the first that covers pc, and none iff none does; with disjoint
      ranges whichever record covers pc is the one found. */
  method FindCovering(modules: seq<Section>, mem: Memory, ranges: nat -> Range, pc: nat, ghost items: seq<seq<Item>>)
    returns (found: Entry)
    requires AllLaid(modules, mem, items) && RangesFit(LaidRecords(modules, items), ranges)
    ensures var all := LaidRecords(modules, items);
            if found.NoEntry? then forall i :: 0 <= i < |all| ==> !Covers(all[i], ranges, pc)
            else exists k :: 0 <= k < |all| && found == all[k] && Covers(found, ranges, pc)
                             && forall i :: 0 <= i < k ==> !Covers(all[i], ranges, pc)
    ensures var all := LaidRecords(modules, items);
            RangesDisjoint(all, ranges) ==>
              forall i :: 0 <= i < |all| && Covers(all[i], ranges, pc) ==> found == all[i]
  {
    ghost var lists := LaidSearches(modules, mem, ranges, pc, items);
    found := FindFde(modules, mem, ranges, pc, lists);
    FirstMatchCovers(LaidRecords(modules, items), ranges, pc);
  }

  lemma MatchIsCover(e: Entry, ranges: nat -> Range, pc: nat)
    requires e.Record? ==> ranges(e.payload).begin + ranges(e.payload).length < WORD
    ensures Matches(e, ranges, pc) <==> Covers(e, ranges, pc)
  {
    if e.Record? {
      WrapSmall(ranges(e.payload).begin + ranges(e.payload).length);
    }
  }

  lemma FirstMatchCovers(all: seq<Entry>, ranges: nat -> Range, pc: nat)
    requires RangesFit(all, ranges)
    ensures var found := FirstMatch(all, ranges, pc);
            && (if found.NoEntry? then forall i :: 0 <= i < |all| ==> !Covers(all[i], ranges, pc)
                else exists k :: 0 <= k < |all| && found == all[k] && Covers(found, ranges, pc)
                                 && forall i :: 0 <= i < k ==> !Covers(all[i], ranges, pc))
            && (RangesDisjoint(all, ranges) ==>
                  forall i :: 0 <= i < |all| && Covers(all[i], ranges, pc) ==> found == all[i])
  {
    FirstMatchIsFirst(all, ranges, pc);
    forall i | 0 <= i < |all| ensures Matches(all[i], ranges, pc) <==> Covers(all[i], ranges, pc) {
      MatchIsCover(all[i], ranges, pc);
    }
    var found := FirstMatch(all, ranges, pc);
    if found.Record? {
      var k :| 0 <= k < |all| && found == all[k] && Matches(found, ranges, pc)
               && forall i :: 0 <= i < k ==> !Matches(all[i], ranges, pc);
      assert Covers(all[k], ranges, pc);
      if RangesDisjoint(all, ranges) {
        forall i | 0 <= i < |all| && Covers(all[i], ranges, pc) ensures found == all[i] {
          if i < k { assert false; }
        }
      }
    }
  }
}
