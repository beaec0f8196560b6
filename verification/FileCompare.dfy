/** DTC_binary_file_compare: the first file goes into nested maps, the second one takes out what agrees.

    A file is the sequence of its data blocks. */
module FileCompare {
  import opened Words
  import opened Outcomes
  import opened EventMaps

  /** A data header and the bytes behind it. */
  datatype Block = Block(transferByteCount: u16, ts10: u16, ts32: u16, ts54: u16,
                         subsystem: nat, dtc: nat, link: nat, bytes: seq<byte>)
  {
    /** The buffer holds what the header promises. */
    predicate InBuffer() { transferByteCount - 16 <= |bytes| }

    /** A block is at least as long as its header; otherwise making room for its contents throws. */
    predicate Sized() { 16 <= transferByteCount }

    function Payload(): Contents
      requires InBuffer() && Sized()
    {
      bytes[..transferByteCount - 16]
    }
  }

  /** The timestamp add_to_map files a block under. */
  function FilingStamp(b: Block): nat {
    b.ts10 + b.ts32 * 0x1_0000 + b.ts54 * 0x1_0000_0000
  }

  /** The timestamp the second pass looks a block up under: its words are in the other order. */
  function LookupStamp(b: Block): nat {
    b.ts10 * 0x1_0000_0000 + b.ts32 * 0x1_0000 + b.ts54
  }

  function FilingKey(b: Block): Key { Key(FilingStamp(b), b.subsystem, b.dtc, b.link) }

  function LookupKey(b: Block): Key { Key(LookupStamp(b), b.subsystem, b.dtc, b.link) }

  /** The key with the outer timestamp words exchanged. */
  function Swapped(k: Key): Key {
    var t := k.timestamp;
    k.(timestamp := t / 0x1_0000_0000 + t / 0x1_0000 % 0x1_0000 * 0x1_0000 + t % 0x1_0000 * 0x1_0000_0000)
  }

  predicate IsStamp(t: nat) { t < TWO48 }

  lemma StampsAreSwapped(b: Block)
    ensures Swapped(LookupKey(b)) == FilingKey(b) && Swapped(FilingKey(b)) == LookupKey(b)
    ensures IsStamp(FilingStamp(b)) && IsStamp(LookupStamp(b))
  {
    SwapWords(b.ts10, b.ts32, b.ts54);
    SwapWords(b.ts54, b.ts32, b.ts10);
  }

  lemma SwapWords(a: u16, b: u16, c: u16)
    ensures var t := a * 0x1_0000_0000 + b * 0x1_0000 + c;
            t / 0x1_0000_0000 == a && t / 0x1_0000 % 0x1_0000 == b && t % 0x1_0000 == c
  {
  }

  lemma SwapBack(k: Key)
    requires IsStamp(k.timestamp)
    ensures Swapped(Swapped(k)) == k && IsStamp(Swapped(k).timestamp)
  {
    var t := k.timestamp;
    var a, b, c := t / 0x1_0000_0000, t / 0x1_0000 % 0x1_0000, t % 0x1_0000;
    assert t / 0x1_0000 / 0x1_0000 == a by { DivideTwice(t, 0x1_0000, 0x1_0000); }
    assert t == a * 0x1_0000_0000 + b * 0x1_0000 + c;
    SwapWords(c, b, a);
  }

  /** The two formulas agree exactly when the outer words do. */
  lemma StampsAgreeIff(b: Block)
    ensures FilingKey(b) == LookupKey(b) <==> b.ts10 == b.ts54
  {
    assert FilingStamp(b) - LookupStamp(b) == (b.ts54 - b.ts10) * 0xFFFF_FFFF;
  }

  // ----- What the files hold -----

  predicate Good(f: seq<Block>) {
    forall i | 0 <= i < |f| :: f[i].InBuffer() && f[i].Sized()
  }

  /** What a block says: three timestamp words, whose it is, and the bytes behind its header. */
  datatype Item = Item(ts10: u16, ts32: u16, ts54: u16, subsystem: nat, dtc: nat, link: nat, contents: Contents)

  function ItemOf(b: Block): Item
    requires b.InBuffer() && b.Sized()
  {
    Item(b.ts10, b.ts32, b.ts54, b.subsystem, b.dtc, b.link, b.Payload())
  }

  /** The blocks of a file as items. */
  function Items(f: seq<Block>): (r: seq<Item>)
    requires Good(f)
    ensures |r| == |f| && forall i | 0 <= i < |f| :: r[i] == ItemOf(f[i])
  {
    seq(|f|, i requires 0 <= i < |f| => ItemOf(f[i]))
  }

  /** How often a file has a block. */
  function Times(f: seq<Block>, x: Item): nat
    requires Good(f)
  {
    multiset(Items(f))[x]
  }

  /** The block with the outer timestamp words exchanged. */
  function Exchanged(x: Item): Item {
    x.(ts10 := x.ts54, ts54 := x.ts10)
  }

  /** Where a block like this is filed. */
  function ItemKey(x: Item): Key {
    Key(x.ts10 + x.ts32 * 0x1_0000 + x.ts54 * 0x1_0000_0000, x.subsystem, x.dtc, x.link)
  }

  /** How often the file has these contents filed under the key. */
  function Filed(f: seq<Block>, k: Key, q: Contents): nat
    requires Good(f)
  {
    if f == [] then 0
    else
      var b := f[|f| - 1];
      Filed(f[..|f| - 1], k, q) + if FilingKey(b) == k && b.Payload() == q then 1 else 0
  }

  /** How often the file has these contents looked up under the key. */
  function LookedUp(f: seq<Block>, k: Key, q: Contents): nat
    requires Good(f)
  {
    if f == [] then 0
    else
      var b := f[|f| - 1];
      LookedUp(f[..|f| - 1], k, q) + if LookupKey(b) == k && b.Payload() == q then 1 else 0
  }

  /** What is looked up under a key is what would be filed under the swapped one. */
  lemma {:induction false} LookedUpIsSwapped(f: seq<Block>, k: Key, q: Contents)
    requires Good(f) && IsStamp(k.timestamp)
    ensures LookedUp(f, k, q) == Filed(f, Swapped(k), q)
  {
    hide Swapped, FilingKey, LookupKey;
    if f != [] {
      SameKeySwapped(f[|f| - 1], k);
      LookedUpIsSwapped(f[..|f| - 1], k, q);
    }
  }

  /** On blocks whose formulas agree the two are the same. */
  lemma {:induction false} LookedUpIsFiled(f: seq<Block>, k: Key, q: Contents)
    requires Good(f) && forall i | 0 <= i < |f| :: f[i].ts10 == f[i].ts54
    ensures LookedUp(f, k, q) == Filed(f, k, q)
  {
    if f != [] { LookedUpIsFiled(f[..|f| - 1], k, q); }
  }

  /** How often a map has these contents under the key. */
  function Count(m: EventMap, k: Key, q: Contents): nat {
    multiset(At(m, k))[q]
  }

  // ----- The program -----

  class EventMapVariable {
    var events: EventMap

    constructor ()
      ensures events == map[]
    {
      events := map[];
    }

    /** add_to_map: a block shorter than its header makes the vector's length negative, which throws. */
    method AddToMap(b: Block) returns (ok: bool)
      requires b.InBuffer()
      modifies this
      ensures ok == b.Sized()
      ensures events == if ok then Added(old(events), FilingKey(b), b.Payload()) else old(events)
    {
      var bufSize := b.transferByteCount - 16;
      if bufSize < 0 { return false; }
      var contents: Contents := [];
      for jj := 0 to bufSize
        invariant contents == b.bytes[..jj]
      {
        contents := contents + [b.bytes[jj]];
      }
      events := Added(events, FilingKey(b), contents);
      ok := true;
    }

    /** The loop over the list: the first element with the block's size and bytes, or the list's end. */
    static method FindAgreement(list: seq<Contents>, b: Block) returns (ii: nat)
      requires b.InBuffer() && b.Sized()
      ensures ii <= |list|
      ensures if ii < |list| then list[ii] == b.Payload() else b.Payload() !in list
    {
      var bufSize := b.transferByteCount - 16;
      ii := 0;
      while ii < |list|
        invariant ii <= |list| && b.Payload() !in list[..ii]
      {
        if |list[ii]| == bufSize {
          var thisAgree := true;
          for jj := 0 to bufSize
            invariant thisAgree && list[ii][..jj] == b.bytes[..jj]
          {
            if list[ii][jj] != b.bytes[jj] {
              thisAgree := false;
              assert list[ii] != b.Payload();
              break;
            }
          }
          if thisAgree { return; }
        }
        ii := ii + 1;
      }
    }

    /** Erases one element of the list under a key, and each level left empty. */
    method EraseAgreement(k: Key, ii: nat)
      requires ii < |At(events, k)|
      modifies this
      ensures events == Erased(old(events), k, ii)
    {
      events := EraseInEvents(events, k, ii);
    }

    static method EraseInEvents(before: EventMap, k: Key, ii: nat) returns (events: EventMap)
      requires ii < |At(before, k)|
      ensures events == Erased(before, k, ii)
    {
      var subsystems := EraseInSubsystems(before[k.timestamp], k, ii);
      events := before[k.timestamp := subsystems];
      if subsystems == map[] { events := events - {k.timestamp}; }
    }

    static method EraseInSubsystems(before: SubsystemMap, k: Key, ii: nat) returns (subsystems: SubsystemMap)
      requires ii < |SubsystemAt(before, k)|
      ensures subsystems == SubsystemErased(before, k, ii)
    {
      var dtcs := EraseInDtcs(before[k.subsystem], k, ii);
      subsystems := before[k.subsystem := dtcs];
      if dtcs == map[] { subsystems := subsystems - {k.subsystem}; }
    }

    static method EraseInDtcs(before: DtcMap, k: Key, ii: nat) returns (dtcs: DtcMap)
      requires ii < |DtcAt(before, k)|
      ensures dtcs == DtcErased(before, k, ii)
    {
      var rocs := EraseInRocs(before[k.dtc], k, ii);
      dtcs := before[k.dtc := rocs];
      if rocs == map[] { dtcs := dtcs - {k.dtc}; }
    }

    static method EraseInRocs(before: RocMap, k: Key, ii: nat) returns (rocs: RocMap)
      requires ii < |RocAt(before, k)|
      ensures rocs == RocErased(before, k, ii)
    {
      var list := before[k.link];
      list := list[..ii] + list[ii + 1..];
      rocs := before[k.link := list];
      if |list| == 0 { rocs := rocs - {k.link}; }
    }
  }

  lemma AddedCount(m: EventMap, k: Key, p: Contents)
    ensures forall j, q :: Count(Added(m, k, p), j, q) == Count(m, j, q) + if j == k && q == p then 1 else 0
    ensures Clean(m) ==> Clean(Added(m, k, p))
  {
    AddedAt(m, k, p);
    hide Added, At, Clean;
  }

  lemma ErasedCount(m: EventMap, k: Key, i: nat)
    requires i < |At(m, k)|
    ensures forall j, q ::
              Count(Erased(m, k, i), j, q) == Count(m, j, q) - if j == k && q == At(m, k)[i] then 1 else 0
    ensures Count(m, k, At(m, k)[i]) > 0
    ensures Clean(m) ==> Clean(Erased(m, k, i))
  {
    ErasedAt(m, k, i);
    if Clean(m) { ErasedKeepsClean(m, k, i); }
    hide Erased, At, Clean;
  }

  /** The loop over the first file. */
  method LoadFirstFile(f: seq<Block>, first: EventMapVariable) returns (ok: bool)
    requires forall i | 0 <= i < |f| :: f[i].InBuffer()
    requires first.events == map[]
    modifies first
    ensures ok == Good(f)
    ensures ok ==> Clean(first.events) && forall k, q :: Count(first.events, k, q) == Filed(f, k, q)
  {
    assert Clean(first.events) && Good(f[..0]);
    hide FilingKey, Good, Clean;
    for i := 0 to |f|
      invariant Good(f[..i]) && Clean(first.events)
      invariant forall k, q :: Count(first.events, k, q) == Filed(f[..i], k, q)
    {
      assert f[..i + 1][..i] == f[..i];
      GoodGoesOn(f, i);
      if f[i].Sized() { AddedCount(first.events, FilingKey(f[i]), f[i].Payload()); }
      hide Count, Added;
      ok := first.AddToMap(f[i]);
      if !ok { return; }
    }
    assert f[..|f|] == f;
    ok := true;
  }

  /** What one block of the second file does: it takes its contents out of the first map, or goes into the second. */
  ghost predicate BlockMatched(b: Block, first0: EventMap, second0: EventMap, first: EventMap, second: EventMap)
    requires b.InBuffer() && b.Sized()
  {
    var p := b.Payload();
    if Count(first0, LookupKey(b), p) > 0 then
      && second == second0
      && forall k, q :: Count(first, k, q) == Count(first0, k, q) - if k == LookupKey(b) && q == p then 1 else 0
    else
      && first == first0
      && forall k, q :: Count(second, k, q) == Count(second0, k, q) + if k == FilingKey(b) && q == p then 1 else 0
  }

  method MatchBlock(b: Block, first: EventMapVariable, second: EventMapVariable) returns (ok: bool)
    requires b.InBuffer() && first != second && Clean(first.events) && Clean(second.events)
    modifies first, second
    ensures ok == b.Sized()
    ensures ok ==> Clean(first.events) && Clean(second.events)
    ensures ok ==> BlockMatched(b, old(first.events), old(second.events), first.events, second.events)
  {
    var k := LookupKey(b);
    if !b.Sized() {
      // The wrapped-around size agrees with no element, and filing the block throws.
      ok := second.AddToMap(b);
      return;
    }
    ghost var first0, second0 := first.events, second.events;
    hide FilingKey, LookupKey, Added, Erased, Clean, Count, At, Block.Payload, BlockMatched;
    var agree := FindInMap(first.events, k, b);
    if agree.Some? {
      TakenOut(b, first0, second0, agree.value);
      first.EraseAgreement(k, agree.value);
      ok := true;
    } else {
      FiledAsDisagreement(b, first0, second0);
      ok := second.AddToMap(b);
    }
  }

  lemma TakenOut(b: Block, first0: EventMap, second0: EventMap, i: nat)
    requires b.InBuffer() && b.Sized() && Clean(first0)
    requires i < |At(first0, LookupKey(b))| && At(first0, LookupKey(b))[i] == b.Payload()
    ensures var m := Erased(first0, LookupKey(b), i); Clean(m) && BlockMatched(b, first0, second0, m, second0)
  {
    ErasedCount(first0, LookupKey(b), i);
    hide Erased, Clean, LookupKey, FilingKey, Count, At, Block.Payload;
  }

  lemma FiledAsDisagreement(b: Block, first0: EventMap, second0: EventMap)
    requires b.InBuffer() && b.Sized() && Clean(second0) && Count(first0, LookupKey(b), b.Payload()) == 0
    ensures var m := Added(second0, FilingKey(b), b.Payload()); Clean(m) && BlockMatched(b, first0, second0, first0, m)
  {
    AddedCount(second0, FilingKey(b), b.Payload());
    hide Added, Clean, LookupKey, FilingKey;
  }

  /** The search for an agreeing element: every level must have an entry before the list is looked at. */
  method FindInMap(events: EventMap, k: Key, b: Block) returns (agree: Option<nat>)
    requires b.InBuffer() && b.Sized()
    ensures agree.Some? <==> Count(events, k, b.Payload()) > 0
    ensures agree.Some? ==> agree.value < |At(events, k)| && At(events, k)[agree.value] == b.Payload()
  {
    if && k.timestamp in events && k.subsystem in events[k.timestamp]
       && k.dtc in events[k.timestamp][k.subsystem] && k.link in events[k.timestamp][k.subsystem][k.dtc]
    {
      var list := events[k.timestamp][k.subsystem][k.dtc][k.link];
      assert list == At(events, k);
      var ii := EventMapVariable.FindAgreement(list, b);
      return if ii != |list| then Some(ii) else None;
    }
    agree := None;
  }

  // ----- Comparing two files -----

  function Excess(a: nat, b: nat): nat {
    if a > b then a - b else 0
  }

  /** After the blocks m of the second file: what the first file has more often, and what the second has more often,
      which is filed under the swapped key. */
  ghost predicate Matched(f: seq<Block>, m: seq<Block>, first: EventMap, second: EventMap)
    requires Good(f) && Good(m)
  {
    && (forall k, q :: Count(first, k, q) == Excess(Filed(f, k, q), LookedUp(m, k, q)))
    && (forall k: Key, q | IsStamp(k.timestamp) ::
          Count(second, Swapped(k), q) == Excess(LookedUp(m, k, q), Filed(f, k, q)))
    && (forall k: Key, q | !IsStamp(k.timestamp) :: Count(second, k, q) == 0)
  }

  lemma LookedUpAppend(m: seq<Block>, b: Block, k: Key, q: Contents)
    requires Good(m) && b.InBuffer() && b.Sized() && Good(m + [b])
    ensures LookedUp(m + [b], k, q)
            == LookedUp(m, k, q) + if k == LookupKey(b) && q == b.Payload() then 1 else 0
  {
    assert (m + [b])[..|m|] == m;
  }

  lemma MatchedStart(f: seq<Block>, first: EventMap)
    requires Good(f) && forall k, q :: Count(first, k, q) == Filed(f, k, q)
    ensures Matched(f, [], first, map[])
  {
  }

  lemma MatchedGoesOn(f: seq<Block>, m: seq<Block>, b: Block,
                      first0: EventMap, second0: EventMap, first: EventMap, second: EventMap)
    requires Good(f) && Good(m) && b.InBuffer() && b.Sized() && Good(m + [b])
    requires Matched(f, m, first0, second0) && BlockMatched(b, first0, second0, first, second)
    ensures Matched(f, m + [b], first, second)
  {
    hide LookupKey, FilingKey, Filed, LookedUp, Swapped, Count, Good, Block.Payload;
    forall k, q
      ensures Count(first, k, q) == Excess(Filed(f, k, q), LookedUp(m + [b], k, q))
    {
      LookedUpAppend(m, b, k, q);
    }
    forall k: Key, q | IsStamp(k.timestamp)
      ensures Count(second, Swapped(k), q) == Excess(LookedUp(m + [b], k, q), Filed(f, k, q))
    {
      LookedUpAppend(m, b, k, q);
      SameKeySwapped(b, k);
    }
    KeyHasStamp(b);
  }

  lemma KeyHasStamp(b: Block)
    ensures IsStamp(FilingKey(b).timestamp) && IsStamp(LookupKey(b).timestamp)
  {
    StampsAreSwapped(b);
  }

  lemma SameKeySwapped(b: Block, k: Key)
    requires IsStamp(k.timestamp)
    ensures Swapped(k) == FilingKey(b) <==> k == LookupKey(b)
  {
    StampsAreSwapped(b);
    SwapBack(k);
  }

  lemma GoodGoesOn(f: seq<Block>, i: nat)
    requires i < |f| && Good(f[..i]) && f[i].InBuffer()
    ensures Good(f[..i + 1]) <==> f[i].Sized()
    ensures Good(f) ==> f[i].Sized()
  {
    if f[i].Sized() {
      assert f[..i + 1] == f[..i] + [f[i]];
    } else {
      assert f[..i + 1][i] == f[i];
    }
  }

  /** Both passes. */
  method Compare(file1: seq<Block>, file2: seq<Block>)
    returns (ok: bool, first: EventMapVariable, second: EventMapVariable)
    requires forall i | 0 <= i < |file1| :: file1[i].InBuffer()
    requires forall i | 0 <= i < |file2| :: file2[i].InBuffer()
    ensures ok == (Good(file1) && Good(file2))
    ensures ok ==> Clean(first.events) && Clean(second.events) && Matched(file1, file2, first.events, second.events)
    ensures ok ==> (first.events == map[] && second.events == map[] <==> SameBlocks(file1, file2))
  {
    first := new EventMapVariable();
    second := new EventMapVariable();
    ok := LoadFirstFile(file1, first);
    if !ok { return; }
    MatchedStart(file1, first.events);
    assert Clean(second.events);
    hide Matched, Clean, SameBlocks;
    ok := MatchSecondFile(file1, file2, first, second);
    if ok {
      ReportIsCleanIff(file1, file2, first.events, second.events);
      SameIsSameBlocks(file1, file2);
    }
  }

  /** The loop over the second file. */
  method MatchSecondFile(ghost file1: seq<Block>, file2: seq<Block>, first: EventMapVariable, second: EventMapVariable)
    returns (ok: bool)
    requires Good(file1) && forall i | 0 <= i < |file2| :: file2[i].InBuffer()
    requires first != second && Clean(first.events) && Clean(second.events)
    requires Matched(file1, [], first.events, second.events)
    modifies first, second
    ensures ok == Good(file2)
    ensures ok ==> Clean(first.events) && Clean(second.events) && Matched(file1, file2, first.events, second.events)
  {
    assert file2[..0] == [] && Good([]);
    hide Matched, BlockMatched, Count, Clean, Good;
    for i := 0 to |file2|
      invariant Good(file2[..i]) && Clean(first.events) && Clean(second.events)
      invariant Matched(file1, file2[..i], first.events, second.events)
    {
      ghost var first0, second0 := first.events, second.events;
      assert file2[..i + 1] == file2[..i] + [file2[i]];
      ok := MatchBlock(file2[i], first, second);
      GoodGoesOn(file2, i);
      if !ok { return; }
      MatchedGoesOn(file1, file2[..i], file2[i], first0, second0, first.events, second.events);
    }
    assert file2[..|file2|] == file2;
    ok := true;
  }

  // ----- What the report means -----

  /** What is left over under a key is not left over under the swapped one: contents looked up under a key are left
      over on one side at most. */
  lemma RemaindersAreDisjoint(f1: seq<Block>, f2: seq<Block>, first: EventMap, second: EventMap, k: Key, q: Contents)
    requires Good(f1) && Good(f2) && Matched(f1, f2, first, second) && IsStamp(k.timestamp)
    ensures Count(first, k, q) == 0 || Count(second, Swapped(k), q) == 0
  {
    hide Swapped, Count;
  }

  /** Everything filed has a stamp of 48 bits. */
  lemma {:induction false} FiledHasStamp(f: seq<Block>, k: Key, q: Contents)
    requires Good(f) && !IsStamp(k.timestamp)
    ensures Filed(f, k, q) == 0 && LookedUp(f, k, q) == 0
  {
    if f != [] {
      FiledHasStamp(f[..|f| - 1], k, q);
      StampsAreSwapped(f[|f| - 1]);
    }
  }

  ghost predicate Nothing(m: EventMap) { forall k, q :: Count(m, k, q) == 0 }

  ghost predicate Same(f1: seq<Block>, f2: seq<Block>)
    requires Good(f1) && Good(f2)
  {
    forall k, q :: Filed(f1, k, q) == LookedUp(f2, k, q)
  }

  lemma NothingMeansSame(f1: seq<Block>, f2: seq<Block>, first: EventMap, second: EventMap, k: Key, q: Contents)
    requires Good(f1) && Good(f2) && Matched(f1, f2, first, second) && Nothing(first) && Nothing(second)
    ensures Filed(f1, k, q) == LookedUp(f2, k, q)
  {
    hide Swapped, Count, Filed, LookedUp, Good;
    if IsStamp(k.timestamp) {
      assert Count(first, k, q) == 0 && Count(second, Swapped(k), q) == 0;
    } else {
      FiledHasStamp(f1, k, q);
      FiledHasStamp(f2, k, q);
    }
  }

  lemma SameMeansNothing(f1: seq<Block>, f2: seq<Block>, first: EventMap, second: EventMap, k: Key, q: Contents)
    requires Good(f1) && Good(f2) && Matched(f1, f2, first, second) && Same(f1, f2)
    ensures Count(first, k, q) == 0 && Count(second, k, q) == 0
  {
    hide Swapped, Count, Filed, LookedUp, Good;
    if IsStamp(k.timestamp) {
      SwapBack(k);
      assert Filed(f1, Swapped(k), q) == LookedUp(f2, Swapped(k), q);
      assert Count(second, Swapped(Swapped(k)), q) == 0;
    }
  }

  /** Nothing remains of the first file and nothing of the second disagrees exactly when what was filed of the first
      is what was looked up of the second. */
  lemma ReportIsCleanIff(f1: seq<Block>, f2: seq<Block>, first: EventMap, second: EventMap)
    requires Good(f1) && Good(f2) && Matched(f1, f2, first, second) && Clean(first) && Clean(second)
    ensures first == map[] && second == map[] <==> Same(f1, f2)
  {
    hide Matched, Count, Clean, Filed, LookedUp, Good;
    EmptyIff(first);
    EmptyIff(second);
    if Nothing(first) && Nothing(second) {
      forall k, q ensures Filed(f1, k, q) == LookedUp(f2, k, q) {
        NothingMeansSame(f1, f2, first, second, k, q);
      }
    }
    if Same(f1, f2) {
      forall k, q ensures Count(first, k, q) == 0 && Count(second, k, q) == 0 {
        SameMeansNothing(f1, f2, first, second, k, q);
      }
    }
  }

  lemma CountOfFirst(m: EventMap, k: Key)
    ensures At(m, k) != [] ==> Count(m, k, At(m, k)[0]) > 0
  {
  }

  lemma EmptyIff(m: EventMap)
    requires Clean(m)
    ensures m == map[] <==> Nothing(m)
  {
    CleanIsEmptyIff(m);
    hide Clean, At;
    if Nothing(m) {
      forall k ensures At(m, k) == [] {
        CountOfFirst(m, k);
      }
    }
  }

  /** On files whose stamp formulas agree the program computes the two differences, both under the key filed. */
  lemma DifferencesOfAgreeingFiles(f1: seq<Block>, f2: seq<Block>, first: EventMap, second: EventMap,
                                   k: Key, q: Contents)
    requires Good(f1) && Good(f2) && Matched(f1, f2, first, second)
    requires forall i | 0 <= i < |f1| :: f1[i].ts10 == f1[i].ts54
    requires forall i | 0 <= i < |f2| :: f2[i].ts10 == f2[i].ts54
    ensures Count(first, k, q) == Excess(Filed(f1, k, q), Filed(f2, k, q))
    ensures Count(second, k, q) == Excess(Filed(f2, k, q), Filed(f1, k, q))
  {
    hide Swapped, Count, Filed, LookedUp, Good;
    LookedUpIsFiled(f1, k, q);
    LookedUpIsFiled(f2, k, q);
    if IsStamp(k.timestamp) {
      SwapBack(k);
      LookedUpIsSwapped(f1, k, q);
      LookedUpIsSwapped(f2, Swapped(k), q);
      assert Count(second, Swapped(Swapped(k)), q)
             == Excess(LookedUp(f2, Swapped(k), q), Filed(f1, Swapped(k), q));
    } else {
      FiledHasStamp(f1, k, q);
      FiledHasStamp(f2, k, q);
    }
  }

  /** ... and then the two remainders share no block. */
  lemma AgreeingRemaindersAreDisjoint(f1: seq<Block>, f2: seq<Block>, first: EventMap, second: EventMap)
    requires Good(f1) && Good(f2) && Matched(f1, f2, first, second)
    requires forall i | 0 <= i < |f1| :: f1[i].ts10 == f1[i].ts54
    requires forall i | 0 <= i < |f2| :: f2[i].ts10 == f2[i].ts54
    ensures forall k, q :: Count(first, k, q) == 0 || Count(second, k, q) == 0
  {
    hide Count, Filed, Good, Matched;
    forall k, q ensures Count(first, k, q) == 0 || Count(second, k, q) == 0 {
      DifferencesOfAgreeingFiles(f1, f2, first, second, k, q);
    }
  }

  // ----- ... in terms of blocks -----

  /** Blocks share a key exactly when they have the same timestamp words and come from the same ROC; a block is looked
      up where one with the outer words exchanged is filed. */
  lemma KeysSeparate(a: Block, b: Block)
    ensures FilingKey(a) == FilingKey(b) <==>
              a.ts10 == b.ts10 && a.ts32 == b.ts32 && a.ts54 == b.ts54
              && a.subsystem == b.subsystem && a.dtc == b.dtc && a.link == b.link
    ensures LookupKey(a) == LookupKey(b) <==>
              a.ts10 == b.ts10 && a.ts32 == b.ts32 && a.ts54 == b.ts54
              && a.subsystem == b.subsystem && a.dtc == b.dtc && a.link == b.link
    ensures FilingKey(a) == LookupKey(b) <==>
              a.ts10 == b.ts54 && a.ts32 == b.ts32 && a.ts54 == b.ts10
              && a.subsystem == b.subsystem && a.dtc == b.dtc && a.link == b.link
  {
    SwapWords(a.ts10, a.ts32, a.ts54);
    SwapWords(b.ts10, b.ts32, b.ts54);
    SwapWords(a.ts54, a.ts32, a.ts10);
    SwapWords(b.ts54, b.ts32, b.ts10);
  }

  /** The contents of a block are what stands behind its 16-byte header. */
  lemma PayloadOf(b: Block, p: seq<byte>, rest: seq<byte>)
    requires b.transferByteCount == 16 + |p| && b.bytes == p + rest
    ensures b.InBuffer() && b.Sized() && b.Payload() == p
  {
  }

  lemma ItemIsFiled(b: Block, x: Item)
    requires b.InBuffer() && b.Sized()
    ensures FilingKey(b) == ItemKey(x) && b.Payload() == x.contents <==> ItemOf(b) == x
    ensures LookupKey(b) == ItemKey(x) && b.Payload() == x.contents <==> ItemOf(b) == Exchanged(x)
  {
    var a := Block(0, x.ts10, x.ts32, x.ts54, x.subsystem, x.dtc, x.link, []);
    KeysSeparate(b, a);
    KeysSeparate(a, b);
    assert FilingKey(a) == ItemKey(x);
    hide FilingKey, LookupKey, ItemKey;
  }

  lemma TimesSnoc(f: seq<Block>, x: Item)
    requires Good(f) && f != []
    ensures Good(f[..|f| - 1]) && f[|f| - 1].InBuffer() && f[|f| - 1].Sized()
    ensures Times(f, x) == Times(f[..|f| - 1], x) + if ItemOf(f[|f| - 1]) == x then 1 else 0
  {
    var front, last := f[..|f| - 1], f[|f| - 1];
    assert Items(f) == Items(front) + [ItemOf(last)];
  }

  lemma {:induction false} FiledIsTimes(f: seq<Block>, x: Item)
    requires Good(f)
    ensures Filed(f, ItemKey(x), x.contents) == Times(f, x)
    ensures LookedUp(f, ItemKey(x), x.contents) == Times(f, Exchanged(x))
  {
    hide FilingKey, LookupKey, ItemKey, Good, ItemOf, Exchanged, Block.Payload, Times;
    if f == [] {
      NoTimes(x);
      NoTimes(Exchanged(x));
    } else {
      TimesSnoc(f, x);
      TimesSnoc(f, Exchanged(x));
      FiledIsTimes(f[..|f| - 1], x);
      ItemIsFiled(f[|f| - 1], x);
    }
  }

  lemma NoTimes(x: Item)
    ensures Times([], x) == 0
  {
    assert Items([]) == [];
  }

  /** Every key with a stamp of 48 bits belongs to a block. */
  lemma KeyHasItem(k: Key, q: Contents) returns (x: Item)
    requires IsStamp(k.timestamp)
    ensures ItemKey(x) == k && x.contents == q
  {
    var t := k.timestamp;
    x := Item(t % 0x1_0000, t / 0x1_0000 % 0x1_0000, t / 0x1_0000_0000, k.subsystem, k.dtc, k.link, q);
    DivideTwice(t, 0x1_0000, 0x1_0000);
  }

  lemma SwappedIsExchanged(x: Item)
    ensures Swapped(ItemKey(x)) == ItemKey(Exchanged(x)) && IsStamp(ItemKey(x).timestamp)
    ensures Exchanged(Exchanged(x)) == x && Exchanged(x).contents == x.contents
  {
    SwapWords(x.ts54, x.ts32, x.ts10);
  }

  /** What is left over, block by block: of the first file what it has more often than the second has with the outer
      words exchanged, and the other way round. */
  lemma RemaindersOfBlocks(f1: seq<Block>, f2: seq<Block>, first: EventMap, second: EventMap, x: Item)
    requires Good(f1) && Good(f2) && Matched(f1, f2, first, second)
    ensures Count(first, ItemKey(x), x.contents) == Excess(Times(f1, x), Times(f2, Exchanged(x)))
    ensures Count(second, ItemKey(x), x.contents) == Excess(Times(f2, x), Times(f1, Exchanged(x)))
  {
    hide Filed, LookedUp, Good, Count, Times, ItemKey, Exchanged, Swapped;
    var y := Exchanged(x);
    SwappedIsExchanged(x);
    SwappedIsExchanged(y);
    FiledIsTimes(f1, x);
    FiledIsTimes(f2, x);
    FiledIsTimes(f1, y);
    FiledIsTimes(f2, y);
  }

  /** The second file has every block as often as the first has it with the outer timestamp words exchanged. */
  ghost predicate SameBlocks(f1: seq<Block>, f2: seq<Block>)
    requires Good(f1) && Good(f2)
  {
    forall x :: Times(f1, x) == Times(f2, Exchanged(x))
  }

  lemma SameIsSameBlocks(f1: seq<Block>, f2: seq<Block>)
    requires Good(f1) && Good(f2)
    ensures Same(f1, f2) <==> SameBlocks(f1, f2)
  {
    hide Filed, LookedUp, Good, Times, ItemKey, Exchanged, IsStamp;
    if Same(f1, f2) {
      forall x ensures Times(f1, x) == Times(f2, Exchanged(x)) {
        FiledIsTimes(f1, x);
        FiledIsTimes(f2, x);
      }
    }
    if SameBlocks(f1, f2) {
      forall k, q ensures Filed(f1, k, q) == LookedUp(f2, k, q) {
        if IsStamp(k.timestamp) {
          var x := KeyHasItem(k, q);
          FiledIsTimes(f1, x);
          FiledIsTimes(f2, x);
        } else {
          FiledHasStamp(f1, k, q);
          FiledHasStamp(f2, k, q);
        }
      }
    }
  }

  /** The comparison reports nothing exactly when the second file has every block as often as the first has it with the
      outer timestamp words exchanged. */
  lemma CleanComparisonIff(f1: seq<Block>, f2: seq<Block>, first: EventMap, second: EventMap)
    requires Good(f1) && Good(f2) && Matched(f1, f2, first, second) && Clean(first) && Clean(second)
    ensures first == map[] && second == map[] <==>
              forall x :: multiset(Items(f1))[x] == multiset(Items(f2))[x.(ts10 := x.ts54, ts54 := x.ts10)]
  {
    ReportIsCleanIff(f1, f2, first, second);
    SameIsSameBlocks(f1, f2);
    hide Same, Matched, Clean, Good, Items;
    assert forall x :: Times(f1, x) == multiset(Items(f1))[x];
    assert forall x :: Times(f2, Exchanged(x)) == multiset(Items(f2))[x.(ts10 := x.ts54, ts54 := x.ts10)];
  }

  /** A file compared with itself is reported equal exactly when exchanging the outer timestamp words of every block
      leaves the file's contents as they are. */
  lemma SelfComparison(f: seq<Block>, first: EventMap, second: EventMap)
    requires Good(f) && Matched(f, f, first, second) && Clean(first) && Clean(second)
    ensures first == map[] && second == map[] <==>
              forall x :: multiset(Items(f))[x] == multiset(Items(f))[x.(ts10 := x.ts54, ts54 := x.ts10)]
  {
    hide Matched, Clean, Good, Items;
    CleanComparisonIff(f, f, first, second);
  }

  /** An empty block of event 1. */
  function BlockOfEventOne(): Block { Block(16, 1, 0, 0, 0, 0, 0, []) }

  /** A file of that block differs from itself. */
  lemma DiffersFromItself(first: EventMap, second: EventMap)
    requires Good([BlockOfEventOne()]) && Matched([BlockOfEventOne()], [BlockOfEventOne()], first, second)
    ensures first != map[] && second != map[]
  {
    var b := BlockOfEventOne();
    var k := FilingKey(b);
    assert k != LookupKey(b) && b.Payload() == [];
    hide Swapped, LookupKey, FilingKey, Matched, Filed, LookedUp, Good;
    StampsAreSwapped(b);
    CountsOfOne(b, k);
    CountsOfOne(b, LookupKey(b));
    NotEmpty([b], first, second, k);
  }

  lemma CountsOfOne(b: Block, k: Key)
    requires b.InBuffer() && b.Sized() && b.Payload() == [] && Good([b])
    ensures Filed([b], k, []) == if FilingKey(b) == k then 1 else 0
    ensures LookedUp([b], k, []) == if LookupKey(b) == k then 1 else 0
  {
    hide FilingKey, LookupKey;
    assert [b][..0] == [];
  }

  lemma NotEmpty(f: seq<Block>, first: EventMap, second: EventMap, k: Key)
    requires Good(f) && Matched(f, f, first, second) && IsStamp(k.timestamp)
    requires IsStamp(Swapped(k).timestamp) && Swapped(Swapped(k)) == k
    requires Filed(f, k, []) == 1 && LookedUp(f, k, []) == 0
    requires Filed(f, Swapped(k), []) == 0 && LookedUp(f, Swapped(k), []) == 1
    ensures first != map[] && second != map[]
  {
    hide Swapped, Filed, LookedUp, Good;
    assert Count(first, k, []) == 1 && Count(second, Swapped(Swapped(k)), []) == 1;
  }
}
