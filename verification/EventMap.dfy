/** The comparison program's nested maps: event, subsystem, DTC, link, and a list of blocks. */
module EventMaps {
  import opened Words

  type Contents = seq<byte>
  type RocMap = map<nat, seq<Contents>>
  type DtcMap = map<nat, RocMap>
  type SubsystemMap = map<nat, DtcMap>
  type EventMap = map<nat, SubsystemMap>

  datatype Key = Key(timestamp: nat, subsystem: nat, dtc: nat, link: nat)

  // ----- Looking up -----

  function RocAt(m: RocMap, k: Key): seq<Contents> {
    if k.link in m then m[k.link] else []
  }

  function DtcAt(m: DtcMap, k: Key): seq<Contents> {
    if k.dtc in m then RocAt(m[k.dtc], k) else []
  }

  function SubsystemAt(m: SubsystemMap, k: Key): seq<Contents> {
    if k.subsystem in m then DtcAt(m[k.subsystem], k) else []
  }

  /** The list under a key; empty when some level has no entry. */
  function At(m: EventMap, k: Key): seq<Contents> {
    if k.timestamp in m then SubsystemAt(m[k.timestamp], k) else []
  }

  // ----- No level ever holds an empty entry -----

  predicate CleanRoc(m: RocMap) { forall l | l in m :: m[l] != [] }

  predicate CleanDtc(m: DtcMap) { forall d | d in m :: m[d] != map[] && CleanRoc(m[d]) }

  predicate CleanSubsystem(m: SubsystemMap) { forall s | s in m :: m[s] != map[] && CleanDtc(m[s]) }

  predicate Clean(m: EventMap) { forall t | t in m :: m[t] != map[] && CleanSubsystem(m[t]) }

  lemma RocHolds(m: RocMap) returns (l: nat)
    requires CleanRoc(m) && m != map[]
    ensures l in m && m[l] != []
  {
    l :| l in m;
  }

  lemma DtcHolds(m: DtcMap) returns (d: nat, l: nat)
    requires CleanDtc(m) && m != map[]
    ensures DtcAt(m, Key(0, 0, d, l)) != []
  {
    d :| d in m;
    l := RocHolds(m[d]);
  }

  lemma SubsystemHolds(m: SubsystemMap) returns (s: nat, d: nat, l: nat)
    requires CleanSubsystem(m) && m != map[]
    ensures SubsystemAt(m, Key(0, s, d, l)) != []
  {
    s :| s in m;
    d, l := DtcHolds(m[s]);
  }

  /** In a clean map every event holds some block, so an empty map is the one with nothing in it. */
  lemma CleanIsEmptyIff(m: EventMap)
    requires Clean(m)
    ensures m == map[] <==> forall k :: At(m, k) == []
  {
    if m != map[] {
      var t :| t in m;
      var s, d, l := SubsystemHolds(m[t]);
      assert At(m, Key(t, s, d, l)) != [];
    }
  }

  // ----- Adding and erasing -----

  function Entry<T>(m: map<nat, map<nat, T>>, i: nat): map<nat, T> {
    if i in m then m[i] else map[]
  }

  // map[timestamp][subsystem][dtc][link].push_back(p), level by level: missing entries are made.

  function RocAdded(m: RocMap, k: Key, p: Contents): (r: RocMap)
    ensures r != map[] && (CleanRoc(m) ==> CleanRoc(r))
    ensures forall j: Key :: RocAt(r, j) == if j.link == k.link then RocAt(m, k) + [p] else RocAt(m, j)
  {
    assert k.link in m[k.link := RocAt(m, k) + [p]];
    m[k.link := RocAt(m, k) + [p]]
  }

  function DtcAdded(m: DtcMap, k: Key, p: Contents): (r: DtcMap)
    ensures r != map[] && (CleanDtc(m) ==> CleanDtc(r))
    ensures forall j: Key :: DtcAt(r, j) == if j.dtc == k.dtc && j.link == k.link
                                            then DtcAt(m, k) + [p] else DtcAt(m, j)
  {
    var e := RocAdded(Entry(m, k.dtc), k, p);
    assert k.dtc in m[k.dtc := e];
    m[k.dtc := e]
  }

  function SubsystemAdded(m: SubsystemMap, k: Key, p: Contents): (r: SubsystemMap)
    ensures r != map[] && (CleanSubsystem(m) ==> CleanSubsystem(r))
    ensures forall j: Key ::
              SubsystemAt(r, j) == if j.subsystem == k.subsystem && j.dtc == k.dtc && j.link == k.link
                                   then SubsystemAt(m, k) + [p] else SubsystemAt(m, j)
  {
    var e := DtcAdded(Entry(m, k.subsystem), k, p);
    assert k.subsystem in m[k.subsystem := e];
    m[k.subsystem := e]
  }

  function Added(m: EventMap, k: Key, p: Contents): EventMap {
    m[k.timestamp := SubsystemAdded(Entry(m, k.timestamp), k, p)]
  }

  lemma AddedAt(m: EventMap, k: Key, p: Contents)
    ensures Clean(m) ==> Clean(Added(m, k, p))
    ensures forall j: Key :: At(Added(m, k, p), j) == if j == k then At(m, k) + [p] else At(m, j)
  {
  }

  // Erasing one element of the list, and every level this leaves empty.

  function WithoutIndex(q: seq<Contents>, i: nat): (r: seq<Contents>)
    requires i < |q|
    ensures |r| == |q| - 1 && multiset(r) == multiset(q) - multiset{q[i]}
  {
    assert q == q[..i] + [q[i]] + q[i + 1..];
    q[..i] + q[i + 1..]
  }

  function RocErased(m: RocMap, k: Key, i: nat): RocMap
    requires i < |RocAt(m, k)|
  {
    var q := WithoutIndex(m[k.link], i);
    if q == [] then m - {k.link} else m[k.link := q]
  }

  function DtcErased(m: DtcMap, k: Key, i: nat): DtcMap
    requires i < |DtcAt(m, k)|
  {
    var e := RocErased(m[k.dtc], k, i);
    if e == map[] then m - {k.dtc} else m[k.dtc := e]
  }

  function SubsystemErased(m: SubsystemMap, k: Key, i: nat): SubsystemMap
    requires i < |SubsystemAt(m, k)|
  {
    var e := DtcErased(m[k.subsystem], k, i);
    if e == map[] then m - {k.subsystem} else m[k.subsystem := e]
  }

  lemma RocErasedAt(m: RocMap, k: Key, i: nat, j: Key)
    requires i < |RocAt(m, k)|
    ensures RocAt(RocErased(m, k, i), j) == if j.link == k.link then WithoutIndex(RocAt(m, k), i) else RocAt(m, j)
    ensures CleanRoc(m) ==> CleanRoc(RocErased(m, k, i))
  {
  }

  lemma DtcErasedAt(m: DtcMap, k: Key, i: nat, j: Key)
    requires i < |DtcAt(m, k)|
    ensures DtcAt(DtcErased(m, k, i), j) == if j.dtc == k.dtc && j.link == k.link
                                            then WithoutIndex(DtcAt(m, k), i) else DtcAt(m, j)
    ensures CleanDtc(m) ==> CleanDtc(DtcErased(m, k, i))
  {
    RocErasedAt(m[k.dtc], k, i, j);
    hide RocErased, CleanRoc, WithoutIndex;
  }

  lemma SubsystemErasedAt(m: SubsystemMap, k: Key, i: nat, j: Key)
    requires i < |SubsystemAt(m, k)|
    ensures SubsystemAt(SubsystemErased(m, k, i), j)
            == if j.subsystem == k.subsystem && j.dtc == k.dtc && j.link == k.link
               then WithoutIndex(SubsystemAt(m, k), i) else SubsystemAt(m, j)
    ensures CleanSubsystem(m) ==> CleanSubsystem(SubsystemErased(m, k, i))
  {
    var e := DtcErased(m[k.subsystem], k, i);
    DtcErasedAt(m[k.subsystem], k, i, j);
    SubsystemReplaced(m, k.subsystem, e, j);
    hide DtcErased, CleanDtc, WithoutIndex, DtcAt;
  }

  lemma SubsystemReplaced(m: SubsystemMap, s: nat, e: DtcMap, j: Key)
    ensures var r: SubsystemMap := if e == map[] then m - {s} else m[s := e];
            && SubsystemAt(r, j) == (if j.subsystem == s then DtcAt(e, j) else SubsystemAt(m, j))
            && (CleanSubsystem(m) && CleanDtc(e) ==> CleanSubsystem(r))
  {
    hide RocAt, CleanDtc;
  }

  function Erased(m: EventMap, k: Key, i: nat): EventMap
    requires i < |At(m, k)|
  {
    var e := SubsystemErased(m[k.timestamp], k, i);
    if e == map[] then m - {k.timestamp} else m[k.timestamp := e]
  }

  lemma ErasedAt(m: EventMap, k: Key, i: nat)
    requires i < |At(m, k)|
    ensures forall j: Key :: At(Erased(m, k, i), j) == if j == k then WithoutIndex(At(m, k), i) else At(m, j)
  {
    var s := m[k.timestamp];
    var e := SubsystemErased(s, k, i);
    hide DtcAt, DtcErased;
    forall j: Key
      ensures At(Erased(m, k, i), j) == if j == k then WithoutIndex(At(m, k), i) else At(m, j)
    {
      SubsystemErasedAt(s, k, i, j);
      ReplacedAt(m, k.timestamp, e, j);
    }
  }

  lemma ReplacedAt(m: EventMap, t: nat, e: SubsystemMap, j: Key)
    ensures At(if e == map[] then m - {t} else m[t := e], j)
            == if j.timestamp == t then SubsystemAt(e, j) else At(m, j)
  {
    hide DtcAt;
  }

  lemma ErasedKeepsClean(m: EventMap, k: Key, i: nat)
    requires i < |At(m, k)| && Clean(m)
    ensures Clean(Erased(m, k, i))
  {
    var e := SubsystemErased(m[k.timestamp], k, i);
    SubsystemErasedAt(m[k.timestamp], k, i, k);
    ReplacedIsClean(m, k.timestamp, e);
  }

  lemma ReplacedIsClean(m: EventMap, t: nat, e: SubsystemMap)
    requires Clean(m) && CleanSubsystem(e)
    ensures Clean(if e == map[] then m - {t} else m[t := e])
  {
    hide CleanSubsystem;
  }
}
