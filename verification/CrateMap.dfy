/** Reading the crate map file, one line per module, into the lookup map. */
module CrateMap {
  import opened Basics
  import opened Words
  import opened VmeModules
  import opened LookupMap

  // A line already split at its commas. Only the last line of a file can lack its newline.
  datatype Line = Line(name: string, modid: u8, nchan: u8, firm: string, terminated: bool) {
    function Firmware(): Firmware { FirmwareOf(firm) }

    predicate IsMarker() { Firmware() == START_READOUT || Firmware() == END_READOUT }

    function Desc(): ModuleDesc { ModuleDesc(name, modid, nchan, Firmware()) }

    // Otherwise an exception is thrown: by the loop, or by the module constructor.
    predicate Accepted() { Firmware() != UNKNOWN && (IsMarker() || Desc().Constructible()) }
  }

  // An unknown name is inserted with the default firmware, UNKNOWN.
  function FirmwareOf(firm: string): Firmware {
    if firm == "MDPP_SCP" || firm == "SCP" then MDPP_SCP
    else if firm == "MDPP_QDC" || firm == "QDC" then MDPP_QDC
    else if firm == "MDPP_CSI" || firm == "CSI" then MDPP_CSI
    else if firm == "VMMR" then VMMR
    else if firm == "TGV" then TGV
    else if firm == "START_READOUT" then START_READOUT
    else if firm == "END_READOUT" then END_READOUT
    else if firm == "MVLC_SCALER" then MVLC_SCALER
    else UNKNOWN
  }

  lemma FirmwareNames()
    ensures FirmwareOf("MDPP_SCP") == MDPP_SCP && FirmwareOf("SCP") == MDPP_SCP
    ensures FirmwareOf("MDPP_QDC") == MDPP_QDC && FirmwareOf("QDC") == MDPP_QDC
    ensures FirmwareOf("MDPP_CSI") == MDPP_CSI && FirmwareOf("CSI") == MDPP_CSI
    ensures FirmwareOf("VMMR") == VMMR && FirmwareOf("TGV") == TGV && FirmwareOf("MVLC_SCALER") == MVLC_SCALER
    ensures FirmwareOf("START_READOUT") == START_READOUT && FirmwareOf("END_READOUT") == END_READOUT
  {
    DifferentNames();
  }

  lemma DifferentNames()
    ensures "MDPP_SCP" != "MDPP_QDC" && "MDPP_SCP" != "MDPP_CSI" && "MDPP_QDC" != "MDPP_CSI"
    ensures "SCP" != "QDC" && "SCP" != "CSI" && "QDC" != "CSI" && "TGV" != "SCP" && "TGV" != "QDC" && "TGV" != "CSI"
  {
    assert "MDPP_SCP"[5] == 'S' && "MDPP_QDC"[5] == 'Q' && "MDPP_CSI"[5] == 'C';
    assert "SCP"[0] == 'S' && "QDC"[0] == 'Q' && "CSI"[0] == 'C' && "TGV"[0] == 'T';
  }

  // These names and no others are known.
  lemma OtherNamesAreUnknown(firm: string)
    ensures FirmwareOf(firm) == UNKNOWN <==>
            firm !in ["MDPP_SCP", "SCP", "MDPP_QDC", "QDC", "MDPP_CSI", "CSI", "VMMR", "TGV",
                      "START_READOUT", "END_READOUT", "MVLC_SCALER"]
  {
  }

  // Which lines throw, and which are passed over.
  lemma AcceptedByName(l: Line)
    ensures l.Accepted() <==>
            || l.firm in ["VMMR", "TGV", "MVLC_SCALER", "START_READOUT", "END_READOUT"]
            || (l.firm in ["MDPP_SCP", "SCP", "MDPP_QDC", "QDC", "MDPP_CSI", "CSI"] && (l.nchan == 16 || l.nchan == 32))
    ensures l.IsMarker() <==> l.firm in ["START_READOUT", "END_READOUT"]
  {
    hide FirmwareOf;
    FirmwareNames();
    OtherNamesAreUnknown(l.firm);
  }

  // The lines that are acted on: those before the first that lacks its newline.
  function LinesRead(lines: seq<Line>): (n: nat)
    ensures n <= |lines|
    ensures forall i :: 0 <= i < n ==> lines[i].terminated
    ensures n < |lines| ==> !lines[n].terminated
  {
    if lines == [] then 0
    else
      var n := LinesRead(Init(lines));
      if n == |lines| - 1 && Last(lines).terminated then |lines| else n
  }

  // A file whose last line lacks its newline loses that line, and no other.
  lemma LastLineNeedsNewline(lines: seq<Line>)
    requires lines != [] && forall i :: 0 <= i < |lines| - 1 ==> lines[i].terminated
    ensures LinesRead(lines) == if Last(lines).terminated then |lines| else |lines| - 1
  {
    assert LinesRead(lines) < |lines| ==> !lines[LinesRead(lines)].terminated;
  }

  function KeptLine(l: Line): seq<ModuleDesc> {
    if l.IsMarker() then [] else [l.Desc()]
  }

  function Kept(lines: seq<Line>): seq<ModuleDesc> {
    FlatMap(KeptLine, lines)
  }

  function Ids(descs: seq<ModuleDesc>): (ids: seq<u8>)
    ensures |ids| == |descs|
  {
    seq(|descs|, i requires 0 <= i < |descs| => descs[i].id)
  }

  // For each id the last description with that id.
  function LastById(descs: seq<ModuleDesc>): map<u8, ModuleDesc> {
    if descs == [] then map[] else LastById(Init(descs))[Last(descs).id := Last(descs)]
  }

  // No later description has the same id.
  predicate IsLastOfId(descs: seq<ModuleDesc>, k: nat)
    requires k < |descs|
  {
    forall j :: k < j < |descs| ==> descs[j].id != descs[k].id
  }

  lemma {:induction false} LastByIdIsLast(descs: seq<ModuleDesc>, k: nat)
    requires k < |descs| && IsLastOfId(descs, k)
    ensures descs[k].id in LastById(descs) && LastById(descs)[descs[k].id] == descs[k]
  {
    if k == |descs| - 1 {
    } else {
      assert descs[|descs| - 1].id != descs[k].id;
      assert IsLastOfId(Init(descs), k);
      LastByIdIsLast(Init(descs), k);
    }
  }

  lemma {:induction false} LastByIdKeys(descs: seq<ModuleDesc>, id: u8)
    ensures id in LastById(descs) <==> id in Ids(descs)
  {
    if descs == [] {
    } else {
      LastByIdKeys(Init(descs), id);
      assert Ids(descs) == Ids(Init(descs)) + [Last(descs).id];
    }
  }

  // No later line that is not a marker has the same id.
  predicate IsLastLineOfId(lines: seq<Line>, k: nat)
    requires k < |lines|
  {
    forall j :: k < j < |lines| && !lines[j].IsMarker() ==> lines[j].modid != lines[k].modid
  }

  // What is found for an id is the last line with it: its name, its id, its number of channels, and the
  // firmware that it names.
  lemma {:induction false} LastLineIsFound(lines: seq<Line>, k: nat)
    requires k < |lines| && !lines[k].IsMarker() && IsLastLineOfId(lines, k)
    ensures var loaded := LastById(Kept(lines));
            && lines[k].modid in loaded
            && loaded[lines[k].modid]
               == ModuleDesc(lines[k].name, lines[k].modid, lines[k].nchan, FirmwareOf(lines[k].firm))
  {
    hide FirmwareOf;
    hide LastById;
    var init := Init(lines);
    KeptNext(lines, |lines| - 1);
    assert lines[..|lines| - 1] == init && lines[..|lines| - 1 + 1] == lines;
    if k == |lines| - 1 {
    } else {
      assert IsLastLineOfId(init, k);
      LastLineIsFound(init, k);
    }
  }

  function NoMarker(l: Line): seq<Line> {
    if l.IsMarker() then [] else [l]
  }

  function IdsOf(lines: seq<Line>): (ids: seq<u8>)
    ensures |ids| == |lines| && forall i :: 0 <= i < |lines| ==> ids[i] == lines[i].modid
  {
    seq(|lines|, i requires 0 <= i < |lines| => lines[i].modid)
  }

  lemma {:induction false} KeptIdsAre(lines: seq<Line>)
    ensures Ids(Kept(lines)) == IdsOf(FlatMap(NoMarker, lines))
  {
    hide FirmwareOf;
    hide Ids;
    hide LastById;
    hide Kept;
    NothingKept();
    if lines == [] {
    } else {
      KeptNext(lines, |lines| - 1);
      assert lines[..|lines| - 1] == Init(lines) && lines[..|lines| - 1 + 1] == lines;
      KeptIdsAre(Init(lines));
    }
  }

  // The ids are listed in file order: those of all lines that are no markers.
  lemma ListedInFileOrder(lines: seq<Line>) returns (at: seq<nat>)
    ensures |Ids(Kept(lines))| == |at|
    ensures forall k :: 0 <= k < |at| ==> at[k] < |lines| && Ids(Kept(lines))[k] == lines[at[k]].modid
    ensures forall k, l :: 0 <= k < l < |at| ==> at[k] < at[l]
    ensures forall i :: 0 <= i < |lines| ==> (i in at <==> lines[i].firm !in ["START_READOUT", "END_READOUT"])
  {
    hide FirmwareOf;
    hide Ids;
    hide Kept;
    hide FlatMap;
    hide Line.IsMarker;
    KeptIdsAre(lines);
    at := FlatMapSelects(NoMarker, lines);
    forall i | 0 <= i < |lines|
      ensures NoMarker(lines[i]) != [] <==> lines[i].firm !in ["START_READOUT", "END_READOUT"]
    {
      AcceptedByName(lines[i]);
    }
  }

  // START_READOUT and END_READOUT lines have no effect.
  lemma {:induction false} MarkersHaveNoEffect(lines: seq<Line>)
    ensures Kept(FlatMap(NoMarker, lines)) == Kept(lines)
  {
    hide FirmwareOf;
    if lines == [] {
    } else {
      MarkersHaveNoEffect(Init(lines));
      FlatMapConcat(KeptLine, FlatMap(NoMarker, Init(lines)), NoMarker(Last(lines)));
      FlatMapOne(KeptLine, Last(lines));
    }
  }

  // How many of the lines that are acted on come before the first unacceptable one.
  function AcceptedLines(lines: seq<Line>): (n: nat)
    ensures n <= LinesRead(lines)
    ensures forall i :: 0 <= i < n ==> lines[i].Accepted()
    ensures n < LinesRead(lines) ==> !lines[n].Accepted()
  {
    AcceptedFrom(lines, 0)
  }

  function AcceptedFrom(lines: seq<Line>, i: nat): (n: nat)
    requires i <= LinesRead(lines)
    ensures i <= n <= LinesRead(lines)
    ensures forall k :: i <= k < n ==> lines[k].Accepted()
    ensures n < LinesRead(lines) ==> !lines[n].Accepted()
    decreases LinesRead(lines) - i
  {
    if i == LinesRead(lines) || !lines[i].Accepted() then i else AcceptedFrom(lines, i + 1)
  }

  predicate AllAccepted(lines: seq<Line>) {
    AcceptedLines(lines) == LinesRead(lines)
  }

  // The modules of the lines before the first unacceptable one.
  function ModulesRead(lines: seq<Line>): seq<ModuleDesc> {
    Kept(lines[..AcceptedLines(lines)])
  }

  // In a lookup map with these contents: adding objects with these ids writes to slots that exist, and
  // visiting all ids afterwards reads such slots, up to the first id without an object. Without storage,
  // adding one object creates all slots.
  predicate StorageFor(storage: Option<nat>, listed: seq<u8>, held: set<u8>, ids: seq<u8>) {
    && (storage.Some? ==> forall id :: id in ids ==> id < storage.value)
    && forall k :: 0 <= k < |listed| && (forall j :: 0 <= j < k ==> HeldAfter(held, ids, listed[j]))
                   ==> HeldAfter(held, ids, listed[k]) || HasSlotAfter(storage, ids, listed[k])
  }

  // In particular a map whose storage has a slot for every id, and one without storage that either lists
  // no id or is given an object.
  lemma StorageSuffices(storage: Option<nat>, listed: seq<u8>, held: set<u8>, ids: seq<u8>)
    requires if storage.Some? then forall id :: id in listed || id in ids ==> id < storage.value
             else listed == [] || ids != []
    ensures StorageFor(storage, listed, held, ids)
  {
    hide HeldAfter;
    forall k | 0 <= k < |listed|
      ensures HasSlotAfter(storage, ids, listed[k])
    {
      assert listed[k] in listed;
    }
  }

  predicate HeldAfter(held: set<u8>, ids: seq<u8>, id: u8) {
    id in held || id in ids
  }

  predicate HasSlotAfter(storage: Option<nat>, ids: seq<u8>, id: u8) {
    if storage.Some? then id < storage.value else ids != []
  }

  function StorageOf(crateMap: FastLookupMap<ModuleDesc>): Option<nat>
    reads crateMap
  {
    if crateMap.initialized then Some(|crateMap.objects|) else None
  }

  lemma ObjectsHaveSlots(storage: Option<nat>, listed: seq<u8>, held: set<u8>, ids: seq<u8>)
    requires StorageFor(storage, listed, held, ids)
    ensures forall id :: id in ids ==> id in listed + ids && (storage.Some? ==> id < storage.value)
  {
  }

  lemma VisitReadsSlots(crateMap: FastLookupMap<ModuleDesc>, storage: Option<nat>, listed: seq<u8>, held: set<u8>,
                        ids: seq<u8>)
    requires crateMap.Valid() && crateMap.idList == listed + ids && StorageFor(storage, listed, held, ids)
    requires forall id: u8 :: crateMap.Holds(id) <==> HeldAfter(held, ids, id)
    requires |crateMap.objects| == if storage.Some? then storage.value
                                   else if ids != [] then crateMap.maxindex + 1 else 0
    ensures crateMap.VisitInBounds()
  {
    var n := crateMap.Visitable();
    assert forall k :: |listed| <= k < |crateMap.idList| ==> crateMap.idList[k] in ids;
    if n < |listed| {
      assert forall j :: 0 <= j < n ==> crateMap.Holds(crateMap.idList[j]) && crateMap.idList[j] == listed[j];
      assert crateMap.idList[n] == listed[n];
    }
  }

  // The first loop: ids go to the lookup map as they come, descriptions to an ordered map.
  method ReadLines(crateMap: FastLookupMap<ModuleDesc>, lines: seq<Line>)
    returns (ok: bool, modmap: map<u8, ModuleDesc>)
    requires crateMap.Valid()
    modifies crateMap`idList, crateMap`maxindex
    ensures crateMap.Valid() && (old(crateMap.MaxIsTight()) ==> crateMap.MaxIsTight())
    ensures ok <==> AllAccepted(lines)
    ensures crateMap.idList == old(crateMap.idList) + Ids(ModulesRead(lines))
    ensures (forall id :: id in Ids(ModulesRead(lines)) ==> id <= old(crateMap.maxindex))
            ==> crateMap.maxindex == old(crateMap.maxindex)
    ensures ok ==> modmap == LastById(ModulesRead(lines))
  {
    hide FirmwareOf;
    hide Kept;
    hide LastById;
    hide Ids;
    NothingKept();
    modmap := map[];
    var i := 0;
    while i < |lines|
      invariant 0 <= i <= AcceptedLines(lines) <= LinesRead(lines) <= |lines|
      invariant crateMap.Valid() && (old(crateMap.MaxIsTight()) ==> crateMap.MaxIsTight())
      invariant crateMap.idList == old(crateMap.idList) + Ids(Kept(lines[..i]))
      invariant (forall id :: id in Ids(Kept(lines[..i])) ==> id <= old(crateMap.maxindex))
                ==> crateMap.maxindex == old(crateMap.maxindex)
      invariant modmap == LastById(Kept(lines[..i]))
      decreases |lines| - i
    {
      var line := lines[i];
      if !line.terminated { break; }
      if line.Firmware() == UNKNOWN {
        return false, modmap;
      }
      KeptNext(lines, i);
      if line.Firmware() != START_READOUT && line.Firmware() != END_READOUT {
        if !line.Desc().Constructible() {
          return false, modmap;
        }
        modmap := modmap[line.modid := line.Desc()];
        crateMap.AddId(line.modid);
        assert Last(Ids(Kept(lines[..i + 1]))) in Ids(Kept(lines[..i + 1]));
        assert forall id :: id in Ids(Kept(lines[..i])) ==> id in Ids(Kept(lines[..i + 1]));
      }
      i := i + 1;
    }
    ok := true;
  }

  // The second loop: the objects, in order of id.
  method StoreModules(crateMap: FastLookupMap<ModuleDesc>, modmap: map<u8, ModuleDesc>)
    requires crateMap.Valid()
    requires forall id :: id in modmap ==>
                            id in crateMap.idList && (crateMap.initialized ==> id < |crateMap.objects|)
    modifies crateMap`objects, crateMap`initialized
    ensures crateMap.Valid() && crateMap.Contents() == old(crateMap.Contents()) + modmap
    ensures old(crateMap.InProtocol()) ==> crateMap.InProtocol()
    ensures crateMap.initialized <==> old(crateMap.initialized) || modmap != map[]
    ensures |crateMap.objects| == if old(crateMap.initialized) then |old(crateMap.objects)|
                                  else if modmap != map[] then crateMap.maxindex + 1 else 0
  {
    hide FastLookupMap.InProtocol;
    hide FastLookupMap.Valid;
    hide FastLookupMap.Contents;
    hide FastLookupMap.Cells;
    ListedIdsAreInRange(crateMap);
    ghost var stored: map<u8, ModuleDesc> := map[];
    assert old(crateMap.Contents()) + stored == old(crateMap.Contents());
    var key: int := 0;
    while key < 0x100
      invariant 0 <= key <= 0x100
      invariant forall id :: id in stored <==> id in modmap && id < key
      invariant forall id :: id in stored ==> stored[id] == modmap[id]
      invariant crateMap.Valid() && (old(crateMap.InProtocol()) ==> crateMap.InProtocol())
      invariant crateMap.Contents() == old(crateMap.Contents()) + stored
      invariant crateMap.initialized <==> old(crateMap.initialized) || stored != map[]
      invariant |crateMap.objects| == if old(crateMap.initialized) then |old(crateMap.objects)|
                                      else if stored != map[] then crateMap.maxindex + 1 else 0
    {
      if key in modmap {
        crateMap.AddObject(key, modmap[key]);
        MergeUpdate(old(crateMap.Contents()), stored, key, modmap[key]);
        stored := stored[key := modmap[key]];
      }
      key := key + 1;
    }
    assert stored == modmap;
  }

  lemma ListedIdsAreInRange(crateMap: FastLookupMap<ModuleDesc>)
    requires crateMap.Valid()
    ensures forall id :: id in crateMap.idList ==> id <= crateMap.maxindex
    ensures !crateMap.initialized ==> crateMap.objects == []
  {
  }

  lemma MergeUpdate(a: map<u8, ModuleDesc>, b: map<u8, ModuleDesc>, id: u8, d: ModuleDesc)
    ensures a + b[id := d] == (a + b)[id := d] && b[id := d] != map[]
  {
    assert id in b[id := d];
  }

  // For each line that is the last with its id: what is found for the id is its name, its id, its number
  // of channels, and the firmware that it names.
  predicate LinesAreFound(lines: seq<Line>, found: map<u8, ModuleDesc>) {
    forall k :: 0 <= k < |lines| && !lines[k].IsMarker() && IsLastLineOfId(lines, k) ==>
                  lines[k].modid in found
                  && found[lines[k].modid]
                     == ModuleDesc(lines[k].name, lines[k].modid, lines[k].nchan, FirmwareOf(lines[k].firm))
  }

  lemma LastLinesAreFound(lines: seq<Line>, before: map<u8, ModuleDesc>)
    requires AllAccepted(lines)
    ensures LinesAreFound(lines[..LinesRead(lines)], before + LastById(ModulesRead(lines)))
  {
    hide FirmwareOf;
    hide LastById;
    hide Kept;
    var read := lines[..LinesRead(lines)];
    forall k | 0 <= k < |read| && !read[k].IsMarker() && IsLastLineOfId(read, k)
      ensures read[k].modid in LastById(Kept(read))
              && LastById(Kept(read))[read[k].modid]
                 == ModuleDesc(read[k].name, read[k].modid, read[k].nchan, FirmwareOf(read[k].firm))
    {
      LastLineIsFound(read, k);
    }
  }

  // An unacceptable line throws before any object is added, with the ids of the lines before it already
  // listed. Otherwise every lookup gives the last line read with that id, or else what it gave before;
  // ids are listed in file order, an id as often as it occurs. The modules are then visited, for
  // printing, and an id that was listed before and still has no object throws there.
  method ReadCrateMap(crateMap: FastLookupMap<ModuleDesc>, lines: seq<Line>) returns (ok: bool)
    requires crateMap.Valid()
    requires AllAccepted(lines) ==>
               StorageFor(StorageOf(crateMap), crateMap.idList, crateMap.Contents().Keys, Ids(ModulesRead(lines)))
    modifies crateMap
    ensures crateMap.Valid() && (old(crateMap.MaxIsTight()) ==> crateMap.MaxIsTight())
    ensures crateMap.idList == old(crateMap.idList) + Ids(ModulesRead(lines))
    ensures AllAccepted(lines) ==>
              && crateMap.Contents() == old(crateMap.Contents()) + LastById(ModulesRead(lines))
              && (crateMap.initialized <==> old(crateMap.initialized) || ModulesRead(lines) != [])
              && (ok <==> crateMap.Populated())
              && (old(crateMap.InProtocol()) ==> crateMap.InProtocol())
    ensures AllAccepted(lines) ==> LinesAreFound(lines[..LinesRead(lines)], crateMap.Contents())
    ensures !AllAccepted(lines) ==>
              && !ok && crateMap.Contents() == old(crateMap.Contents())
              && unchanged(crateMap`objects, crateMap`initialized)
    ensures old(crateMap.Populated()) ==> (ok <==> AllAccepted(lines))
  {
    hide FirmwareOf;
    hide ModulesRead;
    hide LastById;
    hide Ids;
    hide AcceptedLines;
    hide StorageFor;
    hide LinesAreFound;
    hide FastLookupMap.MaxIsTight;
    ghost var storage, listed, held := StorageOf(crateMap), crateMap.idList, crateMap.Contents().Keys;
    var modmap;
    ok, modmap := ReadLines(crateMap, lines);
    if ok {
      ObjectsHaveSlots(storage, listed, held, Ids(ModulesRead(lines)));
      LastLinesAreFound(lines, crateMap.Contents());
      ok := StoreAndVisit(crateMap, modmap, listed, ModulesRead(lines));
      LastByIdHasIds(ModulesRead(lines));
    }
  }

  // What follows the first loop, with these ids listed before and these modules read by it.
  method StoreAndVisit(crateMap: FastLookupMap<ModuleDesc>, modmap: map<u8, ModuleDesc>,
                       ghost listed: seq<u8>, ghost kept: seq<ModuleDesc>)
    returns (ok: bool)
    requires crateMap.Valid() && crateMap.idList == listed + Ids(kept) && modmap == LastById(kept)
    requires StorageFor(StorageOf(crateMap), listed, crateMap.Contents().Keys, Ids(kept))
    modifies crateMap`objects, crateMap`initialized
    ensures crateMap.Valid() && crateMap.Contents() == old(crateMap.Contents()) + modmap
    ensures crateMap.initialized <==> old(crateMap.initialized) || kept != []
    ensures old(crateMap.InProtocol()) ==> crateMap.InProtocol()
    ensures ok <==> crateMap.Populated()
    ensures (forall id :: id in listed ==> old(crateMap.Holds(id))) ==> ok
  {
    hide LastById;
    hide Ids;
    hide StorageFor;
    hide FastLookupMap.Visitable;
    hide FastLookupMap.VisitInBounds;
    hide FastLookupMap.InProtocol;
    ghost var storage, held := StorageOf(crateMap), crateMap.Contents().Keys;
    LastByIdHasIds(kept);
    ObjectsHaveSlots(storage, listed, held, Ids(kept));
    StoreModules(crateMap, modmap);
    assert forall id: u8 :: crateMap.Holds(id) <==> id in crateMap.Contents();
    VisitReadsSlots(crateMap, storage, listed, held, Ids(kept));
    var visited := crateMap.Visit();
    ok := visited.Some?;
  }

  lemma LastByIdHasIds(descs: seq<ModuleDesc>)
    ensures forall id :: id in LastById(descs) <==> id in Ids(descs)
    ensures (LastById(descs) == map[] <==> descs == []) && (Ids(descs) == [] <==> descs == [])
  {
    forall id: u8
      ensures id in LastById(descs) <==> id in Ids(descs)
    {
      LastByIdKeys(descs, id);
    }
    if descs != [] {
      assert Last(descs).id in LastById(descs);
    }
  }

  lemma NothingKept()
    ensures Kept([]) == [] && Ids(Kept([])) == [] && LastById(Kept([])) == map[]
  {
  }

  lemma KeptNext(lines: seq<Line>, i: nat)
    requires i < |lines|
    ensures var before, after := Kept(lines[..i]), Kept(lines[..i + 1]);
            if lines[i].IsMarker() then after == before
            else && LastById(after) == LastById(before)[lines[i].modid := lines[i].Desc()]
                 && Ids(after) == Ids(before) + [lines[i].modid]
  {
    hide FirmwareOf;
    FlatMapPrefix(KeptLine, lines, i);
    if !lines[i].IsMarker() {
      KeptOneMore(Kept(lines[..i]), lines[i].Desc());
    }
  }

  lemma KeptOneMore(kept: seq<ModuleDesc>, d: ModuleDesc)
    ensures LastById(kept + [d]) == LastById(kept)[d.id := d]
    ensures Ids(kept + [d]) == Ids(kept) + [d.id]
  {
    assert Init(kept + [d]) == kept;
  }

  predicate SomeLineHas(lines: seq<Line>, id: u8) {
    exists l :: l in lines && !l.IsMarker() && l.modid == id
  }

  // An id can be looked up exactly when some line that is not a marker has it.
  lemma LoadedIds(lines: seq<Line>, id: u8)
    ensures id in LastById(Kept(lines)) <==> SomeLineHas(lines, id)
  {
    hide FirmwareOf;
    LastByIdKeys(Kept(lines), id);
    KeptIds(lines, id);
  }

  lemma {:induction false} KeptIds(lines: seq<Line>, id: u8)
    ensures id in Ids(Kept(lines)) <==> SomeLineHas(lines, id)
  {
    hide FirmwareOf;
    hide SomeLineHas;
    if lines == [] {
      NoLineHas(id);
    } else {
      var init, l := Init(lines), Last(lines);
      assert lines == init + [l];
      KeptIds(init, id);
      OneMoreLineHas(init, l, id);
      if l.IsMarker() {
        assert Kept(lines) == Kept(init);
      } else {
        assert Kept(lines) == Kept(init) + [l.Desc()];
        KeptOneMore(Kept(init), l.Desc());
      }
    }
  }

  lemma NoLineHas(id: u8)
    ensures !SomeLineHas([], id)
  {
  }

  lemma OneMoreLineHas(lines: seq<Line>, l: Line, id: u8)
    ensures SomeLineHas(lines + [l], id) <==> SomeLineHas(lines, id) || (!l.IsMarker() && l.modid == id)
  {
    hide FirmwareOf;
    assert forall x :: x in lines + [l] <==> x in lines || x == l;
  }
}
