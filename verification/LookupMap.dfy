/** A map from small integers to objects, kept as a dense array of owned objects. */
module LookupMap {
  import opened Basics
  import opened Words

  // An object on the heap, owned by one slot of one map.
  class Cell<T> {
    var value: T

    constructor (value: T)
      ensures this.value == value
    {
      this.value := value;
    }
  }

  class FastLookupMap<T> {
    var objects: seq<Cell?<T>>
    var idList: seq<u8>
    var maxindex: u8
    var initialized: bool

    function Cells(): set<Cell?<T>>
      reads this`objects
    {
      set c: Cell?<T> | c in objects && c != null
    }

    // Storage is absent or has at most one slot for each of 0..maxindex, and slots own distinct objects.
    ghost predicate Valid()
      reads this
    {
      && (if initialized then 1 <= |objects| <= maxindex + 1 else objects == [])
      && (forall id :: id in idList ==> id <= maxindex)
      && (forall i, j :: 0 <= i < j < |objects| && objects[i] != null ==> objects[i] != objects[j])
    }

    // The documented order of calls, all ids and then objects for these ids, keeps the storage complete.
    ghost predicate InProtocol()
      reads this
    {
      && (initialized ==> |objects| == maxindex + 1)
      && (forall i :: 0 <= i < |objects| && objects[i] != null ==> i in idList)
    }

    // maxindex is the largest added id.
    ghost predicate MaxIsTight()
      reads this`idList, this`maxindex
    {
      if idList == [] then maxindex == 0 else maxindex in idList
    }

    // The map that this object stands for.
    ghost function Contents(): map<u8, T>
      reads this, Cells()
    {
      map id: u8 | id < |objects| && objects[id] != null :: objects[id].value
    }

    ghost predicate Holds(id: u8)
      reads this`objects
    {
      id < |objects| && objects[id] != null
    }

    ghost predicate Populated()
      reads this
    {
      forall id :: id in idList ==> Holds(id)
    }

    // How many ids can be visited before the first that has no object.
    ghost function Visitable(): (n: nat)
      reads this
      ensures n <= |idList|
      ensures forall k :: 0 <= k < n ==> Holds(idList[k])
      ensures n < |idList| ==> !Holds(idList[n])
      ensures n == |idList| <==> Populated()
    {
      assert forall id :: id in idList ==> exists k :: 0 <= k < |idList| && idList[k] == id;
      HeldPrefix(idList)
    }

    ghost function HeldPrefix(ids: seq<u8>): (n: nat)
      reads this
      ensures n <= |ids|
      ensures forall k :: 0 <= k < n ==> Holds(ids[k])
      ensures n < |ids| ==> !Holds(ids[n])
    {
      if ids == [] || !Holds(ids[0]) then 0 else 1 + HeldPrefix(ids[1..])
    }

    // Asking for this id reads a slot that exists, or none: an id beyond maxindex is answered first.
    ghost predicate InBounds(id: u8)
      reads this
    {
      id <= maxindex ==> id < |objects|
    }

    // Visiting the ids in order asks for no slot that does not exist.
    ghost predicate VisitInBounds()
      reads this
    {
      Visitable() < |idList| ==> InBounds(idList[Visitable()])
    }

    constructor ()
      ensures Valid() && InProtocol() && MaxIsTight() && Contents() == map[] && idList == [] && !initialized
    {
      objects, idList, maxindex, initialized := [], [], 0, false;
    }

    method InitializeObjectStorage()
      requires objects == []
      modifies this`objects, this`initialized
      ensures initialized && |objects| == maxindex + 1
      ensures forall i :: 0 <= i < |objects| ==> objects[i] == null
    {
      var i: int := 0;
      while i < maxindex + 1
        invariant 0 <= i <= maxindex + 1 && |objects| == i
        invariant forall k :: 0 <= k < i ==> objects[k] == null
      {
        objects := objects + [null];
        i := i + 1;
      }
      initialized := true;
    }

    method Clear()
      modifies this
      ensures Valid() && InProtocol() && MaxIsTight() && Contents() == map[] && idList == [] && !initialized
      ensures objects == [] && maxindex == 0
    {
      idList := [];
      objects := [];
      maxindex := 0;
      initialized := false;
    }

    // The storage stays complete unless it exists already and the id is beyond it.
    method AddId(id: u8)
      requires Valid()
      modifies this`idList, this`maxindex
      ensures Valid() && (old(MaxIsTight()) ==> MaxIsTight())
      ensures idList == old(idList) + [id] && Contents() == old(Contents())
      ensures maxindex == if id > old(maxindex) then id else old(maxindex)
      ensures old(InProtocol()) ==> (InProtocol() <==> !initialized || id <= old(maxindex))
    {
      idList := idList + [id];
      if id > maxindex {
        maxindex := id;
      }
    }

    // Lookup after this call is the map updated at id; no other slot and no other map is touched.
    method AddObject(id: u8, value: T)
      requires Valid() && id < if initialized then |objects| else maxindex + 1
      modifies this`objects, this`initialized
      ensures Valid() && initialized && |objects| == if old(initialized) then |old(objects)| else maxindex + 1
      ensures old(InProtocol()) && id in idList ==> InProtocol()
      ensures Contents() == old(Contents())[id := value]
      ensures id < |objects| && fresh(objects[id]) && objects[id].value == value
      ensures forall k :: 0 <= k < |objects| && k != id ==>
                            objects[k] == if k < |old(objects)| then old(objects)[k] else null
    {
      if !initialized {
        InitializeObjectStorage();
      }
      var c := new Cell(value);
      objects := objects[id := c];
      assert Contents().Keys == old(Contents()).Keys + {id};
    }

    // The slot of an id up to maxindex is read whether it exists or not.
    function HasObject(id: u8): (r: bool)
      requires Valid() && InBounds(id)
      reads this, Cells()
      ensures r <==> id in Contents()
    {
      id <= maxindex && objects[id] != null
    }

    // In the documented order of calls, the slot is missing exactly for the ids up to maxindex of a map
    // whose storage does not exist yet.
    lemma MissingSlots(id: u8)
      requires Valid()
      ensures !InBounds(id) <==> |objects| <= id <= maxindex
      ensures InProtocol() ==> (!InBounds(id) <==> !initialized && id <= maxindex)
    {
    }

    // None stands for the exception.
    function GetObject(id: u8): (r: Option<Cell<T>>)
      requires Valid() && InBounds(id)
      reads this, Cells()
      ensures r.Some? <==> id in Contents()
      ensures r.Some? ==> r.value in Cells() && r.value == objects[id] && r.value.value == Contents()[id]
    {
      if HasObject(id) then Some(objects[id]) else None
    }

    // The objects with these ids, and no others, are copied from another map into cells of their own.
    ghost predicate HoldsCopies(flm: FastLookupMap<T>, ids: seq<u8>)
      reads this`objects, Cells(), flm`objects, flm.Cells()
    {
      && (forall i :: 0 <= i < |objects| ==> (objects[i] != null <==> i in ids))
      && (forall i :: 0 <= i < |objects| && objects[i] != null ==>
                        flm.Holds(i) && objects[i].value == flm.objects[i].value)
      && (forall i, j :: 0 <= i < j < |objects| && objects[i] != null ==> objects[i] != objects[j])
    }

    method CopyObject(flm: FastLookupMap<T>, id: u8, ghost ids: seq<u8>) returns (ok: bool)
      requires this != flm && flm.Valid() && flm.InBounds(id) && id < |objects| && HoldsCopies(flm, ids)
      modifies this`objects
      ensures |objects| == |old(objects)| && fresh(Cells() - old(Cells()))
      ensures ok <==> id in flm.Contents()
      ensures HoldsCopies(flm, if ok then ids + [id] else ids)
    {
      var source := flm.GetObject(id);
      ok := source.Some?;
      if ok {
        var c := new Cell(source.value.value);
        objects := objects[id := c];
      }
    }

    // Copies the objects of another map, in id order, into empty storage of the size its maxindex asks
    // for. It stops with an exception at the first id that has no object.
    method CopyObjects(flm: FastLookupMap<T>) returns (ok: bool)
      requires this != flm && flm.Valid() && flm.VisitInBounds()
      requires maxindex == flm.maxindex && |objects| == maxindex + 1 && idList == []
      requires forall i :: 0 <= i < |objects| ==> objects[i] == null
      modifies this`objects, this`idList
      ensures ok <==> flm.Populated()
      ensures idList == flm.idList[..flm.Visitable() + if ok then 0 else 1] && |objects| == maxindex + 1
      ensures HoldsCopies(flm, flm.idList[..flm.Visitable()]) && fresh(Cells())
    {
      hide HoldsCopies;
      NothingCopied(flm);
      ghost var n := flm.Visitable();
      var idx := 0;
      while idx < |flm.idList|
        invariant 0 <= idx <= n && idList == flm.idList[..idx] && |objects| == maxindex + 1
        invariant HoldsCopies(flm, idList) && fresh(Cells())
      {
        var id := flm.idList[idx];
        assert id in flm.idList;
        ghost var owned: set<object?> := Cells() + flm.Cells();
        assert this !in owned;
        idList := idList + [id];
        assert HoldsCopies(flm, flm.idList[..idx]);
        ok := CopyObject(flm, id, flm.idList[..idx]);
        if !ok {
          return;
        }
        idx := idx + 1;
      }
      ok := true;
    }

    lemma NothingCopied(flm: FastLookupMap<T>)
      requires forall i :: 0 <= i < |objects| ==> objects[i] == null
      ensures HoldsCopies(flm, []) && Cells() == {}
    {
    }

    // What another map holds for the ids that can be visited in it.
    ghost function Copied(): map<u8, T>
      reads this, Cells()
    {
      map id: u8 | id in idList[..Visitable()] && id in Contents() :: Contents()[id]
    }

    lemma CopiesMakeValid(flm: FastLookupMap<T>, n: nat, m: nat)
      requires flm.Valid() && maxindex == flm.maxindex && initialized && |objects| == maxindex + 1
      requires n <= m <= |flm.idList| && idList == flm.idList[..m] && HoldsCopies(flm, flm.idList[..n])
      ensures Valid() && InProtocol()
    {
      assert forall id :: id in idList ==> id in flm.idList;
      assert forall id :: id in flm.idList[..n] ==> id in idList;
    }

    lemma CopiesAreCopied(flm: FastLookupMap<T>)
      requires flm.Valid() && |objects| == flm.maxindex + 1
      requires HoldsCopies(flm, flm.idList[..flm.Visitable()])
      ensures Contents() == flm.Copied()
    {
      assert forall id :: id in flm.idList[..flm.Visitable()] ==> id in flm.idList;
    }

    // operator=, and on a new map the copy constructor: a deep copy, made object by object in id order.
    // An exception leaves the ids up to and including the one without an object, and the objects before.
    method Assign(flm: FastLookupMap<T>) returns (ok: bool)
      requires flm.Valid() && flm.VisitInBounds()
      modifies this
      ensures flm == this ==> ok && unchanged(this)
      ensures flm != this ==>
                && (ok <==> flm.Populated())
                && Valid() && InProtocol() && maxindex == flm.maxindex
                && idList == flm.idList[..flm.Visitable() + if ok then 0 else 1]
                && Contents() == flm.Copied()
                && (initialized <==> flm.idList != [])
                && fresh(Cells())
    {
      hide HoldsCopies;
      ok := true;
      if this != flm {
        Clear();
        maxindex := flm.maxindex;
        if flm.idList != [] {
          InitializeObjectStorage();
          ok := CopyObjects(flm);
          CopiesMakeValid(flm, flm.Visitable(), |idList|);
          CopiesAreCopied(flm);
        }
      }
    }

    // A map filled in the documented way holds nothing else.
    lemma CopiedIsAll()
      requires Valid() && InProtocol() && Populated()
      ensures Copied() == Contents() && idList[..Visitable()] == idList
    {
      assert idList[..|idList|] == idList;
    }

    // Iteration dereferences the ids in the order they were added; None stands for the exception.
    method Visit() returns (r: Option<seq<T>>)
      requires Valid() && VisitInBounds()
      ensures r.Some? <==> Populated()
      ensures r.Some? ==> |r.value| == |idList|
      ensures r.Some? ==> forall k :: 0 <= k < |idList| ==>
                                        idList[k] in Contents() && r.value[k] == Contents()[idList[k]]
    {
      var visited: seq<T> := [];
      for k := 0 to |idList|
        invariant |visited| == k <= Visitable()
        invariant forall l :: 0 <= l < k ==> idList[l] in Contents() && visited[l] == Contents()[idList[l]]
      {
        var c := GetObject(idList[k]);
        if c.None? {
          return None;
        }
        visited := visited + [c.value.value];
      }
      r := Some(visited);
    }
  }

  // The copy constructor. When it throws there is no copy.
  method Copy<T>(flm: FastLookupMap<T>) returns (m: FastLookupMap<T>, ok: bool)
    requires flm.Valid() && flm.VisitInBounds()
    ensures fresh(m) && (ok <==> flm.Populated())
    ensures ok ==>
              && m.Valid() && m.InProtocol() && m.idList == flm.idList && m.Contents() == flm.Copied()
              && (flm.InProtocol() ==> m.Contents() == flm.Contents())
              && fresh(m.Cells())
  {
    m := new FastLookupMap<T>();
    ok := m.Assign(flm);
    if ok {
      assert flm.idList[..|flm.idList|] == flm.idList;
      if flm.InProtocol() {
        flm.CopiedIsAll();
      }
    }
  }

  // Maps on which has_object reads a slot that does not exist: a new one, asked for id 0, and one
  // with id 5 added but no object yet, asked for id 3.
  method MapsWithoutStorage<T>() returns (a: FastLookupMap<T>, b: FastLookupMap<T>)
    ensures a.Valid() && a.idList == [] && !a.InBounds(0)
    ensures b.Valid() && b.idList == [5] && !b.InBounds(3)
  {
    a := new FastLookupMap<T>();
    b := new FastLookupMap<T>();
    b.AddId(5);
  }
}
