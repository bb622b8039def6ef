/** The global memory of the CPU device: a fixed size, what is still
    available, and the address the host allocator gave each memory object
    stored in it. The allocator's answer is a parameter (`None` when it
    fails). */
module GlobalMemory {
  import opened Results

  /** A memory object: its identity and its size in bytes. */
  datatype Obj = Obj(id: nat, size: nat)

  datatype Memory = Memory(size: nat, available: nat, mappings: map<Obj, nat>)

  /** The bytes taken by a set of objects. */
  ghost function Used(objs: set<Obj>): nat
    decreases objs
  {
    if objs == {} then 0
    else
      var o :| o in objs;
      o.size + Used(objs - {o})
  }

  /** Whatever object is taken out first, the total is the same. */
  lemma {:induction false} UsedRemove(objs: set<Obj>, x: Obj)
    requires x in objs
    ensures Used(objs) == x.size + Used(objs - {x})
    decreases objs
  {
    var y :| y in objs && Used(objs) == y.size + Used(objs - {y});
    if y != x {
      UsedRemove(objs - {y}, x);
      UsedRemove(objs - {x}, y);
      assert objs - {y} - {x} == objs - {x} - {y};
    }
  }

  /** The accounting invariant: what is available plus what the mapped
      objects take is the whole memory. */
  ghost predicate Accounted(m: Memory) {
    m.available + Used(m.mappings.Keys) == m.size
  }

  /** `GlobalMemory::GlobalMemory`: everything is available. */
  function New(size: nat): (m: Memory)
    ensures m.size == size && m.mappings == map[]
    ensures Accounted(m)
  {
    Memory(size, size, map[])
  }

  /** The memory after an allocation, and the address returned (`None` for
      null). */
  datatype Allocated = Allocated(memory: Memory, addr: Option<nat>)

  /** `GlobalMemory::Alloc`: refused when less than the object's size is
      available, or when the allocator fails; otherwise the object is
      mapped to the address and its size is no longer available. */
  function Alloc(m: Memory, obj: Obj, addr: Option<nat>): (r: Allocated)
    ensures m.available < obj.size || addr.None? ==> r == Allocated(m, None)
    ensures m.available >= obj.size && addr.Some? ==>
      && r.addr == addr
      && r.memory.size == m.size
      && r.memory.mappings == m.mappings[obj := addr.value]
      && r.memory.available + obj.size == m.available
    ensures obj !in m.mappings && Accounted(m) ==> Accounted(r.memory)
  {
    if m.available < obj.size || addr.None? then Allocated(m, None)
    else
      var r := Memory(m.size, m.available - obj.size, m.mappings[obj := addr.value]);
      if obj in m.mappings then Allocated(r, addr)
      else
        assert r.mappings.Keys - {obj} == m.mappings.Keys;
        UsedRemove(r.mappings.Keys, obj);
        Allocated(r, addr)
  }

  /** `GlobalMemory::Free`: an object not mapped here is ignored; otherwise
      its mapping goes and its size becomes available again. */
  function Free(m: Memory, obj: Obj): (r: Memory)
    ensures obj !in m.mappings ==> r == m
    ensures obj in m.mappings ==>
      && r.size == m.size
      && r.mappings == m.mappings - {obj}
      && r.available == m.available + obj.size
    ensures Accounted(m) ==> Accounted(r)
  {
    if obj !in m.mappings then m
    else
      UsedRemove(m.mappings.Keys, obj);
      assert (m.mappings - {obj}).Keys == m.mappings.Keys - {obj};
      Memory(m.size, m.available + obj.size, m.mappings - {obj})
  }

  /** Freeing what was just allocated gives the memory back as it was. */
  lemma FreeUndoesAlloc(m: Memory, obj: Obj, addr: Option<nat>)
    requires obj !in m.mappings
    ensures Free(Alloc(m, obj, addr).memory, obj) == m
  {
    if m.available >= obj.size && addr.Some? {
      assert m.mappings[obj := addr.value] - {obj} == m.mappings;
    }
  }

  /** The invariant needs each object allocated at most once: allocating
      an object that is already mapped takes its size a second time but
      keeps a single mapping, so the accounting no longer adds up. */
  lemma DoubleAllocLosesMemory(m: Memory, obj: Obj, addr: nat)
    requires Accounted(m) && obj in m.mappings && obj.size > 0 && m.available >= obj.size
    ensures Alloc(m, obj, Some(addr)).addr == Some(addr)
    ensures Alloc(m, obj, Some(addr)).memory.mappings.Keys == m.mappings.Keys
    ensures !Accounted(Alloc(m, obj, Some(addr)).memory)
  {
    assert m.mappings[obj := addr].Keys == m.mappings.Keys;
  }

  /** Allocating a device buffer: the allocation, whether the buffer's
      initialisation data was copied, and the address it was copied to
      (`None` for null). */
  datatype DeviceAlloc = DeviceAlloc(alloc: Allocated, copied: bool, target: Option<nat>)

  /** `GlobalMemory::Alloc(DeviceBuffer &)` as written: after the
      allocation, a buffer with initialisation data is copied to the
      returned address, even when the allocation was refused and that
      address is null. */
  function AllocDeviceBufferAsWritten(m: Memory, obj: Obj, addr: Option<nat>, initialised: bool): (r: DeviceAlloc)
    ensures r.alloc == Alloc(m, obj, addr)
    ensures r.copied <==> initialised
    ensures r.copied && r.target.None? <==> initialised && (m.available < obj.size || addr.None?)
  {
    var a := Alloc(m, obj, addr);
    DeviceAlloc(a, initialised, a.addr)
  }

  /** The intended allocation of a device buffer: the initialisation data
      is copied only to an address the allocation returned. */
  function AllocDeviceBuffer(m: Memory, obj: Obj, addr: Option<nat>, initialised: bool): (r: DeviceAlloc)
    ensures r.alloc == Alloc(m, obj, addr)
    ensures r.copied ==> r.target.Some? && r.target == r.alloc.addr
    ensures r.copied <==> initialised && m.available >= obj.size && addr.Some?
  {
    var a := Alloc(m, obj, addr);
    DeviceAlloc(a, initialised && a.addr.Some?, a.addr)
  }

  /** The two agree unless a buffer with initialisation data is refused. */
  lemma DeviceAllocAgrees(m: Memory, obj: Obj, addr: Option<nat>, initialised: bool)
    ensures AllocDeviceBufferAsWritten(m, obj, addr, initialised) == AllocDeviceBuffer(m, obj, addr, initialised)
      <==> !initialised || (m.available >= obj.size && addr.Some?)
  {
  }
}
