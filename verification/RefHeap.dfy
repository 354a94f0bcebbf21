/** Intrusive reference counting: a heap of counted objects and of the gcRefPtr slots that
    point at them. Every operation is written as the source performs it, one count update and
    one field destructor at a time; touching memory that is gone sets `fault`. */
module RefHeap {
  import opened Wrappers

  type Addr = nat

  /** One gcRefPtr: m_pPtr, and whether m_pRefFn is set. */
  datatype Slot = Slot(ptr: Option<Addr>, fn: bool)

  /** Where a gcRefPtr lives: outside every counted object, or as a member of one. */
  datatype Loc = Root(name: nat) | Field(owner: Addr, index: nat)

  /** A counted object: m_nRef, its number of gcRefPtr members, and its allocation serial. */
  datatype Obj = Obj(count: int, arity: nat, birth: nat)

  datatype Heap = Heap(
    objs: map<Addr, Obj>,     // allocated objects
    slots: map<Loc, Slot>,    // gcRefPtr instances within their lifetime
    clock: nat,               // serial of the next allocation
    freed: seq<nat>,          // serials in the order their memory was returned
    fault: bool               // an access to memory that no longer exists has happened
  )

  const NULL_SLOT := Slot(None, false)
  const EMPTY := Heap(map[], map[], 0, [], false)

  // ---------------------------------------------------------------- the operations

  function Fault(h: Heap): Heap {
    h.(fault := true)
  }

  function SetCount(h: Heap, o: Addr, c: int): Heap
    requires o in h.objs
  {
    h.(objs := h.objs[o := h.objs[o].(count := c)])
  }

  function AddRef(h: Heap, o: Addr): Heap {
    if o in h.objs then SetCount(h, o, h.objs[o].count + 1) else Fault(h)
  }

  /** The addresses whose count is positive: what is left for a cascade to bring to zero. */
  function Positive(h: Heap): set<Addr> {
    set o | o in h.objs && h.objs[o].count > 0
  }

  /** `delRef`: decrement, and at zero `delete this`: member destructors, last member first,
      then the memory goes. */
  function DelRef(h: Heap, o: Addr): (r: Heap)
    ensures Positive(r) <= Positive(h) && r.slots.Keys <= h.slots.Keys
    decreases Positive(h), 0
  {
    if o !in h.objs then Fault(h)
    else
      var c := h.objs[o].count - 1;
      var h1 := SetCount(h, o, c);
      if c == 0 then
        assert Positive(h1) == Positive(h) - {o};
        Free(DestroyFields(h1, o, h.objs[o].arity), o)
      else h1
  }

  function Drop(h: Heap, l: Loc): Heap {
    h.(slots := h.slots - {l})
  }

  function Free(h: Heap, o: Addr): Heap {
    if o in h.objs then h.(objs := h.objs - {o}, freed := h.freed + [h.objs[o].birth]) else Fault(h)
  }

  function DestroyFields(h: Heap, o: Addr, n: nat): (r: Heap)
    ensures Positive(r) <= Positive(h) && r.slots.Keys <= h.slots.Keys
    decreases Positive(h), n + 2
  {
    if n == 0 then h else DestroyFields(DestroySlot(h, Field(o, n - 1)), o, n - 1)
  }

  /** `~gcRefPtr`: the slot's lifetime ends, then the release function runs. */
  function DestroySlot(h: Heap, l: Loc): (r: Heap)
    ensures Positive(r) <= Positive(h) && r.slots.Keys <= h.slots.Keys
    decreases Positive(h), 1
  {
    if l !in h.slots then Fault(h)
    else
      var s := h.slots[l];
      var h1 := Drop(h, l);
      if s.fn && s.ptr.Some? then DelRef(h1, s.ptr.value) else h1
  }

  /** `new T`: a count of zero and default-constructed members. */
  function Alloc(h: Heap, a: Addr, arity: nat): Heap {
    h.(objs := h.objs[a := Obj(0, arity, h.clock)],
       slots := h.slots + (map i: nat | i < arity :: Field(a, i) := NULL_SLOT),
       clock := h.clock + 1)
  }

  function ConstructNull(h: Heap, l: Loc): Heap {
    h.(slots := h.slots[l := NULL_SLOT])
  }

  function ConstructRaw(h: Heap, l: Loc, p: Option<Addr>): Heap {
    var h1 := h.(slots := h.slots[l := Slot(p, p.Some?)]);
    if p.Some? then AddRef(h1, p.value) else h1
  }

  function Create(h: Heap, l: Loc, a: Addr, arity: nat): Heap {
    ConstructRaw(Alloc(h, a, arity), l, Some(a))
  }

  function ConstructCopy(h: Heap, l: Loc, src: Loc): Heap {
    if src !in h.slots then Fault(h)
    else
      var s := h.slots[src];
      var h1 := h.(slots := h.slots[l := s]);
      if s.fn && s.ptr.Some? then AddRef(h1, s.ptr.value) else h1
  }

  /** The store `m_pPtr = p`, which needs the slot to exist still. */
  function Store(h: Heap, l: Loc, s: Slot): Heap {
    if l in h.slots then h.(slots := h.slots[l := s]) else Fault(h)
  }

  function AddRefOpt(h: Heap, p: Option<Addr>): Heap {
    if p.Some? then AddRef(h, p.value) else h
  }

  function DelRefOpt(h: Heap, p: Option<Addr>): Heap {
    if p.Some? then DelRef(h, p.value) else h
  }

  /** `operator=(T*)`: take the new reference, drop the old one, then overwrite the pointer. */
  function Assign(h: Heap, l: Loc, p: Option<Addr>): Heap {
    if l !in h.slots then Fault(h)
    else
      var was := h.slots[l].ptr;
      if was == p then h
      else
        var h1 := h.(slots := h.slots[l := Slot(was, true)]);
        Store(DelRefOpt(AddRefOpt(h1, p), was), l, Slot(p, true))
  }

  function AssignFrom(h: Heap, l: Loc, src: Loc): Heap {
    if src in h.slots then Assign(h, l, h.slots[src].ptr) else Fault(h)
  }

  function Reset(h: Heap, l: Loc): Heap {
    if l !in h.slots || (h.slots[l].ptr.Some? && !h.slots[l].fn) then Fault(h)
    else Store(DelRefOpt(h, h.slots[l].ptr), l, NULL_SLOT)
  }

  /** `swap(gcRefPtr&)` exchanges the pointers and leaves the release functions where they are. */
  function Swap(h: Heap, l: Loc, m: Loc): Heap {
    if l !in h.slots || m !in h.slots then Fault(h)
    else
      var a, b := h.slots[l], h.slots[m];
      h.(slots := h.slots[l := a.(ptr := b.ptr)][m := b.(ptr := a.ptr)])
  }
}
