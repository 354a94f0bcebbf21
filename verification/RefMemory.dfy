/** The reference-counting code in its own form: objects and slots updated in place. Each method is
    proved equal to the function of the same name in RefHeap. */
module RefMemory {
  import opened Wrappers
  import H = RefHeap

  class Memory {
    var objs: map<H.Addr, H.Obj>
    var slots: map<H.Loc, H.Slot>
    var clock: nat
    var freed: seq<nat>
    var fault: bool

    constructor ()
      ensures View() == H.EMPTY
    {
      objs, slots, clock, freed, fault := map[], map[], 0, [], false;
    }

    function View(): H.Heap
      reads this
    {
      H.Heap(objs, slots, clock, freed, fault)
    }

    method AddRef(o: H.Addr)
      modifies this
      ensures View() == H.AddRef(old(View()), o)
    {
      if o in objs {
        objs := objs[o := objs[o].(count := objs[o].count + 1)];
      } else {
        fault := true;
      }
    }

    method DelRef(o: H.Addr)
      modifies this
      ensures View() == H.DelRef(old(View()), o)
      decreases H.Positive(View()), 0
    {
      if o !in objs {
        fault := true;
        return;
      }
      ghost var before := View();
      var arity := objs[o].arity;
      objs := objs[o := objs[o].(count := objs[o].count - 1)];
      if objs[o].count == 0 {
        ghost var first := View();
        assert H.Positive(first) == H.Positive(before) - {o};
        var n := arity;
        while n > 0
          invariant H.DestroyFields(View(), o, n) == H.DestroyFields(first, o, arity)
          invariant H.Positive(View()) <= H.Positive(first)
        {
          n := n - 1;
          DestroySlot(H.Field(o, n));
        }
        if o in objs {
          freed := freed + [objs[o].birth];
          objs := objs - {o};
        } else {
          fault := true;
        }
      }
    }

    /** `~gcRefPtr`. */
    method DestroySlot(l: H.Loc)
      modifies this
      ensures View() == H.DestroySlot(old(View()), l)
      decreases H.Positive(View()), 1
    {
      if l !in slots {
        fault := true;
        return;
      }
      var s := slots[l];
      slots := slots - {l};
      if s.fn && s.ptr.Some? {
        DelRef(s.ptr.value);
      }
    }

    method Create(l: H.Loc, a: H.Addr, arity: nat)
      modifies this
      ensures View() == H.Create(old(View()), l, a, arity)
    {
      objs := objs[a := H.Obj(0, arity, clock)];
      slots := slots + (map i: nat | i < arity :: H.Field(a, i) := H.NULL_SLOT);
      clock := clock + 1;
      ConstructRaw(l, Some(a));
    }

    method ConstructRaw(l: H.Loc, p: Option<H.Addr>)
      modifies this
      ensures View() == H.ConstructRaw(old(View()), l, p)
    {
      slots := slots[l := H.Slot(p, p.Some?)];
      if p.Some? {
        AddRef(p.value);
      }
    }

    method ConstructCopy(l: H.Loc, src: H.Loc)
      modifies this
      ensures View() == H.ConstructCopy(old(View()), l, src)
    {
      if src !in slots {
        fault := true;
        return;
      }
      var s := slots[src];
      slots := slots[l := s];
      if s.fn && s.ptr.Some? {
        AddRef(s.ptr.value);
      }
    }

    /** `operator=(T*)`. */
    method Assign(l: H.Loc, p: Option<H.Addr>)
      modifies this
      ensures View() == H.Assign(old(View()), l, p)
    {
      if l !in slots {
        fault := true;
        return;
      }
      var was := slots[l].ptr;
      if was == p {
        return;
      }
      slots := slots[l := H.Slot(was, true)];
      if p.Some? {
        AddRef(p.value);
      }
      if was.Some? {
        DelRef(was.value);
      }
      Store(l, H.Slot(p, true));
    }

    method Store(l: H.Loc, s: H.Slot)
      modifies this
      ensures View() == H.Store(old(View()), l, s)
    {
      if l in slots {
        slots := slots[l := s];
      } else {
        fault := true;
      }
    }

    /** `operator=(const gcRefPtr&)`. */
    method AssignFrom(l: H.Loc, src: H.Loc)
      modifies this
      ensures View() == H.AssignFrom(old(View()), l, src)
    {
      if src in slots {
        Assign(l, slots[src].ptr);
      } else {
        fault := true;
      }
    }

    method Reset(l: H.Loc)
      modifies this
      ensures View() == H.Reset(old(View()), l)
    {
      if l !in slots || (slots[l].ptr.Some? && !slots[l].fn) {
        fault := true;
        return;
      }
      var was := slots[l].ptr;
      if was.Some? {
        DelRef(was.value);
      }
      Store(l, H.NULL_SLOT);
    }

    method Swap(l: H.Loc, m: H.Loc)
      modifies this
      ensures View() == H.Swap(old(View()), l, m)
    {
      if l !in slots || m !in slots {
        fault := true;
        return;
      }
      var a, b := slots[l], slots[m];
      slots := slots[l := a.(ptr := b.ptr)][m := b.(ptr := a.ptr)];
    }
  }
}
