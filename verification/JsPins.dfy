/** The cache that keeps objects alive while JavaScript may hold their addresses: one reference for
    every type and address exported, given back together by the cleanup. */
module JsPins {
  import opened Wrappers
  import opened RefHeap
  import opened RefInvariant
  import opened RefSafety
  import opened RefRuns
  import opened RefOutcome
  import opened FormatSpec
  import opened FormatMeaning
  import opened FormatScanner
  import opened TraceRecord
  import RefMemory

  // ---------------------------------------------------------------- keys

  /** How an address prints. */
  type AddrText = Addr -> string

  ghost predicate Faithful(text: AddrText) {
    && (forall a, b | text(a) == text(b) :: a == b)
    && (forall a :: Without(text(a), '-') && Without(text(a), '\0'))
  }

  /** `gcString("{0}-{1}", typeid(T).name(), pRef.get())`. */
  function Key(text: AddrText, typeName: string, o: Addr): string {
    UpToNul(typeName) + "-" + UpToNul(text(o))
  }

  method MakeKey(text: AddrText, typeName: string, o: Addr) returns (key: string)
    ensures key == Key(text, typeName, o)
  {
    hide Meaning;
    var r := FormatString("{0}-{1}", [TextArg(typeName), TextArg(text(o))]);
    KeyFormat(typeName, text(o));
    key := r.text;
  }

  lemma {:induction false} KeyFormat(x: string, y: string)
    ensures Meaning("{0}-{1}", [TextArg(x), TextArg(y)]) == Done(UpToNul(x) + "-" + UpToNul(y))
  {
    hide Meaning, Render, Unparse, RenderGroup, UpToNul, ParseSpec, TextArg;
    var args := [TextArg(x), TextArg(y)];
    RenderHoles(x, y);
    var s0: seq<Segment> := [];
    var s1 := [Group("1")] + s0;
    HoleFirst("1", UpToNul(y), s0, args);
    var s2 := [Lit("-")] + s1;
    LitFirst("-", s1, args);
    var s3 := [Group("0")] + s2;
    HoleFirst("0", UpToNul(x), s2, args);
    NothingLeft(args);
    AnyCutRenders(s3, args);
    assert Unparse(s3) == "{0}-{1}";
    assert UpToNul(x) + ("-" + (UpToNul(y) + "")) == UpToNul(x) + "-" + UpToNul(y);
  }

  lemma {:induction false} NothingLeft(args: seq<Arg>)
    ensures Render([], args) == Done("") && Unparse([]) == ""
  {
  }

  lemma {:induction false} WholeText(s: string)
    requires NoNul(s)
    ensures UpToNul(s) == s
  {
    UpToNulIs(s);
  }

  lemma LastDash(t1: string, a1: string, t2: string, a2: string)
    requires t1 + "-" + a1 == t2 + "-" + a2 && Without(a1, '-') && Without(a2, '-')
    ensures t1 == t2 && a1 == a2
  {
    var k1, k2 := t1 + "-" + a1, t2 + "-" + a2;
    assert k1[|t1|] == '-' && k2[|t2|] == '-';
    assert forall i | |t1| < i < |k1| :: k1[i] == a1[i - |t1| - 1];
    assert forall i | |t2| < i < |k2| :: k2[i] == a2[i - |t2| - 1];
    assert |t1| == |t2|;
    assert t1 == k1[..|t1|] && t2 == k2[..|t2|];
    assert a1 == k1[|t1| + 1..] && a2 == k2[|t2| + 1..];
  }

  /** A key is the name of the type, a dash and the address. */
  lemma {:induction false} KeyLayout(text: AddrText, t: string, o: Addr)
    requires Faithful(text) && NoNul(t)
    ensures Key(text, t, o) == t + "-" + text(o)
  {
    WholeText(t);
    WholeText(text(o));
  }

  /** A key names one type and one address. */
  lemma KeyInjective(text: AddrText, t: string, a: Addr, u: string, b: Addr)
    requires Faithful(text) && NoNul(t) && NoNul(u) && Key(text, t, a) == Key(text, u, b)
    ensures t == u && a == b
  {
    WholeText(t);
    WholeText(u);
    WholeText(text(a));
    WholeText(text(b));
    LastDash(t, text(a), u, text(b));
  }

  // ---------------------------------------------------------------- export and cleanup

  /** A cached entry: what its cleanup function captured, and which allocation that was. */
  datatype Pin = Pin(typeName: string, obj: Addr, birth: nat)

  datatype Js = Js(heap: Heap, cache: map<string, Pin>)

  /** `ToJSObject` for the gcRefPtr at `ref`. */
  function Export(s: Js, text: AddrText, typeName: string, ref: Loc): Js {
    if ref !in s.heap.slots then s.(heap := Fault(s.heap))
    else if s.heap.slots[ref].ptr.None? then s
    else
      var o := s.heap.slots[ref].ptr.value;
      var key := Key(text, typeName, o);
      if key in s.cache then s
      else if o !in s.heap.objs then s.(heap := Fault(s.heap))
      else Js(AddRef(s.heap, o), s.cache[key := Pin(typeName, o, s.heap.objs[o].birth)])
  }

  /** The cleanup functions under `order`, one after another. */
  function Release(h: Heap, cache: map<string, Pin>, order: seq<string>): Heap {
    if order == [] then h
    else
      var h1, key := Release(h, cache, order[..|order| - 1]), order[|order| - 1];
      if key in cache then DelRef(h1, cache[key].obj) else h1
  }

  /** `JSObjectCleanup`. */
  function Cleanup(s: Js, order: seq<string>): Js {
    Js(Release(s.heap, s.cache, order), map[])
  }

  // ---------------------------------------------------------------- the invariant

  ghost function KeysOf(cache: map<string, Pin>, o: Addr): set<string> {
    set k | k in cache && cache[k].obj == o
  }

  /** One reference for every entry. */
  ghost predicate Tally(pins: multiset<Addr>, cache: map<string, Pin>) {
    forall o: Addr :: pins[o] == |KeysOf(cache, o)|
  }

  /** Every entry is about an object that is still the one that was exported. */
  ghost predicate Identified(s: Js, text: AddrText) {
    forall k <- s.cache :: PinOk(s.heap, s.cache[k]) && NoNul(s.cache[k].typeName) && k == Key(text, s.cache[k].typeName, s.cache[k].obj)
  }

  ghost predicate PinOk(h: Heap, p: Pin) {
    p.obj in h.objs && h.objs[p.obj].birth == p.birth
  }

  /** `base` are the bare references the program itself holds. */
  ghost predicate Agrees(s: Js, text: AddrText, base: multiset<Addr>, pins: multiset<Addr>) {
    Inv(s.heap, base + pins) && Tally(pins, s.cache) && Identified(s, text)
  }

  /** The cache tells objects apart, not addresses: there is an entry for a live object exactly if that
      very object has been exported as that type since the last cleanup. */
  lemma FoundIff(s: Js, text: AddrText, base: multiset<Addr>, pins: multiset<Addr>, typeName: string, o: Addr)
    requires Agrees(s, text, base, pins) && Faithful(text) && NoNul(typeName) && o in s.heap.objs
    ensures Key(text, typeName, o) in s.cache <==>
            exists k <- s.cache :: s.cache[k].typeName == typeName && s.cache[k].birth == s.heap.objs[o].birth
  {
    hide Key, Inv;
    LedgerOf(s.heap, base + pins);
    var key := Key(text, typeName, o);
    if key in s.cache {
      KeyInjective(text, s.cache[key].typeName, s.cache[key].obj, typeName, o);
    }
  }

  lemma LedgerOf(h: Heap, ext: multiset<Addr>)
    requires Inv(h, ext)
    ensures forall o, q | o in h.objs && q in h.objs && h.objs[o].birth == h.objs[q].birth :: o == q
    ensures forall o | o in ext :: o in h.objs
  {
  }

  lemma KeysOfAdd(cache: map<string, Pin>, key: string, p: Pin, o: Addr)
    requires key !in cache
    ensures |KeysOf(cache[key := p], o)| == |KeysOf(cache, o)| + if o == p.obj then 1 else 0
  {
    if o == p.obj {
      assert KeysOf(cache[key := p], o) == KeysOf(cache, o) + {key};
    } else {
      assert KeysOf(cache[key := p], o) == KeysOf(cache, o);
    }
  }

  lemma TallyAdd(pins: multiset<Addr>, cache: map<string, Pin>, key: string, p: Pin)
    requires Tally(pins, cache) && key !in cache
    ensures Tally(pins + multiset{p.obj}, cache[key := p])
  {
    hide KeysOf;
    forall o: Addr ensures (pins + multiset{p.obj})[o] == |KeysOf(cache[key := p], o)| {
      KeysOfAdd(cache, key, p, o);
      assert pins[o] == |KeysOf(cache, o)|;
    }
  }

  lemma TallyRemove(pins: multiset<Addr>, cache: map<string, Pin>, key: string)
    requires Tally(pins, cache) && key in cache
    ensures cache[key].obj in pins && Tally(pins - multiset{cache[key].obj}, cache - {key})
  {
    var p := cache[key];
    assert key in KeysOf(cache, p.obj);
    forall o: Addr ensures (pins - multiset{p.obj})[o] == |KeysOf(cache - {key}, o)| {
      assert KeysOf(cache - {key}, o) == KeysOf(cache, o) - {key};
    }
  }

  // ---------------------------------------------------------------- export

  /** An export adds one reference the first time an object is exported as a type, and none after that. */
  lemma ExportAgrees(s: Js, text: AddrText, base: multiset<Addr>, pins: multiset<Addr>, typeName: string, ref: Loc)
      returns (pins': multiset<Addr>)
    requires Agrees(s, text, base, pins) && NoNul(typeName) && ref in s.heap.slots
    ensures var r := Export(s, text, typeName, ref); var p := s.heap.slots[ref].ptr;
            && Agrees(r, text, base, pins')
            && pins' == (if p.Some? && Key(text, typeName, p.value) !in s.cache then pins + multiset{p.value} else pins)
            && s.cache.Keys <= r.cache.Keys && (forall k <- s.cache :: r.cache[k] == s.cache[k])
            && r.cache.Keys == s.cache.Keys + (if p.Some? then {Key(text, typeName, p.value)} else {})
            && (p.Some? ==> p.value in r.heap.objs)
            && r.heap.slots == s.heap.slots && r.heap.objs.Keys == s.heap.objs.Keys && r.heap.freed == s.heap.freed
  {
    hide Inv, Key, Tally, Identified, AddRef;
    pins' := pins;
    var p := s.heap.slots[ref].ptr;
    if p.Some? {
      HeldIsLive(s.heap, base + pins, ref);
      if Key(text, typeName, p.value) !in s.cache {
        pins' := pins + multiset{p.value};
        FirstExport(s, Export(s, text, typeName, ref), text, base, pins, typeName, p.value);
      }
    }
  }

  lemma HeldIsLive(h: Heap, ext: multiset<Addr>, ref: Loc)
    requires Inv(h, ext) && ref in h.slots && h.slots[ref].ptr.Some?
    ensures h.slots[ref].ptr.value in h.objs
  {
    NonNullHasFn(h, {}, ext, ref);
  }

  lemma FirstExport(s: Js, r: Js, text: AddrText, base: multiset<Addr>, pins: multiset<Addr>, typeName: string, o: Addr)
    requires Agrees(s, text, base, pins) && NoNul(typeName) && o in s.heap.objs && Key(text, typeName, o) !in s.cache
    requires r == Js(AddRef(s.heap, o), s.cache[Key(text, typeName, o) := Pin(typeName, o, s.heap.objs[o].birth)])
    ensures Agrees(r, text, base, pins + multiset{o}) && o in r.heap.objs
    ensures r.heap.slots == s.heap.slots && r.heap.objs.Keys == s.heap.objs.Keys && r.heap.freed == s.heap.freed
  {
    CountedOnly(s.heap, o);
    hide Inv, Key, Tally, Identified;
    TakeRawSafe(s.heap, base + pins, o);
    OneMorePin(base, pins, o);
    TallyAdd(pins, s.cache, Key(text, typeName, o), Pin(typeName, o, s.heap.objs[o].birth));
    hide AddRef;
    OneMoreIdentified(s, r, text, typeName, o);
  }

  lemma CountedOnly(h: Heap, o: Addr)
    requires o in h.objs
    ensures var r := AddRef(h, o); r.slots == h.slots && r.objs.Keys == h.objs.Keys && r.freed == h.freed
  {
  }

  lemma OneMorePin(base: multiset<Addr>, pins: multiset<Addr>, o: Addr)
    ensures base + pins + multiset{o} == base + (pins + multiset{o})
  {
  }

  lemma OneMoreIdentified(s: Js, r: Js, text: AddrText, typeName: string, o: Addr)
    requires Identified(s, text) && NoNul(typeName) && o in s.heap.objs && Key(text, typeName, o) !in s.cache
    requires r == Js(AddRef(s.heap, o), s.cache[Key(text, typeName, o) := Pin(typeName, o, s.heap.objs[o].birth)])
    ensures Identified(r, text) && o in r.heap.objs
  {
    hide Key;
  }

  // ---------------------------------------------------------------- the rest of the program

  /** No operation gives a live object another identity. */
  lemma BirthKept(h: Heap, ext: multiset<Addr>, op: Op, o: Addr)
    requires Inv(h, ext) && Legal(h, ext, op) && o in h.objs && o in Apply(h, op).objs
    ensures Apply(h, op).objs[o].birth == h.objs[o].birth
  {
    match op
    case MakeNull(l) =>
    case MakeRaw(l, p) => ConstructRawSafe(h, ext, l, p);
    case MakeNew(l, a, arity) => CreateBirths(h, l, a, arity, o);
    case MakeCopy(l, src) => ConstructCopySafe(h, ext, l, src);
    case SetRaw(l, p) => AssignSafe(h, ext, l, p);
    case SetFrom(l, src) => AssignSafe(h, ext, l, h.slots[src].ptr);
    case Clear(l) => ResetSafe(h, ext, l);
    case Exchange(l, m) =>
    case End(l) => DestroySafe(h, ext, l);
    case Take(_) =>
    case Give(q) =>
      assert ext - multiset{q} + multiset{q} == ext;
      DropRawSafe(h, ext - multiset{q}, q);
  }

  lemma CreateBirths(h: Heap, l: Loc, a: Addr, arity: nat, o: Addr)
    requires a !in h.objs && o in h.objs
    ensures Create(h, l, a, arity).objs[o].birth == h.objs[o].birth
  {
  }

  /** Whatever else the program does, short of giving back references that are not its own, every
      cached object stays alive and stays the object it was. */
  lemma ProgramAgrees(s: Js, text: AddrText, base: multiset<Addr>, pins: multiset<Addr>, op: Op)
    requires Agrees(s, text, base, pins) && Legal(s.heap, base + pins, op) && (op.Give? ==> op.o in base)
    ensures Agrees(s.(heap := Apply(s.heap, op)), text, ExtAfter(base, op), pins)
  {
    hide Legal, Inv, Tally;
    var ext := base + pins;
    StepSafe(s.heap, ext, op);
    ExtApart(base, pins, op);
    LedgerOf(Apply(s.heap, op), ExtAfter(ext, op));
    hide Apply, ExtAfter;
    forall k <- s.cache ensures PinOk(Apply(s.heap, op), s.cache[k]) {
      PinnedInExt(pins, s.cache, k);
      BirthKept(s.heap, ext, op, s.cache[k].obj);
    }
  }

  lemma ExtApart(base: multiset<Addr>, pins: multiset<Addr>, op: Op)
    requires op.Give? ==> op.o in base
    ensures ExtAfter(base + pins, op) == ExtAfter(base, op) + pins
  {
  }

  lemma PinnedInExt(pins: multiset<Addr>, cache: map<string, Pin>, k: string)
    requires Tally(pins, cache) && k in cache
    ensures cache[k].obj in pins
  {
    assert k in KeysOf(cache, cache[k].obj);
  }

  // ---------------------------------------------------------------- cleanup

  ghost predicate Distinct(order: seq<string>) {
    forall i, j | 0 <= i < j < |order| :: order[i] != order[j]
  }

  ghost predicate Enumerates(order: seq<string>, cache: map<string, Pin>) {
    Distinct(order) && forall k :: k in order <==> k in cache
  }

  ghost function Rest(cache: map<string, Pin>, order: seq<string>): map<string, Pin> {
    cache - set k | k in order
  }

  /** Giving back some of the references leaves exactly the others. */
  lemma {:induction false} ReleaseAgrees(s: Js, base: multiset<Addr>, pins: multiset<Addr>, order: seq<string>)
      returns (pins': multiset<Addr>)
    requires Inv(s.heap, base + pins) && Tally(pins, s.cache)
    requires Distinct(order) && forall k <- order :: k in s.cache
    ensures Inv(Release(s.heap, s.cache, order), base + pins') && Tally(pins', Rest(s.cache, order))
    ensures Shrunk(s.heap, Release(s.heap, s.cache, order), {})
    decreases |order|
  {
    if order == [] {
      pins' := pins;
      assert Rest(s.cache, order) == s.cache;
    } else {
      hide Inv, Shrunk;
      var first, key := order[..|order| - 1], order[|order| - 1];
      var before := ReleaseAgrees(s, base, pins, first);
      RestSnoc(s.cache, first, key);
      assert order == first + [key];
      TallyRemove(before, Rest(s.cache, first), key);
      var o := s.cache[key].obj;
      pins' := before - multiset{o};
      var h1 := Release(s.heap, s.cache, first);
      assert base + before == base + pins' + multiset{o};
      DropRawSafe(h1, base + pins', o);
      ShrunkTwice(s.heap, h1, DelRef(h1, o));
    }
  }

  lemma RestSnoc(cache: map<string, Pin>, order: seq<string>, key: string)
    requires Distinct(order + [key]) && key in cache
    ensures key in Rest(cache, order) && Rest(cache, order)[key] == cache[key]
    ensures Rest(cache, order + [key]) == Rest(cache, order) - {key}
  {
    assert forall i | 0 <= i < |order| :: order[i] == (order + [key])[i];
    assert (order + [key])[|order|] == key;
    assert key !in order;
    assert (set k | k in order + [key]) == (set k | k in order) + {key};
  }

  lemma ShrunkTwice(a: Heap, b: Heap, c: Heap)
    requires Shrunk(a, b, {}) && Shrunk(b, c, {})
    ensures Shrunk(a, c, {})
  {
  }

  /** A set that keeps itself alive without the cached references, and is alive, still does so. */
  lemma SupportedStays(h: Heap, r: Heap, base: multiset<Addr>, k: set<Addr>)
    requires Shrunk(h, r, {}) && k <= r.objs.Keys && Supported(h, {}, base, k)
    ensures Supported(r, {}, base, k)
  {
    forall x <- k ensures Anchored(r, {}, base, x) || HeldIn(r, {}, k, x) {
      if Anchored(h, {}, base, x) {
        if x !in base {
          var n: nat :| Root(n) in h.slots && h.slots[Root(n)].ptr == Some(x);
          assert Root(n) in r.slots && Root(n) !in {};
        }
      } else {
        var y :| y in k && Edge(h, {}, y, x);
        var i: nat :| Field(y, i) in h.slots && h.slots[Field(y, i)].ptr == Some(x);
        assert Field(y, i) in r.slots && Field(y, i) !in {};
        assert Edge(r, {}, y, x);
      }
    }
  }

  lemma MoreSupport(h: Heap, base: multiset<Addr>, more: multiset<Addr>, k: set<Addr>)
    requires Supported(h, {}, base, k)
    ensures Supported(h, {}, base + more, k)
  {
  }

  lemma SupportedLive(h: Heap, ext: multiset<Addr>, k: set<Addr>)
    requires Inv(h, ext) && Supported(h, {}, ext, k)
    ensures k <= h.objs.Keys
  {
    forall x <- k ensures x in h.objs {
      assert Kept(h, {}, ext, x);
      KeptIsLive(h, {}, ext, x);
    }
  }

  /** What something other than the cache keeps survives every release. */
  lemma {:induction false} ReleaseKeeps(s: Js, base: multiset<Addr>, pins: multiset<Addr>, order: seq<string>, k: set<Addr>)
    requires Inv(s.heap, base + pins) && Tally(pins, s.cache) && Supported(s.heap, {}, base, k)
    requires Distinct(order) && forall key <- order :: key in s.cache
    ensures k <= Release(s.heap, s.cache, order).objs.Keys
    decreases |order|
  {
    hide Inv, Shrunk, Supported, Tally;
    if order == [] {
      MoreSupport(s.heap, base, pins, k);
      SupportedLive(s.heap, base + pins, k);
    } else {
      var first, key := order[..|order| - 1], order[|order| - 1];
      ReleaseKeeps(s, base, pins, first, k);
      var before := ReleaseAgrees(s, base, pins, first);
      RestSnoc(s.cache, first, key);
      assert order == first + [key];
      TallyRemove(before, Rest(s.cache, first), key);
      var o := s.cache[key].obj;
      var after := before - multiset{o};
      var h1 := Release(s.heap, s.cache, first);
      assert base + before == base + after + multiset{o};
      SupportedStays(s.heap, h1, base, k);
      MoreSupport(h1, base, after, k);
      DropRawSafe(h1, base + after, o);
      SupportedLive(DelRef(h1, o), base + after, k);
    }
  }

  /** After the cleanup exactly the objects are alive that something other than the cache keeps. */
  lemma {:induction false} CleanupLeaves(s: Js, text: AddrText, base: multiset<Addr>, pins: multiset<Addr>, order: seq<string>)
    requires Agrees(s, text, base, pins) && Enumerates(order, s.cache)
    ensures Leaves(s.heap, Cleanup(s, order).heap, {}, base)
  {
    hide Inv, Good, Dying, Shrunk, Supported, Tally, Identified, Release, Kept;
    var r := Cleanup(s, order).heap;
    CleanupAgrees(s, text, base, pins, order);
    GoodOf(r, base);
    ShrunkSlots(s.heap, r);
    forall o ensures o in r.objs <==> o in s.heap.objs && Kept(s.heap, {}, base, o) {
      if o in r.objs {
        LiveIsKept(r, {}, base, o);
        KeptWithMore(r, s.heap, {}, base, o);
      }
      if Kept(s.heap, {}, base, o) {
        KeptSurvives(s, base, pins, order, o);
      }
    }
  }

  lemma {:induction false} KeptSurvives(s: Js, base: multiset<Addr>, pins: multiset<Addr>, order: seq<string>, o: Addr)
    requires Inv(s.heap, base + pins) && Tally(pins, s.cache) && Enumerates(order, s.cache) && Kept(s.heap, {}, base, o)
    ensures o in Release(s.heap, s.cache, order).objs
  {
    hide Inv, Supported, Tally, Release;
    var k: set<Addr> :| o in k && Supported(s.heap, {}, base, k);
    ReleaseKeeps(s, base, pins, order, k);
  }

  lemma ShrunkSlots(h: Heap, r: Heap)
    requires Shrunk(h, r, {})
    ensures r.objs.Keys <= h.objs.Keys && forall k <- r.slots | k !in {} :: k in h.slots && h.slots[k] == r.slots[k]
  {
  }

  /** The cleanup gives back each cached reference once and no other: the counts left are those of the
      program's own references, and what survives is what it was. */
  lemma CleanupAgrees(s: Js, text: AddrText, base: multiset<Addr>, pins: multiset<Addr>, order: seq<string>)
    requires Agrees(s, text, base, pins) && Enumerates(order, s.cache)
    ensures var r := Cleanup(s, order);
            Agrees(r, text, base, multiset{}) && Inv(r.heap, base) && Shrunk(s.heap, r.heap, {})
  {
    var left := ReleaseAgrees(s, base, pins, order);
    assert Rest(s.cache, order) == map[];
    assert forall o :: KeysOf(map[], o) == {};
    assert left == multiset{} by {
      forall o: Addr ensures left[o] == 0 {
        assert left[o] == |KeysOf(map[], o)|;
      }
    }
    assert base + left == base;
  }

  // ---------------------------------------------------------------- whole runs

  datatype Act = Program(op: Op) | ToJs(typeName: string, ref: Loc) | Flush(order: seq<string>)

  function Perform(s: Js, text: AddrText, act: Act): Js {
    match act
    case Program(op) => s.(heap := Apply(s.heap, op))
    case ToJs(typeName, ref) => Export(s, text, typeName, ref)
    case Flush(order) => Cleanup(s, order)
  }

  ghost predicate Allowed(s: Js, base: multiset<Addr>, pins: multiset<Addr>, act: Act) {
    match act
    case Program(op) => Legal(s.heap, base + pins, op) && (op.Give? ==> op.o in base)
    case ToJs(typeName, ref) => NoNul(typeName) && ref in s.heap.slots
    case Flush(order) => Enumerates(order, s.cache)
  }

  function BaseAfter(base: multiset<Addr>, act: Act): multiset<Addr> {
    if act.Program? then ExtAfter(base, act.op) else base
  }

  ghost predicate AgreesSome(s: Js, text: AddrText, base: multiset<Addr>) {
    exists pins :: Agrees(s, text, base, pins)
  }

  function Final(s: Js, text: AddrText, acts: seq<Act>): Js
    decreases |acts|
  {
    if acts == [] then s else Final(Perform(s, text, acts[0]), text, acts[1..])
  }

  function BaseFinal(base: multiset<Addr>, acts: seq<Act>): multiset<Addr>
    decreases |acts|
  {
    if acts == [] then base else BaseFinal(BaseAfter(base, acts[0]), acts[1..])
  }

  ghost predicate AllowedRun(s: Js, text: AddrText, base: multiset<Addr>, acts: seq<Act>)
    decreases |acts|
  {
    acts == [] ||
    ((exists pins :: Tally(pins, s.cache) && Allowed(s, base, pins, acts[0])) &&
     AllowedRun(Perform(s, text, acts[0]), text, BaseAfter(base, acts[0]), acts[1..]))
  }

  lemma TallyUnique(a: multiset<Addr>, b: multiset<Addr>, cache: map<string, Pin>)
    requires Tally(a, cache) && Tally(b, cache)
    ensures a == b
  {
    forall o: Addr ensures a[o] == b[o] {
      assert a[o] == |KeysOf(cache, o)|;
    }
  }

  /** Before anything has been allocated and exported the cache agrees. */
  lemma EmptyAgrees(text: AddrText)
    ensures AgreesSome(Js(EMPTY, map[]), text, multiset{})
  {
    EmptyInv();
    assert forall o: Addr :: KeysOf(map[], o) == {};
    var none: multiset<Addr> := multiset{};
    assert none + none == none;
    assert Agrees(Js(EMPTY, map[]), text, multiset{}, multiset{});
  }

  /** In every run of exports, cleanups and other uses of the objects, cached objects stay alive and
      keep their identity; and as long as no cleanup happens, every entry stays. */
  lemma {:induction false} RunAgrees(s: Js, text: AddrText, base: multiset<Addr>, acts: seq<Act>)
    requires AgreesSome(s, text, base) && AllowedRun(s, text, base, acts)
    ensures var r := Final(s, text, acts);
            && AgreesSome(r, text, BaseFinal(base, acts))
            && ((forall a <- acts :: !a.Flush?) ==>
                 forall k <- s.cache :: k in r.cache && r.cache[k] == s.cache[k] && PinOk(r.heap, s.cache[k]))
    decreases |acts|
  {
    var pins :| Agrees(s, text, base, pins);
    if acts != [] {
      var act := acts[0];
      var q :| Tally(q, s.cache) && Allowed(s, base, q, act);
      TallyUnique(pins, q, s.cache);
      hide Agrees, Identified, Tally, Legal, Inv;
      var next := Perform(s, text, act);
      PerformAgrees(s, text, base, pins, act);
      RunAgrees(next, text, BaseAfter(base, act), acts[1..]);
      assert forall a <- acts[1..] :: a in acts;
      assert act in acts;
    } else {
      hide Inv;
    }
  }

  /** A run from the beginning, cut at any point. */
  lemma {:induction false} RunFromEmptyAgrees(text: AddrText, acts: seq<Act>)
    requires AllowedRun(Js(EMPTY, map[]), text, multiset{}, acts)
    ensures AgreesSome(Final(Js(EMPTY, map[]), text, acts), text, BaseFinal(multiset{}, acts))
  {
    EmptyAgrees(text);
    RunAgrees(Js(EMPTY, map[]), text, multiset{}, acts);
  }

  lemma PerformAgrees(s: Js, text: AddrText, base: multiset<Addr>, pins: multiset<Addr>, act: Act)
    requires Agrees(s, text, base, pins) && Allowed(s, base, pins, act)
    ensures AgreesSome(Perform(s, text, act), text, BaseAfter(base, act))
    ensures !act.Flush? ==> forall k <- s.cache :: k in Perform(s, text, act).cache && Perform(s, text, act).cache[k] == s.cache[k]
  {
    match act
    case Program(op) =>
      ProgramAgrees(s, text, base, pins, op);
      hide Agrees, Legal;
    case ToJs(typeName, ref) =>
      var pins' := ExportAgrees(s, text, base, pins, typeName, ref);
      hide Agrees, Legal;
    case Flush(order) =>
      CleanupAgrees(s, text, base, pins, order);
      hide Agrees, Legal;
  }

  // ---------------------------------------------------------------- in place

  /** What a script gets. */
  datatype JsObject = JsNull | JsUserObject(typeName: string, obj: Addr)

  class JsExports {
    const text: AddrText
    const memory: RefMemory.Memory
    /** `g_JSObjectCleanup`. */
    var cleanup: map<string, Pin>

    constructor (text: AddrText, memory: RefMemory.Memory)
      ensures this.text == text && this.memory == memory && cleanup == map[]
    {
      this.text, this.memory := text, memory;
      cleanup := map[];
    }

    function View(): Js
      reads this, memory
    {
      Js(memory.View(), cleanup)
    }

    method ToJSObject(typeName: string, ref: Loc) returns (r: JsObject)
      modifies this, memory
      ensures View() == Export(old(View()), text, typeName, ref)
      ensures ref in old(memory.slots) ==>
                r == if old(memory.slots[ref]).ptr.None? then JsNull
                     else JsUserObject(typeName, old(memory.slots[ref]).ptr.value)
    {
      hide Key;
      if ref !in memory.slots {
        memory.fault := true;
        return JsNull;
      }
      if memory.slots[ref].ptr.None? {
        return JsNull;
      }
      var o := memory.slots[ref].ptr.value;
      var key := MakeKey(text, typeName, o);
      if key !in cleanup {
        if o in memory.objs {
          cleanup := cleanup[key := Pin(typeName, o, memory.objs[o].birth)];
        }
        memory.AddRef(o);
      }
      r := JsUserObject(typeName, o);
    }

    /** `JSObjectCleanup`, with the keys in the order in which the map gave them. */
    method JSObjectCleanup() returns (ghost order: seq<string>)
      modifies this, memory
      ensures Enumerates(order, old(cleanup))
      ensures View() == Cleanup(old(View()), order)
    {
      order := [];
      var todo := cleanup.Keys;
      while todo != {}
        invariant cleanup == old(cleanup) && todo <= cleanup.Keys
        invariant Distinct(order) && forall k :: k in order <==> k in cleanup && k !in todo
        invariant memory.View() == Release(old(memory.View()), cleanup, order)
        decreases todo
      {
        var key :| key in todo;
        assert (order + [key])[..|order|] == order;
        memory.DelRef(cleanup[key].obj);
        order := order + [key];
        todo := todo - {key};
      }
      cleanup := map[];
    }
  }
}
