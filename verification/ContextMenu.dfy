/** Context menus: a tree of entries kept as one flat list with brackets, in which every selectable
    entry's id is its place. */
module ContextMenu {
  import opened Wrappers

  type Handler = nat

  datatype Kind = ItemKind | CheckboxKind | SeparatorKind | SubmenuKind | EndSubmenuKind

  /** One element of `_items`; None stands for a field that is absent or undefined. */
  datatype Item = Item(kind: Kind, id: Option<int>, text: Option<string>, checked: Option<bool>, enabled: Option<bool>)

  /** What a menu means. */
  datatype Node =
    | Leaf(text: string, handler: Option<Handler>, enabled: bool)
    | Check(text: string, handler: Option<Handler>, checked: bool, enabled: bool)
    | Separator
    | Sub(text: string, children: seq<Node>)

  // ---------------------------------------------------------------- the bracket sequence of a tree

  /** An element of the flat list without its id, but with the handler that its id leads to. */
  datatype Mark = Mark(kind: Kind, text: Option<string>, checked: Option<bool>, enabled: Option<bool>, handler: Option<Handler>)

  function Marks(nodes: seq<Node>): seq<Mark> {
    if nodes == [] then [] else Marks(nodes[..|nodes| - 1]) + NodeMarks(nodes[|nodes| - 1])
  }

  function NodeMarks(n: Node): seq<Mark> {
    match n
    case Leaf(text, handler, enabled) => [Mark(ItemKind, Some(text), None, Some(enabled), handler)]
    case Check(text, handler, checked, enabled) => [Mark(CheckboxKind, Some(text), Some(checked), Some(enabled), handler)]
    case Separator => [Mark(SeparatorKind, None, None, None, None)]
    case Sub(text, children) => [Opening(text)] + Marks(children) + [Closing(text)]
  }

  function Opening(text: string): Mark {
    Mark(SubmenuKind, Some(text), None, None, None)
  }

  function Closing(text: string): Mark {
    Mark(EndSubmenuKind, Some(text), None, None, None)
  }

  /** Reads a tree back, up to the end or to a bracket that closes an enclosing submenu. */
  function Decode(ms: seq<Mark>): (r: Option<(seq<Node>, seq<Mark>)>)
    ensures r.Some? ==> |r.value.1| <= |ms|
    decreases |ms|
  {
    if ms == [] || ms[0].kind.EndSubmenuKind? then Some(([], ms))
    else
      var m := ms[0];
      if m.kind.SubmenuKind? then
        var inner := Decode(ms[1..]);
        if inner.None? || inner.value.1 == [] || inner.value.1[0].text != m.text || m.text.None? then None
        else Before(Sub(m.text.value, inner.value.0), Decode(inner.value.1[1..]))
      else
        var n := DecodeOne(m);
        if n.None? then None else Before(n.value, Decode(ms[1..]))
  }

  function DecodeOne(m: Mark): Option<Node> {
    match m
    case Mark(ItemKind, Some(text), _, Some(enabled), handler) => Some(Leaf(text, handler, enabled))
    case Mark(CheckboxKind, Some(text), Some(checked), Some(enabled), handler) => Some(Check(text, handler, checked, enabled))
    case Mark(SeparatorKind, _, _, _, _) => Some(Separator)
    case _ => None
  }

  function Before(n: Node, r: Option<(seq<Node>, seq<Mark>)>): Option<(seq<Node>, seq<Mark>)> {
    if r.Some? then Some(([n] + r.value.0, r.value.1)) else None
  }

  ghost predicate Ends(ms: seq<Mark>) {
    ms == [] || ms[0].kind.EndSubmenuKind?
  }

  lemma {:induction false} DecodeBeforeEnd(ms: seq<Mark>)
    requires Ends(ms)
    ensures Decode(ms) == Some(([], ms))
  {
  }

  /** A tree of any depth reads back from its bracket sequence, whatever follows it. */
  lemma {:induction false} DecodeMarks(nodes: seq<Node>, done: seq<Node>, rest: seq<Mark>)
    requires Decode(rest).Some? && Decode(rest).value.0 == done
    ensures Decode(Marks(nodes) + rest) == Some((nodes + done, Decode(rest).value.1))
    decreases nodes
  {
    if nodes == [] {
      assert Marks(nodes) + rest == rest;
      assert nodes + done == done;
    } else {
      hide Decode, NodeMarks;
      var u, x := nodes[..|nodes| - 1], nodes[|nodes| - 1];
      DecodeNode(x, rest);
      DecodeMarks(u, [x] + done, NodeMarks(x) + rest);
      Associate(Marks(u), NodeMarks(x), rest);
      Associate(u, [x], done);
      assert nodes == u + [x];
    }
  }

  lemma Associate<T>(a: seq<T>, b: seq<T>, c: seq<T>)
    ensures a + b + c == a + (b + c)
  {
  }

  lemma {:induction false} DecodeNode(x: Node, rest: seq<Mark>)
    requires Decode(rest).Some?
    ensures Decode(NodeMarks(x) + rest) == Before(x, Decode(rest))
    decreases x, 0
  {
    var ms := NodeMarks(x) + rest;
    if x.Sub? {
      var tail := [Closing(x.text)] + rest;
      DecodeBeforeEnd(tail);
      DecodeMarks(x.children, [], tail);
      assert ms == [Opening(x.text)] + (Marks(x.children) + tail);
      assert ms[1..] == Marks(x.children) + tail;
      assert x.children + [] == x.children;
      assert tail[1..] == rest;
    } else {
      assert ms[1..] == rest;
    }
  }

  lemma {:induction false} TreeReadsBack(nodes: seq<Node>)
    ensures Decode(Marks(nodes)) == Some((nodes, []))
  {
    DecodeMarks(nodes, [], []);
    assert Marks(nodes) + [] == Marks(nodes);
    assert nodes + [] == nodes;
  }

  // ---------------------------------------------------------------- ids and handlers

  /** The ids: places, except that a menu's own separators have none and its own brackets have -1. */
  function Ids(nodes: seq<Node>): seq<Option<int>> {
    if nodes == [] then [] else
      var before := Ids(nodes[..|nodes| - 1]);
      before + NodeIds(nodes[|nodes| - 1], |before|)
  }

  function NodeIds(n: Node, at: nat): seq<Option<int>> {
    match n
    case Separator => [None]
    case Sub(_, children) => [Some(-1)] + Places(at + 1, |Marks(children)|) + [Some(-1)]
    case _ => [Some(at)]
  }

  function Places(at: nat, n: nat): seq<Option<int>> {
    seq(n, i requires 0 <= i < n => Some(at + i))
  }

  lemma {:induction false} IdsLength(nodes: seq<Node>)
    ensures |Ids(nodes)| == |Marks(nodes)|
  {
    if nodes != [] {
      IdsLength(nodes[..|nodes| - 1]);
    }
  }

  function Flatten(nodes: seq<Node>): seq<Item> {
    IdsLength(nodes);
    Zip(Marks(nodes), Ids(nodes))
  }

  function Zip(ms: seq<Mark>, ids: seq<Option<int>>): seq<Item>
    requires |ms| == |ids|
  {
    seq(|ms|, i requires 0 <= i < |ms| => WithId(ms[i], ids[i]))
  }

  function WithId(m: Mark, id: Option<int>): Item {
    Item(m.kind, id, m.text, m.checked, m.enabled)
  }

  function HandlerAt(ms: seq<Mark>, at: nat, i: int): Option<Handler> {
    if at <= i < at + |ms| then ms[i - at].handler else None
  }

  /** The handlers of a list that starts at place `at`. */
  function Moved(ms: seq<Mark>, at: nat): map<int, Handler> {
    map i: int | at <= i < at + |ms| && HandlerAt(ms, at, i).Some? :: HandlerAt(ms, at, i).value
  }

  function HandlersOf(ms: seq<Mark>): map<int, Handler> {
    Moved(ms, 0)
  }

  /** `_handlers[id]`. */
  function Lookup(handlers: map<int, Handler>, id: Option<int>): Option<Handler> {
    if id.Some? && id.value in handlers then Some(handlers[id.value]) else None
  }

  /** The list with each id followed to its handler. */
  function Resolve(items: seq<Item>, handlers: map<int, Handler>): seq<Mark> {
    seq(|items|, i requires 0 <= i < |items| =>
      Mark(items[i].kind, items[i].text, items[i].checked, items[i].enabled, Lookup(handlers, items[i].id)))
  }

  predicate Selectable(k: Kind) {
    k.ItemKind? || k.CheckboxKind?
  }

  /** An id is a place, or -1 on a bracket, or absent on a separator. */
  ghost predicate IdOk(m: Mark, id: Option<int>, i: nat) {
    id == Some(i) || (id == Some(-1) && (m.kind.SubmenuKind? || m.kind.EndSubmenuKind?) && m.handler.None?)
    || (id == None && m.kind.SeparatorKind? && m.handler.None?)
  }

  lemma {:induction false} NodeIdsOk(x: Node, at: nat, k: nat)
    requires k < |NodeMarks(x)|
    ensures |NodeIds(x, at)| == |NodeMarks(x)| && IdOk(NodeMarks(x)[k], NodeIds(x, at)[k], at + k)
  {
    hide Marks;
  }

  lemma {:induction false} IdsOk(nodes: seq<Node>, i: nat)
    requires i < |Marks(nodes)|
    ensures |Ids(nodes)| == |Marks(nodes)| && IdOk(Marks(nodes)[i], Ids(nodes)[i], i)
    decreases nodes
  {
    hide IdOk, NodeIds, NodeMarks;
    IdsLength(nodes);
    var u, x := nodes[..|nodes| - 1], nodes[|nodes| - 1];
    IdsLength(u);
    if i < |Marks(u)| {
      IdsOk(u, i);
    } else {
      NodeIdsOk(x, |Marks(u)|, i - |Marks(u)|);
    }
  }

  /** Only selectable entries have handlers. */
  lemma {:induction false} HandlersSelectable(nodes: seq<Node>, i: nat)
    requires i < |Marks(nodes)| && Marks(nodes)[i].handler.Some?
    ensures Selectable(Marks(nodes)[i].kind)
    decreases nodes
  {
    var u, x := nodes[..|nodes| - 1], nodes[|nodes| - 1];
    if i < |Marks(u)| {
      HandlersSelectable(u, i);
    } else if x.Sub? {
      var k := i - |Marks(u)|;
      assert Marks(nodes)[i] == NodeMarks(x)[k];
      assert 0 < k <= |Marks(x.children)|;
      assert NodeMarks(x)[k] == Marks(x.children)[k - 1];
      HandlersSelectable(x.children, k - 1);
    }
  }

  /** The id of every selectable entry is its place in the list, and leads to its own handler. */
  lemma {:induction false} SelectableIds(nodes: seq<Node>, i: nat)
    requires i < |Flatten(nodes)| && Selectable(Flatten(nodes)[i].kind)
    ensures Flatten(nodes)[i].id == Some(i)
    ensures Lookup(HandlersOf(Marks(nodes)), Some(i)) == Marks(nodes)[i].handler
  {
    IdsOk(nodes, i);
  }

  lemma {:induction false} ResolveIsMarks(nodes: seq<Node>)
    ensures Resolve(Flatten(nodes), HandlersOf(Marks(nodes))) == Marks(nodes)
  {
    forall i | 0 <= i < |Marks(nodes)|
      ensures Resolve(Flatten(nodes), HandlersOf(Marks(nodes)))[i] == Marks(nodes)[i]
    {
      IdsOk(nodes, i);
    }
  }

  /** The flat list and the handlers give back the tree, handlers and all. */
  lemma {:induction false} MenuReadsBack(nodes: seq<Node>)
    ensures Decode(Resolve(Flatten(nodes), HandlersOf(Marks(nodes)))) == Some((nodes, []))
  {
    ResolveIsMarks(nodes);
    TreeReadsBack(nodes);
  }

  // ---------------------------------------------------------------- separators

  /** At no depth does a separator come first or after a separator, and no submenu is empty. */
  ghost predicate Tidy(nodes: seq<Node>)
    decreases nodes
  {
    && (nodes != [] ==> !nodes[0].Separator?)
    && (forall i | 0 <= i < |nodes| - 1 :: nodes[i].Separator? ==> !nodes[i + 1].Separator?)
    && (forall n <- nodes :: n.Sub? ==> n.children != [] && Tidy(n.children))
  }

  lemma {:induction false} TidySnoc(nodes: seq<Node>, x: Node)
    requires Tidy(nodes) && (x.Separator? ==> nodes != [] && !nodes[|nodes| - 1].Separator?)
    requires x.Sub? ==> x.children != [] && Tidy(x.children)
    ensures Tidy(nodes + [x])
  {
    var r := nodes + [x];
    forall n | n in r && n.Sub? ensures n.children != [] && Tidy(n.children) {
      if n !in nodes {
        assert n == x;
      }
    }
  }

  lemma {:induction false} TidyInit(nodes: seq<Node>)
    requires Tidy(nodes) && nodes != []
    ensures Tidy(nodes[..|nodes| - 1])
  {
    var u := nodes[..|nodes| - 1];
    assert forall n | n in u :: n in nodes;
  }

  /** The last element lacks an id exactly if the menu ends with a separator of its own. */
  lemma LastId(nodes: seq<Node>)
    requires nodes != []
    ensures Flatten(nodes) != [] && (Flatten(nodes)[|Flatten(nodes)| - 1].id.None? <==> nodes[|nodes| - 1].Separator?)
  {
    var u, x := nodes[..|nodes| - 1], nodes[|nodes| - 1];
    IdsLength(nodes);
    IdsLength(u);
    assert |NodeIds(x, |Ids(u)|)| > 0;
  }

  /** In the flat list, before each separator stands an entry or a closed submenu. */
  ghost predicate SeparatorsApart(ms: seq<Mark>) {
    forall i | 0 <= i < |ms| && ms[i].kind.SeparatorKind? :: i > 0 && !ms[i - 1].kind.SeparatorKind? && !ms[i - 1].kind.SubmenuKind?
  }

  /** Separators never lead or repeat, neither in a menu nor in the copies inside it. */
  lemma {:induction false} TidyList(nodes: seq<Node>)
    requires Tidy(nodes)
    ensures SeparatorsApart(Marks(nodes))
    ensures nodes != [] ==> Marks(nodes) != [] && var last := Marks(nodes)[|Marks(nodes)| - 1].kind;
              !last.SubmenuKind? && (last.SeparatorKind? <==> nodes[|nodes| - 1].Separator?)
    decreases nodes
  {
    if nodes != [] {
      var u, x := nodes[..|nodes| - 1], nodes[|nodes| - 1];
      TidyInit(nodes);
      TidyList(u);
      if x.Sub? {
        TidyList(x.children);
        Bracketed(x.text, Marks(x.children));
      }
      assert x.Separator? ==> u != [] by {
        assert |u| == 0 ==> x == nodes[0];
      }
      ApartConcat(Marks(u), NodeMarks(x));
    }
  }

  lemma Bracketed(text: string, ms: seq<Mark>)
    requires SeparatorsApart(ms)
    ensures SeparatorsApart([Opening(text)] + ms + [Closing(text)])
  {
    var r := [Opening(text)] + ms + [Closing(text)];
    assert forall i | 1 <= i <= |ms| :: r[i] == ms[i - 1];
  }

  lemma ApartConcat(a: seq<Mark>, b: seq<Mark>)
    requires SeparatorsApart(a) && b != []
    requires forall i | 1 <= i < |b| && b[i].kind.SeparatorKind? :: !b[i - 1].kind.SeparatorKind? && !b[i - 1].kind.SubmenuKind?
    requires b[0].kind.SeparatorKind? ==> a != [] && !a[|a| - 1].kind.SeparatorKind? && !a[|a| - 1].kind.SubmenuKind?
    ensures SeparatorsApart(a + b)
  {
    var r := a + b;
    assert forall i | |a| <= i < |r| :: r[i] == b[i - |a|];
  }

  /** What `show` leaves: no separator of the menu's own at the end. */
  function Trimmed(nodes: seq<Node>): seq<Node> {
    if nodes != [] && nodes[|nodes| - 1].Separator? then nodes[..|nodes| - 1] else nodes
  }

  lemma {:induction false} TrimmedIs(nodes: seq<Node>)
    requires Tidy(nodes)
    ensures Tidy(Trimmed(nodes)) && (Trimmed(nodes) != [] ==> !Trimmed(nodes)[|Trimmed(nodes)| - 1].Separator?)
  {
    if nodes != [] {
      TidyInit(nodes);
    }
  }

  /** At most one separator goes, and nothing else. */
  lemma {:induction false} TrimmedLosesSeparator(nodes: seq<Node>)
    ensures nodes == Trimmed(nodes) || nodes == Trimmed(nodes) + [Separator]
  {
    if nodes != [] {
      assert nodes == nodes[..|nodes| - 1] + [nodes[|nodes| - 1]];
    }
  }

  // ---------------------------------------------------------------- one step of a list

  lemma {:induction false} FlattenSnoc(nodes: seq<Node>, x: Node)
    ensures Marks(nodes + [x]) == Marks(nodes) + NodeMarks(x)
    ensures Ids(nodes + [x]) == Ids(nodes) + NodeIds(x, |Marks(nodes)|)
    ensures |Ids(nodes)| == |Marks(nodes)|
  {
    assert (nodes + [x])[..|nodes|] == nodes;
    IdsLength(nodes);
  }

  /** Adding an entry that takes one place. */
  lemma {:induction false} OneMore(nodes: seq<Node>, x: Node)
    requires !x.Sub?
    ensures var m := NodeMarks(x)[0]; var at := |Flatten(nodes)|;
            && Flatten(nodes + [x]) == Flatten(nodes) + [WithId(m, if x.Separator? then None else Some(at))]
            && HandlersOf(Marks(nodes + [x])) ==
               if m.handler.Some? then HandlersOf(Marks(nodes))[at := m.handler.value] else HandlersOf(Marks(nodes))
  {
    FlattenSnoc(nodes, x);
    hide Marks, Ids;
  }

  /** What the list shows of each entry that takes one place. */
  lemma {:induction false} EntriesShow(nodes: seq<Node>, text: string, handler: Option<Handler>, checked: bool, enabled: bool)
    ensures var at := |Flatten(nodes)|;
            && Flatten(nodes + [Leaf(text, handler, enabled)]) ==
               Flatten(nodes) + [Item(ItemKind, Some(at), Some(text), None, Some(enabled))]
            && Flatten(nodes + [Check(text, handler, checked, enabled)]) ==
               Flatten(nodes) + [Item(CheckboxKind, Some(at), Some(text), Some(checked), Some(enabled))]
            && Flatten(nodes + [Separator]) == Flatten(nodes) + [Item(SeparatorKind, None, None, None, None)]
            && (handler.Some? ==>
                HandlersOf(Marks(nodes + [Leaf(text, handler, enabled)])) == HandlersOf(Marks(nodes))[at := handler.value]
                && HandlersOf(Marks(nodes + [Check(text, handler, checked, enabled)])) == HandlersOf(Marks(nodes))[at := handler.value])
  {
    hide Marks, Ids, Zip;
    OneMore(nodes, Leaf(text, handler, enabled));
    OneMore(nodes, Check(text, handler, checked, enabled));
    OneMore(nodes, Separator);
  }

  /** `appendMenu`'s copy of element `i`. */
  function CopyOf(i: Item, id: nat): Item {
    Item(i.kind, Some(id), i.text, i.checked, i.enabled)
  }

  function CopiesOf(items: seq<Item>, at: nat): seq<Item> {
    seq(|items|, k requires 0 <= k < |items| => CopyOf(items[k], at + k))
  }

  lemma ZipConcat(a: seq<Mark>, ai: seq<Option<int>>, b: seq<Mark>, bi: seq<Option<int>>)
    requires |a| == |ai| && |b| == |bi|
    ensures Zip(a + b, ai + bi) == Zip(a, ai) + Zip(b, bi)
  {
  }

  lemma MovedConcat(a: seq<Mark>, b: seq<Mark>, at: nat)
    ensures Moved(a + b, at) == Moved(a, at) + Moved(b, at + |a|)
  {
    forall i: int ensures HandlerAt(a + b, at, i) == if i < at + |a| then HandlerAt(a, at, i) else HandlerAt(b, at + |a|, i) {
    }
  }

  lemma MovedNone(m: Mark, at: nat)
    requires m.handler.None?
    ensures Moved([m], at) == map[]
  {
  }

  lemma {:induction false} MovedSubmenu(text: string, children: seq<Node>, at: nat)
    ensures Moved([Opening(text)] + Marks(children) + [Closing(text)], at) == Moved(Marks(children), at + 1)
  {
    hide Marks, Moved;
    MovedConcat([Opening(text)] + Marks(children), [Closing(text)], at);
    MovedConcat([Opening(text)], Marks(children), at);
    MovedNone(Opening(text), at);
    MovedNone(Closing(text), at + 1 + |Marks(children)|);
  }

  lemma {:induction false} ZipSubmenu(text: string, children: seq<Node>, at: nat)
    ensures |Flatten(children)| == |Marks(children)|
    ensures Zip(NodeMarks(Sub(text, children)), NodeIds(Sub(text, children), at)) ==
            [WithId(Opening(text), Some(-1))] + CopiesOf(Flatten(children), at + 1) + [WithId(Closing(text), Some(-1))]
  {
    FlattenLength(children);
    hide Marks, Zip, Ids;
    IdsLength(children);
    var ms, n := Marks(children), |Marks(children)|;
    ZipConcat([Opening(text)] + ms, [Some(-1)] + Places(at + 1, n), [Closing(text)], [Some(-1)]);
    ZipConcat([Opening(text)], [Some(-1)], ms, Places(at + 1, n));
    ZipOne(Opening(text), Some(-1));
    ZipOne(Closing(text), Some(-1));
    ZipCopies(ms, Ids(children), at + 1);
  }

  lemma ZipOne(m: Mark, id: Option<int>)
    ensures Zip([m], [id]) == [WithId(m, id)]
  {
  }

  lemma ZipCopies(ms: seq<Mark>, ids: seq<Option<int>>, at: nat)
    requires |ms| == |ids|
    ensures Zip(ms, Places(at, |ms|)) == CopiesOf(Zip(ms, ids), at)
  {
  }

  /** Adding a submenu copies the other menu's list between brackets and moves its handlers along. */
  lemma {:induction false} OneSubmenu(nodes: seq<Node>, text: string, children: seq<Node>)
    ensures var at := |Flatten(nodes)|;
            && |Flatten(children)| == |Marks(children)|
            && Flatten(nodes + [Sub(text, children)]) ==
               Flatten(nodes) + ([WithId(Opening(text), Some(-1))] + CopiesOf(Flatten(children), at + 1) + [WithId(Closing(text), Some(-1))])
            && HandlersOf(Marks(nodes + [Sub(text, children)])) == HandlersOf(Marks(nodes)) + Moved(Marks(children), at + 1)
  {
    hide Marks, Ids, Zip, Moved;
    var x := Sub(text, children);
    var at := |Marks(nodes)|;
    FlattenSnoc(nodes, x);
    ZipSubmenu(text, children, at);
    FlattenLength(nodes);
    assert |NodeIds(x, at)| == |NodeMarks(x)|;
    ZipConcat(Marks(nodes), Ids(nodes), NodeMarks(x), NodeIds(x, at));
    MovedConcat(Marks(nodes), NodeMarks(x), 0);
    MovedSubmenu(text, children, at);
  }

  lemma {:induction false} FlattenLength(nodes: seq<Node>)
    ensures |Flatten(nodes)| == |Marks(nodes)|
  {
  }

  // ---------------------------------------------------------------- the object

  class Menu {
    var items: seq<Item>
    var handlers: map<int, Handler>
    /** What has been appended. */
    ghost var tree: seq<Node>

    ghost predicate Valid()
      reads this
    {
      items == Flatten(tree) && handlers == HandlersOf(Marks(tree)) && Tidy(tree)
    }

    constructor ()
      ensures Valid() && tree == []
    {
      items, handlers, tree := [], map[], [];
    }

    method AppendItem(text: string, handler: Option<Handler>, disabled: bool)
      requires Valid()
      modifies this
      ensures Valid() && tree == old(tree) + [Leaf(text, handler, !disabled)]
    {
      hide Marks, Ids, Zip, Tidy;
      ghost var x := Leaf(text, handler, !disabled);
      OneMore(tree, x);
      TidySnoc(tree, x);
      NothingAt(tree, |items|);
      var id := |items|;
      items := items + [Item(ItemKind, Some(id), Some(text), None, Some(!disabled))];
      handlers := SetHandler(handlers, id, handler);
      tree := tree + [x];
    }

    method AppendCheckboxItem(text: string, handler: Option<Handler>, checked: bool, disabled: bool)
      requires Valid()
      modifies this
      ensures Valid() && tree == old(tree) + [Check(text, handler, checked, !disabled)]
    {
      hide Marks, Ids, Zip, Tidy;
      ghost var x := Check(text, handler, checked, !disabled);
      OneMore(tree, x);
      TidySnoc(tree, x);
      NothingAt(tree, |items|);
      var id := |items|;
      items := items + [Item(CheckboxKind, Some(id), Some(text), Some(checked), Some(!disabled))];
      handlers := SetHandler(handlers, id, handler);
      tree := tree + [x];
    }

    /** No separator comes first or after another. */
    method AppendSeparator()
      requires Valid()
      modifies this
      ensures Valid()
      ensures tree == if old(tree) == [] || old(tree)[|old(tree)| - 1].Separator? then old(tree) else old(tree) + [Separator]
    {
      hide Marks, Ids, Zip, Tidy;
      EmptyIff(tree);
      if |items| == 0 {
        return;
      }
      LastId(tree);
      if items[|items| - 1].id.None? {
        return;
      }
      OneMore(tree, Separator);
      TidySnoc(tree, Separator);
      items := items + [Item(SeparatorKind, None, None, None, None)];
      tree := tree + [Separator];
    }

    /** `ends` is false for a menu with something in it that is appended to itself: the loop then runs
        ahead of its own copies for ever, see SelfAppendNeverEnds. */
    method AppendMenu(other: Menu?, text: string) returns (ends: bool)
      requires Valid() && (other != null ==> other.Valid())
      modifies this
      ensures ends <==> other != this || old(tree) == []
      ensures ends ==> Valid()
      ensures ends ==> tree == if other == null || old(other.tree) == [] then old(tree) else old(tree) + [Sub(text, old(other.tree))]
    {
      hide Marks, Ids, Zip, Tidy, Moved, HandlersOf, Flatten;
      if other == null {
        return true;
      }
      EmptyIff(other.tree);
      if |other.items| == 0 {
        return true;
      }
      if other == this {
        return false;
      }
      OneSubmenu(tree, text, other.tree);
      TidySub(tree, text, other.tree);
      NothingAt(tree, |items|);
      ghost var before := items;
      items := items + [Item(SubmenuKind, Some(-1), Some(text), None, None)];
      ghost var start, at := items, |items|;
      NothingCopied(other.tree, handlers, at);
      for x := 0 to |other.items|
        invariant tree == old(tree) && other.items == old(other.items) && other.handlers == old(other.handlers) && other.tree == old(other.tree)
        invariant items == start + CopiesOf(other.items[..x], at)
        invariant x <= |Marks(other.tree)| && handlers == old(handlers) + Moved(Marks(other.tree)[..x], at)
      {
        var i := other.items[x];
        var id := |items|;
        OneCopied(old(handlers), other.tree, at, x);
        CopiesSnoc(other.items, at, x);
        items := items + [Item(i.kind, Some(id), i.text, i.checked, i.enabled)];
        handlers := SetHandler(handlers, id, Lookup(other.handlers, i.id));
      }
      assert other.items[..|other.items|] == other.items;
      assert Marks(other.tree)[..|other.items|] == Marks(other.tree);
      items := items + [Item(EndSubmenuKind, Some(-1), Some(text), None, None)];
      tree := tree + [Sub(text, other.tree)];
      assert items == before + ([WithId(Opening(text), Some(-1))] + CopiesOf(other.items, at) + [WithId(Closing(text), Some(-1))]);
      ends := true;
    }

    /** Takes separators of the menu's own off the end, and gives the list to display, if any. */
    method Show() returns (shown: Option<seq<Item>>)
      requires Valid()
      modifies this
      ensures Valid() && tree == Trimmed(old(tree))
      ensures shown == if tree == [] then None else Some(Flatten(tree))
      ensures shown.Some? ==> |shown.value| > 0 && shown.value[|shown.value| - 1].id.Some?
    {
      hide Marks, Ids, Zip, Tidy, HandlersOf, Flatten;
      TrimmedIs(tree);
      EmptyIff(tree);
      while |items| > 0 && items[|items| - 1].id.None?
        invariant Valid() && Trimmed(tree) == Trimmed(old(tree)) && (items == [] <==> tree == [])
        decreases |items|
      {
        ghost var n := |tree| - 1;
        LastId(tree);
        Untrim(tree);
        TidyInit(tree);
        TrimmedTwice(tree);
        items := items[..|items| - 1];
        tree := tree[..n];
        EmptyIff(tree);
      }
      if |items| > 0 {
        LastId(tree);
        return Some(items);
      }
      shown := None;
    }

    /** The callback of the displayed menu: which handler is called. */
    method ItemSelected(res: int) returns (h: Option<Handler>)
      requires Valid()
      ensures h == if 0 <= res < |Marks(tree)| then Marks(tree)[res].handler else None
    {
      if res != -1 && res in handlers {
        return Some(handlers[res]);
      }
      h := None;
    }
  }

  /** The list after `n` turns of the loop when the menu is appended to itself. */
  function SelfCopies(items: seq<Item>, n: nat): seq<Item> {
    if n == 0 then items
    else
      var r := SelfCopies(items, n - 1);
      if n - 1 < |r| then r + [CopyOf(r[n - 1], |r|)] else r
  }

  /** After any number of turns there is still an element to copy. */
  lemma {:induction false} SelfAppendNeverEnds(items: seq<Item>, n: nat)
    requires items != []
    ensures |SelfCopies(items, n)| == |items| + n > n
  {
    if n > 0 {
      SelfAppendNeverEnds(items, n - 1);
    }
  }

  /** `_handlers[id] = handler`, where an undefined handler is as good as none. */
  function SetHandler(handlers: map<int, Handler>, id: int, handler: Option<Handler>): map<int, Handler> {
    if handler.Some? then handlers[id := handler.value] else handlers - {id}
  }

  lemma {:induction false} NothingAt(nodes: seq<Node>, n: nat)
    requires n == |Flatten(nodes)|
    ensures HandlersOf(Marks(nodes)) - {n} == HandlersOf(Marks(nodes))
    ensures |Flatten(nodes)| == |Marks(nodes)|
    ensures forall k <- HandlersOf(Marks(nodes)) :: k < n
  {
  }

  lemma EmptyIff(nodes: seq<Node>)
    ensures Flatten(nodes) == [] <==> nodes == []
  {
    if nodes != [] {
      LastId(nodes);
    }
  }

  lemma {:induction false} TidySub(nodes: seq<Node>, text: string, children: seq<Node>)
    requires Tidy(nodes) && Tidy(children) && children != []
    ensures Tidy(nodes + [Sub(text, children)])
  {
    TidySnoc(nodes, Sub(text, children));
  }

  lemma {:induction false} NothingCopied(nodes: seq<Node>, handlers: map<int, Handler>, at: nat)
    ensures handlers + Moved(Marks(nodes)[..0], at) == handlers
    ensures CopiesOf([], at) == []
    ensures |Flatten(nodes)| == |Marks(nodes)|
  {
  }

  lemma CopiesSnoc(items: seq<Item>, at: nat, x: nat)
    requires x < |items|
    ensures CopiesOf(items[..x + 1], at) == CopiesOf(items[..x], at) + [CopyOf(items[x], at + x)]
    ensures |CopiesOf(items[..x], at)| == x
  {
  }

  /** The handler found through the id of an element is the element's own, also in a menu that holds
      copies itself. */
  lemma {:induction false} OneCopied(handlers: map<int, Handler>, nodes: seq<Node>, at: nat, x: nat)
    requires x < |Marks(nodes)| && (forall k <- handlers :: k < at)
    ensures |Flatten(nodes)| == |Marks(nodes)|
    ensures SetHandler(handlers + Moved(Marks(nodes)[..x], at), at + x, Lookup(HandlersOf(Marks(nodes)), Flatten(nodes)[x].id)) ==
            handlers + Moved(Marks(nodes)[..x + 1], at)
  {
    ResolveIsMarks(nodes);
    var ms := Marks(nodes);
    assert Lookup(HandlersOf(ms), Flatten(nodes)[x].id) == Resolve(Flatten(nodes), HandlersOf(ms))[x].handler;
    MovedSnoc(handlers, ms, at, x);
  }

  lemma MovedSnoc(handlers: map<int, Handler>, ms: seq<Mark>, at: nat, x: nat)
    requires x < |ms| && (forall k <- handlers :: k < at)
    ensures SetHandler(handlers + Moved(ms[..x], at), at + x, ms[x].handler) == handlers + Moved(ms[..x + 1], at)
  {
    assert ms[..x + 1] == ms[..x] + [ms[x]];
    MovedConcat(ms[..x], [ms[x]], at);
    assert at + x !in handlers && at + x !in Moved(ms[..x], at);
    MovedOne(ms[x], at + x);
    hide Moved;
  }

  lemma MovedOne(m: Mark, at: nat)
    ensures Moved([m], at) == if m.handler.Some? then map[at as int := m.handler.value] else map[]
  {
  }

  /** A separator at the end has one place and no handler. */
  lemma {:induction false} Untrim(nodes: seq<Node>)
    requires nodes != [] && nodes[|nodes| - 1].Separator?
    ensures var u := nodes[..|nodes| - 1];
            Flatten(nodes) != [] && Flatten(u) == Flatten(nodes)[..|Flatten(nodes)| - 1] && HandlersOf(Marks(u)) == HandlersOf(Marks(nodes))
  {
    OneMore(nodes[..|nodes| - 1], Separator);
    assert nodes == nodes[..|nodes| - 1] + [Separator];
  }

  lemma {:induction false} TrimmedTwice(nodes: seq<Node>)
    requires Tidy(nodes) && nodes != [] && nodes[|nodes| - 1].Separator?
    ensures Trimmed(nodes[..|nodes| - 1]) == nodes[..|nodes| - 1] == Trimmed(nodes)
  {
  }
}
