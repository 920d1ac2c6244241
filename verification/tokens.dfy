/** The mutable token graph of a loaded document (Newtonsoft's `JToken` tree), as an explicit heap
    of nodes addressed by id. A node knows its parent, as a `JToken` does, so that a node cut out of
    the tree by a splice can be told apart from one still attached. */
module Tokens {

  import opened Wrappers
  import opened Json

  type Id = nat

  /** `Constants.REF_KEYWORD`: the property name that marks a reference. */
  const RefKeyword: string := "$ref"

  /** A property of an object (a `JProperty`): its name and the token it holds. */
  datatype Slot = Slot(name: string, child: Id)

  datatype Kind = Obj(slots: seq<Slot>) | Arr(items: seq<Id>) | Leaf(scalar: Scalar)

  datatype Node = Node(kind: Kind, parent: Option<Id>)

  /** The nodes, and the first id never handed out. */
  datatype Heap = Heap(nodes: map<Id, Node>, next: Id)

  function Children(k: Kind): (cs: seq<Id>)
    ensures k.Obj? ==> |cs| == |k.slots| && forall i :: 0 <= i < |cs| ==> cs[i] == k.slots[i].child
    ensures k.Arr? ==> cs == k.items
    ensures k.Leaf? ==> cs == []
  {
    match k
    case Obj(slots) => seq(|slots|, i requires 0 <= i < |slots| => slots[i].child)
    case Arr(items) => items
    case Leaf(_) => []
  }

  /** Every id is below `next`, every child is present and has a larger id than its parent, and a
      node's parent has a smaller id, so walking down always terminates. */
  ghost predicate Valid(h: Heap) {
    forall id :: id in h.nodes ==> NodeOk(h.nodes, h.next, id)
  }

  ghost predicate NodeOk(nodes: map<Id, Node>, next: Id, id: Id)
    requires id in nodes
  {
    && id < next
    && (nodes[id].parent.Some? ==> nodes[id].parent.value < id)
    && forall c :: c in Children(nodes[id].kind) ==> id < c && c in nodes
  }

  /** Every token held by a token names it as its parent (`JToken.Parent`). So a token is held by
      at most one token, its parent, and a token whose parent is not in the heap is held by none:
      together with `Valid` the nodes form a forest. */
  ghost predicate Linked(h: Heap) {
    forall id {:trigger LinkOk(h.nodes, id)} :: id in h.nodes ==> LinkOk(h.nodes, id)
  }

  ghost predicate LinkOk(nodes: map<Id, Node>, id: Id)
    requires id in nodes
  {
    forall c :: c in Children(nodes[id].kind) && c in nodes ==> nodes[c].parent == Some(id)
  }

  lemma ChildOf(h: Heap, id: Id, i: nat)
    requires Valid(h) && id in h.nodes && i < |Children(h.nodes[id].kind)|
    ensures id < Children(h.nodes[id].kind)[i] < h.next
    ensures Children(h.nodes[id].kind)[i] in h.nodes
  {
    var c := Children(h.nodes[id].kind)[i];
    assert c in Children(h.nodes[id].kind);
    assert c in h.nodes;
  }

  /** `h2` holds every node of `h1` untouched. */
  ghost predicate Extends(h1: Heap, h2: Heap) {
    && h1.next <= h2.next
    && (forall k :: k in h1.nodes ==> k in h2.nodes && h2.nodes[k] == h1.nodes[k])
  }

  /** `h2` holds every node of `h1` untouched, and its extra nodes have fresh ids. */
  ghost predicate Grows(h1: Heap, h2: Heap) {
    && Extends(h1, h2)
    && (forall k :: k in h2.nodes ==> k in h1.nodes || h1.next <= k)
  }

  /** The value of the subtree rooted at `id` (a read-only deep copy out of the graph). */
  function Read(h: Heap, id: Id): Value
    requires Valid(h) && id in h.nodes
    decreases h.next - id
  {
    match h.nodes[id].kind
    case Leaf(s) => JValue(s)
    case Arr(items) =>
      JArray(seq(|items|, i requires 0 <= i < |items| =>
        ChildOf(h, id, i); Read(h, items[i])))
    case Obj(slots) =>
      JObject(seq(|slots|, i requires 0 <= i < |slots| =>
        ChildOf(h, id, i); Member(slots[i].name, Read(h, slots[i].child))))
  }

  /** `to` lies in the subtree rooted at `from`. */
  ghost predicate Reaches(h: Heap, from: Id, to: Id)
    requires Valid(h) && from in h.nodes
    decreases h.next - from
  {
    || from == to
    || exists c :: c in Children(h.nodes[from].kind) && Reaches(h, c, to)
  }

  /** Reads only look at the subtree they start from: a heap that grew reads the same. */
  lemma {:induction false} ReadFrame(h1: Heap, h2: Heap, id: Id)
    requires Valid(h1) && Valid(h2) && Extends(h1, h2) && id in h1.nodes
    ensures Read(h2, id) == Read(h1, id)
    decreases h1.next - id
  {
    assert h2.nodes[id] == h1.nodes[id];
    var k := h1.nodes[id].kind;
    forall i | 0 <= i < |Children(k)|
      ensures Read(h2, Children(k)[i]) == Read(h1, Children(k)[i])
    {
      ChildOf(h1, id, i);
      ReadFrame(h1, h2, Children(k)[i]);
    }
  }

  lemma ReadFrameAll(h1: Heap, h2: Heap)
    requires Valid(h1) && Valid(h2) && Extends(h1, h2)
    ensures forall id :: id in h1.nodes ==> Read(h2, id) == Read(h1, id)
  {
    forall id | id in h1.nodes
      ensures Read(h2, id) == Read(h1, id)
    {
      ReadFrame(h1, h2, id);
    }
  }

  lemma AddNode(h: Heap, id: Id, n: Node)
    requires Valid(h) && id !in h.nodes && id < h.next
    requires n.parent.Some? ==> n.parent.value < id
    requires forall i :: 0 <= i < |Children(n.kind)| ==> id < Children(n.kind)[i] && Children(n.kind)[i] in h.nodes
    ensures Valid(Heap(h.nodes[id := n], h.next)) && Extends(h, Heap(h.nodes[id := n], h.next))
    ensures forall x :: x in h.nodes ==> Read(Heap(h.nodes[id := n], h.next), x) == Read(h, x)
  {
    var h' := Heap(h.nodes[id := n], h.next);
    forall x, c | x in h'.nodes && c in Children(h'.nodes[x].kind)
      ensures x < c && c in h'.nodes
    {
      if x == id {
        assert h'.nodes[x] == n;
        var i :| 0 <= i < |Children(n.kind)| && Children(n.kind)[i] == c;
        assert id < c;
      } else {
        assert h'.nodes[x] == h.nodes[x];
        assert x in h.nodes;
        assert c in Children(h.nodes[x].kind);
        assert x < c;
      }
    }
    ReadFrameAll(h, h');
  }

  /** A new token whose children name it keeps the heap linked. */
  lemma LinkNode(h: Heap, id: Id, n: Node)
    requires Valid(h) && id !in h.nodes
    requires forall i :: 0 <= i < |Children(n.kind)| ==> Children(n.kind)[i] in h.nodes && h.nodes[Children(n.kind)[i]].parent == Some(id)
    ensures Linked(h) ==> Linked(Heap(h.nodes[id := n], h.next))
  {
    if Linked(h) {
      var nodes := h.nodes[id := n];
      forall x | x in nodes
        ensures LinkOk(nodes, x)
      {
        if x != id {
          assert LinkOk(h.nodes, x) && NodeOk(h.nodes, h.next, x);
        }
      }
    }
  }

  /** Allocates a fresh subtree holding `v` (the parse of a document, or the deep clone of a token),
      whose root gets `parent`. */
  function Alloc(h: Heap, v: Value, parent: Option<Id>): (r: (Heap, Id))
    requires Valid(h) && (parent.Some? ==> parent.value < h.next)
    ensures Valid(r.0) && Grows(h, r.0)
    ensures r.1 == h.next && r.1 in r.0.nodes && r.0.nodes[r.1].parent == parent
    ensures Read(r.0, r.1) == v
    ensures Linked(h) ==> Linked(r.0)
    decreases v, 2
  {
    match v
    case JValue(s) =>
      var id := h.next;
      LinkNode(h, id, Node(Leaf(s), parent));
      (Heap(h.nodes[id := Node(Leaf(s), parent)], h.next + 1), id)
    case JArray(items) => AllocArr(h, items, parent)
    case JObject(ms) => AllocObj(h, ms, parent)
  }

  /** An array: its items first, under an id reserved for it. */
  function AllocArr(h: Heap, items: seq<Value>, parent: Option<Id>): (r: (Heap, Id))
    requires Valid(h) && (parent.Some? ==> parent.value < h.next)
    ensures Valid(r.0) && Grows(h, r.0)
    ensures r.1 == h.next && r.1 in r.0.nodes && r.0.nodes[r.1].parent == parent
    ensures Read(r.0, r.1) == JArray(items)
    ensures Linked(h) ==> Linked(r.0)
    decreases JArray(items), 1
  {
    var (h2, ids) := AllocItems(Heap(h.nodes, h.next + 1), items, h.next);
    PlaceArr(h, h2, ids, items, parent);
    (Heap(h2.nodes[h.next := Node(Arr(ids), parent)], h2.next), h.next)
  }

  /** An object: its members first, under an id reserved for it. */
  function AllocObj(h: Heap, ms: seq<Member>, parent: Option<Id>): (r: (Heap, Id))
    requires Valid(h) && (parent.Some? ==> parent.value < h.next)
    ensures Valid(r.0) && Grows(h, r.0)
    ensures r.1 == h.next && r.1 in r.0.nodes && r.0.nodes[r.1].parent == parent
    ensures Read(r.0, r.1) == JObject(ms)
    ensures Linked(h) ==> Linked(r.0)
    decreases JObject(ms), 1
  {
    var (h2, slots) := AllocMembers(Heap(h.nodes, h.next + 1), ms, h.next);
    PlaceObj(h, h2, slots, ms, parent);
    (Heap(h2.nodes[h.next := Node(Obj(slots), parent)], h2.next), h.next)
  }

  /** Adding the array node over its allocated items. */
  lemma PlaceArr(h: Heap, h2: Heap, ids: seq<Id>, items: seq<Value>, parent: Option<Id>)
    requires Valid(h) && (parent.Some? ==> parent.value < h.next)
    requires Valid(h2) && Grows(Heap(h.nodes, h.next + 1), h2) && (Linked(Heap(h.nodes, h.next + 1)) ==> Linked(h2))
    requires |ids| == |items|
    requires forall i :: 0 <= i < |items| ==> h.next + 1 <= ids[i] && ids[i] in h2.nodes && Read(h2, ids[i]) == items[i]
    requires forall i :: 0 <= i < |items| ==> h2.nodes[ids[i]].parent == Some(h.next)
    ensures var h3 := Heap(h2.nodes[h.next := Node(Arr(ids), parent)], h2.next);
      && Valid(h3) && Grows(h, h3) && h.next in h3.nodes
      && Read(h3, h.next) == JArray(items) && (Linked(h) ==> Linked(h3))
  {
    var id := h.next;
    var n := Node(Arr(ids), parent);
    var h3 := Heap(h2.nodes[id := n], h2.next);
    AddNode(h2, id, n);
    LinkNode(h2, id, n);
    assert Read(h3, id).items == items;
  }

  /** Adding the object node over its allocated members. */
  lemma PlaceObj(h: Heap, h2: Heap, slots: seq<Slot>, ms: seq<Member>, parent: Option<Id>)
    requires Valid(h) && (parent.Some? ==> parent.value < h.next)
    requires Valid(h2) && Grows(Heap(h.nodes, h.next + 1), h2) && (Linked(Heap(h.nodes, h.next + 1)) ==> Linked(h2))
    requires |slots| == |ms|
    requires forall i :: 0 <= i < |ms| ==>
      && slots[i].name == ms[i].name && h.next + 1 <= slots[i].child && slots[i].child in h2.nodes
      && Read(h2, slots[i].child) == ms[i].value
    requires forall i :: 0 <= i < |ms| ==> h2.nodes[slots[i].child].parent == Some(h.next)
    ensures var h3 := Heap(h2.nodes[h.next := Node(Obj(slots), parent)], h2.next);
      && Valid(h3) && Grows(h, h3) && h.next in h3.nodes
      && Read(h3, h.next) == JObject(ms) && (Linked(h) ==> Linked(h3))
  {
    var id := h.next;
    var n := Node(Obj(slots), parent);
    var h3 := Heap(h2.nodes[id := n], h2.next);
    AddNode(h2, id, n);
    LinkNode(h2, id, n);
    assert Read(h3, id).members == ms;
  }

  function AllocItems(h: Heap, vs: seq<Value>, owner: Id): (r: (Heap, seq<Id>))
    requires Valid(h) && owner < h.next
    ensures Valid(r.0) && Grows(h, r.0)
    ensures |r.1| == |vs|
    ensures forall i :: 0 <= i < |vs| ==> h.next <= r.1[i] && r.1[i] in r.0.nodes && Read(r.0, r.1[i]) == vs[i]
    ensures forall i :: 0 <= i < |vs| ==> r.0.nodes[r.1[i]].parent == Some(owner)
    ensures Linked(h) ==> Linked(r.0)
    decreases vs, 0
  {
    if vs == [] then (h, [])
    else
      var (h1, c) := Alloc(h, vs[0], Some(owner));
      var (h2, cs) := AllocItems(h1, vs[1..], owner);
      ConsItem(h, h1, h2, c, cs, vs, owner);
      (h2, [c] + cs)
  }

  function AllocMembers(h: Heap, ms: seq<Member>, owner: Id): (r: (Heap, seq<Slot>))
    requires Valid(h) && owner < h.next
    ensures Valid(r.0) && Grows(h, r.0)
    ensures |r.1| == |ms|
    ensures forall i :: 0 <= i < |ms| ==>
      && r.1[i].name == ms[i].name && h.next <= r.1[i].child && r.1[i].child in r.0.nodes
      && Read(r.0, r.1[i].child) == ms[i].value
    ensures forall i :: 0 <= i < |ms| ==> r.0.nodes[r.1[i].child].parent == Some(owner)
    ensures Linked(h) ==> Linked(r.0)
    decreases ms, 0
  {
    if ms == [] then (h, [])
    else
      var (h1, c) := Alloc(h, ms[0].value, Some(owner));
      var (h2, cs) := AllocMembers(h1, ms[1..], owner);
      ConsMember(h, h1, h2, c, cs, ms, owner);
      (h2, [Slot(ms[0].name, c)] + cs)
  }

  /** The first item allocated, then the rest. */
  lemma ConsItem(h: Heap, h1: Heap, h2: Heap, c: Id, cs: seq<Id>, vs: seq<Value>, owner: Id)
    requires Valid(h1) && Valid(h2) && Extends(h1, h2) && h.next <= h1.next && |vs| > 0
    requires c == h.next && c in h1.nodes && h1.nodes[c].parent == Some(owner) && Read(h1, c) == vs[0]
    requires |cs| == |vs| - 1
    requires forall i :: 0 <= i < |vs| - 1 ==> h1.next <= cs[i] && cs[i] in h2.nodes && Read(h2, cs[i]) == vs[1..][i]
    requires forall i :: 0 <= i < |vs| - 1 ==> h2.nodes[cs[i]].parent == Some(owner)
    ensures forall i :: 0 <= i < |vs| ==>
      && h.next <= ([c] + cs)[i] && ([c] + cs)[i] in h2.nodes && Read(h2, ([c] + cs)[i]) == vs[i]
      && h2.nodes[([c] + cs)[i]].parent == Some(owner)
  {
    ReadFrame(h1, h2, c);
    var r := [c] + cs;
    forall i | 0 <= i < |vs|
      ensures h.next <= r[i] && r[i] in h2.nodes && Read(h2, r[i]) == vs[i] && h2.nodes[r[i]].parent == Some(owner)
    {
      if i > 0 {
        assert r[i] == cs[i - 1] && vs[1..][i - 1] == vs[i];
      }
    }
  }

  /** The first member allocated, then the rest. */
  lemma ConsMember(h: Heap, h1: Heap, h2: Heap, c: Id, cs: seq<Slot>, ms: seq<Member>, owner: Id)
    requires Valid(h1) && Valid(h2) && Extends(h1, h2) && h.next <= h1.next && |ms| > 0
    requires c == h.next && c in h1.nodes && h1.nodes[c].parent == Some(owner) && Read(h1, c) == ms[0].value
    requires |cs| == |ms| - 1
    requires forall i :: 0 <= i < |ms| - 1 ==>
      && cs[i].name == ms[1..][i].name && h1.next <= cs[i].child && cs[i].child in h2.nodes
      && Read(h2, cs[i].child) == ms[1..][i].value
    requires forall i :: 0 <= i < |ms| - 1 ==> h2.nodes[cs[i].child].parent == Some(owner)
    ensures var r := [Slot(ms[0].name, c)] + cs;
      forall i :: 0 <= i < |ms| ==>
        && r[i].name == ms[i].name && h.next <= r[i].child && r[i].child in h2.nodes
        && Read(h2, r[i].child) == ms[i].value && h2.nodes[r[i].child].parent == Some(owner)
  {
    ReadFrame(h1, h2, c);
    var r := [Slot(ms[0].name, c)] + cs;
    forall i | 0 <= i < |ms|
      ensures && r[i].name == ms[i].name && h.next <= r[i].child && r[i].child in h2.nodes
              && Read(h2, r[i].child) == ms[i].value && h2.nodes[r[i].child].parent == Some(owner)
    {
      if i > 0 {
        assert r[i] == cs[i - 1] && ms[1..][i - 1] == ms[i];
      }
    }
  }

  /** Everything below a node has a larger id. */
  lemma {:induction false} ReachesUpward(h: Heap, from: Id, to: Id)
    requires Valid(h) && from in h.nodes && Reaches(h, from, to)
    ensures from <= to && to in h.nodes
    decreases h.next - from
  {
    if from != to {
      var c :| c in Children(h.nodes[from].kind) && Reaches(h, c, to);
      assert NodeOk(h.nodes, h.next, from);
      ReachesUpward(h, c, to);
    }
  }

  /** A subtree reads the same in any heap that agrees on the kind of every node in it. */
  lemma {:induction false} ReadSameKinds(h1: Heap, h2: Heap, id: Id)
    requires Valid(h1) && Valid(h2) && id in h1.nodes
    requires forall x :: x in h1.nodes && Reaches(h1, id, x) ==> x in h2.nodes && h2.nodes[x].kind == h1.nodes[x].kind
    ensures id in h2.nodes && Read(h2, id) == Read(h1, id)
    decreases h1.next - id
  {
    assert Reaches(h1, id, id);
    var k := h1.nodes[id].kind;
    assert NodeOk(h1.nodes, h1.next, id);
    forall i | 0 <= i < |Children(k)|
      ensures Read(h2, Children(k)[i]) == Read(h1, Children(k)[i])
    {
      var c := Children(k)[i];
      assert c in Children(k);
      forall x | x in h1.nodes && Reaches(h1, c, x)
        ensures Reaches(h1, id, x)
      {
      }
      ReadSameKinds(h1, h2, c);
    }
  }

  /** A `$ref` property: property `index` of object `owner` is called `$ref`. */
  ghost predicate IsMarker(h: Heap, m: Marker) {
    && m.owner in h.nodes
    && h.nodes[m.owner].kind.Obj?
    && m.index < |h.nodes[m.owner].kind.slots|
    && h.nodes[m.owner].kind.slots[m.index].name == RefKeyword
  }

  /** A `$ref` property, named by the object that holds it and its position there. */
  datatype Marker = Marker(owner: Id, index: nat)

  /** The `$ref` properties among the descendants of `id`, in document order
      (`Descendants().OfType<JProperty>().Where(p => p.Name == "$ref")`): all of them, and nothing else. */
  function Markers(h: Heap, id: Id): (r: seq<Marker>)
    requires Valid(h) && id in h.nodes
    ensures forall m :: m in r ==> IsMarker(h, m) && Reaches(h, id, m.owner)
    ensures forall m :: IsMarker(h, m) && Reaches(h, id, m.owner) ==> m in r
    decreases h.next - id + 1, 0
  {
    var r := MarkersFrom(h, id, 0);
    assert forall m :: IsMarker(h, m) && Reaches(h, id, m.owner) ==> m in r by {
      forall m | IsMarker(h, m) && Reaches(h, id, m.owner)
        ensures m in r
      {
        if m.owner != id {
          var c :| c in Children(h.nodes[id].kind) && Reaches(h, c, m.owner);
          var j :| 0 <= j < |Children(h.nodes[id].kind)| && Children(h.nodes[id].kind)[j] == c;
        }
      }
    }
    r
  }

  /** The `$ref` properties from the `i`-th child of `id` on: those of `id` itself at or after
      position `i`, and those below its children from the `i`-th on. */
  function MarkersFrom(h: Heap, id: Id, i: nat): (r: seq<Marker>)
    requires Valid(h) && id in h.nodes && i <= |Children(h.nodes[id].kind)|
    ensures forall m :: m in r ==> IsMarker(h, m) && Reaches(h, id, m.owner)
    ensures forall m :: IsMarker(h, m) && m.owner == id && i <= m.index ==> m in r
    ensures forall m, j ::
      (IsMarker(h, m) && i <= j < |Children(h.nodes[id].kind)| && Reaches(h, Children(h.nodes[id].kind)[j], m.owner))
      ==> m in r
    decreases h.next - id, |Children(h.nodes[id].kind)| - i
  {
    var k := h.nodes[id].kind;
    if i == |Children(k)| then []
    else
      var c := Children(k)[i];
      ChildOf(h, id, i);
      assert c in Children(k);
      var here := if k.Obj? && k.slots[i].name == RefKeyword then [Marker(id, i)] else [];
      var below := Markers(h, c);
      var rest := MarkersFrom(h, id, i + 1);
      var r := here + below + rest;
      assert forall m :: m in below ==> Reaches(h, id, m.owner);
      assert forall m :: IsMarker(h, m) && m.owner == id && i <= m.index ==> m in r by {
        forall m | IsMarker(h, m) && m.owner == id && i <= m.index
          ensures m in r
        {
          if m.index == i {
            assert m in here;
          } else {
            assert m in rest;
          }
        }
      }
      assert forall m, j :: IsMarker(h, m) && i <= j < |Children(k)| && Reaches(h, Children(k)[j], m.owner) ==> m in r by {
        forall m, j | IsMarker(h, m) && i <= j < |Children(k)| && Reaches(h, Children(k)[j], m.owner)
          ensures m in r
        {
          if j == i {
            assert m in below;
          } else {
            assert m in rest;
          }
        }
      }
      r
  }

  /** `token.Parent != null`: the token hangs under a node of the heap. */
  predicate Attached(h: Heap, x: Id)
    requires x in h.nodes
  {
    h.nodes[x].parent.Some? && h.nodes[x].parent.value in h.nodes
  }

  /** The same kind, with every child slot holding `was` made to hold `now`. */
  function Substitute(k: Kind, was: Id, now: Id): (r: Kind)
    ensures |Children(r)| == |Children(k)|
    ensures forall i :: 0 <= i < |Children(k)| ==>
      Children(r)[i] == (if Children(k)[i] == was then now else Children(k)[i])
    ensures SameShape(k, r)
  {
    match k
    case Obj(slots) =>
      Obj(seq(|slots|, i requires 0 <= i < |slots| =>
        if slots[i].child == was then Slot(slots[i].name, now) else slots[i]))
    case Arr(items) =>
      Arr(seq(|items|, i requires 0 <= i < |items| => if items[i] == was then now else items[i]))
    case Leaf(_) => k
  }

  /** Same constructor, same property names, same number of children. */
  ghost predicate SameShape(a: Kind, b: Kind) {
    match a
    case Obj(s) => b.Obj? && |b.slots| == |s| && forall i :: 0 <= i < |s| ==> b.slots[i].name == s[i].name
    case Arr(s) => b.Arr? && |b.items| == |s|
    case Leaf(v) => b == a
  }

  /** Every node of `h1` is still in `h2`, with the same shape. */
  ghost predicate KeepsShape(h1: Heap, h2: Heap) {
    && h1.next <= h2.next
    && forall k :: k in h1.nodes ==> k in h2.nodes && SameShape(h1.nodes[k].kind, h2.nodes[k].kind)
  }

  /** The nodes after `owner`, a child of `p`, is swapped for `c`: `p`'s slot now holds `c`, `c` hangs
      under `p`, and `owner` hangs nowhere. */
  function Rewire(nodes: map<Id, Node>, p: Id, owner: Id, c: Id): map<Id, Node>
    requires p in nodes && owner in nodes && c in nodes
  {
    var n1 := nodes[p := Node(Substitute(nodes[p].kind, owner, c), nodes[p].parent)];
    var n2 := n1[owner := Node(n1[owner].kind, None)];
    n2[c := Node(n2[c].kind, Some(p))]
  }

  lemma RewireValid(h: Heap, p: Id, owner: Id, c: Id)
    requires Valid(h) && p in h.nodes && owner in h.nodes && c in h.nodes && p < c
    ensures Valid(Heap(Rewire(h.nodes, p, owner, c), h.next))
  {
    var r := Heap(Rewire(h.nodes, p, owner, c), h.next);
    forall x | x in r.nodes
      ensures NodeOk(r.nodes, r.next, x)
    {
      assert NodeOk(h.nodes, h.next, x);
      assert x != p ==> r.nodes[x].kind == h.nodes[x].kind;
      if x == p {
        var k := h.nodes[p].kind;
        forall y | y in Children(r.nodes[x].kind)
          ensures x < y && y in r.nodes
        {
          var i :| 0 <= i < |Children(r.nodes[x].kind)| && Children(r.nodes[x].kind)[i] == y;
          assert Children(k)[i] in Children(k);
        }
      }
    }
  }

  /** A rewire changes parent links and one slot, never a token's shape. */
  lemma RewireKeepsShape(h: Heap, p: Id, owner: Id, c: Id)
    requires p in h.nodes && owner in h.nodes && c in h.nodes
    ensures KeepsShape(h, Heap(Rewire(h.nodes, p, owner, c), h.next))
    ensures Rewire(h.nodes, p, owner, c).Keys == h.nodes.Keys
  {
    var r := Rewire(h.nodes, p, owner, c);
    forall x | x in h.nodes
      ensures x in r && SameShape(h.nodes[x].kind, r[x].kind)
    {
      if x != p {
        assert r[x].kind == h.nodes[x].kind;
      }
    }
  }

  /** `JToken.Replace`: the slot of `owner`'s parent that holds `owner` now holds `c`, `c` gets that
      parent, and `owner` is left without one. A token without a parent is left alone. */
  function Replace(h: Heap, owner: Id, c: Id): (r: Heap)
    requires Valid(h) && owner in h.nodes && c in h.nodes
    requires h.nodes[owner].parent.Some? ==> h.nodes[owner].parent.value < c
    ensures Valid(r) && KeepsShape(h, r) && r.next == h.next && r.nodes.Keys == h.nodes.Keys
    ensures h.nodes[owner].parent.None? || h.nodes[owner].parent.value !in h.nodes ==> r == h
    ensures h.nodes[owner].parent.Some? && h.nodes[owner].parent.value in h.nodes ==>
      r.nodes == Rewire(h.nodes, h.nodes[owner].parent.value, owner, c)
  {
    match h.nodes[owner].parent
    case None => h
    case Some(p) =>
      if p !in h.nodes then h
      else
        RewireValid(h, p, owner, c);
        RewireKeepsShape(h, p, owner, c);
        Heap(Rewire(h.nodes, p, owner, c), h.next)
  }

  /** What a rewire changes: the parent's slot, and the parent links of `owner` and `c`. */
  lemma RewireEffect(nodes: map<Id, Node>, p: Id, owner: Id, c: Id)
    requires p in nodes && owner in nodes && c in nodes && p != owner && p != c && owner != c
    ensures var r := Rewire(nodes, p, owner, c);
      && r.Keys == nodes.Keys
      && r[owner] == Node(nodes[owner].kind, None)
      && r[c] == Node(nodes[c].kind, Some(p))
      && r[p].parent == nodes[p].parent
      && (forall x :: x in nodes && x != p && x != owner && x != c ==> r[x] == nodes[x])
      && |Children(r[p].kind)| == |Children(nodes[p].kind)|
      && forall i :: 0 <= i < |Children(nodes[p].kind)| ==>
           Children(r[p].kind)[i] == (if Children(nodes[p].kind)[i] == owner then c else Children(nodes[p].kind)[i])
  {
  }

  /** `Replace` does not change what the new token reads as: nothing under it is touched. */
  lemma ReplaceKeepsRead(h: Heap, owner: Id, c: Id)
    requires Valid(h) && owner in h.nodes && c in h.nodes
    requires h.nodes[owner].parent.Some? ==> h.nodes[owner].parent.value < c
    ensures Read(Replace(h, owner, c), c) == Read(h, c)
  {
    var h2 := Replace(h, owner, c);
    forall x | x in h.nodes && Reaches(h, c, x)
      ensures x in h2.nodes && h2.nodes[x].kind == h.nodes[x].kind
    {
      ReachesUpward(h, c, x);
      ReplaceKeepsKinds(h, owner, c);
    }
    ReadSameKinds(h, h2, c);
  }

  /** `Replace` keeps the heap linked when the new token hangs nowhere yet: only the parent's slot
      changes, and only `owner` and `c` get new parents. */
  lemma ReplaceLinked(h: Heap, owner: Id, c: Id)
    requires Valid(h) && owner in h.nodes && c in h.nodes && owner != c && h.nodes[c].parent.None?
    requires h.nodes[owner].parent.Some? ==> h.nodes[owner].parent.value < c
    ensures Linked(h) ==> Linked(Replace(h, owner, c))
  {
    var pp := h.nodes[owner].parent;
    if Linked(h) && pp.Some? && pp.value in h.nodes {
      var p := pp.value;
      assert NodeOk(h.nodes, h.next, owner);
      var r := Rewire(h.nodes, p, owner, c);
      RewireEffect(h.nodes, p, owner, c);
      forall y | y in r
        ensures LinkOk(r, y)
      {
        RewiredLinkOk(h, p, owner, c, y);
      }
    }
  }

  lemma RewiredLinkOk(h: Heap, p: Id, owner: Id, c: Id, y: Id)
    requires Valid(h) && Linked(h) && p in h.nodes && owner in h.nodes && c in h.nodes && y in h.nodes
    requires h.nodes[owner].parent == Some(p) && h.nodes[c].parent.None? && p < owner && p < c && owner != c
    ensures LinkOk(Rewire(h.nodes, p, owner, c), y)
  {
    var r := Rewire(h.nodes, p, owner, c);
    RewireEffect(h.nodes, p, owner, c);
    assert LinkOk(h.nodes, y) && NodeOk(h.nodes, h.next, y);
    forall d | d in Children(r[y].kind) && d in r
      ensures r[d].parent == Some(y)
    {
      if y == p {
        var i :| 0 <= i < |Children(r[p].kind)| && Children(r[p].kind)[i] == d;
        if d != c {
          assert Children(h.nodes[p].kind)[i] == d;
          assert d in Children(h.nodes[p].kind);
        }
      } else {
        assert r[y].kind == h.nodes[y].kind;
        assert d in Children(h.nodes[y].kind);
      }
    }
  }

  /** No token of the heap holds `x`. */
  ghost predicate Unheld(h: Heap, x: Id) {
    forall y :: y in h.nodes ==> x !in Children(h.nodes[y].kind)
  }

  /** In a linked heap a token that hangs nowhere is held by no token. */
  lemma LooseUnheld(h: Heap, x: Id)
    requires Linked(h) && x in h.nodes && !Attached(h, x)
    ensures Unheld(h, x)
  {
    forall y | y in h.nodes
      ensures x !in Children(h.nodes[y].kind)
    {
      assert LinkOk(h.nodes, y);
    }
  }

  /** A token no token holds lies in no subtree but its own. */
  lemma {:induction false} UnheldUnreached(h: Heap, from: Id, x: Id)
    requires Valid(h) && from in h.nodes && Unheld(h, x) && from != x
    ensures !Reaches(h, from, x)
    decreases h.next - from
  {
    if Reaches(h, from, x) {
      var c :| c in Children(h.nodes[from].kind) && Reaches(h, c, x);
      assert NodeOk(h.nodes, h.next, from);
      UnheldUnreached(h, c, x);
      assert false;
    }
  }

  /** Deep-clones `v` into fresh nodes and splices the copy in place of `owner`
      (`owner.Replace(replacement.DeepClone())`). */
  function Splice(h: Heap, owner: Id, v: Value): (r: (Heap, Id))
    requires Valid(h) && owner in h.nodes
    ensures Valid(r.0) && KeepsShape(h, r.0)
    ensures r.1 == h.next && r.1 in r.0.nodes && Read(r.0, r.1) == v
    ensures forall k :: k in r.0.nodes ==> k in h.nodes || h.next <= k
    ensures Linked(h) ==> Linked(r.0)
  {
    var (h1, c) := Alloc(h, v, None);
    assert h1.nodes[owner] == h.nodes[owner] && NodeOk(h.nodes, h.next, owner);
    ReplaceKeepsRead(h1, owner, c);
    ReplaceLinked(h1, owner, c);
    (Replace(h1, owner, c), c)
  }

  /** `Replace` leaves loose tokens other than `c` loose and keeps every kind but the parent's. */
  lemma ReplaceKeepsKinds(h: Heap, owner: Id, c: Id)
    requires Valid(h) && owner in h.nodes && c in h.nodes
    requires h.nodes[owner].parent.Some? ==> h.nodes[owner].parent.value < c
    ensures var r := Replace(h, owner, c);
      && (forall x :: x in h.nodes && x != c && h.nodes[x].parent.None? ==> r.nodes[x].parent.None?)
      && (forall x :: x in h.nodes && (h.nodes[owner].parent.None? || x != h.nodes[owner].parent.value) ==>
            r.nodes[x].kind == h.nodes[x].kind)
      && (h.nodes[owner].parent.None? ==> r == h)
  {
  }

  /** A splice leaves loose tokens loose and keeps every kind but the parent's. */
  lemma SpliceKeepsKinds(h: Heap, owner: Id, v: Value)
    requires Valid(h) && owner in h.nodes
    ensures var r := Splice(h, owner, v);
      && (forall x :: x in h.nodes && h.nodes[x].parent.None? ==> r.0.nodes[x].parent.None?)
      && (forall x :: x in h.nodes && (h.nodes[owner].parent.None? || x != h.nodes[owner].parent.value) ==>
            r.0.nodes[x].kind == h.nodes[x].kind)
      && (h.nodes[owner].parent.None? ==> r.0.nodes[r.1].parent.None? && forall x :: x in h.nodes ==> r.0.nodes[x] == h.nodes[x])
  {
    var (h1, c) := Alloc(h, v, None);
    assert h1.nodes[owner] == h.nodes[owner] && NodeOk(h.nodes, h.next, owner);
    ReplaceKeepsKinds(h1, owner, c);
    assert Splice(h, owner, v) == (Replace(h1, owner, c), c);
  }

  /** The rewiring a splice does under a parent. */
  lemma SplicePlaces(h: Heap, owner: Id, v: Value)
    requires Valid(h) && owner in h.nodes
    ensures var r := Splice(h, owner, v);
      h.nodes[owner].parent.Some? && h.nodes[owner].parent.value in h.nodes ==>
      var p := h.nodes[owner].parent.value;
      && r.0.nodes[owner] == Node(h.nodes[owner].kind, None)
      && r.0.nodes[r.1].parent == Some(p)
      && r.0.nodes[p] == Node(Substitute(h.nodes[p].kind, owner, r.1), h.nodes[p].parent)
      && (forall x :: x in h.nodes && x != p && x != owner ==> r.0.nodes[x] == h.nodes[x])
      && |Children(r.0.nodes[p].kind)| == |Children(h.nodes[p].kind)|
      && forall i :: 0 <= i < |Children(h.nodes[p].kind)| ==>
           Children(r.0.nodes[p].kind)[i] == (if Children(h.nodes[p].kind)[i] == owner then r.1 else Children(h.nodes[p].kind)[i])
  {
    var (h1, c) := Alloc(h, v, None);
    assert h1.nodes[owner] == h.nodes[owner] && NodeOk(h.nodes, h.next, owner);
    var h2 := Replace(h1, owner, c);
    assert Splice(h, owner, v) == (h2, c);
    var pp := h.nodes[owner].parent;
    if pp.Some? && pp.value in h.nodes {
      assert h1.nodes[pp.value] == h.nodes[pp.value];
      RewireEffect(h1.nodes, pp.value, owner, c);
    }
  }

  /** Where the splice puts the copy: in the slot of `owner`'s parent that held `owner`, with that
      parent; `owner` is cut loose, and nothing else changes. A token without a parent is not replaced. */
  lemma SpliceEffect(h: Heap, owner: Id, v: Value)
    requires Valid(h) && owner in h.nodes
    ensures var r := Splice(h, owner, v);
      && (forall x :: x in h.nodes && h.nodes[x].parent.None? ==> r.0.nodes[x].parent.None?)
      && (forall x :: x in h.nodes && (h.nodes[owner].parent.None? || x != h.nodes[owner].parent.value) ==>
            r.0.nodes[x].kind == h.nodes[x].kind)
      && (h.nodes[owner].parent.None? ==> r.0.nodes[r.1].parent.None? && forall x :: x in h.nodes ==> r.0.nodes[x] == h.nodes[x])
    ensures var r := Splice(h, owner, v);
      h.nodes[owner].parent.Some? && h.nodes[owner].parent.value in h.nodes ==>
      var p := h.nodes[owner].parent.value;
      && r.0.nodes[owner] == Node(h.nodes[owner].kind, None)
      && r.0.nodes[r.1].parent == Some(p)
      && r.0.nodes[p].parent == h.nodes[p].parent
      && (forall x :: x in h.nodes && x != p && x != owner ==> r.0.nodes[x] == h.nodes[x])
      && |Children(r.0.nodes[p].kind)| == |Children(h.nodes[p].kind)|
      && forall i :: 0 <= i < |Children(h.nodes[p].kind)| ==>
           Children(r.0.nodes[p].kind)[i] == (if Children(h.nodes[p].kind)[i] == owner then r.1 else Children(h.nodes[p].kind)[i])
  {
    SpliceKeepsKinds(h, owner, v);
    SplicePlaces(h, owner, v);
  }

  /** A token cut loose stays loose: a splice attaches nothing but the fresh copy. */
  lemma SpliceKeepsDetached(h: Heap, owner: Id, v: Value, x: Id)
    requires Valid(h) && owner in h.nodes && x in h.nodes && !Attached(h, x)
    ensures !Attached(Splice(h, owner, v).0, x)
  {
    var h2 := Splice(h, owner, v).0;
    SpliceEffect(h, owner, v);
    assert NodeOk(h.nodes, h.next, x);
    if h2.nodes[x].parent.Some? {
      assert h2.nodes[x].parent == h.nodes[x].parent;
      var q := h2.nodes[x].parent.value;
      assert q < h.next && q !in h.nodes;
    }
  }

  /** The clone is a copy: a splice leaves every subtree that does not hold the replaced token's
      parent reading exactly as before, in particular the donor the replacement was read from. */
  lemma SpliceKeepsDonor(h: Heap, owner: Id, v: Value, d: Id)
    requires Valid(h) && owner in h.nodes && d in h.nodes
    requires h.nodes[owner].parent.Some? ==> !Reaches(h, d, h.nodes[owner].parent.value)
    ensures Read(Splice(h, owner, v).0, d) == Read(h, d)
  {
    var h2 := Splice(h, owner, v).0;
    SpliceEffect(h, owner, v);
    forall x | x in h.nodes && Reaches(h, d, x)
      ensures x in h2.nodes && h2.nodes[x].kind == h.nodes[x].kind
    {
    }
    ReadSameKinds(h, h2, d);
  }

  /** Reshaping keeps every `$ref` property where it was. */
  lemma MarkersKept(h1: Heap, h2: Heap, ms: seq<Marker>)
    requires KeepsShape(h1, h2) && forall m :: m in ms ==> IsMarker(h1, m)
    ensures forall m :: m in ms ==> IsMarker(h2, m)
  {
    forall m | m in ms
      ensures IsMarker(h2, m)
    {
      assert SameShape(h1.nodes[m.owner].kind, h2.nodes[m.owner].kind);
    }
  }
}
