/** A worked instance of the resolution: the document `{"a": {"$ref": "#/b"}, "b": {"x": 1}}`,
    under a strategy that accepts every reference and replaces it with its target, resolves to
    `{"a": {"x": 1}, "b": {"x": 1}}`. */
module InlineExample {
  import opened Wrappers
  import opened Json
  import opened Text
  import opened Tokens
  import opened DocumentPath
  import opened ReferenceLoader
  import opened SingleReference

  /** The in-document path of a `#/...` reference. */
  function Fragment(t: string): string {
    if |t| > 0 && t[0] == '#' then t[1..] else t
  }

  /** Every `$ref` is read as a reference into the current document, accepted, and replaced by its
      target; `docs` holds the documents that can be loaded. */
  function Inlining(docs: map<Uri, Value>): Settings {
    Settings(
      (u: Uri, v: Value) => RefInfo(true, u, if v.JValue? && v.scalar.Str? then Fragment(v.scalar.s) else ""),
      (ri: RefInfo) => true,
      (ri: RefInfo, v: Value) => v,
      (u: Uri) => if u in docs then Some(docs[u]) else None)
  }

  const Target: Value := JObject([Member("x", JValue(Num("1")))])
  const RefObject: Value := JObject([Member("$ref", JValue(Str("#/b")))])
  const Document: Value := JObject([Member("a", RefObject), Member("b", Target)])
  const Inlined: Value := JObject([Member("a", Target), Member("b", Target)])
  const S: Settings := Inlining(map["main" := Document])

  /** The tokens of `Document` once loaded: 0 is the root, 1 the `$ref` object under `a`, 2 its
      string, 3 the object under `b`, 4 its number. */
  const RefNodes: map<Id, Node> :=
    map[2 := Node(Leaf(Str("#/b")), Some(1)), 1 := Node(Obj([Slot("$ref", 2)]), Some(0))]
  const MemberNodes: map<Id, Node> :=
    RefNodes[4 := Node(Leaf(Num("1")), Some(3))][3 := Node(Obj([Slot("x", 4)]), Some(0))]
  const Loaded: Heap := Heap(MemberNodes[0 := Node(Obj([Slot("a", 1), Slot("b", 3)]), None)], 5)
  const Opened: Session := Session(Loaded, map["main" := Loader("main", 0, false)], ["main"], "main")
  const Flagged: Session := Opened.(loaders := map["main" := Loader("main", 0, true)])

  lemma AllocRefObject()
    ensures Alloc(Heap(map[], 1), RefObject, Some(0)) == (Heap(RefNodes, 3), 1)
  {
    var h1 := Heap(map[], 2);
    var h2 := Heap(map[2 := Node(Leaf(Str("#/b")), Some(1))], 3);
    assert Alloc(h1, JValue(Str("#/b")), Some(1)) == (h2, 2);
    assert RefObject.members[1..] == [];
    assert AllocMembers(h2, [], 1) == (h2, []);
    assert RefObject.members[0].value == JValue(Str("#/b")) && RefObject.members[0].name == "$ref";
    assert [Slot("$ref", 2)] + [] == [Slot("$ref", 2)];
    assert AllocMembers(h1, RefObject.members, 1) == (h2, [Slot("$ref", 2)]);
  }

  /** Reserving an id keeps a heap valid. */
  lemma ValidBumped(h: Heap)
    requires Valid(h)
    ensures Valid(Heap(h.nodes, h.next + 1))
  {
    forall id | id in h.nodes
      ensures NodeOk(h.nodes, h.next + 1, id)
    {
      assert NodeOk(h.nodes, h.next, id);
    }
  }

  lemma AllocTarget()
    ensures Alloc(Heap(RefNodes, 3), Target, Some(0)) == (Heap(MemberNodes, 5), 3)
  {
    AllocRefObject();
    ValidBumped(Heap(RefNodes, 3));
    var h1 := Heap(RefNodes, 4);
    var h2 := Heap(RefNodes[4 := Node(Leaf(Num("1")), Some(3))], 5);
    assert Alloc(h1, JValue(Num("1")), Some(3)) == (h2, 4);
    assert Target.members[1..] == [];
    assert AllocMembers(h2, [], 3) == (h2, []);
    assert Target.members[0].value == JValue(Num("1")) && Target.members[0].name == "x";
    assert [Slot("x", 4)] + [] == [Slot("x", 4)];
    assert AllocMembers(h1, Target.members, 3) == (h2, [Slot("x", 4)]);
  }

  lemma AllocDocument()
    ensures Alloc(Heap(map[], 0), Document, None) == (Loaded, 0)
  {
    AllocRefObject();
    AllocTarget();
    var h1 := Heap(map[], 1);
    var ms := Document.members;
    assert ms[0] == Member("a", RefObject) && ms[1] == Member("b", Target);
    assert AllocMembers(Heap(MemberNodes, 5), [], 0) == (Heap(MemberNodes, 5), []);
    var tl := ms[1..];
    assert tl[0] == Member("b", Target) && tl[1..] == [];
    assert Alloc(Heap(RefNodes, 3), tl[0].value, Some(0)) == (Heap(MemberNodes, 5), 3);
    assert [Slot("b", 3)] + [] == [Slot("b", 3)];
    assert AllocMembers(Heap(RefNodes, 3), tl, 0) == (Heap(MemberNodes, 5), [Slot("b", 3)]);
    assert Alloc(h1, ms[0].value, Some(0)) == (Heap(RefNodes, 3), 1);
    assert [Slot("a", 1)] + [Slot("b", 3)] == [Slot("a", 1), Slot("b", 3)];
    assert AllocMembers(h1, ms, 0) == (Heap(MemberNodes, 5), [Slot("a", 1), Slot("b", 3)]);
  }

  /** Opening the document loads it into the tokens above, unresolved. */
  lemma OpenDocument()
    ensures Open(S, "main") == Success(Opened)
  {
    AllocDocument();
  }

  lemma LoadedValid()
    ensures Valid(Loaded)
  {
    OpenDocument();
    assert Wf(Opened);
  }

  /** The only `$ref` of the document is the one under `a`. */
  lemma MarkersOfDocument()
    ensures Valid(Loaded) && Markers(Loaded, 3) == [] && Markers(Loaded, 0) == [Marker(1, 0)]
  {
    LoadedValid();
    assert Markers(Loaded, 4) == [];
    assert MarkersFrom(Loaded, 3, 1) == [];
    assert Markers(Loaded, 3) == [];
    assert Markers(Loaded, 2) == [];
    assert MarkersFrom(Loaded, 1, 1) == [];
    assert Markers(Loaded, 1) == [Marker(1, 0)];
    assert MarkersFrom(Loaded, 0, 2) == [];
    assert MarkersFrom(Loaded, 0, 1) == [];
  }

  lemma SplitSlashB()
    ensures Split("/b", "/") == ["b"]
  {
    PiecesLeadingSeparator("b");
    PiecesWithoutChar("b", '/');
    assert RemoveEmpty([""] + ["b"]) == RemoveEmpty(["b"]);
  }

  /** The `$ref` under `a` reads as the in-document path `/b`. */
  lemma ReferenceOfDocument()
    ensures Valid(Loaded) && IsMarker(Loaded, Marker(1, 0))
    ensures MarkerRef(S, Flagged, "main", Marker(1, 0)) == RefInfo(true, "main", "/b")
  {
    MarkersOfDocument();
    assert Marker(1, 0) in Markers(Loaded, 0);
    assert RefValue(Loaded, Marker(1, 0)) == JValue(Str("#/b"));
  }

  /** The `$ref` object hangs under the root. */
  lemma RefObjectAttached()
    ensures 1 in Loaded.nodes && Attached(Loaded, 1)
  {
    assert Loaded.nodes[1] == Node(Obj([Slot("$ref", 2)]), Some(0));
  }

  /** `/b` leads from the root to the object under `b`. */
  lemma WalkToB()
    ensures Valid(Loaded) && Walk(Loaded, Some(0), Split("/b", "/")) == Some(Some(3))
  {
    LoadedValid();
    SplitSlashB();
    var names := Names([Slot("a", 1), Slot("b", 3)], SlotName);
    assert names == ["a", "b"];
    assert FindName(names, "b", 1) == Some(1);
    assert FindName(names, "b", 0) == Some(1);
    assert Index(Loaded, 0, "b") == Some(Some(3));
    assert Walk(Loaded, Some(3), []) == Some(Some(3));
  }

  /** The object under `b` holds `Target`. */
  lemma ReadTarget()
    ensures Valid(Loaded) && 3 in Loaded.nodes && Read(Loaded, 3) == Target
  {
    LoadedValid();
    assert Read(Loaded, 4) == JValue(Num("1"));
  }

  lemma SubstitutePair(a: string, b: string, x: Id, y: Id, now: Id)
    requires x != y
    ensures Substitute(Obj([Slot(a, x), Slot(b, y)]), x, now) == Obj([Slot(a, now), Slot(b, y)])
  {
    assert Substitute(Obj([Slot(a, x), Slot(b, y)]), x, now).slots == [Slot(a, now), Slot(b, y)];
  }

  lemma SplicedRoot(h: Heap, v: Value)
    requires Valid(h) && 0 in h.nodes && 1 in h.nodes && h.nodes[1].parent == Some(0)
    requires h.nodes[0].kind == Obj([Slot("a", 1), Slot("b", 3)])
    ensures var sp := Splice(h, 1, v);
      0 in sp.0.nodes && sp.0.nodes[0].kind == Obj([Slot("a", sp.1), Slot("b", 3)])
  {
    SplicePlaces(h, 1, v);
    SubstitutePair("a", "b", 1, 3, Splice(h, 1, v).1);
  }

  lemma SplicedDonor(h: Heap, v: Value)
    requires Valid(h) && 0 in h.nodes && 1 in h.nodes && 3 in h.nodes && h.nodes[1].parent == Some(0)
    ensures Read(Splice(h, 1, v).0, 3) == Read(h, 3)
  {
    assert !Reaches(h, 3, 0) by {
      if Reaches(h, 3, 0) {
        ReachesUpward(h, 3, 0);
      }
    }
    SpliceKeepsDonor(h, 1, v, 3);
  }

  lemma ReadPair(h: Heap, a: Id, b: Id, v: Value)
    requires Valid(h) && 0 in h.nodes && h.nodes[0].kind == Obj([Slot("a", a), Slot("b", b)])
    requires a in h.nodes && b in h.nodes && Read(h, a) == v && Read(h, b) == v
    ensures Read(h, 0) == JObject([Member("a", v), Member("b", v)])
  {
    var ms := Read(h, 0).members;
    assert |ms| == 2 && ms[0] == Member("a", v) && ms[1] == Member("b", v);
  }

  /** Splicing the value under `b` in place of the object under `a` gives `a` and `b` equal values. */
  lemma SplicedDocument(h: Heap, v: Value)
    requires Valid(h) && 0 in h.nodes && 1 in h.nodes && 3 in h.nodes && h.nodes[1].parent == Some(0)
    requires h.nodes[0].kind == Obj([Slot("a", 1), Slot("b", 3)]) && Read(h, 3) == v
    ensures Read(Splice(h, 1, v).0, 0) == JObject([Member("a", v), Member("b", v)])
  {
    SplicedRoot(h, v);
    SplicedDonor(h, v);
    var sp := Splice(h, 1, v);
    ReadPair(sp.0, sp.1, 3, v);
  }

  lemma OpenedIs(st: Session)
    requires Open(S, "main") == Success(st)
    ensures st == Opened
  {
    OpenDocument();
  }

  /** Resolving the opened document makes exactly one splice: the target in place of the object
      under `a`. */
  lemma ResolvedHeap(st: Session)
    requires Open(S, "main") == Success(st) && st == Opened
    ensures var r := EnsureRefResolved(S, st, "main", 1);
      r.Success? && r.value.heap == Splice(st.heap, 1, Target).0 && r.value.loaders["main"].root == 0
  {
    MarkersOfDocument();
    ReferenceOfDocument();
    WalkToB();
    ReadTarget();
    RefObjectAttached();
    assert MarkerRef(S, st, "main", Marker(1, 0)) == RefInfo(true, "main", "/b");
    SingleNestedRef(S, st, "main", Marker(1, 0), 3, 1);
  }

  /** After the splice the root reads as the inlined document. */
  lemma ResolvedDocument()
    ensures Valid(Loaded) && 1 in Loaded.nodes
    ensures var h := Splice(Loaded, 1, Target).0; 0 in h.nodes && Read(h, 0) == Inlined
  {
    LoadedValid();
    ReadTarget();
    SplicedDocument(Loaded, Target);
  }

  /** The document with its one in-document reference resolves to the target copied in its place,
      the target itself left as it was. */
  lemma InlinedReference(st: Session)
    requires Open(S, "main") == Success(st)
    ensures GetRefResolved(S, st, 1).Success? && GetRefResolved(S, st, 1).value.1 == Inlined
  {
    OpenedIs(st);
    ResolvedHeap(st);
    ResolvedDocument();
  }
}
