/** The `$ref` resolution engine: one loader per document, a registry of loaders shared by a whole
    resolution and keyed by absolute URI, and the recursive expansion that splices a deep copy of
    each reference's target in place of the object that holds the `$ref`. */
module ReferenceLoader {

  import opened Wrappers
  import opened Json
  import opened Text
  import opened Tokens
  import opened DocumentPath

  type Uri = string

  /** What `RefInfo.GetRefInfo` makes of a `$ref` value: whether it points into the current document,
      the absolute URI of the document it points into, and the path inside that document. */
  datatype RefInfo = RefInfo(isNested: bool, documentUri: Uri, inDocumentPath: string)

  /** The collaborators a resolution depends on and whose code is not part of this model.
      `refInfo` parses the text of a `$ref` value against the URI of the document holding it;
      `shouldResolve` and `replacement` are the strategy's `ShouldResolveReference` and the value its
      `ApplyRefReplacement` puts in place of the `$ref` object (the inline strategy keeps the target as
      it is); `load` downloads and deserialises a document, `None` when that fails. */
  datatype Settings = Settings(
    refInfo: (Uri, Value) -> RefInfo,
    shouldResolve: RefInfo -> bool,
    replacement: (RefInfo, Value) -> Value,
    load: Uri -> Option<Value>)

  /** One `ReferenceLoader`: its `_documentUri`, its `_rootJObj` and its `_isResolved` flag. */
  datatype Loader = Loader(uri: Uri, root: Id, isResolved: bool)

  /** The state shared by one resolution: the token graph of every loaded document, the registry
      (`_otherLoaders`), the URIs downloaded in order, and the URI of the document resolution started from. */
  datatype Session = Session(heap: Heap, loaders: map<Uri, Loader>, downloads: seq<Uri>, rootUri: Uri)

  datatype Error =
    | PathNotFound(path: string, document: Uri)      // the `InvalidDataException` of `GetDocumentPart`
    | DocumentUnavailable(document: Uri)             // the download or the parse failed
    | NullReplacement(path: string, document: Uri)   // `DeepClone` on the null a missing last key yields
    | OutOfFuel                                      // the expansion went deeper than the fuel allows

  predicate NoDup<T(==)>(s: seq<T>) {
    forall i, j :: 0 <= i < j < |s| ==> s[i] != s[j]
  }

  /** The invariant of a session: the tokens form a forest whose parent links agree with the
      slots, every loader is registered under its own URI, its tree is a detached tree of the heap,
      the registry holds the root document, and each registered URI was downloaded exactly once. */
  ghost predicate Wf(st: Session) {
    && Valid(st.heap)
    && Linked(st.heap)
    && st.rootUri in st.loaders
    && (forall u :: u in st.loaders ==>
          && st.loaders[u].uri == u
          && st.loaders[u].root in st.heap.nodes
          && st.heap.nodes[st.loaders[u].root].parent.None?)
    && NoDup(st.downloads)
    && (forall u :: u in st.loaders <==> u in st.downloads)
  }

  /** How a session may change: tokens keep their shape, new tokens get fresh ids, a token keeps its
      parent unless it is cut loose, a token cut loose stays loose, loaders are never dropped or
      replaced, a resolved flag is never cleared, and the download log only grows. */
  ghost predicate Evolves(a: Session, b: Session) {
    && KeepsShape(a.heap, b.heap)
    && (forall k :: k in b.heap.nodes ==> k in a.heap.nodes || a.heap.next <= k)
    && (forall x :: x in a.heap.nodes && !Attached(a.heap, x) ==> x in b.heap.nodes && !Attached(b.heap, x))
    && (forall x :: x in a.heap.nodes ==>
          x in b.heap.nodes && (b.heap.nodes[x].parent == a.heap.nodes[x].parent || b.heap.nodes[x].parent.None?))
    && b.rootUri == a.rootUri
    && (forall u :: u in a.loaders ==>
          && u in b.loaders
          && b.loaders[u].root == a.loaders[u].root
          && (a.loaders[u].isResolved ==> b.loaders[u].isResolved))
    && a.downloads <= b.downloads
  }

  lemma EvolvesTrans(a: Session, b: Session, c: Session)
    requires Evolves(a, b) && Evolves(b, c)
    ensures Evolves(a, c)
  {
  }

  /** A heap that only grew keeps every loose token loose: the parent it names is older than the
      token, so never one of the new ids. */
  lemma GrowsKeepsDetached(h1: Heap, h2: Heap)
    requires Valid(h1) && Grows(h1, h2)
    ensures forall x :: x in h1.nodes && !Attached(h1, x) ==> x in h2.nodes && !Attached(h2, x)
  {
    forall x | x in h1.nodes && !Attached(h1, x)
      ensures x in h2.nodes && !Attached(h2, x)
    {
      assert NodeOk(h1.nodes, h1.next, x);
      assert h2.nodes[x] == h1.nodes[x];
    }
  }

  /** The new `ReferenceLoader(uri, ...)`: downloads and deserialises the document into fresh tokens;
      the loader starts unresolved. */
  function NewLoader(s: Settings, h: Heap, uri: Uri): (r: Result<(Heap, Loader), Error>)
    requires Valid(h)
    ensures r.Failure? <==> s.load(uri).None?
    ensures r.Failure? ==> r.error == DocumentUnavailable(uri)
    ensures r.Success? ==>
      && Valid(r.value.0) && Grows(h, r.value.0) && (Linked(h) ==> Linked(r.value.0))
      && r.value.1 == Loader(uri, h.next, false)
      && r.value.1.root in r.value.0.nodes && r.value.0.nodes[r.value.1.root].parent.None?
      && Read(r.value.0, r.value.1.root) == s.load(uri).value
  {
    match s.load(uri)
    case None => Failure(DocumentUnavailable(uri))
    case Some(v) =>
      var (h1, root) := Alloc(h, v, None);
      Success((h1, Loader(uri, root, false)))
  }

  /** The public constructor: loads the root document and seeds the registry with it alone. */
  function Open(s: Settings, uri: Uri): (r: Result<Session, Error>)
    ensures r.Failure? <==> s.load(uri).None?
    ensures r.Success? ==>
      && Wf(r.value)
      && r.value.rootUri == uri
      && r.value.loaders.Keys == {uri}
      && !r.value.loaders[uri].isResolved
      && r.value.downloads == [uri]
      && Read(r.value.heap, r.value.loaders[uri].root) == s.load(uri).value
  {
    var p :- NewLoader(s, Heap(map[], 0), uri);
    Success(Session(p.0, map[uri := p.1], [uri], uri))
  }

  /** `GetReferenceLoader`: the current loader for a reference into the current document; otherwise
      the registered loader for the target URI, or a new one, registered under that URI. */
  function GetReferenceLoader(s: Settings, st: Session, u: Uri, ri: RefInfo): (r: Result<(Session, Uri), Error>)
    requires Wf(st) && u in st.loaders
    ensures r.Success? ==> Wf(r.value.0) && Evolves(st, r.value.0) && r.value.1 in r.value.0.loaders
    ensures ri.isNested ==> r == Success((st, u))
    ensures !ri.isNested && ri.documentUri in st.loaders ==> r == Success((st, ri.documentUri))
    ensures !ri.isNested && ri.documentUri !in st.loaders ==>
      && (r.Failure? <==> s.load(ri.documentUri).None?)
      && (r.Failure? ==> r.error == DocumentUnavailable(ri.documentUri))
      && (r.Success? ==>
            && r.value.1 == ri.documentUri
            && r.value.0.loaders == st.loaders[ri.documentUri := Loader(ri.documentUri, st.heap.next, false)]
            && r.value.0.downloads == st.downloads + [ri.documentUri]
            && Read(r.value.0.heap, st.heap.next) == s.load(ri.documentUri).value)
  {
    if ri.isNested then Success((st, u))
    else if ri.documentUri in st.loaders then Success((st, ri.documentUri))
    else
      var p :- NewLoader(s, st.heap, ri.documentUri);
      var st1 := Session(p.0, st.loaders[ri.documentUri := p.1], st.downloads + [ri.documentUri], st.rootUri);
      NewLoaderWf(st, p.0, ri.documentUri, p.1);
      Success((st1, ri.documentUri))
  }

  lemma NewLoaderWf(st: Session, h: Heap, uri: Uri, l: Loader)
    requires Wf(st) && uri !in st.loaders
    requires Valid(h) && Linked(h) && Grows(st.heap, h) && l.uri == uri && l.root in h.nodes && h.nodes[l.root].parent.None?
    requires !l.isResolved
    ensures var st1 := Session(h, st.loaders[uri := l], st.downloads + [uri], st.rootUri);
      Wf(st1) && Evolves(st, st1)
  {
    var st1 := Session(h, st.loaders[uri := l], st.downloads + [uri], st.rootUri);
    GrowsKeepsDetached(st.heap, h);
    forall k | k in st.heap.nodes
      ensures SameShape(st.heap.nodes[k].kind, h.nodes[k].kind)
    {
      assert h.nodes[k] == st.heap.nodes[k];
    }
    forall v | v in st.loaders
      ensures st1.loaders[v].root in h.nodes && h.nodes[st1.loaders[v].root].parent.None?
    {
      if v != uri {
        assert h.nodes[st.loaders[v].root] == st.heap.nodes[st.loaders[v].root];
      }
    }
    assert NoDup(st1.downloads) by {
      assert uri !in st.downloads;
    }
  }

  /** The value of a `$ref` property, whose text is what `refProperty.Value.ToString()` renders. */
  function RefValue(h: Heap, m: Marker): (r: Value)
    requires Valid(h) && IsMarker(h, m)
    ensures Read(h, m.owner).JObject? && m.index < |Read(h, m.owner).members|
    ensures Read(h, m.owner).members[m.index] == Member("$ref", r)
  {
    ChildOf(h, m.owner, m.index);
    Read(h, h.nodes[m.owner].kind.slots[m.index].child)
  }

  /** `RefInfo.GetRefInfo(_documentUri, refPath)` for a marker of loader `u`. */
  function MarkerRef(s: Settings, st: Session, u: Uri, m: Marker): RefInfo
    requires Valid(st.heap) && IsMarker(st.heap, m)
  {
    s.refInfo(u, RefValue(st.heap, m))
  }

  /** `EnsureRefResolved`: a loader resolves its document once; the flag is set before the
      resolution starts, so a call made while it runs returns at once. */
  function EnsureRefResolved(s: Settings, st: Session, u: Uri, fuel: nat): (r: Result<Session, Error>)
    requires Wf(st) && u in st.loaders
    ensures r.Success? ==> Wf(r.value) && Evolves(st, r.value) && r.value.loaders[u].isResolved
    ensures st.loaders[u].isResolved ==> r == Success(st)
    decreases fuel, 6, 0
  {
    var l := st.loaders[u];
    if l.isResolved then Success(st)
    else
      var st1 := st.(loaders := st.loaders[u := l.(isResolved := true)]);
      assert Evolves(st, st1);
      var r := ResolveRef(s, st1, u, Some(l.root), fuel);
      if r.Success? then
        EvolvesTrans(st, st1, r.value);
        r
      else r
  }

  /** `ResolveRef(token)`: on a container, collects every `$ref` property below it before touching
      anything, then resolves them one after the other; any other token (a scalar, or null) is left alone. */
  function ResolveRef(s: Settings, st: Session, u: Uri, tok: Option<Id>, fuel: nat): (r: Result<Session, Error>)
    requires Wf(st) && u in st.loaders && (tok.Some? ==> tok.value in st.heap.nodes)
    ensures r.Success? ==> Wf(r.value) && Evolves(st, r.value)
    ensures tok.None? || st.heap.nodes[tok.value].kind.Leaf? ==> r == Success(st)
    decreases fuel, 5, 0
  {
    match tok
    case None => Success(st)
    case Some(id) =>
      if st.heap.nodes[id].kind.Leaf? then Success(st)
      else ResolveMarkers(s, st, u, Markers(st.heap, id), fuel)
  }

  /** The loop of `ResolveRef` over the markers it collected, in document order. */
  function ResolveMarkers(s: Settings, st: Session, u: Uri, ms: seq<Marker>, fuel: nat): (r: Result<Session, Error>)
    requires Wf(st) && u in st.loaders && forall m :: m in ms ==> IsMarker(st.heap, m)
    ensures r.Success? ==> Wf(r.value) && Evolves(st, r.value)
    decreases fuel, 4, |ms|
  {
    if ms == [] then Success(st)
    else
      var p :- ResolveMarker(s, st, u, ms[0], fuel);
      MarkersKept(st.heap, p.0.heap, ms[1..]);
      var r := ResolveMarkers(s, p.0, u, ms[1..], fuel);
      if r.Success? then
        EvolvesTrans(st, p.0, r.value);
        r
      else r
  }

  /** One pass of the loop for marker `m`: skip it if the strategy declines it; otherwise fetch its
      target, expand the target's own references, and, unless the object holding `m` was cut loose
      meanwhile, put a deep copy of the strategy's replacement in that object's place. The second
      component is the copy spliced in, if any. */
  function ResolveMarker(s: Settings, st: Session, u: Uri, m: Marker, fuel: nat): (r: Result<(Session, Option<Id>), Error>)
    requires Wf(st) && u in st.loaders && IsMarker(st.heap, m)
    ensures r.Success? ==> Wf(r.value.0) && Evolves(st, r.value.0)
    ensures !s.shouldResolve(MarkerRef(s, st, u, m)) ==> r == Success((st, None))
    ensures r.Success? && s.shouldResolve(MarkerRef(s, st, u, m)) ==> !Attached(r.value.0.heap, m.owner)
    ensures r.Success? && r.value.1.Some? ==>
      && Attached(st.heap, m.owner)
      && st.heap.next <= r.value.1.value
      && r.value.1.value in r.value.0.heap.nodes
      && Attached(r.value.0.heap, r.value.1.value)
    ensures r.Success? && r.value.1.Some? ==>
      var ri := MarkerRef(s, st, u, m);
      && fuel > 0
      && GetRefJToken(s, st, u, ri, fuel - 1).Success?
      && var g := GetRefJToken(s, st, u, ri, fuel - 1).value;
      && g.1.Some?
      && ResolveRef(s, g.0, u, g.1, fuel - 1).Success?
      && var st2 := ResolveRef(s, g.0, u, g.1, fuel - 1).value;
      && Attached(st2.heap, m.owner)
      && var sp := Splice(st2.heap, m.owner, s.replacement(ri, Read(st2.heap, g.1.value)));
      r.value == (st2.(heap := sp.0), Some(sp.1))
    decreases fuel, 3, 0
  {
    var ri := MarkerRef(s, st, u, m);
    if !s.shouldResolve(ri) then Success((st, None))
    else if fuel == 0 then Failure(OutOfFuel)
    else
      var p1 :- GetRefJToken(s, st, u, ri, fuel - 1);
      var target := p1.1;
      var st2 :- ResolveRef(s, p1.0, u, target, fuel - 1);
      EvolvesTrans(st, p1.0, st2);
      if !Attached(st2.heap, m.owner) then Success((st2, None))
      else
        match target
        case None => Failure(NullReplacement(ri.inDocumentPath, ri.documentUri))
        case Some(t) =>
          var v := s.replacement(ri, Read(st2.heap, t));
          var (h3, c) := Splice(st2.heap, m.owner, v);
          var st3 := st2.(heap := h3);
          SpliceWf(st2, m.owner, v);
          EvolvesTrans(st, st2, st3);
          Success((st3, Some(c)))
  }

  /** Where a pass puts the copy and what it holds: the copy takes the slot that the object holding
      the `$ref` had in its parent when the pass started, and reads as the strategy's replacement for
      the target, as the target stands once its own references are expanded; the object is cut loose,
      so that no token holds it any more, and the splice changes no other token. */
  lemma ResolveMarkerSplice(s: Settings, st: Session, u: Uri, m: Marker, fuel: nat)
    requires Wf(st) && u in st.loaders && IsMarker(st.heap, m)
    ensures var r := ResolveMarker(s, st, u, m, fuel);
      r.Success? && r.value.1.Some? ==>
      var ri := MarkerRef(s, st, u, m);
      var h := r.value.0.heap;
      var c := r.value.1.value;
      var p := st.heap.nodes[m.owner].parent.value;
      && fuel > 0
      && GetRefJToken(s, st, u, ri, fuel - 1).Success?
      && var g := GetRefJToken(s, st, u, ri, fuel - 1).value;
      && g.1.Some?
      && ResolveRef(s, g.0, u, g.1, fuel - 1).Success?
      && var e := ResolveRef(s, g.0, u, g.1, fuel - 1).value.heap;
      && m.owner in e.nodes && e.nodes[m.owner].parent == Some(p) && p in e.nodes
      && c in h.nodes && p in h.nodes && m.owner in h.nodes
      && Read(h, c) == s.replacement(ri, Read(e, g.1.value))
      && h.nodes[c].parent == Some(p)
      && h.nodes[m.owner].parent.None? && Unheld(h, m.owner)
      && |Children(h.nodes[p].kind)| == |Children(e.nodes[p].kind)|
      && (forall i :: 0 <= i < |Children(e.nodes[p].kind)| ==>
            Children(h.nodes[p].kind)[i] == (if Children(e.nodes[p].kind)[i] == m.owner then c else Children(e.nodes[p].kind)[i]))
      && forall x :: x in e.nodes && x != p && x != m.owner ==> x in h.nodes && h.nodes[x] == e.nodes[x]
  {
    var r := ResolveMarker(s, st, u, m, fuel);
    if r.Success? && r.value.1.Some? {
      var ri := MarkerRef(s, st, u, m);
      var g := GetRefJToken(s, st, u, ri, fuel - 1).value;
      var st2 := ResolveRef(s, g.0, u, g.1, fuel - 1).value;
      EvolvesTrans(st, g.0, st2);
      SpliceStep(st, st2, m.owner, s.replacement(ri, Read(st2.heap, g.1.value)));
      LooseUnheld(r.value.0.heap, m.owner);
    }
  }

  /** The splice at the end of a pass, seen from the session the pass started in: the object keeps
      the parent it had then until the copy takes its slot there. */
  lemma SpliceStep(st: Session, st2: Session, owner: Id, v: Value)
    requires Wf(st) && Wf(st2) && Evolves(st, st2) && owner in st.heap.nodes && Attached(st2.heap, owner)
    ensures var (h, c) := Splice(st2.heap, owner, v);
      var p := st.heap.nodes[owner].parent.value;
      && Wf(st2.(heap := h)) && Evolves(st, st2.(heap := h))
      && !Attached(h, owner) && Attached(h, c) && st2.heap.next <= c
      && Attached(st.heap, owner) && st2.heap.nodes[owner].parent == Some(p) && p in st2.heap.nodes
      && c in h.nodes && p in h.nodes && owner in h.nodes
      && Read(h, c) == v
      && h.nodes[c].parent == Some(p)
      && h.nodes[owner].parent.None?
      && |Children(h.nodes[p].kind)| == |Children(st2.heap.nodes[p].kind)|
      && (forall i :: 0 <= i < |Children(st2.heap.nodes[p].kind)| ==>
            Children(h.nodes[p].kind)[i]
              == (if Children(st2.heap.nodes[p].kind)[i] == owner then c else Children(st2.heap.nodes[p].kind)[i]))
      && forall x :: x in st2.heap.nodes && x != p && x != owner ==> x in h.nodes && h.nodes[x] == st2.heap.nodes[x]
  {
    var (h, c) := Splice(st2.heap, owner, v);
    SpliceWf(st2, owner, v);
    SpliceEffect(st2.heap, owner, v);
    EvolvesTrans(st, st2, st2.(heap := h));
  }

  /** A splice keeps the session invariant and is a legal evolution; it detaches the replaced
      object and attaches the copy. */
  lemma SpliceWf(st: Session, owner: Id, v: Value)
    requires Wf(st) && owner in st.heap.nodes && Attached(st.heap, owner)
    ensures var (h, c) := Splice(st.heap, owner, v);
      && Wf(st.(heap := h)) && Evolves(st, st.(heap := h))
      && !Attached(h, owner) && Attached(h, c)
  {
    var (h, c) := Splice(st.heap, owner, v);
    SpliceEffect(st.heap, owner, v);
    forall x | x in st.heap.nodes && !Attached(st.heap, x)
      ensures !Attached(h, x)
    {
      SpliceKeepsDetached(st.heap, owner, v, x);
    }
    var p := st.heap.nodes[owner].parent.value;
    assert h.nodes[c].parent == Some(p);
  }

  /** `GetRefJToken`: the target token of a reference, found through the loader that owns its document. */
  function GetRefJToken(s: Settings, st: Session, u: Uri, ri: RefInfo, fuel: nat): (r: Result<(Session, Option<Id>), Error>)
    requires Wf(st) && u in st.loaders
    ensures r.Success? ==> Wf(r.value.0) && Evolves(st, r.value.0)
    ensures r.Success? && r.value.1.Some? ==> r.value.1.value in r.value.0.heap.nodes
    ensures r.Success? ==>
      var v := if ri.isNested then u else ri.documentUri;
      && v in r.value.0.loaders && r.value.0.loaders[v].isResolved
      && Walk(r.value.0.heap, Some(r.value.0.loaders[v].root), Split(ri.inDocumentPath, "/")) == Some(r.value.1)
    decreases fuel, 8, 0
  {
    var p :- GetReferenceLoader(s, st, u, ri);
    var r := GetDocumentPart(s, p.0, p.1, ri.inDocumentPath, fuel);
    if r.Success? then
      EvolvesTrans(st, p.0, r.value.0);
      r
    else r
  }

  /** `GetDocumentPart(path)`: resolves the loader's own document first, then walks from its root
      along `path`; a lookup that throws is reported as `PathNotFound` naming the path and the document. */
  function GetDocumentPart(s: Settings, st: Session, u: Uri, path: string, fuel: nat): (r: Result<(Session, Option<Id>), Error>)
    requires Wf(st) && u in st.loaders
    ensures r.Success? ==> Wf(r.value.0) && Evolves(st, r.value.0) && r.value.0.loaders[u].isResolved
    ensures r.Success? && r.value.1.Some? ==> r.value.1.value in r.value.0.heap.nodes
    ensures r.Success? ==> Walk(r.value.0.heap, Some(r.value.0.loaders[u].root), Split(path, "/")) == Some(r.value.1)
    ensures r.Success? && r.value.1.Some? ==>
      At(Read(r.value.0.heap, r.value.0.loaders[u].root), NonBlank(Split(path, "/"))) == Some(Read(r.value.0.heap, r.value.1.value))
    ensures var e := EnsureRefResolved(s, st, u, fuel);
      && (e.Failure? ==> r == Failure(e.error))
      && (e.Success? && r.Failure? ==> r.error == PathNotFound(path, u))
      && (r.Success? ==> e.Success? && r.value.0 == e.value)
    ensures st.loaders[u].isResolved ==>
      && (r.Failure? <==> Walk(st.heap, Some(st.loaders[u].root), Split(path, "/")).None?)
      && (r.Failure? ==> r.error == PathNotFound(path, u))
      && (r.Success? ==> r.value.0 == st)
      && (r.Success? && r.value.1.Some? ==>
            At(Read(st.heap, st.loaders[u].root), NonBlank(Split(path, "/"))) == Some(Read(st.heap, r.value.1.value)))
    decreases fuel, 7, 0
  {
    var st1 :- EnsureRefResolved(s, st, u, fuel);
    var root := st1.loaders[u].root;
    match Walk(st1.heap, Some(root), Split(path, "/"))
    case None => Failure(PathNotFound(path, u))
    case Some(t) =>
      WalkMatchesAt(st1.heap, root, Split(path, "/"));
      Success((st1, t))
  }

  /** `GetRefResolvedJObject`: the root document with every reference resolved. */
  function GetRefResolved(s: Settings, st: Session, fuel: nat): (r: Result<(Session, Value), Error>)
    requires Wf(st)
    ensures r.Success? ==> Wf(r.value.0) && Evolves(st, r.value.0) && r.value.0.loaders[st.rootUri].isResolved
    ensures r.Success? ==> r.value.1 == Read(r.value.0.heap, r.value.0.loaders[st.rootUri].root)
    ensures st.loaders[st.rootUri].isResolved ==> r == Success((st, Read(st.heap, st.loaders[st.rootUri].root)))
  {
    var st1 :- EnsureRefResolved(s, st, st.rootUri, fuel);
    Success((st1, Read(st1.heap, st1.loaders[st.rootUri].root)))
  }

  /** Resolution is one-shot: once `EnsureRefResolved` has succeeded, calling it again, with any
      fuel, changes nothing. */
  lemma ResolveIdempotent(s: Settings, st: Session, u: Uri, fuel: nat, fuel2: nat)
    requires Wf(st) && u in st.loaders
    ensures var r := EnsureRefResolved(s, st, u, fuel);
      r.Success? ==> EnsureRefResolved(s, r.value, u, fuel2) == r
  {
  }

  /** Asking twice for the resolved root document gives the same tree and the same session. */
  lemma GetRefResolvedIdempotent(s: Settings, st: Session, fuel: nat, fuel2: nat)
    requires Wf(st)
    ensures var r := GetRefResolved(s, st, fuel);
      r.Success? ==> GetRefResolved(s, r.value.0, fuel2) == r
  {
  }

  /** Markers the strategy declines are left exactly as they were: when it declines all of them,
      the loop changes nothing at all. */
  lemma {:induction false} DeclinedMarkersUntouched(s: Settings, st: Session, u: Uri, ms: seq<Marker>, fuel: nat)
    requires Wf(st) && u in st.loaders && forall m :: m in ms ==> IsMarker(st.heap, m)
    requires forall m :: m in ms ==> !s.shouldResolve(MarkerRef(s, st, u, m))
    ensures ResolveMarkers(s, st, u, ms, fuel) == Success(st)
    decreases |ms|
  {
    if ms != [] {
      assert ms[0] in ms;
      DeclinedMarkersUntouched(s, st, u, ms[1..], fuel);
    }
  }

  /** A strategy that declines every reference leaves a document exactly as loaded. */
  lemma DecliningStrategyChangesNothing(s: Settings, st: Session, u: Uri, fuel: nat)
    requires Wf(st) && u in st.loaders && !st.loaders[u].isResolved
    requires forall ri :: !s.shouldResolve(ri)
    ensures EnsureRefResolved(s, st, u, fuel) == Success(st.(loaders := st.loaders[u := st.loaders[u].(isResolved := true)]))
  {
    var l := st.loaders[u];
    var st1 := st.(loaders := st.loaders[u := l.(isResolved := true)]);
    assert Evolves(st, st1);
    if !st.heap.nodes[l.root].kind.Leaf? {
      DeclinedMarkersUntouched(s, st1, u, Markers(st1.heap, l.root), fuel);
    }
  }

  /** Under a strategy that accepts every reference, a successful loop leaves the object holding
      each visited `$ref` cut loose and held by no token: replaced by a copy, or already cut loose by
      an earlier splice. */
  lemma {:induction false} AcceptedMarkersDetached(s: Settings, st: Session, u: Uri, ms: seq<Marker>, fuel: nat)
    requires Wf(st) && u in st.loaders && forall m :: m in ms ==> IsMarker(st.heap, m)
    requires forall ri :: s.shouldResolve(ri)
    ensures var r := ResolveMarkers(s, st, u, ms, fuel);
      r.Success? ==> forall m :: m in ms ==>
        m.owner in r.value.heap.nodes && !Attached(r.value.heap, m.owner) && Unheld(r.value.heap, m.owner)
    decreases |ms|
  {
    var r := ResolveMarkers(s, st, u, ms, fuel);
    if ms != [] && r.Success? {
      var p := ResolveMarker(s, st, u, ms[0], fuel);
      assert p.Success?;
      MarkersKept(st.heap, p.value.0.heap, ms[1..]);
      AcceptedMarkersDetached(s, p.value.0, u, ms[1..], fuel);
      assert r == ResolveMarkers(s, p.value.0, u, ms[1..], fuel);
      forall m | m in ms
        ensures m.owner in r.value.heap.nodes && !Attached(r.value.heap, m.owner) && Unheld(r.value.heap, m.owner)
      {
        if m != ms[0] {
          assert m in ms[1..];
        }
        LooseUnheld(r.value.heap, m.owner);
      }
    }
  }

  /** Under a strategy that accepts every reference, a successful `ResolveRef(token)` leaves no
      object holding a `$ref` below `token` attached or held by any token. */
  lemma AcceptedRefsDetached(s: Settings, st: Session, u: Uri, id: Id, fuel: nat)
    requires Wf(st) && u in st.loaders && id in st.heap.nodes
    requires forall ri :: s.shouldResolve(ri)
    ensures var r := ResolveRef(s, st, u, Some(id), fuel);
      r.Success? ==> forall m :: IsMarker(st.heap, m) && Reaches(st.heap, id, m.owner) ==>
        m.owner in r.value.heap.nodes && !Attached(r.value.heap, m.owner) && Unheld(r.value.heap, m.owner)
  {
    if !st.heap.nodes[id].kind.Leaf? {
      AcceptedMarkersDetached(s, st, u, Markers(st.heap, id), fuel);
    }
  }

  /** Under a strategy that accepts every reference, a successful first resolution of a document
      leaves no object that held a `$ref` in the loaded document attached or held by any token: the
      resolved document contains none of them, except its root when the root itself holds a `$ref`. */
  lemma AcceptingStrategyDetachesAll(s: Settings, st: Session, u: Uri, fuel: nat)
    requires Wf(st) && u in st.loaders && !st.loaders[u].isResolved
    requires forall ri :: s.shouldResolve(ri)
    ensures var r := EnsureRefResolved(s, st, u, fuel);
      r.Success? ==> forall m :: IsMarker(st.heap, m) && Reaches(st.heap, st.loaders[u].root, m.owner) ==>
        && m.owner in r.value.heap.nodes && !Attached(r.value.heap, m.owner) && Unheld(r.value.heap, m.owner)
        && (m.owner != st.loaders[u].root ==> !Reaches(r.value.heap, r.value.loaders[u].root, m.owner))
  {
    var l := st.loaders[u];
    var st1 := st.(loaders := st.loaders[u := l.(isResolved := true)]);
    assert Wf(st1);
    AcceptedRefsDetached(s, st1, u, l.root, fuel);
    var r := EnsureRefResolved(s, st, u, fuel);
    if r.Success? {
      forall m | IsMarker(st.heap, m) && Reaches(st.heap, l.root, m.owner) && m.owner != l.root
        ensures !Reaches(r.value.heap, r.value.loaders[u].root, m.owner)
      {
        UnheldUnreached(r.value.heap, l.root, m.owner);
      }
    }
  }

  /** A registered URI is served from the registry: once a loader for a document exists, looking it
      up again neither downloads nor registers anything. */
  lemma RegisteredLoaderReused(s: Settings, st: Session, u: Uri, ri: RefInfo)
    requires Wf(st) && u in st.loaders
    ensures var r := GetReferenceLoader(s, st, u, ri);
      r.Success? ==> GetReferenceLoader(s, r.value.0, u, ri) == r
  {
  }

  /** A whole resolution downloads each URI at most once, and never one that was registered before
      it started. */
  lemma OneDownloadPerUri(s: Settings, st: Session, u: Uri, fuel: nat)
    requires Wf(st) && u in st.loaders
    ensures var r := EnsureRefResolved(s, st, u, fuel);
      r.Success? ==>
        && NoDup(r.value.downloads)
        && (forall v :: v in st.loaders ==> v in r.value.loaders && r.value.loaders[v].root == st.loaders[v].root)
        && forall j :: |st.downloads| <= j < |r.value.downloads| ==> r.value.downloads[j] !in st.loaders
  {
  }

  /** An empty path, `/`, `//`, ... names the root of the (already resolved) document. */
  lemma SeparatorsPathIsRoot(s: Settings, st: Session, u: Uri, n: nat, fuel: nat)
    requires Wf(st) && u in st.loaders && st.loaders[u].isResolved
    ensures GetDocumentPart(s, st, u, Repeat("/", n), fuel) == Success((st, Some(st.loaders[u].root)))
  {
    SeparatorsPathIsStart(st.heap, Some(st.loaders[u].root), n);
  }

  /** Doubled separators do not matter: `//a//b` finds what `a/b` finds. */
  lemma DoubledSeparatorsSameTarget(s: Settings, st: Session, u: Uri, a: string, b: string, fuel: nat)
    requires Wf(st) && u in st.loaders
    requires a != "" && b != "" && '/' !in a && '/' !in b
    ensures GetDocumentPart(s, st, u, "//" + a + "//" + b, fuel).Success? <==> GetDocumentPart(s, st, u, a + "/" + b, fuel).Success?
    ensures GetDocumentPart(s, st, u, "//" + a + "//" + b, fuel).Success? ==>
      GetDocumentPart(s, st, u, "//" + a + "//" + b, fuel).value == GetDocumentPart(s, st, u, a + "/" + b, fuel).value
  {
    DoubledSeparators(a, b);
    var e := EnsureRefResolved(s, st, u, fuel);
    if e.Success? {
      var w := Walk(e.value.heap, Some(e.value.loaders[u].root), Split(a + "/" + b, "/"));
      assert Walk(e.value.heap, Some(e.value.loaders[u].root), Split("//" + a + "//" + b, "/")) == w;
    }
  }

  /** The root of a document is never replaced: its `$ref`, if it has one, has no grandparent. */
  lemma DocumentRootNotSpliced(s: Settings, st: Session, u: Uri, v: Uri, m: Marker, fuel: nat)
    requires Wf(st) && u in st.loaders && v in st.loaders && IsMarker(st.heap, m) && m.owner == st.loaders[v].root
    ensures ResolveMarker(s, st, u, m, fuel).Success? ==> ResolveMarker(s, st, u, m, fuel).value.1.None?
  {
  }
}
