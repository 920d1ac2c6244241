/** What one pass of the resolution does to a document whose only `$ref` points inside the same
    document, at a part that holds no `$ref` of its own: a single splice, and nothing else. */
module SingleReference {
  import opened Wrappers
  import opened Text
  import opened Tokens
  import opened DocumentPath
  import opened ReferenceLoader

  /** Once the loader is flagged, a reference into the same document yields the token the walk
      reaches, and changes nothing. */
  lemma NestedTarget(s: Settings, st: Session, u: Uri, ri: RefInfo, t: Id, fuel: nat)
    requires Wf(st) && u in st.loaders && st.loaders[u].isResolved && ri.isNested
    requires Walk(st.heap, Some(st.loaders[u].root), Split(ri.inDocumentPath, "/")) == Some(Some(t))
    ensures GetRefJToken(s, st, u, ri, fuel) == Success((st, Some(t)))
  {
    assert GetDocumentPart(s, st, u, ri.inDocumentPath, fuel) == Success((st, Some(t)));
  }

  /** Expanding a token with no `$ref` below it changes nothing. */
  lemma NoMarkersNoChange(s: Settings, st: Session, u: Uri, t: Id, fuel: nat)
    requires Wf(st) && u in st.loaders && t in st.heap.nodes && Markers(st.heap, t) == []
    ensures ResolveRef(s, st, u, Some(t), fuel) == Success(st)
  {
  }

  /** An accepted reference into the same document, whose target holds no `$ref`, puts a copy of
      the strategy's replacement in place of the object holding it; the copy takes the next free id. */
  lemma SingleMarker(s: Settings, st: Session, u: Uri, m: Marker, t: Id, fuel: nat)
    requires Wf(st) && u in st.loaders && st.loaders[u].isResolved && fuel > 0
    requires IsMarker(st.heap, m) && Attached(st.heap, m.owner)
    requires var ri := MarkerRef(s, st, u, m);
      && ri.isNested && s.shouldResolve(ri)
      && Walk(st.heap, Some(st.loaders[u].root), Split(ri.inDocumentPath, "/")) == Some(Some(t))
      && Markers(st.heap, t) == []
    ensures t in st.heap.nodes
    ensures var v := s.replacement(MarkerRef(s, st, u, m), Read(st.heap, t));
      ResolveMarker(s, st, u, m, fuel) == Success((st.(heap := Splice(st.heap, m.owner, v).0), Some(st.heap.next)))
  {
    var ri := MarkerRef(s, st, u, m);
    NestedTarget(s, st, u, ri, t, fuel - 1);
    NoMarkersNoChange(s, st, u, t, fuel - 1);
    assert GetRefJToken(s, st, u, ri, fuel - 1) == Success((st, Some(t)));
    assert ResolveRef(s, st, u, Some(t), fuel - 1) == Success(st);
  }

  /** The loop over a single marker ends in the session that marker's pass leaves. */
  lemma OneMarker(s: Settings, st: Session, u: Uri, m: Marker, fuel: nat)
    requires Wf(st) && u in st.loaders && IsMarker(st.heap, m)
    ensures ResolveMarker(s, st, u, m, fuel).Success? ==>
      ResolveMarkers(s, st, u, [m], fuel) == Success(ResolveMarker(s, st, u, m, fuel).value.0)
  {
    var ms := [m];
    assert ms[0] == m && ms[1..] == [];
  }

  /** The first resolution of a document whose root is a container flags its loader, then runs
      the loop over every `$ref` collected below the root. */
  lemma FirstResolution(s: Settings, st: Session, u: Uri, fuel: nat)
    requires Wf(st) && u in st.loaders && !st.loaders[u].isResolved
    requires !st.heap.nodes[st.loaders[u].root].kind.Leaf?
    ensures var st1 := st.(loaders := st.loaders[u := st.loaders[u].(isResolved := true)]);
      && Wf(st1) && st1.heap == st.heap
      && EnsureRefResolved(s, st, u, fuel) == ResolveMarkers(s, st1, u, Markers(st.heap, st.loaders[u].root), fuel)
  {
  }

  /** A document whose only `$ref` is attached, accepted, points inside the same document, and
      reaches a part with no `$ref` of its own, resolves to exactly one splice of the replacement. */
  lemma SingleNestedRef(s: Settings, st: Session, u: Uri, m: Marker, t: Id, fuel: nat)
    requires Wf(st) && u in st.loaders && !st.loaders[u].isResolved && fuel > 0
    requires !st.heap.nodes[st.loaders[u].root].kind.Leaf?
    requires Markers(st.heap, st.loaders[u].root) == [m] && Attached(st.heap, m.owner)
    requires var ri := MarkerRef(s, st, u, m);
      && ri.isNested && s.shouldResolve(ri)
      && Walk(st.heap, Some(st.loaders[u].root), Split(ri.inDocumentPath, "/")) == Some(Some(t))
      && Markers(st.heap, t) == []
    ensures t in st.heap.nodes
    ensures var v := s.replacement(MarkerRef(s, st, u, m), Read(st.heap, t));
      var r := EnsureRefResolved(s, st, u, fuel);
      r.Success? && r.value.heap == Splice(st.heap, m.owner, v).0
  {
    var root := st.loaders[u].root;
    var st1 := st.(loaders := st.loaders[u := st.loaders[u].(isResolved := true)]);
    FirstResolution(s, st, u, fuel);
    assert m in Markers(st.heap, root);
    assert MarkerRef(s, st1, u, m) == MarkerRef(s, st, u, m);
    SingleMarker(s, st1, u, m, t, fuel);
    OneMarker(s, st1, u, m, fuel);
  }
}
