/** In-document navigation along a `/`-separated path, as `GetDocumentPart` walks a loaded tree:
    split on `/` dropping empty entries, skip blank segments, and index member by member. */
module DocumentPath {

  import opened Wrappers
  import opened Json
  import opened Text
  import opened Tokens

  const SlotName: Slot -> string := (sl: Slot) => sl.name

  /** `token[key]` with a string key: on an object, the value of the property called `key`, or null
      (`Some(None)`) when there is none; on an array or a scalar the indexer throws (`None`). */
  function Index(h: Heap, id: Id, key: string): (r: Option<Option<Id>>)
    requires Valid(h) && id in h.nodes
    ensures r.Some? <==> h.nodes[id].kind.Obj?
    ensures r.Some? && r.value.Some? ==> r.value.value in h.nodes && id < r.value.value
    ensures r == Some(None) <==> h.nodes[id].kind.Obj? && forall j :: 0 <= j < |h.nodes[id].kind.slots| ==> h.nodes[id].kind.slots[j].name != key
  {
    match h.nodes[id].kind
    case Obj(slots) =>
      (match FindName(Names(slots, SlotName), key, 0)
       case None => Some(None)
       case Some(j) =>
         ChildOf(h, id, j);
         Some(Some(slots[j].child)))
    case _ => None
  }

  /** The segments that take part in the walk: the blank ones are skipped. */
  function NonBlank(parts: seq<string>): (r: seq<string>)
    ensures |r| <= |parts|
    ensures forall k :: 0 <= k < |r| ==> !IsBlank(r[k]) && r[k] in parts
    ensures forall k :: 0 <= k < |parts| && !IsBlank(parts[k]) ==> parts[k] in r
  {
    if parts == [] then []
    else (if IsBlank(parts[0]) then [] else [parts[0]]) + NonBlank(parts[1..])
  }

  /** The loop of `GetDocumentPart` from `tok` over `parts`: `None` when a lookup throws (an index into
      an array, a scalar, or a null left by a missing key); otherwise the token reached, which is null
      when the last non-blank segment names a missing key. */
  function Walk(h: Heap, tok: Option<Id>, parts: seq<string>): (r: Option<Option<Id>>)
    requires Valid(h) && (tok.Some? ==> tok.value in h.nodes)
    ensures r.Some? && r.value.Some? ==> r.value.value in h.nodes
    ensures r.Some? && r.value.Some? && tok.Some? ==> Reaches(h, tok.value, r.value.value)
    ensures tok.None? ==> r.None? || r.value.None?
    decreases |parts|
  {
    if parts == [] then Some(tok)
    else if IsBlank(parts[0]) then Walk(h, tok, parts[1..])
    else
      match tok
      case None => None
      case Some(id) =>
        match Index(h, id, parts[0])
        case None => None
        case Some(next) =>
          var r := Walk(h, next, parts[1..]);
          assert r.Some? && r.value.Some? && next.Some? ==> Reaches(h, id, r.value.value) by {
            if r.Some? && r.value.Some? && next.Some? {
              var j := FindName(Names(h.nodes[id].kind.slots, SlotName), parts[0], 0).value;
              assert Children(h.nodes[id].kind)[j] == next.value;
              assert next.value in Children(h.nodes[id].kind) && Reaches(h, next.value, r.value.value);
            }
          }
          r
  }

  /** An object token's properties and its value's members carry the same names, in the same order. */
  lemma SlotNamesAreMemberNames(h: Heap, id: Id)
    requires Valid(h) && id in h.nodes && h.nodes[id].kind.Obj?
    ensures Names(h.nodes[id].kind.slots, SlotName) == Names(Read(h, id).members, MemberName)
  {
    var ms := Read(h, id).members;
    assert forall j :: 0 <= j < |ms| ==> ms[j].name == h.nodes[id].kind.slots[j].name;
  }

  /** Indexing a token agrees with looking the member up in the token's value. */
  lemma IndexMatchesChild(h: Heap, id: Id, key: string)
    requires Valid(h) && id in h.nodes
    ensures Index(h, id, key).Some? && Index(h, id, key).value.Some? <==> Child(Read(h, id), key).Some?
    ensures Index(h, id, key).Some? && Index(h, id, key).value.Some? ==>
      Read(h, Index(h, id, key).value.value) == Child(Read(h, id), key).value
  {
    if h.nodes[id].kind.Obj? {
      SlotNamesAreMemberNames(h, id);
      var j := FindName(Names(h.nodes[id].kind.slots, SlotName), key, 0);
      if j.Some? {
        assert Read(h, id).members[j.value].value == Read(h, h.nodes[id].kind.slots[j.value].child);
      }
    }
  }

  /** The walk finds a token exactly when the value of the start token has a member at the end of
      the non-blank segments, and the token found holds that member's value. */
  lemma {:induction false} WalkMatchesAt(h: Heap, id: Id, parts: seq<string>)
    requires Valid(h) && id in h.nodes
    ensures Walk(h, Some(id), parts).Some? && Walk(h, Some(id), parts).value.Some?
            <==> At(Read(h, id), NonBlank(parts)).Some?
    ensures Walk(h, Some(id), parts).Some? && Walk(h, Some(id), parts).value.Some? ==>
            Read(h, Walk(h, Some(id), parts).value.value) == At(Read(h, id), NonBlank(parts)).value
    decreases |parts|
  {
    if parts == [] {
    } else if IsBlank(parts[0]) {
      assert NonBlank(parts) == NonBlank(parts[1..]);
      WalkMatchesAt(h, id, parts[1..]);
    } else {
      var nb := NonBlank(parts);
      assert nb == [parts[0]] + NonBlank(parts[1..]);
      assert nb[0] == parts[0] && nb[1..] == NonBlank(parts[1..]);
      IndexMatchesChild(h, id, parts[0]);
      match Index(h, id, parts[0])
      case None =>
      case Some(next) =>
        if next.Some? {
          WalkMatchesAt(h, next.value, parts[1..]);
        } else {
          NullWalk(h, parts[1..]);
        }
    }
  }

  /** Once the walk is at a null token, it throws at the next non-blank segment, and otherwise ends at null. */
  lemma {:induction false} NullWalk(h: Heap, parts: seq<string>)
    requires Valid(h)
    ensures Walk(h, None, parts) == (if NonBlank(parts) == [] then Some(None) else None)
    decreases |parts|
  {
    if parts != [] {
      if IsBlank(parts[0]) {
        assert NonBlank(parts) == NonBlank(parts[1..]);
        NullWalk(h, parts[1..]);
      } else {
        assert NonBlank(parts)[0] == parts[0];
      }
    }
  }

  /** Segments that are all blank leave the walk where it started. */
  lemma {:induction false} BlankWalk(h: Heap, tok: Option<Id>, parts: seq<string>)
    requires Valid(h) && (tok.Some? ==> tok.value in h.nodes)
    requires forall k :: 0 <= k < |parts| ==> IsBlank(parts[k])
    ensures Walk(h, tok, parts) == Some(tok)
    decreases |parts|
  {
    if parts != [] {
      BlankWalk(h, tok, parts[1..]);
    }
  }

  /** An empty path, `/`, `//`, ... split into no segments at all. */
  lemma SeparatorsSplitToNothing(n: nat)
    ensures Split(Repeat("/", n), "/") == []
  {
    PiecesOfRepeat("/", n);
    RemoveEmptyIsEmpty(Pieces(Repeat("/", n), "/"));
  }

  /** A path made only of separators navigates to the token it starts from. */
  lemma SeparatorsPathIsStart(h: Heap, tok: Option<Id>, n: nat)
    requires Valid(h) && (tok.Some? ==> tok.value in h.nodes)
    ensures Walk(h, tok, Split(Repeat("/", n), "/")) == Some(tok)
  {
    SeparatorsSplitToNothing(n);
  }

  lemma PiecesLeadingSeparator(rest: string)
    ensures Pieces("/" + rest, "/") == [""] + Pieces(rest, "/")
  {
    assert '/' !in "";
    assert "/" + rest == "" + ['/'] + rest;
    PiecesAtChar("", '/', rest);
  }

  lemma DoubledShape(a: string, b: string)
    ensures "//" + a + "//" + b == "/" + ("/" + (a + "/" + ("/" + b)))
  {
    assert "//" == "/" + "/";
    calc {
      "//" + a + "//" + b;
      ("/" + "/") + a + ("/" + "/") + b;
      "/" + ("/" + (a + "/" + ("/" + b)));
    }
  }

  lemma PiecesOfDoubled(a: string, b: string)
    requires '/' !in a && '/' !in b
    ensures Pieces("//" + a + "//" + b, "/") == ["", "", a, "", b]
  {
    var s1 := "/" + b;
    var s2 := a + "/" + s1;
    DoubledShape(a, b);
    PiecesWithoutChar(b, '/');
    PiecesLeadingSeparator(b);
    assert s2 == a + ['/'] + s1;
    PiecesAtChar(a, '/', s1);
    PiecesLeadingSeparator(s2);
    PiecesLeadingSeparator("/" + s2);
  }

  lemma PiecesOfSingle(a: string, b: string)
    requires '/' !in a && '/' !in b
    ensures Pieces(a + "/" + b, "/") == [a, b]
  {
    assert a + "/" + b == a + ['/'] + b;
    PiecesAtChar(a, '/', b);
    PiecesWithoutChar(b, '/');
  }

  lemma RemoveEmptyAround(a: string, b: string)
    requires a != "" && b != ""
    ensures RemoveEmpty(["", "", a, "", b]) == RemoveEmpty([a, b]) == [a, b]
  {
    var ps: seq<string> := ["", "", a, "", b];
    assert ps[1..] == ["", a, "", b] && ps[2..] == [a, "", b] && ps[3..] == ["", b] && ps[4..] == [b];
    assert RemoveEmpty(ps[4..]) == [b] + RemoveEmpty([]);
    assert RemoveEmpty(ps[3..]) == RemoveEmpty(ps[4..]);
    assert RemoveEmpty(ps[2..]) == [a] + RemoveEmpty(ps[3..]);
    var qs: seq<string> := [a, b];
    assert qs[1..] == [b];
    assert RemoveEmpty(qs) == [a] + RemoveEmpty(qs[1..]);
  }

  /** Doubled separators are dropped: `//a//b` has the same segments as `a/b`. */
  lemma DoubledSeparators(a: string, b: string)
    requires a != "" && b != "" && '/' !in a && '/' !in b
    ensures Split("//" + a + "//" + b, "/") == Split(a + "/" + b, "/") == [a, b]
  {
    PiecesOfDoubled(a, b);
    PiecesOfSingle(a, b);
    RemoveEmptyAround(a, b);
  }
}
