/** The `split_get_last` and `split_get_first` template helpers: split the first argument on the
    second one, drop the empty chunks, and write the last (or first) remaining chunk, or nothing. */
module SplitHelpers {

  import opened Wrappers
  import opened Text

  /** Why a helper invocation was refused. */
  datatype HelperError = WrongArgumentCount(expected: nat, actual: nat)

  /** `EnsureArgumentsCount(arguments, n)`: the helper takes exactly `n` arguments. */
  function EnsureArgumentsCount(args: seq<string>, n: nat): (r: Result<(), HelperError>)
    ensures r.Success? <==> |args| == n
    ensures r.Failure? ==> r.error.expected == n && r.error.actual == |args|
  {
    if |args| == n then Success(()) else Failure(WrongArgumentCount(n, |args|))
  }

  /** `Split(...).LastOrDefault() ?? ""`. */
  function SplitGetLast(s: string, sep: string): (r: string)
    requires |sep| > 0
    ensures !Contains(r, sep)
    ensures Contains(s, r)
  {
    var parts := Split(s, sep);
    if parts == [] then
      assert OccursAt(s, "", 0);
      ""
    else
      parts[|parts| - 1]
  }

  /** `Split(...).FirstOrDefault() ?? ""`. */
  function SplitGetFirst(s: string, sep: string): (r: string)
    requires |sep| > 0
    ensures !Contains(r, sep)
    ensures Contains(s, r)
  {
    var parts := Split(s, sep);
    if parts == [] then
      assert OccursAt(s, "", 0);
      ""
    else
      parts[0]
  }

  /** `SplitGetLast.Helper`: the text the helper writes for its arguments
      (each argument is already rendered through `ToString()`). */
  function SplitGetLastHelper(args: seq<string>): (r: Result<string, HelperError>)
    requires |args| == 2 ==> |args[1]| > 0
    ensures r.Failure? <==> |args| != 2
    ensures r.Success? ==> !Contains(r.value, args[1]) && Contains(args[0], r.value)
    ensures r.Success? && args[0] != "" && !Contains(args[0], args[1]) ==> r.value == args[0]
  {
    var _ :- EnsureArgumentsCount(args, 2);
    LoneChunk(args[0], args[1]);
    Success(SplitGetLast(args[0], args[1]))
  }

  /** `SplitGetFirst.Helper`. */
  function SplitGetFirstHelper(args: seq<string>): (r: Result<string, HelperError>)
    requires |args| == 2 ==> |args[1]| > 0
    ensures r.Failure? <==> |args| != 2
    ensures r.Success? ==> !Contains(r.value, args[1]) && Contains(args[0], r.value)
    ensures r.Success? && args[0] != "" && !Contains(args[0], args[1]) ==> r.value == args[0]
  {
    var _ :- EnsureArgumentsCount(args, 2);
    LoneChunk(args[0], args[1]);
    Success(SplitGetFirst(args[0], args[1]))
  }

  /** A non-empty input without the separator comes back unchanged from both helpers. */
  lemma LoneChunk(s: string, sep: string)
    requires |sep| > 0
    ensures s != "" && !Contains(s, sep) ==> SplitGetLast(s, sep) == s && SplitGetFirst(s, sep) == s
  {
    if s != "" && !Contains(s, sep) {
      assert forall i: nat | i <= |s| :: !OccursAt(s, sep, i);
      assert IndexOf(s, sep, 0).None?;
      assert Pieces(s, sep) == [s];
      assert RemoveEmpty([s]) == [s] + RemoveEmpty([]);
    }
  }

  /** `split_get_last` writes the last non-empty chunk: the chunk it returns is followed only by
      empty chunks, and it writes `""` exactly when every chunk is empty. */
  lemma LastIsLastNonEmptyChunk(s: string, sep: string)
    requires |sep| > 0
    ensures SplitGetLast(s, sep) == "" <==> forall k :: 0 <= k < |Pieces(s, sep)| ==> Pieces(s, sep)[k] == ""
    ensures SplitGetLast(s, sep) != "" ==>
      exists k :: 0 <= k < |Pieces(s, sep)| && Pieces(s, sep)[k] == SplitGetLast(s, sep)
                  && forall j :: k < j < |Pieces(s, sep)| ==> Pieces(s, sep)[j] == ""
  {
    var parts := Split(s, sep);
    assert parts == RemoveEmpty(Pieces(s, sep));
    RemoveEmptyIsEmpty(Pieces(s, sep));
    if parts != [] {
      assert SplitGetLast(s, sep) == parts[|parts| - 1] != "";
      RemoveEmptyLast(Pieces(s, sep));
    } else {
      assert SplitGetLast(s, sep) == "";
    }
  }

  /** `split_get_first` writes the first non-empty chunk: the chunk it returns is preceded only by
      empty chunks, and it writes `""` exactly when every chunk is empty. */
  lemma FirstIsFirstNonEmptyChunk(s: string, sep: string)
    requires |sep| > 0
    ensures SplitGetFirst(s, sep) == "" <==> forall k :: 0 <= k < |Pieces(s, sep)| ==> Pieces(s, sep)[k] == ""
    ensures SplitGetFirst(s, sep) != "" ==>
      exists k :: 0 <= k < |Pieces(s, sep)| && Pieces(s, sep)[k] == SplitGetFirst(s, sep)
                  && forall j :: 0 <= j < k ==> Pieces(s, sep)[j] == ""
  {
    var parts := Split(s, sep);
    assert parts == RemoveEmpty(Pieces(s, sep));
    RemoveEmptyIsEmpty(Pieces(s, sep));
    if parts != [] {
      assert SplitGetFirst(s, sep) == parts[0] != "";
      RemoveEmptyFirst(Pieces(s, sep));
    } else {
      assert SplitGetFirst(s, sep) == "";
    }
  }

  /** Both helpers write nothing exactly when the input is empty or made only of separators. */
  lemma EmptyOutputIffOnlySeparators(s: string, sep: string)
    requires |sep| > 0
    ensures SplitGetLast(s, sep) == "" <==> exists n: nat :: s == Repeat(sep, n)
    ensures SplitGetFirst(s, sep) == "" <==> exists n: nat :: s == Repeat(sep, n)
  {
    var ps := Pieces(s, sep);
    LastIsLastNonEmptyChunk(s, sep);
    FirstIsFirstNonEmptyChunk(s, sep);
    if forall k :: 0 <= k < |ps| ==> ps[k] == "" {
      JoinPieces(s, sep);
      JoinOfEmpties(ps, sep);
      assert s == Repeat(sep, |ps| - 1);
    }
    if exists n: nat :: s == Repeat(sep, n) {
      var n: nat :| s == Repeat(sep, n);
      PiecesOfRepeat(sep, n);
    }
  }

  lemma PiecesOfTwo(b: string, c: string, ch: char)
    requires ch !in b && ch !in c
    ensures Pieces(b + [ch] + c, [ch]) == [b, c]
  {
    PiecesAtChar(b, ch, c);
    PiecesWithoutChar(c, ch);
  }

  lemma PiecesOfThree(a: string, b: string, c: string, ch: char)
    requires ch !in a && ch !in b && ch !in c
    ensures Pieces(a + [ch] + (b + [ch] + c), [ch]) == [a, b, c]
  {
    PiecesAtChar(a, ch, b + [ch] + c);
    PiecesOfTwo(b, c, ch);
  }

  /** The documented example of `split_get_last`. */
  lemma SplitGetLastExample()
    ensures SplitGetLastHelper(["#/parameters/myDataType", "/"]) == Success("myDataType")
  {
    assert "#/parameters/myDataType" == "#" + ['/'] + ("parameters" + ['/'] + "myDataType");
    PiecesOfThree("#", "parameters", "myDataType", '/');
    assert ["#", "parameters", "myDataType"] == ["#"] + (["parameters"] + (["myDataType"] + []));
    RemoveEmptyCons("myDataType", []);
    RemoveEmptyCons("parameters", ["myDataType"]);
    RemoveEmptyCons("#", ["parameters", "myDataType"]);
  }

  /** The documented example of `split_get_first`. */
  lemma SplitGetFirstExample()
    ensures SplitGetFirstHelper(["/myDataType/parameters/", "/"]) == Success("myDataType")
  {
    assert "/myDataType/parameters/" == "" + ['/'] + ("myDataType" + ['/'] + "parameters/");
    assert '/' !in "";
    PiecesAtChar("", '/', "myDataType" + ['/'] + "parameters/");
    PiecesAtChar("myDataType", '/', "parameters/");
    var tail := Pieces("parameters/", "/");
    assert Pieces("/myDataType/parameters/", "/") == [""] + (["myDataType"] + tail);
    RemoveEmptyCons("", ["myDataType"] + tail);
    RemoveEmptyCons("myDataType", tail);
  }
}
