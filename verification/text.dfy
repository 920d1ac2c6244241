/** Ordinal string splitting as done by .NET's `String.Split(string[], StringSplitOptions)`
    with a single non-empty separator, and the white-space test of `String.IsNullOrWhiteSpace`. */
module Text {

  import opened Wrappers

  /** `sep` occurs in `s` starting at index `i`. */
  predicate OccursAt(s: string, sep: string, i: nat) {
    i + |sep| <= |s| && s[i..i + |sep|] == sep
  }

  /** `t` is a contiguous substring of `s`. */
  predicate Contains(s: string, t: string) {
    exists i: nat | i <= |s| :: OccursAt(s, t, i)
  }

  /** The first index at or after `from` where `sep` occurs in `s` (ordinal `IndexOf`). */
  function IndexOf(s: string, sep: string, from: nat): (r: Option<nat>)
    decreases |s| - from
    ensures r.Some? ==> from <= r.value && OccursAt(s, sep, r.value)
    ensures r.Some? ==> forall j: nat :: from <= j < r.value ==> !OccursAt(s, sep, j)
    ensures r.None? ==> forall j: nat :: from <= j ==> !OccursAt(s, sep, j)
  {
    if |s| < from + |sep| then None
    else if OccursAt(s, sep, from) then Some(from)
    else IndexOf(s, sep, from + 1)
  }

  lemma OccursInPrefix(s: string, sep: string, i: nat, j: nat)
    requires i <= |s| && OccursAt(s[..i], sep, j)
    ensures OccursAt(s, sep, j)
  {
    assert s[..i][j..j + |sep|] == s[j..j + |sep|];
  }

  lemma OccursInSuffix(s: string, t: string, i: nat, j: nat)
    requires i <= |s| && OccursAt(s[i..], t, j)
    ensures OccursAt(s, t, i + j)
  {
    assert s[i..][j..j + |t|] == s[i + j..i + j + |t|];
  }

  /** The chunks of `s` between the occurrences of `sep`, scanned left to right,
      empty chunks included (`StringSplitOptions.None`). */
  function Pieces(s: string, sep: string): (r: seq<string>)
    requires |sep| > 0
    decreases |s|
    ensures |r| >= 1
    ensures forall k :: 0 <= k < |r| ==> !Contains(r[k], sep)
  {
    match IndexOf(s, sep, 0)
    case None => [s]
    case Some(i) =>
      var rest := Pieces(s[i + |sep|..], sep);
      assert !Contains(s[..i], sep) by {
        forall j: nat | OccursAt(s[..i], sep, j)
          ensures false
        {
          OccursInPrefix(s, sep, i, j);
        }
      }
      [s[..i]] + rest
  }

  /** With a one-character separator, the first occurrence is the first index holding that character. */
  lemma {:induction false} IndexOfChar(s: string, c: char, from: nat, i: nat)
    requires from <= i < |s| && s[i] == c
    requires forall j :: from <= j < i ==> s[j] != c
    ensures IndexOf(s, [c], from) == Some(i)
    decreases i - from
  {
    assert s[i..i + 1] == [c];
    if from < i {
      assert s[from..from + 1][0] == s[from];
      assert !OccursAt(s, [c], from);
      IndexOfChar(s, c, from + 1, i);
    }
  }

  /** A chunk that does not hold the one-character separator splits off at the first separator. */
  lemma PiecesAtChar(a: string, c: char, b: string)
    requires c !in a
    ensures Pieces(a + [c] + b, [c]) == [a] + Pieces(b, [c])
  {
    var s := a + [c] + b;
    forall j | 0 <= j < |a|
      ensures s[j] != c
    {
      assert s[j] == a[j];
    }
    IndexOfChar(s, c, 0, |a|);
    assert s[..|a|] == a;
    assert s[|a| + 1..] == b;
  }

  /** A chunk without the one-character separator is a single piece. */
  lemma PiecesWithoutChar(a: string, c: char)
    requires c !in a
    ensures Pieces(a, [c]) == [a]
  {
    forall i: nat | i < |a|
      ensures !OccursAt(a, [c], i)
    {
      assert a[i..i + 1][0] == a[i];
      assert a[i] in a;
    }
    assert IndexOf(a, [c], 0).None?;
  }

  /** Drops the empty chunks (`StringSplitOptions.RemoveEmptyEntries`). */
  function RemoveEmpty(ps: seq<string>): (r: seq<string>)
    ensures forall k :: 0 <= k < |r| ==> r[k] != "" && r[k] in ps
    ensures forall x :: x in ps && x != "" ==> x in r
    ensures |r| <= |ps|
  {
    if ps == [] then []
    else
      assert forall x :: x in ps && x != ps[0] ==> x in ps[1..];
      (if ps[0] == "" then [] else [ps[0]]) + RemoveEmpty(ps[1..])
  }

  /** Empty-chunk removal, one chunk at a time. */
  lemma RemoveEmptyCons(x: string, rest: seq<string>)
    ensures RemoveEmpty([x] + rest) == (if x == "" then [] else [x]) + RemoveEmpty(rest)
  {
    assert ([x] + rest)[1..] == rest;
  }

  /** `s.Split(new[] { sep }, StringSplitOptions.RemoveEmptyEntries)`. */
  function Split(s: string, sep: string): (r: seq<string>)
    requires |sep| > 0
    ensures forall k :: 0 <= k < |r| ==> r[k] != "" && !Contains(r[k], sep) && Contains(s, r[k])
    ensures forall x :: x in Pieces(s, sep) && x != "" ==> x in r
  {
    PiecesAreSubstrings(s, sep);
    RemoveEmpty(Pieces(s, sep))
  }

  /** The chunks glued back together with `sep` between them. */
  function Join(ps: seq<string>, sep: string): string {
    if |ps| == 0 then ""
    else if |ps| == 1 then ps[0]
    else ps[0] + sep + Join(ps[1..], sep)
  }

  /** `n` copies of `sep` one after another. */
  function Repeat(sep: string, n: nat): string {
    if n == 0 then "" else sep + Repeat(sep, n - 1)
  }

  /** Splitting loses nothing: gluing the chunks back with the separator gives the input. */
  lemma {:induction false} JoinPieces(s: string, sep: string)
    requires |sep| > 0
    ensures Join(Pieces(s, sep), sep) == s
    decreases |s|
  {
    match IndexOf(s, sep, 0)
    case None =>
    case Some(i) =>
      var tail := s[i + |sep|..];
      var rest := Pieces(tail, sep);
      var ps := Pieces(s, sep);
      JoinPieces(tail, sep);
      assert ps == [s[..i]] + rest;
      assert ps[1..] == rest;
      assert Join(ps, sep) == s[..i] + sep + Join(rest, sep);
      assert s == s[..i] + s[i..i + |sep|] + tail;
  }

  /** Every chunk is a contiguous substring of the input. */
  lemma {:induction false} PiecesAreSubstrings(s: string, sep: string)
    requires |sep| > 0
    ensures forall k :: 0 <= k < |Pieces(s, sep)| ==> Contains(s, Pieces(s, sep)[k])
    decreases |s|
  {
    match IndexOf(s, sep, 0)
    case None =>
      assert OccursAt(s, s, 0);
    case Some(i) =>
      var tail := s[i + |sep|..];
      PiecesAreSubstrings(tail, sep);
      var ps := Pieces(s, sep);
      assert ps == [s[..i]] + Pieces(tail, sep);
      forall k | 0 <= k < |ps|
        ensures Contains(s, ps[k])
      {
        if k == 0 {
          assert OccursAt(s, s[..i], 0);
        } else {
          assert Contains(tail, ps[k]);
          var j: nat :| OccursAt(tail, ps[k], j);
          OccursInSuffix(s, ps[k], i + |sep|, j);
        }
      }
  }

  /** An input made of nothing but separators splits into empty chunks only. */
  lemma {:induction false} PiecesOfRepeat(sep: string, n: nat)
    requires |sep| > 0
    ensures Pieces(Repeat(sep, n), sep) == seq(n + 1, _ => "")
  {
    if n > 0 {
      var s := Repeat(sep, n);
      assert s == sep + Repeat(sep, n - 1);
      assert OccursAt(s, sep, 0);
      assert IndexOf(s, sep, 0) == Some(0);
      assert s[|sep|..] == Repeat(sep, n - 1);
      PiecesOfRepeat(sep, n - 1);
    }
  }

  /** Empty chunks glued with `sep` are just separators. */
  lemma {:induction false} JoinOfEmpties(ps: seq<string>, sep: string)
    requires |ps| >= 1 && forall k :: 0 <= k < |ps| ==> ps[k] == ""
    ensures Join(ps, sep) == Repeat(sep, |ps| - 1)
  {
    if |ps| > 1 {
      JoinOfEmpties(ps[1..], sep);
    }
  }

  /** Nothing survives empty-chunk removal exactly when every chunk is empty. */
  lemma {:induction false} RemoveEmptyIsEmpty(ps: seq<string>)
    ensures RemoveEmpty(ps) == [] <==> forall k :: 0 <= k < |ps| ==> ps[k] == ""
  {
    if ps != [] {
      RemoveEmptyIsEmpty(ps[1..]);
      assert forall k :: 1 <= k < |ps| ==> ps[k] == ps[1..][k - 1];
    }
  }

  /** The last surviving chunk is the last non-empty chunk of the input. */
  lemma {:induction false} RemoveEmptyLast(ps: seq<string>)
    requires RemoveEmpty(ps) != []
    ensures exists k :: 0 <= k < |ps| && ps[k] == RemoveEmpty(ps)[|RemoveEmpty(ps)| - 1]
                        && forall j :: k < j < |ps| ==> ps[j] == ""
  {
    var tail := RemoveEmpty(ps[1..]);
    if tail == [] {
      RemoveEmptyIsEmpty(ps[1..]);
      assert RemoveEmpty(ps) == [ps[0]];
      assert forall j :: 0 < j < |ps| ==> ps[j] == ps[1..][j - 1];
    } else {
      RemoveEmptyLast(ps[1..]);
      var k :| 0 <= k < |ps[1..]| && ps[1..][k] == tail[|tail| - 1]
                && forall j :: k < j < |ps[1..]| ==> ps[1..][j] == "";
      assert ps[k + 1] == ps[1..][k];
      assert forall j :: k + 1 < j < |ps| ==> ps[j] == ps[1..][j - 1];
    }
  }

  /** The first surviving chunk is the first non-empty chunk of the input. */
  lemma {:induction false} RemoveEmptyFirst(ps: seq<string>)
    requires RemoveEmpty(ps) != []
    ensures exists k :: 0 <= k < |ps| && ps[k] == RemoveEmpty(ps)[0]
                        && forall j :: 0 <= j < k ==> ps[j] == ""
  {
    if ps[0] == "" {
      RemoveEmptyFirst(ps[1..]);
      var k :| 0 <= k < |ps[1..]| && ps[1..][k] == RemoveEmpty(ps[1..])[0]
                && forall j :: 0 <= j < k ==> ps[1..][j] == "";
      assert ps[k + 1] == ps[1..][k];
      assert forall j :: 0 < j < k + 1 ==> ps[j] == ps[1..][j - 1];
    } else {
      assert ps[0] == RemoveEmpty(ps)[0];
    }
  }

  /** `Char.IsWhiteSpace`: the Unicode white-space characters as .NET classifies them
      (separator categories Zs, Zl, Zp plus U+0009..U+000D and U+0085). */
  predicate IsWhiteSpace(c: char) {
    var n := c as int;
    (0x09 <= n <= 0x0D) || n == 0x20 || n == 0x85 || n == 0xA0 || n == 0x1680
    || (0x2000 <= n <= 0x200A) || n == 0x2028 || n == 0x2029 || n == 0x202F
    || n == 0x205F || n == 0x3000
  }

  /** `String.IsNullOrWhiteSpace` for a non-null string. */
  predicate IsBlank(s: string) {
    forall k :: 0 <= k < |s| ==> IsWhiteSpace(s[k])
  }
}
