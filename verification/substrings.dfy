/** Substring search, Python's `in` operator, `str.split(sep)` and
    `sep.join(pieces)`. */
module Substrings {

  /** The outcome of a search: the index found, or nothing. */
  datatype Option<+T> = None | Some(value: T)

  /** `sub` occurs in `s` starting at index `i`. */
  predicate OccursAt(s: string, sub: string, i: int) {
    0 <= i && i + |sub| <= |s| && s[i..i + |sub|] == sub
  }

  /** Python's `sub in s`: `sub` is a contiguous piece of `s`. */
  predicate Contains(s: string, sub: string) {
    exists i :: 0 <= i <= |s| && OccursAt(s, sub, i)
  }

  /** A slice of a slice is a slice. */
  lemma SliceOfSlice(s: string, a: nat, b: nat, c: nat, d: nat)
    requires a <= b <= |s| && c <= d <= b - a
    ensures s[a..b][c..d] == s[a + c..a + d]
  {
    forall k | 0 <= k < d - c ensures s[a..b][c..d][k] == s[a + c..a + d][k] {
      assert s[a..b][c..d][k] == s[a..b][c + k] == s[a + c + k];
    }
  }

  /** An occurrence inside the prefix `s[..n]` is an occurrence in `s`
      ending at or before `n`, and the other way round. */
  lemma OccursInPrefix(s: string, sub: string, n: nat, j: int)
    requires n <= |s|
    ensures OccursAt(s[..n], sub, j) <==> OccursAt(s, sub, j) && j + |sub| <= n
  {
    if 0 <= j && j + |sub| <= n {
      assert s[..n][j..j + |sub|] == s[j..j + |sub|];
    }
  }

  /** An occurrence inside the suffix `s[n..]` is an occurrence in `s`
      starting at or after `n`, shifted by `n`. */
  lemma OccursInSuffix(s: string, sub: string, n: nat, j: int)
    requires n <= |s|
    ensures OccursAt(s[n..], sub, j) <==> OccursAt(s, sub, n + j) && 0 <= j
  {
    if 0 <= j && n + j + |sub| <= |s| {
      assert s[n..][j..j + |sub|] == s[n + j..n + j + |sub|];
    }
  }

  /** Containment is transitive: a piece of a piece of `s` is a piece of `s`. */
  lemma ContainsTransitive(s: string, t: string, u: string)
    requires Contains(s, t) && Contains(t, u)
    ensures Contains(s, u)
  {
    var i :| 0 <= i <= |s| && OccursAt(s, t, i);
    var j :| 0 <= j <= |t| && OccursAt(t, u, j);
    SliceOfSlice(s, i, i + |t|, j, j + |u|);
    assert OccursAt(s, u, i + j);
  }

  /** A piece of a string that avoids `u` avoids `u` too. */
  lemma PieceAvoids(s: string, t: string, u: string)
    requires Contains(s, t) && !Contains(s, u)
    ensures !Contains(t, u)
  {
    if Contains(t, u) {
      ContainsTransitive(s, t, u);
    }
  }

  /** The first occurrence of `sub` in `s` at or after index `from`, as
      `str.find(sub, from)` returns it. */
  function FindFrom(s: string, sub: string, from: nat): Option<nat> {
    ScanForward(s, sub, from)
  }

  /** The scan behind FindFrom: try `from`, then `from + 1`, and so on. */
  function ScanForward(s: string, sub: string, from: nat): (r: Option<nat>)
    ensures r.Some? ==> from <= r.value && OccursAt(s, sub, r.value)
    decreases |s| - from
  {
    if from + |sub| > |s| then None
    else if s[from..from + |sub|] == sub then Some(from)
    else ScanForward(s, sub, from + 1)
  }

  /** `FindFrom` finds the first occurrence: nothing occurs between `from`
      and the index it returns, and nothing at all when it returns None. */
  lemma {:induction false} FindFromIsFirst(s: string, sub: string, from: nat)
    ensures FindFrom(s, sub, from).Some? ==>
              forall j :: from <= j < FindFrom(s, sub, from).value ==> !OccursAt(s, sub, j)
    ensures FindFrom(s, sub, from).None? ==> forall j :: from <= j ==> !OccursAt(s, sub, j)
    decreases |s| - from
  {
    if from + |sub| <= |s| && s[from..from + |sub|] != sub {
      FindFromIsFirst(s, sub, from + 1);
    }
  }

  /** The last occurrence of `sub` in `s`, as `str.rfind(sub)` returns it. */
  function LastIndexOf(s: string, sub: string): Option<nat> {
    ScanBackward(s, sub)
  }

  /** The scan behind LastIndexOf: test whether `s` ends with `sub`, and if
      not, drop the last character and try again. */
  function ScanBackward(s: string, sub: string): (r: Option<nat>)
    ensures r.Some? ==> OccursAt(s, sub, r.value)
    ensures r.Some? ==> forall j :: r.value < j ==> !OccursAt(s, sub, j)
    ensures r.None? ==> forall j :: !OccursAt(s, sub, j)
    decreases |s|
  {
    if |sub| > |s| then None
    else if s[|s| - |sub|..] == sub then Some(|s| - |sub|)
    else
      var r := ScanBackward(s[..|s| - 1], sub);
      assert forall j :: OccursAt(s[..|s| - 1], sub, j) <==> OccursAt(s, sub, j) by {
        forall j ensures OccursAt(s[..|s| - 1], sub, j) <==> OccursAt(s, sub, j) {
          OccursInPrefix(s, sub, |s| - 1, j);
        }
      }
      r
  }

  /** `sub in s` holds exactly when there is a last occurrence. */
  lemma ContainsIffLastIndexOf(s: string, sub: string)
    ensures Contains(s, sub) <==> LastIndexOf(s, sub).Some?
  {
    if LastIndexOf(s, sub).Some? {
      assert OccursAt(s, sub, LastIndexOf(s, sub).value);
    }
  }

  /** The last occurrence is determined by its defining property. */
  lemma LastIndexOfUnique(s: string, sub: string, p: nat)
    requires OccursAt(s, sub, p)
    requires forall j :: p < j ==> !OccursAt(s, sub, j)
    ensures LastIndexOf(s, sub) == Some(p)
  {
  }

  /** The first occurrence is determined by its defining property. */
  lemma FindFromUnique(s: string, sub: string, from: nat, p: nat)
    requires from <= p && OccursAt(s, sub, p)
    requires forall j :: from <= j < p ==> !OccursAt(s, sub, j)
    ensures FindFrom(s, sub, from) == Some(p)
  {
    FindFromIsFirst(s, sub, from);
  }

  /** Python's `s.split(sep)`: cut `s` at every occurrence of `sep`, scanning
      from the left and resuming after each occurrence. The last piece is the
      text after the last cut. */
  function Split(s: string, sep: string): (pieces: seq<string>)
    requires |sep| > 0
  {
    SplitPieces(s, sep)
  }

  /** The cutting behind Split: the text before the first occurrence, then
      the pieces of the text after it. */
  function SplitPieces(s: string, sep: string): (pieces: seq<string>)
    requires |sep| > 0
    ensures |pieces| >= 1
    decreases |s|
  {
    match FindFrom(s, sep, 0)
    case None =>
      [s]
    case Some(i) =>
      [s[..i]] + SplitPieces(s[i + |sep|..], sep)
  }

  /** Python's `sep.join(pieces)`: every piece is kept, in order, with `sep`
      between neighbours. */
  function Join(pieces: seq<string>, sep: string): string {
    JoinPieces(pieces, sep)
  }

  /** The gluing behind Join: the first piece, then `sep` and the join of the
      rest. */
  function JoinPieces(pieces: seq<string>, sep: string): (s: string)
    ensures forall k :: 0 <= k < |pieces| ==> Contains(s, pieces[k])
    ensures |pieces| > 0 ==> OccursAt(s, pieces[0], 0)
  {
    if |pieces| == 0 then ""
    else if |pieces| == 1 then
      assert OccursAt(pieces[0], pieces[0], 0);
      pieces[0]
    else
      var tail := JoinPieces(pieces[1..], sep);
      var s := pieces[0] + sep + tail;
      assert OccursAt(s, pieces[0], 0);
      assert forall k :: 1 <= k < |pieces| ==> Contains(s, pieces[k]) by {
        forall k | 1 <= k < |pieces| ensures Contains(s, pieces[k]) {
          assert pieces[k] == pieces[1..][k - 1];
          assert OccursAt(s, tail, |pieces[0]| + |sep|) by {
            assert s[|pieces[0]| + |sep|..] == tail;
          }
          ContainsTransitive(s, tail, pieces[k]);
        }
      }
      s
  }

  /** One step of `split`: the piece before the first occurrence, then the
      split of the rest. */
  lemma SplitAtFirst(s: string, sep: string, i: nat)
    requires |sep| > 0 && FindFrom(s, sep, 0) == Some(i)
    ensures Split(s, sep) == [s[..i]] + Split(s[i + |sep|..], sep)
  {
  }

  lemma SplitNoOccurrence(s: string, sep: string)
    requires |sep| > 0 && FindFrom(s, sep, 0).None?
    ensures Split(s, sep) == [s]
  {
  }

  /** No piece of a split contains the separator. */
  lemma {:induction false} SplitPiecesAvoidSeparator(s: string, sep: string)
    requires |sep| > 0
    ensures forall k :: 0 <= k < |Split(s, sep)| ==> !Contains(Split(s, sep)[k], sep)
    decreases |s|
  {
    FindFromIsFirst(s, sep, 0);
    match FindFrom(s, sep, 0)
    case None =>
      SplitNoOccurrence(s, sep);
    case Some(i) =>
      var rest := s[i + |sep|..];
      SplitAtFirst(s, sep, i);
      SplitPiecesAvoidSeparator(rest, sep);
      forall j | 0 <= j <= i ensures !OccursAt(s[..i], sep, j) {
        OccursInPrefix(s, sep, i, j);
      }
      forall k | 1 <= k < |Split(s, sep)| ensures !Contains(Split(s, sep)[k], sep) {
        assert Split(s, sep)[k] == Split(rest, sep)[k - 1];
      }
  }

  /** The last piece of a split is a suffix of the string. */
  lemma {:induction false} LastPieceIsSuffix(s: string, sep: string)
    requires |sep| > 0
    ensures var p := Split(s, sep)[|Split(s, sep)| - 1];
            |p| <= |s| && p == s[|s| - |p|..]
    decreases |s|
  {
    match FindFrom(s, sep, 0)
    case None =>
      SplitNoOccurrence(s, sep);
    case Some(i) =>
      var rest := s[i + |sep|..];
      SplitAtFirst(s, sep, i);
      LastPieceIsSuffix(rest, sep);
      var p := Split(rest, sep)[|Split(rest, sep)| - 1];
      assert Split(s, sep)[|Split(s, sep)| - 1] == p;
      assert rest[|rest| - |p|..] == s[|s| - |p|..];
  }

  /** The last element of `s.split(sep)`, Python's `s.split(sep)[-1]`. */
  function LastPiece(s: string, sep: string): (r: string)
    requires |sep| > 0
    ensures !Contains(r, sep)
    ensures |r| <= |s| && r == s[|s| - |r|..]
  {
    var pieces := Split(s, sep);
    SplitPiecesAvoidSeparator(s, sep);
    LastPieceIsSuffix(s, sep);
    pieces[|pieces| - 1]
  }

  /** A single piece is joined to itself, with no separator. */
  lemma JoinOne(piece: string, sep: string)
    ensures Join([piece], sep) == piece
  {
  }

  /** Joining more than one piece: the first piece, the separator, then the
      join of the rest. */
  lemma JoinCons(head: string, pieces: seq<string>, sep: string)
    requires |pieces| >= 1
    ensures Join([head] + pieces, sep) == head + sep + Join(pieces, sep)
  {
    assert ([head] + pieces)[1..] == pieces;
  }

  /** A string is the text before an occurrence, the occurrence and the text
      after it. */
  lemma CutAround(s: string, sep: string, i: nat)
    requires OccursAt(s, sep, i)
    ensures s[..i] + sep + s[i + |sep|..] == s
  {
    assert s[..i] + s[i..i + |sep|] == s[..i + |sep|];
    assert s[..i + |sep|] + s[i + |sep|..] == s;
  }

  /** Joining the pieces of a split with the same separator gives back the
      original string: splitting loses nothing. */
  lemma {:induction false} JoinSplit(s: string, sep: string)
    requires |sep| > 0
    ensures Join(Split(s, sep), sep) == s
    decreases |s|
  {
    match FindFrom(s, sep, 0)
    case None =>
      SplitNoOccurrence(s, sep);
    case Some(i) =>
      var rest := s[i + |sep|..];
      calc {
        Join(Split(s, sep), sep);
        == { SplitAtFirst(s, sep, i); }
        Join([s[..i]] + Split(rest, sep), sep);
        == { JoinCons(s[..i], Split(rest, sep), sep); }
        s[..i] + sep + Join(Split(rest, sep), sep);
        == { JoinSplit(rest, sep); }
        s[..i] + sep + rest;
        == { CutAround(s, sep, i); }
        s;
      }
  }

  /** Splitting a join on a one-character separator that no piece contains
      gives back the pieces. */
  lemma {:induction false} SplitJoin(pieces: seq<string>, sep: string)
    requires |sep| == 1 && |pieces| >= 1
    requires forall k :: 0 <= k < |pieces| ==> !Contains(pieces[k], sep)
    ensures Split(Join(pieces, sep), sep) == pieces
    decreases |pieces|
  {
    var s := Join(pieces, sep);
    if |pieces| == 1 {
      SplitNoOccurrence(s, sep);
    } else {
      var head, rest := pieces[0], pieces[1..];
      var tail := Join(rest, sep);
      JoinCons(head, rest, sep);
      assert pieces == [head] + rest;
      assert s[|head|..|head| + 1] == sep;
      assert !Contains(head, sep);
      forall j | 0 <= j < |head| ensures !OccursAt(s, sep, j) {
        assert !OccursAt(head, sep, j);
        assert s[j..j + 1] == head[j..j + 1];
      }
      FindFromUnique(s, sep, 0, |head|);
      SplitAtFirst(s, sep, |head|);
      assert s[..|head|] == head;
      assert s[|head| + 1..] == tail;
      SplitJoin(rest, sep);
    }
  }

  /** A separator with no proper overlap with itself: no proper suffix of it
      is also a prefix. Two occurrences of such a separator never overlap. */
  predicate BorderFree(sep: string) {
    forall d :: 0 < d < |sep| ==> sep[d..] != sep[..|sep| - d]
  }

  /** Two overlapping occurrences of `sep` make the overlap a border of `sep`. */
  lemma OverlapIsBorder(s: string, sep: string, i: int, j: int)
    requires OccursAt(s, sep, i) && OccursAt(s, sep, j) && i < j < i + |sep|
    ensures sep[j - i..] == sep[..|sep| - (j - i)]
  {
    var d := j - i;
    assert s[j..i + |sep|] == s[i..i + |sep|][d..];
    assert s[j..i + |sep|] == s[j..j + |sep|][..|sep| - d];
  }

  /** Occurrences of a border-free separator at `i` and `j` with `i < j` are
      at least `|sep|` apart. */
  lemma NoOverlap(s: string, sep: string, i: int, j: int)
    requires BorderFree(sep)
    requires OccursAt(s, sep, i) && OccursAt(s, sep, j) && i < j
    ensures i + |sep| <= j
  {
    if j < i + |sep| {
      OverlapIsBorder(s, sep, i, j);
    }
  }

  /** The last occurrence in the text after an occurrence at `i` is, shifted,
      the last occurrence in the whole string. */
  lemma LastIndexOfAfter(s: string, sep: string, i: nat, k: nat)
    requires OccursAt(s, sep, i)
    requires LastIndexOf(s[i + |sep|..], sep) == Some(k)
    ensures LastIndexOf(s, sep) == Some(i + |sep| + k)
  {
    var n := i + |sep|;
    OccursInSuffix(s, sep, n, k);
    forall j | n + k < j ensures !OccursAt(s, sep, j) {
      OccursInSuffix(s, sep, n, j - n);
    }
    LastIndexOfUnique(s, sep, n + k);
  }

  /** When a border-free separator does not occur after its occurrence at
      `i`, that occurrence is the last one. */
  lemma LastIndexOfIsThis(s: string, sep: string, i: nat)
    requires BorderFree(sep) && OccursAt(s, sep, i)
    requires LastIndexOf(s[i + |sep|..], sep).None?
    ensures LastIndexOf(s, sep) == Some(i)
  {
    var n := i + |sep|;
    forall j | i < j ensures !OccursAt(s, sep, j) {
      if OccursAt(s, sep, j) {
        NoOverlap(s, sep, i, j);
        OccursInSuffix(s, sep, n, j - n);
      }
    }
    LastIndexOfUnique(s, sep, i);
  }

  /** The last piece of a split is the last piece of the split of the text
      after the first occurrence. */
  lemma LastPieceAfterFirst(s: string, sep: string, i: nat)
    requires |sep| > 0 && FindFrom(s, sep, 0) == Some(i)
    ensures LastPiece(s, sep) == LastPiece(s[i + |sep|..], sep)
  {
    SplitAtFirst(s, sep, i);
  }

  /** Without any occurrence, the split has one piece and there is no last
      occurrence. */
  lemma LastPieceWithoutOccurrence(s: string, sep: string)
    requires |sep| > 0 && FindFrom(s, sep, 0).None?
    ensures LastIndexOf(s, sep).None? && LastPiece(s, sep) == s
  {
    FindFromIsFirst(s, sep, 0);
    SplitNoOccurrence(s, sep);
  }

  /** For a border-free separator, `s.split(sep)[-1]` is exactly the text
      after the last occurrence of `sep`, or all of `s` when there is none. */
  lemma {:induction false} LastPieceFollowsLastOccurrence(s: string, sep: string)
    requires |sep| > 0 && BorderFree(sep)
    ensures LastIndexOf(s, sep).None? ==> LastPiece(s, sep) == s
    ensures LastIndexOf(s, sep).Some? ==>
              LastPiece(s, sep) == s[LastIndexOf(s, sep).value + |sep|..]
    decreases |s|
  {
    match FindFrom(s, sep, 0)
    case None =>
      LastPieceWithoutOccurrence(s, sep);
    case Some(i) =>
      var n := i + |sep|;
      var rest := s[n..];
      LastPieceFollowsLastOccurrence(rest, sep);
      LastPieceAfterFirst(s, sep, i);
      match LastIndexOf(rest, sep)
      case Some(k) =>
        LastIndexOfAfter(s, sep, i, k);
        assert rest[k + |sep|..] == s[n + k + |sep|..];
      case None =>
        LastIndexOfIsThis(s, sep, i);
  }
}
