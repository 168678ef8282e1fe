/** JavaScript string searching, `String.prototype.split` with a string
    separator and `Array.prototype.join` on an array of strings. */
module JsString {
  import opened Wrappers

  /** `d` occurs in `s` starting at position `j`. */
  predicate OccursAt(s: string, d: string, j: int) {
    0 <= j && j + |d| <= |s| && s[j..j + |d|] == d
  }

  /** An occurrence in `s[1..]` is an occurrence in `s`, one position later. */
  lemma OccursAtTail(s: string, d: string, j: int)
    requires |s| > 0 && 1 <= j
    ensures OccursAt(s[1..], d, j - 1) <==> OccursAt(s, d, j)
  {
    if j + |d| <= |s| {
      assert s[1..][j - 1..j - 1 + |d|] == s[j..j + |d|];
    }
  }

  /** An occurrence inside a prefix of `s` is an occurrence in `s`. */
  lemma OccursAtPrefix(s: string, d: string, n: nat, j: int)
    requires n <= |s|
    ensures OccursAt(s[..n], d, j) ==> OccursAt(s, d, j)
  {
    if OccursAt(s[..n], d, j) {
      assert s[..n][j..j + |d|] == s[j..j + |d|];
    }
  }

  /** `s.indexOf(d)`: the first position at which `d` occurs, `None` for -1. */
  function IndexOf(s: string, d: string): (r: Option<nat>)
    ensures r.Some? ==> OccursAt(s, d, r.value)
    ensures forall j :: 0 <= j && (r.None? || j < r.value) ==> !OccursAt(s, d, j)
    decreases |s|
  {
    if |s| < |d| then None
    else if s[..|d|] == d then Some(0)
    else
      var r := IndexOf(s[1..], d);
      assert !OccursAt(s, d, 0) by { assert s[0..|d|] == s[..|d|]; }
      assert forall j :: 1 <= j && (r.None? || j - 1 < r.value) ==> !OccursAt(s, d, j) by {
        forall j | 1 <= j { OccursAtTail(s, d, j); }
      }
      match r
      case None => None
      case Some(i) => OccursAtTail(s, d, i + 1); Some(i + 1)
  }

  /** `s.split(d)`: the pieces of `s` between the non-overlapping occurrences
      of `d` found from left to right; with the empty separator, the
      characters of `s` one by one. */
  function Split(s: string, d: string): (parts: seq<string>)
    ensures |parts| == 0 <==> s == [] && d == []
    ensures d == [] ==> |parts| == |s| && forall k :: 0 <= k < |parts| ==> parts[k] == [s[k]]
    decreases |s|
  {
    if d == [] then
      if s == [] then [] else [[s[0]]] + Split(s[1..], d)
    else
      match IndexOf(s, d)
      case None => [s]
      case Some(i) => [s[..i]] + Split(s[i + |d|..], d)
  }

  /** `parts.join(d)`: the parts with `d` between neighbours. */
  function Join(parts: seq<string>, d: string): (s: string)
    ensures |parts| == 1 ==> s == parts[0]
    decreases |parts|
  {
    if |parts| == 0 then ""
    else if |parts| == 1 then parts[0]
    else parts[0] + d + Join(parts[1..], d)
  }

  /** An occurrence of `d` at `i` cuts `s` into the text before, `d`, and the text after. */
  lemma OccurrenceCuts(s: string, d: string, i: nat)
    requires OccursAt(s, d, i)
    ensures s == s[..i] + d + s[i + |d|..]
  {
    assert s[i..] == s[i..i + |d|] + s[i + |d|..];
    assert s == s[..i] + s[i..];
  }

  /** Splitting on the first occurrence: the first part is the text before
      it, and the remaining parts are those of the text after it. */
  lemma SplitAtFirst(s: string, d: string, i: nat)
    requires |d| > 0 && IndexOf(s, d) == Some(i)
    ensures i + |d| <= |s|
    ensures Split(s, d) == [s[..i]] + Split(s[i + |d|..], d)
    ensures s == s[..i] + d + s[i + |d|..]
  {
    OccurrenceCuts(s, d, i);
  }

  /** Joining the pieces of a split with the same separator gives back the string. */
  lemma {:induction false} JoinSplit(s: string, d: string)
    ensures Join(Split(s, d), d) == s
    decreases |s|
  {
    if d == [] {
      if s != [] {
        JoinSplit(s[1..], d);
        if s[1..] == [] {
          assert Split(s, d) == [[s[0]]];
        } else {
          assert Join(Split(s, d), d) == [s[0]] + d + Join(Split(s[1..], d), d);
        }
      }
    } else {
      match IndexOf(s, d)
      case None =>
      case Some(i) =>
        SplitAtFirst(s, d, i);
        var rest := s[i + |d|..];
        JoinSplit(rest, d);
        assert Join(Split(s, d), d) == s[..i] + d + Join(Split(rest, d), d);
    }
  }

  /** No piece produced by splitting on a non-empty separator contains it. */
  lemma {:induction false} SplitPartsFree(s: string, d: string)
    requires |d| > 0
    ensures forall k :: 0 <= k < |Split(s, d)| ==> IndexOf(Split(s, d)[k], d).None?
    decreases |s|
  {
    match IndexOf(s, d)
    case None =>
    case Some(i) =>
      SplitAtFirst(s, d, i);
      SplitPartsFree(s[i + |d|..], d);
      var first := s[..i];
      match IndexOf(first, d)
      case None =>
      case Some(m) =>
        OccursAtPrefix(s, d, i, m);
        assert false;
  }

  /** A string that does not contain the separator splits into itself alone. */
  lemma SplitWithout(s: string, d: string)
    requires |d| > 0 && IndexOf(s, d).None?
    ensures Split(s, d) == [s]
  {
  }

  /** For a one-character separator, an occurrence is that character. */
  lemma OccursAtChar(s: string, c: char, j: int)
    ensures OccursAt(s, [c], j) <==> 0 <= j < |s| && s[j] == c
  {
    if 0 <= j < |s| {
      assert s[j..j + 1] == [s[j]];
    }
  }

  /** For a one-character separator, `indexOf` finds the first position of
      that character, and finds nothing exactly when the character is absent. */
  lemma IndexOfChar(s: string, c: char)
    ensures IndexOf(s, [c]).None? <==> c !in s
    ensures IndexOf(s, [c]).Some? ==>
      var i := IndexOf(s, [c]).value;
      i < |s| && s[i] == c && c !in s[..i]
  {
    forall j | 0 <= j < |s| { OccursAtChar(s, c, j); }
    match IndexOf(s, [c])
    case None =>
    case Some(i) => OccursAtChar(s, c, i);
  }

  /** The first occurrence of `c` in `first + [c] + tail`, when `first`
      lacks `c`, is right after `first`. */
  lemma IndexOfAfterPiece(first: string, c: char, tail: string)
    requires c !in first
    ensures IndexOf(first + [c] + tail, [c]) == Some(|first|)
  {
    var s := first + [c] + tail;
    IndexOfChar(s, c);
    assert s[|first|] == c;
    assert s[..|first|] == first;
  }

  /** Splitting `first + [c] + tail` on `c`, when `first` lacks `c`, gives
      `first` and then the pieces of `tail`. */
  lemma SplitAfterPiece(first: string, c: char, tail: string)
    requires c !in first
    ensures Split(first + [c] + tail, [c]) == [first] + Split(tail, [c])
  {
    var s := first + [c] + tail;
    IndexOfAfterPiece(first, c, tail);
    SplitAtFirst(s, [c], |first|);
    assert s[..|first|] == first;
    assert s[|first| + 1..] == tail;
  }

  /** For a one-character separator, splitting the join of pieces that do
      not contain the character gives back the pieces. */
  lemma {:induction false} SplitJoinChar(parts: seq<string>, c: char)
    requires |parts| >= 1
    requires forall k :: 0 <= k < |parts| ==> c !in parts[k]
    ensures Split(Join(parts, [c]), [c]) == parts
    decreases |parts|
  {
    if |parts| == 1 {
      IndexOfChar(parts[0], c);
      SplitWithout(parts[0], [c]);
    } else {
      var first, others := parts[0], parts[1..];
      assert Join(parts, [c]) == first + [c] + Join(others, [c]);
      assert forall k :: 0 <= k < |others| ==> others[k] == parts[k + 1];
      SplitJoinChar(others, c);
      SplitAfterPiece(first, c, Join(others, [c]));
      assert parts == [first] + others;
    }
  }
}
