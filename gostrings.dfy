/**
 * The two Go `strings` operations the access log relies on, for a
 * one-character separator and a one-character cut set:
 * `strings.Split(s, sep)` and `strings.Trim(s, cut)`, with `Join` as the
 * inverse that characterises `Split`.
 */
module GoStrings {

  /** `t` is the last |t| characters of `s`. */
  predicate IsSuffix(t: string, s: string) {
    |t| <= |s| && forall k {:trigger t[k]} :: 0 <= k < |t| ==> t[k] == s[|s| - |t| + k]
  }

  /** No character of `s` is `c`. */
  predicate Lacks(s: string, c: char) {
    forall k :: 0 <= k < |s| ==> s[k] != c
  }

  /** The index of the first `c` in `s`, or `|s|` when there is none. */
  function IndexOf(s: string, c: char): (i: nat)
    ensures i <= |s|
    ensures i < |s| ==> s[i] == c
    ensures forall k :: 0 <= k < i ==> s[k] != c
  {
    if s == [] || s[0] == c then 0 else 1 + IndexOf(s[1..], c)
  }

  /**
   * `strings.Split(s, [sep])`: the pieces between successive separators;
   * a text with n separators has n + 1 pieces, the empty text one piece.
   * The last piece is the text after the last separator.
   */
  function Split(s: string, sep: char): (parts: seq<string>)
    ensures |parts| >= 1
    ensures parts[|parts| - 1] == AfterLast(s, sep)
    decreases |s|
  {
    var i := IndexOf(s, sep);
    if i == |s| then
      AfterLastWhole(s, sep);
      [s]
    else
      AfterLastOfTail(s, i, sep);
      [s[..i]] + Split(s[i + 1..], sep)
  }

  /** No piece in `parts` contains `c`. */
  predicate NoneHolds(parts: seq<string>, c: char) {
    forall k :: 0 <= k < |parts| ==> Lacks(parts[k], c)
  }

  /** No piece of a split contains the separator. */
  lemma {:induction false} SplitPieces(s: string, sep: char)
    ensures NoneHolds(Split(s, sep), sep)
    decreases |s|
  {
    var i := IndexOf(s, sep);
    if i < |s| {
      var t := s[i + 1..];
      SplitPieces(t, sep);
      NoneHoldsCons(s[..i], Split(t, sep), sep);
    }
  }

  lemma NoneHoldsCons(a: string, rest: seq<string>, c: char)
    requires Lacks(a, c) && NoneHolds(rest, c)
    ensures NoneHolds([a] + rest, c)
  {
  }

  /** `strings.Join(parts, [sep])`, the inverse of `Split`. */
  function Join(parts: seq<string>, sep: char): (s: string)
    requires |parts| >= 1
  {
    if |parts| == 1 then parts[0] else parts[0] + [sep] + Join(parts[1..], sep)
  }

  /** Joining the pieces back together gives the original text. */
  lemma {:induction false} JoinSplit(s: string, sep: char)
    ensures Join(Split(s, sep), sep) == s
    decreases |s|
  {
    var i := IndexOf(s, sep);
    if i < |s| {
      var t := s[i + 1..];
      JoinSplit(t, sep);
      JoinCons(s[..i], Split(t, sep), sep);
      Reassemble(s, i);
    }
  }

  lemma JoinCons(a: string, rest: seq<string>, sep: char)
    requires |rest| >= 1
    ensures Join([a] + rest, sep) == a + [sep] + Join(rest, sep)
  {
  }

  lemma Reassemble(s: string, i: nat)
    requires i < |s|
    ensures s[..i] + [s[i]] + s[i + 1..] == s
  {
  }

  /** The first separator of `a + [sep] + b` is the one after `a` when `a` has none. */
  lemma IndexOfAfterPiece(a: string, b: string, sep: char)
    requires Lacks(a, sep)
    ensures IndexOf(a + [sep] + b, sep) == |a|
  {
    var s := a + [sep] + b;
    assert s[|a|] == sep;
    assert forall k :: 0 <= k < |a| ==> s[k] == a[k];
  }

  /** Splitting a join of separator-free pieces gives the pieces back. */
  lemma {:induction false} SplitJoin(parts: seq<string>, sep: char)
    requires |parts| >= 1
    requires NoneHolds(parts, sep)
    ensures Split(Join(parts, sep), sep) == parts
    decreases |parts|
  {
    if |parts| == 1 {
      SplitNoSeparator(parts[0], sep);
    } else {
      var rest := parts[1..];
      assert forall k :: 0 <= k < |rest| ==> rest[k] == parts[k + 1];
      SplitAfterPiece(parts[0], Join(rest, sep), sep);
      SplitJoin(rest, sep);
      assert parts == [parts[0]] + parts[1..];
    }
  }

  /** A separator-free piece followed by a separator splits off as the first piece. */
  lemma SplitAfterPiece(a: string, b: string, sep: char)
    requires Lacks(a, sep)
    ensures Split(a + [sep] + b, sep) == [a] + Split(b, sep)
  {
    var s := a + [sep] + b;
    IndexOfAfterPiece(a, b, sep);
    assert s[..|a|] == a;
    assert s[|a| + 1..] == b;
  }

  /**
   * `p` is the text after the last separator of `s`, or all of `s` when
   * it has none: a separator-free suffix that starts `s` or follows a
   * separator.
   */
  predicate AfterLastSeparator(p: string, s: string, sep: char) {
    IsSuffix(p, s) && Lacks(p, sep) && (|p| == |s| || s[|s| - |p| - 1] == sep)
  }

  /** The text after the last separator, read from the right end. */
  function AfterLast(s: string, sep: char): (p: string)
    ensures AfterLastSeparator(p, s, sep)
  {
    if s == [] || s[|s| - 1] == sep then []
    else
      var init := s[..|s| - 1];
      var p := AfterLast(init, sep);
      assert |p| < |init| ==> s[|s| - |p| - 2] == init[|init| - |p| - 1];
      p + [s[|s| - 1]]
  }

  /** Only one text is the part after the last separator. */
  lemma AfterLastSeparatorUnique(p: string, q: string, s: string, sep: char)
    requires AfterLastSeparator(p, s, sep) && AfterLastSeparator(q, s, sep)
    ensures p == q
  {
    NoLongerThanLastPart(p, q, s, sep);
    NoLongerThanLastPart(q, p, s, sep);
    assert forall k :: 0 <= k < |p| ==> p[k] == s[|s| - |p| + k] == q[k];
  }

  /** A separator-free suffix of `s` is no longer than the part after the last separator. */
  lemma NoLongerThanLastPart(p: string, q: string, s: string, sep: char)
    requires AfterLastSeparator(p, s, sep) && IsSuffix(q, s) && Lacks(q, sep)
    ensures |q| <= |p|
  {
    if |p| < |s| {
      assert forall k :: |s| - |q| <= k < |s| ==> s[k] == q[k - (|s| - |q|)];
    }
  }

  /** Dropping a prefix that ends in a separator keeps the text after the last one. */
  lemma AfterLastOfTail(s: string, i: nat, sep: char)
    requires i < |s| && s[i] == sep
    ensures AfterLast(s, sep) == AfterLast(s[i + 1..], sep)
  {
    var t := s[i + 1..];
    var p := AfterLast(t, sep);
    assert |p| < |t| ==> s[|s| - |p| - 1] == t[|t| - |p| - 1];
    AfterLastSeparatorUnique(p, AfterLast(s, sep), s, sep);
  }

  /** A text without separators is its own last part. */
  lemma AfterLastWhole(s: string, sep: char)
    requires Lacks(s, sep)
    ensures AfterLast(s, sep) == s
  {
  }

  /** A text without the separator is a single piece. */
  lemma SplitNoSeparator(s: string, sep: char)
    requires Lacks(s, sep)
    ensures Split(s, sep) == [s]
  {
  }

  /** The length of the leading run of `c` in `s`. */
  function LeadingRun(s: string, c: char): (n: nat)
    ensures n <= |s|
    ensures forall k :: 0 <= k < n ==> s[k] == c
    ensures n < |s| ==> s[n] != c
  {
    if s == [] || s[0] != c then 0 else 1 + LeadingRun(s[1..], c)
  }

  /** The length of the trailing run of `c` in `s`. */
  function TrailingRun(s: string, c: char): (n: nat)
    ensures n <= |s|
    ensures forall k :: |s| - n <= k < |s| ==> s[k] == c
    ensures n < |s| ==> s[|s| - n - 1] != c
  {
    if s == [] || s[|s| - 1] != c then 0 else 1 + TrailingRun(s[..|s| - 1], c)
  }

  /** `r` is `s` from offset `i` on with only copies of `c` cut from either end. */
  predicate TrimmedAt(s: string, c: char, i: int, r: string) {
    0 <= i <= i + |r| <= |s|
    && (forall k {:trigger r[k]} :: 0 <= k < |r| ==> r[k] == s[i + k])
    && (forall k :: 0 <= k < i ==> s[k] == c)
    && (forall k :: i + |r| <= k < |s| ==> s[k] == c)
  }

  /**
   * `strings.Trim(s, [c])`: drops the leading and the trailing run of
   * `c`; what is left is a piece of `s` that neither starts nor ends with
   * `c`, and everything removed was `c`.
   */
  function Trim(s: string, c: char): (r: string)
    ensures exists i | 0 <= i <= |s| - |r| :: TrimmedAt(s, c, i, r)
    ensures r == [] || (r[0] != c && r[|r| - 1] != c)
  {
    var i := LeadingRun(s, c);
    if i == |s| then
      assert TrimmedAt(s, c, i, []);
      []
    else
      var j := |s| - TrailingRun(s, c);
      assert i < j;
      assert TrimmedAt(s, c, i, s[i..j]);
      s[i..j]
  }

  /** Trimming removes nothing when the text neither starts nor ends with `c`. */
  lemma TrimNoop(s: string, c: char)
    requires s == [] || (s[0] != c && s[|s| - 1] != c)
    ensures Trim(s, c) == s
  {
  }
}
