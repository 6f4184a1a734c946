/**
 * The few Python string operations the reader relies on: `pat in s`,
 * `s.find(pat)`, `s.split(sep)`, `s.replace(pat, "")` and `s.lower()`.
 * Searching is the left-to-right, non-overlapping scan that CPython uses.
 */
module Text {
  import opened Wrappers

  /** `pat` occurs in `s` starting at index `i`. */
  predicate OccursAt(s: string, pat: string, i: nat)
  {
    i + |pat| <= |s| && s[i..i + |pat|] == pat
  }

  predicate EndsWith(s: string, suffix: string)
  {
    |suffix| <= |s| && s[|s| - |suffix|..] == suffix
  }

  /** `s.find(pat, from)`: the first index at or after `from` where `pat` occurs. */
  function FindFrom(s: string, pat: string, from: nat): (r: Option<nat>)
    requires pat != [] && from <= |s|
    ensures r.Some? ==> from <= r.value && OccursAt(s, pat, r.value)
    ensures r.Some? ==> forall i: nat :: from <= i < r.value ==> !OccursAt(s, pat, i)
    ensures r.None? ==> forall i: nat :: from <= i ==> !OccursAt(s, pat, i)
    decreases |s| - from
  {
    if from + |pat| > |s| then None
    else if OccursAt(s, pat, from) then Some(from)
    else FindFrom(s, pat, from + 1)
  }

  /** `pat in s`. */
  predicate Contains(s: string, pat: string)
    requires pat != []
  {
    FindFrom(s, pat, 0).Some?
  }

  /** `s[from:].split(sep)`: the pieces between successive occurrences found by the scan. */
  function SplitFrom(s: string, sep: string, from: nat): (pieces: seq<string>)
    requires sep != [] && from <= |s|
    ensures |pieces| >= 1
    decreases |s| - from
  {
    match FindFrom(s, sep, from)
    case None => [s[from..]]
    case Some(m) => [s[from..m]] + SplitFrom(s, sep, m + |sep|)
  }

  /** `s.split(sep)`. */
  function Split(s: string, sep: string): (pieces: seq<string>)
    requires sep != []
    ensures |pieces| >= 1
  {
    SplitFrom(s, sep, 0)
  }

  /** `s[from:].replace(pat, "")`. */
  function RemoveFrom(s: string, pat: string, from: nat): string
    requires pat != [] && from <= |s|
    decreases |s| - from
  {
    match FindFrom(s, pat, from)
    case None => s[from..]
    case Some(m) => s[from..m] + RemoveFrom(s, pat, m + |pat|)
  }

  /** `s.replace(pat, "")`. */
  function Remove(s: string, pat: string): string
    requires pat != []
  {
    RemoveFrom(s, pat, 0)
  }

  /** `sep.join(pieces)`. */
  function Join(pieces: seq<string>, sep: string): string
    requires |pieces| >= 1
  {
    if |pieces| == 1 then pieces[0] else pieces[0] + sep + Join(pieces[1..], sep)
  }

  /** `"".join(pieces)`. */
  function Concat(pieces: seq<string>): string
  {
    if pieces == [] then [] else pieces[0] + Concat(pieces[1..])
  }

  function LowerChar(c: char): char
  {
    if 'A' <= c <= 'Z' then (c as int + 32) as char else c
  }

  /** `s.lower()` on ASCII letters. */
  function Lower(s: string): string
  {
    seq(|s|, i requires 0 <= i < |s| => LowerChar(s[i]))
  }

  /** An occurrence inside a slice is an occurrence in the whole string. */
  lemma OccursInSlice(s: string, pat: string, lo: nat, hi: nat, i: nat)
    requires lo <= hi <= |s|
    requires OccursAt(s[lo..hi], pat, i)
    ensures OccursAt(s, pat, lo + i) && lo + i + |pat| <= hi
  {
    var w := s[lo..hi];
    forall k | 0 <= k < |pat| ensures s[lo + i + k] == pat[k] {
      assert w[i + k] == w[i..i + |pat|][k];
    }
    assert s[lo + i..lo + i + |pat|] == pat;
  }

  /** An occurrence lying inside a slice is an occurrence in that slice. */
  lemma OccursInWhole(s: string, pat: string, lo: nat, hi: nat, i: nat)
    requires lo <= i && i + |pat| <= hi <= |s|
    requires OccursAt(s, pat, i)
    ensures OccursAt(s[lo..hi], pat, i - lo)
  {
    var w := s[lo..hi];
    forall k | 0 <= k < |pat| ensures w[i - lo + k] == pat[k] {
      assert s[i + k] == s[i..i + |pat|][k];
    }
    assert w[i - lo..i - lo + |pat|] == pat;
  }

  /** `pat in s` holds exactly when `pat` occurs somewhere in `s`. */
  lemma ContainsIff(s: string, pat: string, i: nat)
    requires pat != []
    ensures OccursAt(s, pat, i) ==> Contains(s, pat)
    ensures !Contains(s, pat) ==> !OccursAt(s, pat, i)
  {
  }

  /** `find` returns an occurrence once nothing earlier (from `from` on) matches. */
  lemma FindFirst(s: string, pat: string, from: nat, m: nat)
    requires pat != [] && from <= m && OccursAt(s, pat, m)
    requires forall i: nat :: from <= i < m ==> !OccursAt(s, pat, i)
    ensures from <= |s| && FindFrom(s, pat, from) == Some(m)
  {
  }

  /** A suffix free of `pat` leaves `find` from its start empty-handed. */
  lemma FindInFreeSuffix(s: string, pat: string, from: nat)
    requires pat != [] && from <= |s| && !Contains(s[from..], pat)
    ensures FindFrom(s, pat, from).None?
  {
    assert s[from..|s|] == s[from..];
    forall i: nat | from <= i ensures !OccursAt(s, pat, i) {
      if OccursAt(s, pat, i) {
        OccursInWhole(s, pat, from, |s|, i);
      }
    }
  }

  /** A prefix free of `pat` holds no occurrence of it. */
  lemma FreePrefix(s: string, pat: string, hi: nat, i: nat)
    requires pat != [] && hi <= |s| && !Contains(s[..hi], pat)
    requires i + |pat| <= hi
    ensures !OccursAt(s, pat, i)
  {
    assert s[0..hi] == s[..hi];
    if OccursAt(s, pat, i) {
      OccursInWhole(s, pat, 0, hi, i);
      ContainsIff(s[..hi], pat, i);
    }
  }

  /** An occurrence of `pat + more` is an occurrence of `pat`. */
  lemma OccursPrefix(s: string, pat: string, more: string, i: nat)
    requires OccursAt(s, pat + more, i)
    ensures OccursAt(s, pat, i)
  {
    assert s[i..i + |pat|] == s[i..i + |pat + more|][..|pat|];
  }

  /** No piece of a split contains the separator. */
  lemma {:induction false} PiecesAvoidSeparator(s: string, sep: string, from: nat)
    requires sep != [] && from <= |s|
    ensures forall p :: p in SplitFrom(s, sep, from) ==> !Contains(p, sep)
    decreases |s| - from
  {
    match FindFrom(s, sep, from)
    case None =>
      var p := s[from..];
      assert p == s[from..|s|];
      forall i: nat ensures !OccursAt(p, sep, i) {
        if OccursAt(p, sep, i) {
          OccursInSlice(s, sep, from, |s|, i);
        }
      }
      assert SplitFrom(s, sep, from) == [p];
    case Some(m) =>
      var p := s[from..m];
      forall i: nat ensures !OccursAt(p, sep, i) {
        if OccursAt(p, sep, i) {
          OccursInSlice(s, sep, from, m, i);
        }
      }
      PiecesAvoidSeparator(s, sep, m + |sep|);
      assert SplitFrom(s, sep, from) == [p] + SplitFrom(s, sep, m + |sep|);
  }

  /** Where the last piece of `SplitFrom(s, sep, from)` starts. */
  function LastStart(s: string, sep: string, from: nat): (j: nat)
    requires sep != [] && from <= |s|
    ensures from <= j <= |s|
    decreases |s| - from
  {
    match FindFrom(s, sep, from)
    case None => from
    case Some(m) => LastStart(s, sep, m + |sep|)
  }

  lemma {:induction false} SplitFromLast(s: string, sep: string, from: nat)
    requires sep != [] && from <= |s|
    ensures SplitFrom(s, sep, from)[|SplitFrom(s, sep, from)| - 1] == s[LastStart(s, sep, from)..]
    decreases |s| - from
  {
    if FindFrom(s, sep, from).None? {
      LastStartNone(s, sep, from);
    } else {
      var m := FindFrom(s, sep, from).value;
      SplitFromLast(s, sep, m + |sep|);
      LastStartSome(s, sep, from, m);
    }
  }

  lemma LastStartNone(s: string, sep: string, from: nat)
    requires sep != [] && from <= |s| && FindFrom(s, sep, from).None?
    ensures SplitFrom(s, sep, from)[|SplitFrom(s, sep, from)| - 1] == s[LastStart(s, sep, from)..]
  {
    assert SplitFrom(s, sep, from) == [s[from..]];
  }

  lemma LastStartSome(s: string, sep: string, from: nat, m: nat)
    requires sep != [] && from <= |s| && FindFrom(s, sep, from) == Some(m)
    requires SplitFrom(s, sep, m + |sep|)[|SplitFrom(s, sep, m + |sep|)| - 1] == s[LastStart(s, sep, m + |sep|)..]
    ensures SplitFrom(s, sep, from)[|SplitFrom(s, sep, from)| - 1] == s[LastStart(s, sep, from)..]
  {
    SplitLast(s, sep, from, m);
  }

  /**
   * A scan from `from` that no occurrence can carry past the occurrence at
   * `at`, with nothing found after it, has its last piece start right after it.
   */
  lemma {:induction false} ScanReaches(s: string, sep: string, at: nat, from: nat)
    requires sep != [] && from <= at && OccursAt(s, sep, at) && FindFrom(s, sep, at + |sep|).None?
    requires forall m: nat :: at < m + |sep| && m < at ==> !OccursAt(s, sep, m)
    ensures LastStart(s, sep, from) == at + |sep|
    decreases at - from
  {
    var m := ScanStops(s, sep, at, from);
    if m != at {
      ScanReaches(s, sep, at, m + |sep|);
    }
  }

  /** The scan from `from` finds an occurrence no later than `at` that does not run past `at`. */
  lemma ScanStops(s: string, sep: string, at: nat, from: nat) returns (m: nat)
    requires sep != [] && from <= at && OccursAt(s, sep, at)
    requires forall m: nat :: at < m + |sep| && m < at ==> !OccursAt(s, sep, m)
    ensures FindFrom(s, sep, from) == Some(m)
    ensures from <= m && (m == at || m + |sep| <= at)
  {
    assert FindFrom(s, sep, from).Some?;
    m := FindFrom(s, sep, from).value;
  }

  /** After an occurrence at `m`, the last piece is the last piece of the rest. */
  lemma SplitLast(s: string, sep: string, from: nat, m: nat)
    requires sep != [] && from <= |s| && FindFrom(s, sep, from) == Some(m)
    ensures SplitFrom(s, sep, from)[|SplitFrom(s, sep, from)| - 1]
      == SplitFrom(s, sep, m + |sep|)[|SplitFrom(s, sep, m + |sep|)| - 1]
  {
    var rest := SplitFrom(s, sep, m + |sep|);
    assert SplitFrom(s, sep, from) == [s[from..m]] + rest;
  }

  /** Joining the pieces of a split with the separator gives back the string. */
  lemma {:induction false} JoinSplitFrom(s: string, sep: string, from: nat)
    requires sep != [] && from <= |s|
    ensures Join(SplitFrom(s, sep, from), sep) == s[from..]
    decreases |s| - from
  {
    match FindFrom(s, sep, from)
    case None =>
    case Some(m) =>
      var rest := SplitFrom(s, sep, m + |sep|);
      JoinSplitFrom(s, sep, m + |sep|);
      assert SplitFrom(s, sep, from) == [s[from..m]] + rest;
      assert ([s[from..m]] + rest)[1..] == rest;
      assert s[m..m + |sep|] == sep;
      assert s[from..] == s[from..m] + s[m..m + |sep|] + s[m + |sep|..];
  }

  /** Removing every occurrence leaves the pieces of the split, concatenated. */
  lemma {:induction false} RemoveFromIsConcat(s: string, pat: string, from: nat)
    requires pat != [] && from <= |s|
    ensures RemoveFrom(s, pat, from) == Concat(SplitFrom(s, pat, from))
    decreases |s| - from
  {
    match FindFrom(s, pat, from)
    case None =>
      assert Concat([s[from..]]) == s[from..] + Concat([]);
    case Some(m) =>
      RemoveFromIsConcat(s, pat, m + |pat|);
      RemoveStep(s, pat, from, m);
  }

  /** One found occurrence: the removal and the split both take the text before it and go on after it. */
  lemma RemoveStep(s: string, pat: string, from: nat, m: nat)
    requires pat != [] && from <= |s| && FindFrom(s, pat, from) == Some(m)
    requires RemoveFrom(s, pat, m + |pat|) == Concat(SplitFrom(s, pat, m + |pat|))
    ensures RemoveFrom(s, pat, from) == Concat(SplitFrom(s, pat, from))
  {
    var rest := SplitFrom(s, pat, m + |pat|);
    assert RemoveFrom(s, pat, from) == s[from..m] + RemoveFrom(s, pat, m + |pat|);
    assert SplitFrom(s, pat, from) == [s[from..m]] + rest;
    assert ([s[from..m]] + rest)[1..] == rest;
    assert Concat([s[from..m]] + rest) == s[from..m] + Concat(rest);
  }

  /**
   * `s.replace(pat, "")` removes every occurrence of `pat` found by the
   * left-to-right scan: `s` is the pieces joined by `pat`, the result is the
   * same pieces joined by nothing, and no piece still contains `pat`.
   */
  lemma RemoveEveryOccurrence(s: string, pat: string)
    requires pat != []
    ensures Join(Split(s, pat), pat) == s
    ensures Remove(s, pat) == Concat(Split(s, pat))
    ensures forall p :: p in Split(s, pat) ==> !Contains(p, pat)
  {
    JoinSplitFrom(s, pat, 0);
    RemoveFromIsConcat(s, pat, 0);
    PiecesAvoidSeparator(s, pat, 0);
  }

  /** A string without `pat` is left unchanged by removing `pat`. */
  lemma RemoveAbsent(s: string, pat: string)
    requires pat != [] && !Contains(s, pat)
    ensures Remove(s, pat) == s
  {
  }

  /** The last two pieces of a join are separated by the separator. */
  lemma {:induction false} JoinLast(pieces: seq<string>, sep: string)
    requires |pieces| >= 2
    ensures Join(pieces, sep) == Join(pieces[..|pieces| - 1], sep) + sep + pieces[|pieces| - 1]
  {
    if |pieces| > 2 {
      JoinLast(pieces[1..], sep);
      assert pieces[1..][..|pieces| - 2] == pieces[..|pieces| - 1][1..];
    }
  }

  /**
   * When `sep` occurs in `s`, the last piece of `s.split(sep)` follows an
   * occurrence of `sep` at the very end of `s` and contains no `sep` itself.
   */
  lemma LastPiece(s: string, sep: string)
    requires sep != [] && Contains(s, sep)
    ensures |Split(s, sep)| >= 2
    ensures !Contains(Split(s, sep)[|Split(s, sep)| - 1], sep)
    ensures EndsWith(s, sep + Split(s, sep)[|Split(s, sep)| - 1])
  {
    SplitOnOccurrence(s, sep);
    PiecesAvoidSeparator(s, sep, 0);
    assert Split(s, sep)[|Split(s, sep)| - 1] in Split(s, sep);
    JoinSplitFrom(s, sep, 0);
    assert s[0..] == s;
    LastPieceAtEnd(Split(s, sep), s, sep);
  }

  lemma LastPieceAtEnd(pieces: seq<string>, s: string, sep: string)
    requires |pieces| >= 2 && Join(pieces, sep) == s
    ensures EndsWith(s, sep + pieces[|pieces| - 1])
  {
    var last := pieces[|pieces| - 1];
    JoinLast(pieces, sep);
    var front := Join(pieces[..|pieces| - 1], sep);
    assert s == front + sep + last;
    assert front + sep + last == front + (sep + last);
    EndsWithConcat(front, sep + last);
  }

  lemma SplitOnOccurrence(s: string, sep: string)
    requires sep != [] && Contains(s, sep)
    ensures |Split(s, sep)| >= 2
  {
    var m := FindFrom(s, sep, 0).value;
    assert Split(s, sep) == [s[0..m]] + SplitFrom(s, sep, m + |sep|);
  }

  lemma EndsWithConcat(front: string, back: string)
    ensures EndsWith(front + back, back)
  {
    assert (front + back)[|front|..] == back;
  }

  /** The lower-cased text is "true" exactly for the sixteen spellings with t/T, r/R, u/U, e/E. */
  lemma LowerIsTrue(s: string)
    ensures Lower(s) == "true" <==>
      |s| == 4 && s[0] in "tT" && s[1] in "rR" && s[2] in "uU" && s[3] in "eE"
  {
    if |s| == 4 && s[0] in "tT" && s[1] in "rR" && s[2] in "uU" && s[3] in "eE" {
      assert Lower(s) == [LowerChar(s[0]), LowerChar(s[1]), LowerChar(s[2]), LowerChar(s[3])];
    }
    if Lower(s) == "true" {
      assert |s| == 4;
      assert Lower(s)[0] == LowerChar(s[0]) && Lower(s)[1] == LowerChar(s[1]);
      assert Lower(s)[2] == LowerChar(s[2]) && Lower(s)[3] == LowerChar(s[3]);
    }
  }
}
