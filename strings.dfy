/** The Python `str` operations the matcher relies on, over `string` (= `seq<char>`):
    `lower()` (ASCII letters only), `strip()` and `split()` with no argument (Python's
    whitespace set), the `in` operator on strings, and `split(sep)` / `sep.join(parts)`. */
module Strings {
  import opened Collections

  /** `c.isspace()`: the characters Python's argument-less `split()` and `strip()` treat as
      whitespace (tab to carriage return, the four information separators, space, NEL,
      no-break space and the Unicode space separators). */
  predicate IsSpace(c: char) {
    || ('\t' <= c <= '\r')
    || ('\U{1C}' <= c <= ' ')
    || c == '\U{85}' || c == '\U{A0}' || c == '\U{1680}'
    || ('\U{2000}' <= c <= '\U{200A}')
    || c == '\U{2028}' || c == '\U{2029}' || c == '\U{202F}' || c == '\U{205F}' || c == '\U{3000}'
  }

  predicate AllSpace(s: string) {
    forall k :: 0 <= k < |s| ==> IsSpace(s[k])
  }

  predicate NoSpace(s: string) {
    forall k :: 0 <= k < |s| ==> !IsSpace(s[k])
  }

  // ---------------------------------------------------------------------------
  // lower()

  function LowerChar(c: char): char {
    if 'A' <= c <= 'Z' then (c as int + 32) as char else c
  }

  /** `s.lower()`, restricted to ASCII: only `A`-`Z` change. */
  function Lower(s: string): (r: string)
    ensures |r| == |s|
    decreases |s|
  {
    if s == [] then [] else [LowerChar(s[0])] + Lower(s[1..])
  }

  /** Lower-casing works character by character. */
  lemma {:induction false} LowerAt(s: string)
    ensures forall k :: 0 <= k < |s| ==> Lower(s)[k] == LowerChar(s[k])
    decreases |s|
  {
    if s != [] {
      LowerAt(s[1..]);
    }
  }

  // ---------------------------------------------------------------------------
  // strip()

  /** The first index at or after `i` that does not hold whitespace (or `|s|`). */
  function SkipSpaces(s: string, i: nat): (j: nat)
    requires i <= |s|
    ensures i <= j <= |s|
    ensures forall k :: i <= k < j ==> IsSpace(s[k])
    ensures j < |s| ==> !IsSpace(s[j])
    decreases |s| - i
  {
    if i == |s| || !IsSpace(s[i]) then i else SkipSpaces(s, i + 1)
  }

  /** Going back from `j` but not below `lo`, the index where the trailing whitespace
      of `s[lo..j]` starts. */
  function TrimEnd(s: string, lo: nat, j: nat): (e: nat)
    requires lo <= j <= |s|
    ensures lo <= e <= j
    ensures forall k :: e <= k < j ==> IsSpace(s[k])
    ensures e > lo ==> !IsSpace(s[e - 1])
    decreases j
  {
    if j == lo || !IsSpace(s[j - 1]) then j else TrimEnd(s, lo, j - 1)
  }

  /** `s.strip()`: `s` without its leading and trailing whitespace. The two ensures
      clauses together determine the result: it is a slice of `s` cut only at whitespace,
      and it neither starts nor ends with whitespace. */
  function Strip(s: string): (r: string)
    ensures exists i, j :: 0 <= i <= j <= |s| && r == s[i..j] && AllSpace(s[..i]) && AllSpace(s[j..])
    ensures r == [] || (!IsSpace(r[0]) && !IsSpace(r[|r| - 1]))
  {
    var i := SkipSpaces(s, 0);
    var j := TrimEnd(s, i, |s|);
    assert AllSpace(s[..i]) && AllSpace(s[j..]);
    s[i..j]
  }

  // ---------------------------------------------------------------------------
  // split() with no argument

  /** The first index at or after `i` that holds whitespace (or `|s|`). */
  function SkipWord(s: string, i: nat): (j: nat)
    requires i <= |s|
    ensures i <= j <= |s|
    ensures forall k :: i <= k < j ==> !IsSpace(s[k])
    ensures j < |s| ==> IsSpace(s[j])
    decreases |s| - i
  {
    if i == |s| || IsSpace(s[i]) then i else SkipWord(s, i + 1)
  }

  /** The tokens of `s[i..]`, scanning as Python's `split()` does: skip whitespace, take
      the run of non-whitespace that follows, repeat. */
  function WordsFrom(s: string, i: nat): (r: seq<string>)
    requires i <= |s|
    ensures forall k :: 0 <= k < |r| ==> r[k] != [] && NoSpace(r[k])
    decreases |s| - i
  {
    var a := SkipSpaces(s, i);
    if a == |s| then []
    else
      var b := SkipWord(s, a);
      [s[a..b]] + WordsFrom(s, b)
  }

  /** `s.split()`: the maximal runs of non-whitespace characters, in order; runs of
      whitespace of any length separate them and produce no empty tokens. */
  function Words(s: string): seq<string> {
    WordsFrom(s, 0)
  }

  /** `w` stands in `s` at `i` as a whole token: a non-empty run of non-whitespace
      with whitespace or an end of `s` on both sides. */
  predicate IsTokenAt(s: string, w: string, i: nat) {
    && i + |w| <= |s|
    && s[i..i + |w|] == w
    && w != []
    && NoSpace(w)
    && (i == 0 || IsSpace(s[i - 1]))
    && (i + |w| == |s| || IsSpace(s[i + |w|]))
  }

  /** `i` is not strictly inside a run of non-whitespace. */
  predicate AtBoundary(s: string, i: nat)
    requires i <= |s|
  {
    i == 0 || i == |s| || IsSpace(s[i - 1]) || IsSpace(s[i])
  }

  /** Every token that the scan from a boundary `i` produces stands in `s` as a whole token. */
  lemma {:induction false} WordsFromSound(s: string, i: nat, w: string)
    requires i <= |s| && AtBoundary(s, i)
    requires w in WordsFrom(s, i)
    ensures exists p: nat :: i <= p && IsTokenAt(s, w, p)
    decreases |s| - i
  {
    var a := SkipSpaces(s, i);
    var b := SkipWord(s, a);
    assert WordsFrom(s, i) == [s[a..b]] + WordsFrom(s, b);
    if w == s[a..b] {
      assert IsTokenAt(s, w, a);
    } else {
      WordsFromSound(s, b, w);
    }
  }

  /** Every whole token at or after a boundary `i` is produced by the scan from `i`. */
  lemma {:induction false} WordsFromComplete(s: string, i: nat, w: string, p: nat)
    requires i <= p && i <= |s| && AtBoundary(s, i)
    requires IsTokenAt(s, w, p)
    ensures w in WordsFrom(s, i)
    decreases |s| - i
  {
    assert s[p] == w[0];
    var a := SkipSpaces(s, i);
    assert a <= p;
    var b := SkipWord(s, a);
    assert WordsFrom(s, i) == [s[a..b]] + WordsFrom(s, b);
    if p == a {
      assert forall k :: 0 <= k < |w| ==> s[p + k] == w[k];
      assert b == p + |w|;
      assert w == s[a..b];
    } else {
      assert IsSpace(s[p - 1]);
      assert b < p;
      WordsFromComplete(s, b, w, p);
    }
  }

  /** The tokens of `split()` are exactly the whole tokens standing in `s`. */
  lemma WordsAreTokens(s: string, w: string)
    ensures w in Words(s) <==> exists i: nat :: IsTokenAt(s, w, i)
  {
    if w in Words(s) {
      WordsFromSound(s, 0, w);
    }
    if i: nat :| IsTokenAt(s, w, i) {
      WordsFromComplete(s, 0, w, i);
    }
  }

  /** A string has no tokens exactly when it is all whitespace. */
  lemma WordsEmpty(s: string)
    ensures Words(s) == [] <==> AllSpace(s)
  {
    var a := SkipSpaces(s, 0);
    if a < |s| {
      assert Words(s) != [];
    }
  }

  // ---------------------------------------------------------------------------
  // substring search: the `in` operator and `find`

  /** `sub` occurs in `s` starting at index `i`. */
  predicate OccursAt(s: string, sub: string, i: nat) {
    i + |sub| <= |s| && s[i..i + |sub|] == sub
  }

  function IndexFrom(s: string, sub: string, i: nat): (r: Option<nat>)
    ensures r.Some? ==> i <= r.value && OccursAt(s, sub, r.value)
                        && forall k: nat :: i <= k < r.value ==> !OccursAt(s, sub, k)
    ensures r.None? ==> forall k: nat :: i <= k ==> !OccursAt(s, sub, k)
    decreases |s| - i
  {
    if i + |sub| > |s| then None
    else if s[i..i + |sub|] == sub then Some(i)
    else IndexFrom(s, sub, i + 1)
  }

  /** `s.find(sub)`: the first index at which `sub` occurs in `s`, or `None`. */
  function IndexOf(s: string, sub: string): (r: Option<nat>)
    ensures r.Some? ==> OccursAt(s, sub, r.value) && forall k: nat :: k < r.value ==> !OccursAt(s, sub, k)
    ensures r.None? ==> forall k: nat :: !OccursAt(s, sub, k)
  {
    IndexFrom(s, sub, 0)
  }

  /** `sub in s`. */
  predicate Contains(s: string, sub: string) {
    IndexOf(s, sub).Some?
  }

  /** `sub in s` holds exactly when `sub` occurs somewhere in `s`; the empty string is
      in every string. */
  lemma ContainsOccurs(s: string, sub: string)
    ensures Contains(s, sub) <==> exists i: nat :: OccursAt(s, sub, i)
    ensures sub == [] ==> Contains(s, sub)
  {
    if sub == [] {
      assert OccursAt(s, sub, 0);
    }
  }

  /** Substring containment is transitive: whatever contains `t` contains every
      substring of `t`. */
  lemma ContainsTransitive(s: string, t: string, u: string)
    requires Contains(s, t) && Contains(t, u)
    ensures Contains(s, u)
  {
    var i := IndexOf(s, t).value;
    var j := IndexOf(t, u).value;
    assert s[i..i + |t|] == t;
    var inS, inT := s[i + j..i + j + |u|], t[j..j + |u|];
    forall k | 0 <= k < |u| ensures inS[k] == inT[k] {
      assert inS[k] == s[i..i + |t|][j + k];
    }
    assert inS == inT;
    assert OccursAt(s, u, i + j);
    ContainsOccurs(s, u);
  }

  // ---------------------------------------------------------------------------
  // split(sep) and sep.join(parts)

  /** `s.split(sep)` for a non-empty separator: cut at each occurrence of `sep`,
      scanning from the left; there is always at least one piece. */
  function Split(s: string, sep: string): (r: seq<string>)
    requires sep != []
    ensures |r| >= 1
    ensures forall k :: 0 <= k < |r| ==> forall i: nat :: !OccursAt(r[k], sep, i)
    decreases |s|
  {
    match IndexOf(s, sep)
    case None => [s]
    case Some(p) =>
      var head := s[..p];
      assert forall i: nat :: OccursAt(head, sep, i) ==> OccursAt(s, sep, i) by {
        forall i: nat | OccursAt(head, sep, i) ensures OccursAt(s, sep, i) {
          assert head[i..i + |sep|] == s[i..i + |sep|];
        }
      }
      [head] + Split(s[p + |sep|..], sep)
  }

  /** `sep.join(parts)`. */
  function Join(parts: seq<string>, sep: string): string
    decreases |parts|
  {
    if parts == [] then []
    else if |parts| == 1 then parts[0]
    else parts[0] + sep + Join(parts[1..], sep)
  }

  /** `split` cuts at the leftmost separator: with none the string is the only piece,
      otherwise the first piece is everything before the first occurrence. */
  lemma SplitFirstPiece(s: string, sep: string)
    requires sep != []
    ensures match IndexOf(s, sep)
      case None => Split(s, sep) == [s]
      case Some(p) => Split(s, sep)[0] == s[..p]
  {
  }

  /** Joining the pieces of a split with the same separator gives back the string. */
  lemma {:induction false} JoinSplit(s: string, sep: string)
    requires sep != []
    ensures Join(Split(s, sep), sep) == s
    decreases |s|
  {
    match IndexOf(s, sep)
    case None =>
    case Some(p) =>
      var tail := s[p + |sep|..];
      var rest := Split(tail, sep);
      JoinSplit(tail, sep);
      assert Split(s, sep) == [s[..p]] + rest;
      assert ([s[..p]] + rest)[1..] == rest;
      assert s[p..p + |sep|] == sep;
      assert s == s[..p] + s[p..p + |sep|] + tail;
  }
}
