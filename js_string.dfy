/**
 * The JavaScript string primitives the `init` action relies on, with the
 * semantics String.prototype gives them for a STRING pattern (not a regular
 * expression): `indexOf`, `split`, `join`, `replace`, `startsWith` and `trim`.
 */
module JsString {
  import opened Wrappers

  /** `p` occurs in `s` starting at index `i`. */
  predicate OccursAt(s: string, p: string, i: nat) {
    i + |p| <= |s| && s[i..i + |p|] == p
  }

  predicate Contains(s: string, p: string) {
    exists i: nat | i <= |s| :: OccursAt(s, p, i)
  }

  /** s.startsWith(p) */
  predicate StartsWith(s: string, p: string) {
    |p| <= |s| && s[..|p|] == p
  }

  lemma StartsWithOccurs(s: string, p: string)
    requires StartsWith(s, p)
    ensures OccursAt(s, p, 0) && Contains(s, p)
  {
    assert s[0..|p|] == s[..|p|];
    assert OccursAt(s, p, 0);
  }

  /** A one-character pattern occurs exactly where that character stands. */
  lemma OccursAtChar(s: string, c: char, j: nat)
    ensures OccursAt(s, [c], j) <==> j < |s| && s[j] == c
  {
    if j < |s| {
      assert s[j..j + 1] == [s[j]];
    }
  }

  /** s.indexOf(p, from): the first occurrence of `p` at or after `from`. */
  function IndexOfFrom(s: string, p: string, from: nat): (r: Option<nat>)
    ensures r.Some? ==> from <= r.value && OccursAt(s, p, r.value)
    ensures forall j: nat :: from <= j && (r.None? || j < r.value) ==> !OccursAt(s, p, j)
    decreases |s| - from
  {
    if from + |p| > |s| then None
    else if OccursAt(s, p, from) then Some(from)
    else IndexOfFrom(s, p, from + 1)
  }

  /** s.indexOf(p), with `None` for -1. */
  function IndexOf(s: string, p: string): (r: Option<nat>)
    ensures r.Some? ==> OccursAt(s, p, r.value)
    ensures forall j: nat :: (r.None? || j < r.value) ==> !OccursAt(s, p, j)
    ensures r.None? <==> !Contains(s, p)
  {
    IndexOfFrom(s, p, 0)
  }

  /** A pattern that starts the string is found at index 0. */
  lemma IndexOfAtStart(s: string, p: string)
    requires StartsWith(s, p)
    ensures IndexOf(s, p) == Some(0)
  {
    StartsWithOccurs(s, p);
  }

  /** The first occurrence of a character is the first index holding it. */
  lemma IndexOfChar(s: string, c: char, i: nat)
    requires i < |s| && s[i] == c
    requires forall j :: 0 <= j < i ==> s[j] != c
    ensures IndexOf(s, [c]) == Some(i)
  {
    OccursAtChar(s, c, i);
    var r := IndexOf(s, [c]);
    if r.Some? {
      OccursAtChar(s, c, r.value);
    }
  }

  /** An occurrence before which the pattern's first character never appears is the first one. */
  lemma IndexOfByFirstChar(s: string, p: string, k: nat)
    requires p != "" && OccursAt(s, p, k)
    requires forall j :: 0 <= j < k ==> s[j] != p[0]
    ensures IndexOf(s, p) == Some(k)
  {
  }

  /** A character that is absent is not found. */
  lemma IndexOfCharAbsent(s: string, c: char)
    requires forall j :: 0 <= j < |s| ==> s[j] != c
    ensures IndexOf(s, [c]) == None
  {
    var r := IndexOf(s, [c]);
    if r.Some? {
      OccursAtChar(s, c, r.value);
    }
  }

  /**
   * s.split(sep) for a non-empty string separator: the pieces between
   * successive non-overlapping occurrences, found from left to right.
   */
  function Split(s: string, sep: string): (parts: seq<string>)
    requires sep != ""
    ensures |parts| >= 1
    ensures Contains(s, sep) <==> |parts| >= 2
    decreases |s|
  {
    match IndexOf(s, sep)
    case None => [s]
    case Some(i) => [s[..i]] + Split(s[i + |sep|..], sep)
  }

  /** parts.join(sep) */
  function Join(parts: seq<string>, sep: string): string {
    if parts == [] then ""
    else if |parts| == 1 then parts[0]
    else parts[0] + sep + Join(parts[1..], sep)
  }

  /** Joining the pieces with the separator gives back the string. */
  lemma {:induction false} SplitJoin(s: string, sep: string)
    requires sep != ""
    ensures Join(Split(s, sep), sep) == s
    decreases |s|
  {
    match IndexOf(s, sep)
    case None =>
    case Some(i) =>
      var rest := s[i + |sep|..];
      SplitJoin(rest, sep);
      var parts := Split(s, sep);
      assert parts == [s[..i]] + Split(rest, sep);
      assert parts[1..] == Split(rest, sep);
      assert Join(parts, sep) == s[..i] + sep + Join(Split(rest, sep), sep);
      assert s[i..i + |sep|] == sep;
      assert s == s[..i] + s[i..i + |sep|] + rest;
  }

  /** No piece of a split contains the separator. */
  lemma {:induction false} SplitPiecesFree(s: string, sep: string)
    requires sep != ""
    ensures forall k :: 0 <= k < |Split(s, sep)| ==> !Contains(Split(s, sep)[k], sep)
    decreases |s|
  {
    match IndexOf(s, sep)
    case None =>
    case Some(i) =>
      var rest := s[i + |sep|..];
      SplitPiecesFree(rest, sep);
      var head := s[..i];
      forall j: nat | OccursAt(head, sep, j)
        ensures false
      {
        assert head[j..j + |sep|] == s[j..j + |sep|];
        assert OccursAt(s, sep, j);
      }
      var parts := Split(s, sep);
      assert parts == [head] + Split(rest, sep);
      forall k | 0 <= k < |parts|
        ensures !Contains(parts[k], sep)
      {
        if k > 0 {
          assert parts[k] == Split(rest, sep)[k - 1];
        }
      }
  }

  /** Splitting at a leading separator gives an empty first piece, then the rest. */
  lemma SplitAtStart(s: string, sep: string)
    requires sep != "" && StartsWith(s, sep)
    ensures Split(s, sep) == [""] + Split(s[|sep|..], sep)
  {
    IndexOfAtStart(s, sep);
  }

  /** Splitting on a character: the text before its first occurrence, then the split of the rest. */
  lemma SplitAtChar(a: string, c: char, b: string)
    requires forall j :: 0 <= j < |a| ==> a[j] != c
    ensures Split(a + [c] + b, [c]) == [a] + Split(b, [c])
  {
    var s := a + [c] + b;
    IndexOfChar(s, c, |a|);
    assert s[..|a|] == a;
    assert s[|a| + 1..] == b;
  }

  /** The split of a string without the separator is the string alone. */
  lemma SplitAbsent(s: string, sep: string)
    requires sep != "" && !Contains(s, sep)
    ensures Split(s, sep) == [s]
  {
  }

  /**
   * s.replace(p, q) with a string pattern: only the FIRST occurrence of `p`,
   * wherever it is, is replaced; a string without `p` is returned as it is.
   */
  function ReplaceFirst(s: string, p: string, q: string): (r: string)
    ensures !Contains(s, p) ==> r == s
    ensures Contains(s, p) ==> |r| == |s| - |p| + |q|
  {
    match IndexOf(s, p)
    case None => s
    case Some(i) => s[..i] + q + s[i + |p|..]
  }

  /**
   * Replacing the first occurrence is splitting at every occurrence and
   * joining again with `q` at the first boundary only.
   */
  lemma ReplaceFirstBySplit(s: string, p: string, q: string)
    requires p != "" && Contains(s, p)
    ensures var parts := Split(s, p);
            ReplaceFirst(s, p, q) == parts[0] + q + Join(parts[1..], p)
  {
    var i := IndexOf(s, p).value;
    var rest := s[i + |p|..];
    var parts := Split(s, p);
    assert parts == [s[..i]] + Split(rest, p);
    assert parts[1..] == Split(rest, p);
    SplitJoin(rest, p);
  }

  /** ECMAScript LineTerminator code points (what `.` in a regular expression refuses). */
  predicate IsLineTerminator(c: char) {
    c == '\n' || c == '\r' || c == '\U{2028}' || c == '\U{2029}'
  }

  /** ECMAScript WhiteSpace and LineTerminator code points (what `trim` removes). */
  predicate IsWhiteSpace(c: char) {
    c == '\t' || c == '\U{000B}' || c == '\U{000C}' || c == ' ' || c == '\U{00A0}' || c == '\U{FEFF}'
    || c == '\U{1680}' || ('\U{2000}' <= c <= '\U{200A}') || c == '\U{202F}' || c == '\U{205F}'
    || c == '\U{3000}' || IsLineTerminator(c)
  }

  predicate AllWhiteSpace(s: string) {
    forall i :: 0 <= i < |s| ==> IsWhiteSpace(s[i])
  }

  /** s.trimStart(): the suffix left after dropping leading white space. */
  function TrimStart(s: string): (r: string)
    ensures |r| <= |s| && r == s[|s| - |r|..]
    ensures AllWhiteSpace(s[..|s| - |r|])
    ensures r == [] || !IsWhiteSpace(r[0])
  {
    if s != [] && IsWhiteSpace(s[0]) then TrimStart(s[1..]) else s
  }

  /** s.trimEnd(): the prefix left after dropping trailing white space. */
  function TrimEnd(s: string): (r: string)
    ensures |r| <= |s| && r == s[..|r|]
    ensures AllWhiteSpace(s[|r|..])
    ensures r == [] || !IsWhiteSpace(r[|r| - 1])
  {
    if s != [] && IsWhiteSpace(s[|s| - 1]) then TrimEnd(s[..|s| - 1]) else s
  }

  /** s.trim() */
  function Trim(s: string): string {
    TrimEnd(TrimStart(s))
  }

  /** A trimmed string neither starts nor ends with white space. */
  predicate IsTrimmed(t: string) {
    t == [] || (!IsWhiteSpace(t[0]) && !IsWhiteSpace(t[|t| - 1]))
  }

  lemma {:induction false} TrimStartOf(w: string, t: string)
    requires AllWhiteSpace(w) && (t == [] || !IsWhiteSpace(t[0]))
    ensures TrimStart(w + t) == t
    decreases |w|
  {
    if w != [] {
      assert (w + t)[1..] == w[1..] + t;
      TrimStartOf(w[1..], t);
    } else {
      assert w + t == t;
    }
  }

  lemma {:induction false} TrimEndOf(t: string, w: string)
    requires AllWhiteSpace(w) && (t == [] || !IsWhiteSpace(t[|t| - 1]))
    ensures TrimEnd(t + w) == t
    decreases |w|
  {
    if w != [] {
      assert (t + w)[..|t + w| - 1] == t + w[..|w| - 1];
      TrimEndOf(t, w[..|w| - 1]);
    } else {
      assert t + w == t;
    }
  }

  /**
   * Trim characterised: the result is the one trimmed string that white
   * space surrounds in `s`.
   */
  lemma TrimIsCore(w1: string, t: string, w2: string)
    requires AllWhiteSpace(w1) && AllWhiteSpace(w2) && IsTrimmed(t)
    ensures Trim(w1 + t + w2) == t
  {
    if t == [] {
      assert w1 + t + w2 == w1 + w2;
      assert AllWhiteSpace(w1 + w2);
      TrimStartOf(w1 + w2, []);
      assert w1 + w2 + [] == w1 + w2;
    } else {
      assert w1 + t + w2 == w1 + (t + w2);
      assert (t + w2)[0] == t[0];
      TrimStartOf(w1, t + w2);
      TrimEndOf(t, w2);
    }
  }

  /** `t` occurs in `s` at `a` with nothing but white space around it. */
  predicate FramedAt(s: string, t: string, a: nat) {
    a + |t| <= |s| && s[a..a + |t|] == t && AllWhiteSpace(s[..a]) && AllWhiteSpace(s[a + |t|..])
  }

  /** trimEnd of a string that does not start with white space does not either. */
  lemma TrimEndKeepsStart(u: string)
    requires u == [] || !IsWhiteSpace(u[0])
    ensures IsTrimmed(TrimEnd(u))
  {
    var t := TrimEnd(u);
    if t != [] {
      assert t[0] == u[0];
    }
  }

  /** A white-space prefix dropped from `s`, then a white-space suffix dropped, frame what is left. */
  lemma FramedByDrops(s: string, u: string, t: string)
    requires |u| <= |s| && u == s[|s| - |u|..] && AllWhiteSpace(s[..|s| - |u|])
    requires |t| <= |u| && t == u[..|t|] && AllWhiteSpace(u[|t|..])
    ensures FramedAt(s, t, |s| - |u|)
  {
    var a := |s| - |u|;
    assert s[a + |t|..] == u[|t|..];
    assert s[a..a + |t|] == u[..|t|];
  }

  /** The result of trim is trimmed and lies inside `s`, framed by white space. */
  lemma TrimShape(s: string)
    ensures IsTrimmed(Trim(s))
    ensures exists a: nat :: FramedAt(s, Trim(s), a)
  {
    var u := TrimStart(s);
    TrimEndKeepsStart(u);
    FramedByDrops(s, u, TrimEnd(u));
  }

  /** A trimmed string is its own trim. */
  lemma TrimOfTrimmed(t: string)
    requires IsTrimmed(t)
    ensures Trim(t) == t
  {
    assert [] + t + [] == t;
    TrimIsCore([], t, []);
  }

  /** trim is idempotent. */
  lemma TrimIdempotent(s: string)
    ensures Trim(Trim(s)) == Trim(s)
  {
    TrimShape(s);
    TrimOfTrimmed(Trim(s));
  }
}
