/**
 * The name of the root repository: the last non-empty `/`-separated
 * segment of the target path, `path.split('/').filter(Boolean).pop()`.
 */
module RootName {
  import opened Wrappers
  import opened JsString

  /** parts.filter(Boolean): the non-empty strings, in their order. */
  function NonEmpty(parts: seq<string>): (r: seq<string>)
    ensures |r| <= |parts|
    ensures forall k :: 0 <= k < |r| ==> r[k] != "" && r[k] in parts
  {
    if parts == [] then []
    else (if parts[0] == "" then [] else [parts[0]]) + NonEmpty(parts[1..])
  }

  /** arr.pop(), read as a value: the last element, or `undefined` for an empty array. */
  function Last<T>(xs: seq<T>): (r: Option<T>)
    ensures r.None? <==> xs == []
  {
    if xs == [] then None else Some(xs[|xs| - 1])
  }

  /** filter(Boolean) keeps a non-empty string and drops the empty one. */
  lemma NonEmptySingle(x: string)
    ensures NonEmpty([x]) == if x == "" then [] else [x]
  {
    assert [x][1..] == [];
  }

  /** filter(Boolean) works element by element: it distributes over concatenation. */
  lemma {:induction false} NonEmptyConcat(a: seq<string>, b: seq<string>)
    ensures NonEmpty(a + b) == NonEmpty(a) + NonEmpty(b)
    decreases |a|
  {
    if a == [] {
      assert a + b == b;
    } else {
      assert (a + b)[0] == a[0];
      assert (a + b)[1..] == a[1..] + b;
      NonEmptyConcat(a[1..], b);
    }
  }

  /** pop() yields the element pushed last. */
  lemma LastAppend<T>(xs: seq<T>, x: T)
    ensures Last(xs + [x]) == Some(x)
  {
  }

  /** rootRepoName; `None` stands for `undefined`, the case that aborts the command. */
  function RootRepoName(path: string): (r: Option<string>)
    ensures r.Some? ==> r.value != "" && !Contains(r.value, "/")
  {
    SplitPiecesFree(path, "/");
    Last(NonEmpty(Split(path, "/")))
  }

  predicate AllSlashes(s: string) {
    forall k :: 0 <= k < |s| ==> s[k] == '/'
  }

  /**
   * `n` stands in `path` at index `start`, right after a `/` or at the very
   * beginning, and only slashes follow it.
   */
  predicate IsLastSegmentAt(path: string, n: string, start: nat) {
    start + |n| <= |path| && path[start..start + |n|] == n
    && (start == 0 || path[start - 1] == '/')
    && AllSlashes(path[start + |n|..])
  }

  /** The last element of a concatenation comes from its second part unless that is empty. */
  lemma LastOfConcat<T>(h: seq<T>, t: seq<T>)
    ensures Last(h + t) == if t == [] then Last(h) else Last(t)
  {
    if t == [] {
      assert h + t == h;
    }
  }

  /** The first slash cuts the path into a slash-free head and the rest. */
  lemma FirstSlashCut(path: string, i: nat)
    requires IndexOf(path, "/") == Some(i)
    ensures path == path[..i] + "/" + path[i + 1..]
    ensures !Contains(path[..i], "/")
  {
    OccursAtChar(path, '/', i);
    assert path[i..i + 1] == "/";
    assert path == path[..i] + path[i..i + 1] + path[i + 1..];
    forall j: nat | j <= i
      ensures !OccursAt(path[..i], "/", j)
    {
      OccursAtChar(path[..i], '/', j);
      OccursAtChar(path, '/', j);
    }
  }

  /** The root name of the path is that of what follows the first slash, if any, else the head. */
  lemma FirstSlash(path: string, i: nat)
    requires IndexOf(path, "/") == Some(i)
    ensures var b := path[i + 1..];
            RootRepoName(path)
            == if RootRepoName(b).Some? then RootRepoName(b)
               else if i == 0 then None
               else Some(path[..i])
  {
    OccursAtChar(path, '/', i);
    var b := path[i + 1..];
    var parts := Split(path, "/");
    var tail := Split(b, "/");
    assert parts == [path[..i]] + tail;
    assert parts[0] == path[..i];
    assert parts[1..] == tail;
    var head := if i == 0 then [] else [path[..i]];
    assert NonEmpty(parts) == head + NonEmpty(tail);
    LastOfConcat(head, NonEmpty(tail));
  }

  /** A slash-free, non-empty segment means the path is not all slashes. */
  lemma SegmentNotSlashes(path: string, n: string, start: nat)
    requires IsLastSegmentAt(path, n, start) && n != "" && !Contains(n, "/")
    ensures !AllSlashes(path)
  {
    OccursAtChar(n, '/', 0);
    assert path[start] == n[0];
  }

  /** A last segment of `b` is one of `a + "/" + b` too. */
  lemma ShiftSegment(a: string, b: string, n: string, start: nat)
    requires IsLastSegmentAt(b, n, start)
    ensures IsLastSegmentAt(a + "/" + b, n, |a| + 1 + start)
  {
    var path := a + "/" + b;
    var off := |a| + 1;
    assert path[off..] == b;
    assert path[off + start..off + start + |n|] == b[start..start + |n|];
    assert path[off + start + |n|..] == b[start + |n|..];
  }

  /** A path without any slash is its own last segment, unless it is empty. */
  lemma NoSlash(path: string)
    requires IndexOf(path, "/").None?
    ensures RootRepoName(path) == (if path == "" then None else Some(path))
    ensures path != "" ==> !AllSlashes(path) && IsLastSegmentAt(path, path, 0)
  {
    assert Split(path, "/") == [path];
    if path != "" {
      OccursAtChar(path, '/', 0);
      assert path[0..|path|] == path;
    }
  }

  /** Slashes after the first segment only: that segment is the last one. */
  lemma OnlyFirstSegment(path: string, i: nat)
    requires IndexOf(path, "/") == Some(i) && 0 < i
    requires AllSlashes(path[i + 1..])
    ensures IsLastSegmentAt(path, path[..i], 0)
  {
    var a := path[..i];
    var b := path[i + 1..];
    OccursAtChar(path, '/', i);
    assert path[0..|a|] == a;
    forall k | |a| < k < |path|
      ensures path[k] == '/'
    {
      assert path[k] == b[k - |a| - 1];
    }
    assert AllSlashes(path[|a|..]);
  }

  /** A path that is one slash followed by slashes is all slashes. */
  lemma LeadingSlash(path: string)
    requires |path| > 0 && path[0] == '/' && AllSlashes(path[1..])
    ensures AllSlashes(path)
  {
    forall k | 0 < k < |path|
      ensures path[k] == '/'
    {
      assert path[k] == path[1..][k - 1];
    }
  }

  /** Only slashes after the first slash: all slashes if the head is empty, else the head is the last segment. */
  lemma SlashesAfterFirst(path: string, i: nat)
    requires IndexOf(path, "/") == Some(i)
    requires AllSlashes(path[i + 1..])
    ensures i == 0 ==> AllSlashes(path)
    ensures 0 < i ==> !AllSlashes(path) && IsLastSegmentAt(path, path[..i], 0)
  {
    FirstSlashCut(path, i);
    if i == 0 {
      OccursAtChar(path, '/', 0);
      LeadingSlash(path);
    } else {
      OnlyFirstSegment(path, i);
      SegmentNotSlashes(path, path[..i], 0);
    }
  }

  /** A last segment of what follows the first slash is a last segment of the path. */
  lemma SegmentAfterFirst(path: string, i: nat, n: string, st: nat)
    requires IndexOf(path, "/") == Some(i)
    requires IsLastSegmentAt(path[i + 1..], n, st) && n != "" && !Contains(n, "/")
    ensures !AllSlashes(path) && IsLastSegmentAt(path, n, i + 1 + st)
  {
    FirstSlashCut(path, i);
    ShiftSegment(path[..i], path[i + 1..], n, st);
    SegmentNotSlashes(path, n, i + 1 + st);
  }

  /**
   * The root name is undefined exactly when the path holds nothing but
   * slashes (`""`, `"/"`, `"///"`); otherwise it is a non-empty, slash-free
   * segment that ends where only slashes remain: the last segment.
   */
  lemma {:induction false} RootRepoNameIsLastSegment(path: string)
    ensures RootRepoName(path).None? <==> AllSlashes(path)
    ensures RootRepoName(path).Some? ==>
              exists start: nat :: IsLastSegmentAt(path, RootRepoName(path).value, start)
    decreases |path|
  {
    var found := IndexOf(path, "/");
    if found.None? {
      NoSlash(path);
    } else {
      var i := found.value;
      var b := path[i + 1..];
      FirstSlash(path, i);
      RootRepoNameIsLastSegment(b);
      if RootRepoName(b).None? {
        SlashesAfterFirst(path, i);
      } else {
        var n := RootRepoName(b).value;
        var st: nat :| IsLastSegmentAt(b, n, st);
        SegmentAfterFirst(path, i, n, st);
      }
    }
  }
}
