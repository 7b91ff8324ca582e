/**
 The two string primitives the time parsing relies on: JavaScript's
 `String.prototype.includes` and `String.prototype.replace` with a string
 pattern and an empty replacement, which removes the FIRST occurrence only.
 */
module Text {
  import opened Results

  /** `p` occurs in `s` starting at index `i`. */
  predicate OccursAt(s: string, p: string, i: int)
  {
    0 <= i && i + |p| <= |s| && s[i..i + |p|] == p
  }

  /** The first index at or after `from` where `p` occurs in `s`. */
  function IndexOfFrom(s: string, p: string, from: nat): (r: Option<nat>)
    ensures r.Some? ==> from <= r.value && OccursAt(s, p, r.value)
    ensures forall j :: from <= j && (r.None? || j < r.value) ==> !OccursAt(s, p, j)
    decreases |s| - from
  {
    if from + |p| > |s| then None
    else if s[from..from + |p|] == p then Some(from)
    else IndexOfFrom(s, p, from + 1)
  }

  /** The index of the first occurrence of `p` in `s` (`indexOf`, with `None` for -1). */
  function IndexOf(s: string, p: string): (r: Option<nat>)
    ensures r.Some? <==> exists j :: OccursAt(s, p, j)
    ensures r.Some? ==> OccursAt(s, p, r.value)
    ensures r.Some? ==> forall j :: 0 <= j < r.value ==> !OccursAt(s, p, j)
  {
    IndexOfFrom(s, p, 0)
  }

  /** `s.includes(p)`. */
  function Includes(s: string, p: string): (r: bool)
    ensures r <==> exists j :: OccursAt(s, p, j)
  {
    IndexOf(s, p).Some?
  }

  /** `s.replace(p, '')`: drops the first occurrence of `p`, if any. */
  function RemoveFirst(s: string, p: string): string
  {
    match IndexOf(s, p)
    case None => s
    case Some(i) => s[..i] + s[i + |p|..]
  }

  /**
   Removing the first occurrence is undone by putting `p` back where it was
   found, so every other character survives in order; nothing before that
   index is an occurrence; when `p` is absent, `s` comes back unchanged.
   */
  lemma RemoveFirstSpec(s: string, p: string)
    ensures !Includes(s, p) ==> RemoveFirst(s, p) == s
    ensures Includes(s, p) ==>
      var i := IndexOf(s, p).value;
      var r := RemoveFirst(s, p);
      && |r| == |s| - |p|
      && r[..i] + p + r[i..] == s
      && (forall j :: 0 <= j < i ==> !OccursAt(s, p, j))
  {
  }

  /** A string in which the first character of `p` never appears has no occurrence of `p`. */
  lemma NotIncludedWithoutHead(s: string, p: string)
    requires |p| > 0
    requires forall k :: 0 <= k < |s| ==> s[k] != p[0]
    ensures !Includes(s, p)
  {
    forall j | 0 <= j && j + |p| <= |s|
      ensures !OccursAt(s, p, j)
    {
      assert s[j..j + |p|][0] == s[j];
    }
  }

  /**
   When `p` sits at index `i` and its first character appears nowhere before
   `i`, that is the first occurrence, and removing it keeps both sides of it.
   */
  lemma RemoveFirstAt(s: string, p: string, i: nat)
    requires |p| > 0 && OccursAt(s, p, i)
    requires forall k :: 0 <= k < i ==> s[k] != p[0]
    ensures IndexOf(s, p) == Some(i)
    ensures RemoveFirst(s, p) == s[..i] + s[i + |p|..]
  {
    forall k | 0 <= k < i && k + |p| <= |s|
      ensures !OccursAt(s, p, k)
    {
      assert s[k..k + |p|][0] == s[k];
    }
  }
}
