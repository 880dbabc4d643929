/**
 * Deriving a product's id from its URL: the path segment after the first `dp`
 * segment, or else the last eight characters of the URL's hash text.
 */
module ProductIds {
  import opened Wrappers
  import opened Text

  /** Segment `i` is `dp` and another segment follows it. */
  predicate DpAt(parts: seq<string>, i: int)
  {
    0 <= i && i + 1 < |parts| && parts[i] == "dp"
  }

  /** The segment after the first `DpAt` position at or beyond `i`, if any. */
  function FindAfterDp(parts: seq<string>, i: nat): Option<string>
    decreases |parts| - i
  {
    if i >= |parts| then None
    else if parts[i] == "dp" && i + 1 < |parts| then Some(parts[i + 1])
    else FindAfterDp(parts, i + 1)
  }

  /** Python's `s[-8:]`: the whole string when it is at most eight characters long. */
  function LastEight(s: string): (r: string)
    ensures |r| == if |s| <= 8 then |s| else 8
    ensures r == s[|s| - |r|..]
  {
    if |s| <= 8 then s else s[|s| - 8..]
  }

  /**
   * The id of a product whose URL has path `path` (what `urlparse(url).path`
   * gives) and whose `str(hash(url))` is `hashText`.
   */
  function ProductId(path: string, hashText: string): string
  {
    match FindAfterDp(Split(path, '/'), 0)
    case Some(id) => id
    case None => LastEight(hashText)
  }

  /** The `for i, part in enumerate(path_parts)` search with its early return. */
  method GenerateProductId(path: string, hashText: string) returns (id: string)
    ensures id == ProductId(path, hashText)
  {
    var parts := Split(path, '/');
    for i := 0 to |parts|
      invariant FindAfterDp(parts, 0) == FindAfterDp(parts, i)
    {
      if parts[i] == "dp" && i + 1 < |parts| {
        return parts[i + 1];
      }
    }
    return LastEight(hashText);
  }

  lemma {:induction false} FindAfterDpFirst(parts: seq<string>, i: nat, k: nat)
    requires i <= k && DpAt(parts, k)
    requires forall j :: i <= j < k ==> !DpAt(parts, j)
    ensures FindAfterDp(parts, i) == Some(parts[k + 1])
    decreases k - i
  {
    if i < k {
      assert !DpAt(parts, i);
      FindAfterDpFirst(parts, i + 1, k);
    }
  }

  lemma {:induction false} FindAfterDpNone(parts: seq<string>, i: nat)
    requires forall j :: i <= j < |parts| ==> !DpAt(parts, j)
    ensures FindAfterDp(parts, i) == None
    decreases |parts| - i
  {
    if i < |parts| {
      assert !DpAt(parts, i);
      FindAfterDpNone(parts, i + 1);
    }
  }

  /** When some `dp` segment is followed by another, the id is the segment after the first such `dp`. */
  lemma ProductIdAfterFirstDp(path: string, hashText: string, k: nat)
    requires DpAt(Split(path, '/'), k)
    requires forall j :: 0 <= j < k ==> !DpAt(Split(path, '/'), j)
    ensures ProductId(path, hashText) == Split(path, '/')[k + 1]
  {
    FindAfterDpFirst(Split(path, '/'), 0, k);
  }

  /** Without such a segment (a trailing `dp` does not count) the hash fallback is used. */
  lemma ProductIdFallback(path: string, hashText: string)
    requires forall j :: 0 <= j < |Split(path, '/')| ==> !DpAt(Split(path, '/'), j)
    ensures ProductId(path, hashText) == LastEight(hashText)
  {
    FindAfterDpNone(Split(path, '/'), 0);
  }
}
