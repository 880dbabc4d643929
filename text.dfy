/**
 * The few Python `str` operations the tracker relies on: `isspace`, `strip`,
 * `replace(c, "")`, `split()` (on whitespace) and `split(sep)`.
 */
module Text {
  import opened Wrappers

  /** Python's `str.isspace()` for one character: the separators of `split()` and `strip()`. */
  predicate IsSpace(c: char)
  {
    || c == ' '
    || ('\t' <= c <= '\r')
    || ('\U{1c}' <= c <= '\U{1f}')
    || c == '\U{85}' || c == '\U{a0}' || c == '\U{1680}'
    || ('\U{2000}' <= c <= '\U{200a}')
    || c == '\U{2028}' || c == '\U{2029}' || c == '\U{202f}' || c == '\U{205f}' || c == '\U{3000}'
  }

  predicate NoSpace(s: string)
  {
    forall i :: 0 <= i < |s| ==> !IsSpace(s[i])
  }

  predicate AllSpace(s: string)
  {
    forall i :: 0 <= i < |s| ==> IsSpace(s[i])
  }

  lemma AllSpaceAppend(a: string, b: string)
    requires AllSpace(a) && AllSpace(b)
    ensures AllSpace(a + b)
  {
  }

  /** `s.replace(c, "")`: every occurrence of `c` deleted, everything else kept in order. */
  function Remove(s: string, c: char): (r: string)
    ensures c !in r
    ensures forall d :: d != c ==> (d in r <==> d in s)
    ensures c !in s ==> r == s
    ensures NoSpace(s) ==> NoSpace(r)
  {
    if s == [] then []
    else (if s[0] == c then [] else [s[0]]) + Remove(s[1..], c)
  }

  lemma {:induction false} RemoveAppend(a: string, b: string, c: char)
    ensures Remove(a + b, c) == Remove(a, c) + Remove(b, c)
  {
    if a != [] {
      var head := if a[0] == c then [] else [a[0]];
      assert (a + b)[0] == a[0];
      assert (a + b)[1..] == a[1..] + b;
      assert Remove(a + b, c) == head + Remove(a[1..] + b, c);
      RemoveAppend(a[1..], b, c);
      assert Remove(a, c) == head + Remove(a[1..], c);
    } else {
      assert a + b == b;
    }
  }

  /** The prefix of `s` before the first occurrence of `c`. */
  function TakeUntil(s: string, c: char): (r: string)
    ensures |r| <= |s| && r == s[..|r|] && c !in r
    ensures |r| == |s| || s[|r|] == c
  {
    if s != [] && s[0] != c then [s[0]] + TakeUntil(s[1..], c) else []
  }

  /** The number of whitespace characters `s` starts with. */
  function LeadingSpaces(s: string): (k: nat)
    ensures k <= |s| && AllSpace(s[..k])
    ensures k == |s| || !IsSpace(s[k])
  {
    if s != [] && IsSpace(s[0]) then
      var j := LeadingSpaces(s[1..]);
      var head := s[1..][..j];
      AllSpaceAppend([s[0]], head);
      assert s[..j + 1] == [s[0]] + head;
      j + 1
    else 0
  }

  /** `s.lstrip()`: the suffix of `s` that starts at its first non-whitespace character. */
  function TrimStart(s: string): (r: string)
    ensures r == [] || !IsSpace(r[0])
  {
    s[LeadingSpaces(s)..]
  }

  /** The number of whitespace characters `s` ends with. */
  function TrailingSpaces(s: string): (k: nat)
    ensures k <= |s| && AllSpace(s[|s| - k..])
    ensures k == |s| || !IsSpace(s[|s| - k - 1])
  {
    if s != [] && IsSpace(s[|s| - 1]) then
      var init := s[..|s| - 1];
      var j := TrailingSpaces(init);
      var tail := init[|init| - j..];
      AllSpaceAppend(tail, [s[|s| - 1]]);
      assert s[|s| - (j + 1)..] == tail + [s[|s| - 1]];
      j + 1
    else 0
  }

  /** `s.rstrip()`: the prefix of `s` that ends at its last non-whitespace character. */
  function TrimEnd(s: string): (r: string)
    ensures r == [] || !IsSpace(r[|r| - 1])
  {
    s[..|s| - TrailingSpaces(s)]
  }

  /**
   * `lstrip` removes exactly the whitespace run `s` starts with: for any `k`
   * where an all-whitespace prefix ends at a non-whitespace character (or at
   * the end), `TrimStart(s)` is the suffix from `k`.
   */
  lemma TrimStartOf(s: string, k: nat)
    requires k <= |s| && AllSpace(s[..k])
    requires k == |s| || !IsSpace(s[k])
    ensures TrimStart(s) == s[k..]
  {
  }

  /**
   * `rstrip` removes exactly the whitespace run `s` ends with: for any `k`
   * where an all-whitespace suffix of length `k` follows a non-whitespace
   * character (or is all of `s`), `TrimEnd(s)` is the prefix before it.
   */
  lemma TrimEndOf(s: string, k: nat)
    requires k <= |s| && AllSpace(s[|s| - k..])
    requires k == |s| || !IsSpace(s[|s| - k - 1])
    ensures TrimEnd(s) == s[..|s| - k]
  {
  }

  /** `s.strip()` */
  function Strip(s: string): string
  {
    TrimEnd(TrimStart(s))
  }

  lemma StripKeepsTrimmed(s: string)
    requires s != [] && !IsSpace(s[0]) && !IsSpace(s[|s| - 1])
    ensures Strip(s) == s
  {
  }

  /** The longest prefix of `s` that holds no whitespace. */
  function TakeWord(s: string): (r: string)
    ensures |r| <= |s| && r == s[..|r|] && NoSpace(r)
    ensures |r| == |s| || IsSpace(s[|r|])
  {
    if s != [] && !IsSpace(s[0]) then [s[0]] + TakeWord(s[1..]) else []
  }

  /**
   * `s.split()[0]`, the first whitespace-separated word; `None` where Python
   * raises `IndexError` because `s` is empty or all whitespace.
   */
  function FirstWord(s: string): (r: Option<string>)
    ensures r.None? <==> AllSpace(s)
    ensures r.Some? ==> r.value != [] && NoSpace(r.value) && forall c :: c in r.value ==> c in s
    ensures r.Some? ==>
      exists k :: 0 <= k && k + |r.value| <= |s| && AllSpace(s[..k]) && s[k..k + |r.value|] == r.value
        && (k + |r.value| == |s| || IsSpace(s[k + |r.value|]))
  {
    var t := TrimStart(s);
    if t == [] then None
    else
      var w := TakeWord(t);
      var k := LeadingSpaces(s);
      assert s[k..k + |w|] == w;
      Some(w)
  }

  lemma {:induction false} TakeWordOf(w: string, rest: string)
    requires NoSpace(w)
    requires rest == [] || IsSpace(rest[0])
    ensures TakeWord(w + rest) == w
  {
    if w == [] {
      assert w + rest == rest;
    } else {
      assert (w + rest)[1..] == w[1..] + rest;
      TakeWordOf(w[1..], rest);
    }
  }

  lemma {:induction false} TakeUntilOf(a: string, b: string, c: char)
    requires c !in a
    requires b == [] || b[0] == c
    ensures TakeUntil(a + b, c) == a
  {
    if a == [] {
      assert a + b == b;
    } else {
      assert (a + b)[1..] == a[1..] + b;
      TakeUntilOf(a[1..], b, c);
    }
  }

  /** A word standing at the start of `s` and ended by whitespace or the end is `s`'s first word. */
  lemma FirstWordOf(w: string, rest: string)
    requires w != [] && NoSpace(w)
    requires rest == [] || IsSpace(rest[0])
    ensures FirstWord(w + rest) == Some(w)
  {
    var s := w + rest;
    assert !IsSpace(s[0]);
    assert TrimStart(s) == s;
    TakeWordOf(w, rest);
  }

  /** `sep.join(parts)` */
  function Join(parts: seq<string>, sep: char): string
  {
    if parts == [] then []
    else if |parts| == 1 then parts[0]
    else parts[0] + [sep] + Join(parts[1..], sep)
  }

  /** `s.split(sep)` for a one-character separator: empty fields are kept. */
  function Split(s: string, sep: char): (parts: seq<string>)
    ensures |parts| >= 1
    ensures forall i :: 0 <= i < |parts| ==> sep !in parts[i]
    ensures Join(parts, sep) == s
  {
    if s == [] then [[]]
    else
      var rest := Split(s[1..], sep);
      if s[0] == sep then
        assert Join([[]] + rest, sep) == [sep] + Join(rest, sep);
        [[]] + rest
      else
        var first := [s[0]] + rest[0];
        assert ([first] + rest[1..])[1..] == rest[1..];
        if |rest| == 1 then [first]
        else
          assert Join(rest, sep) == rest[0] + [sep] + Join(rest[1..], sep);
          [first] + rest[1..]
  }

  /** Splitting is the inverse of joining fields that do not contain the separator. */
  lemma {:induction false} SplitJoin(parts: seq<string>, sep: char)
    requires |parts| >= 1
    requires forall i :: 0 <= i < |parts| ==> sep !in parts[i]
    ensures Split(Join(parts, sep), sep) == parts
  {
    var p := parts[0];
    if |parts| == 1 {
      SplitField(p, [], sep);
      assert p + [] == p;
    } else {
      var tail := Join(parts[1..], sep);
      var rest := [sep] + tail;
      SplitJoin(parts[1..], sep);
      assert Join(parts, sep) == p + rest;
      assert rest[1..] == tail;
      var r := Split(rest, sep);
      assert r == [[]] + parts[1..];
      SplitField(p, rest, sep);
      assert p + r[0] == p;
      assert [p] + parts[1..] == parts;
    }
  }

  /** A separator-free field in front of `rest` extends the first field of `Split(rest)`. */
  lemma {:induction false} SplitField(p: string, rest: string, sep: char)
    requires sep !in p
    requires rest == [] || rest[0] == sep
    ensures var r := Split(rest, sep); Split(p + rest, sep) == [p + r[0]] + r[1..]
  {
    if p == [] {
      var r := Split(rest, sep);
      if rest == [] {
        assert r == [[]];
      } else {
        assert r == [[]] + Split(rest[1..], sep);
      }
      assert [] + rest == rest;
      assert [[] + r[0]] + r[1..] == r;
    } else {
      SplitField(p[1..], rest, sep);
      assert (p + rest)[0] == p[0];
      assert (p + rest)[1..] == p[1..] + rest;
      var r := Split(rest, sep);
      var inner := Split(p[1..] + rest, sep);
      assert inner == [p[1..] + r[0]] + r[1..];
      assert [p[0]] + (p[1..] + r[0]) == p + r[0];
      assert inner[1..] == r[1..];
    }
  }
}
