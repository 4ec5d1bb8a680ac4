/**
 * String and sequence helpers shared by both scripts: Python's str.startswith, str.endswith,
 * str.strip and str.lstrip, and the set/duplicate vocabulary used to state the crawl invariants.
 */
module Strings {

  /** Python's s.startswith(prefix). */
  predicate StartsWith(s: string, prefix: string) {
    |prefix| <= |s| && s[..|prefix|] == prefix
  }

  /** Python's s.endswith(suffix). */
  predicate EndsWith(s: string, suffix: string) {
    |suffix| <= |s| && s[|s| - |suffix|..] == suffix
  }

  /** Python's str.isspace on one character: the characters str.strip() removes by default. */
  predicate IsSpace(c: char) {
    || c == ' '
    || '\t' <= c <= '\r'
    || '\U{1C}' <= c <= '\U{1F}'
    || c == '\U{85}' || c == '\U{A0}' || c == '\U{1680}'
    || '\U{2000}' <= c <= '\U{200A}'
    || c == '\U{2028}' || c == '\U{2029}' || c == '\U{202F}' || c == '\U{205F}' || c == '\U{3000}'
  }

  /** The number of leading characters of s that satisfy drop. */
  function LeadingCount(s: string, drop: char -> bool): (n: nat)
    ensures n <= |s|
    ensures forall i :: 0 <= i < n ==> drop(s[i])
    ensures n == |s| || !drop(s[n])
  {
    if s != [] && drop(s[0]) then 1 + LeadingCount(s[1..], drop) else 0
  }

  /** The number of trailing characters of s that satisfy drop. */
  function TrailingCount(s: string, drop: char -> bool): (n: nat)
    ensures n <= |s|
    ensures forall i :: |s| - n <= i < |s| ==> drop(s[i])
    ensures n == |s| || !drop(s[|s| - n - 1])
  {
    if s != [] && drop(s[|s| - 1]) then 1 + TrailingCount(s[..|s| - 1], drop) else 0
  }

  /** Python's s.lstrip(chars), with the stripped characters given as a predicate. */
  function TrimStart(s: string, drop: char -> bool): (r: string)
    ensures |r| <= |s| && r == s[|s| - |r|..]
    ensures forall i :: 0 <= i < |s| - |r| ==> drop(s[i])
    ensures r == [] || !drop(r[0])
  {
    s[LeadingCount(s, drop)..]
  }

  /** Python's s.strip(): whitespace removed from both ends, nothing else touched. */
  function Strip(s: string): (r: string)
    ensures r == [] || (!IsSpace(r[0]) && !IsSpace(r[|r| - 1]))
    ensures LeadingCount(s, IsSpace) + |r| <= |s|
    ensures r == s[LeadingCount(s, IsSpace)..LeadingCount(s, IsSpace) + |r|]
    ensures forall i :: 0 <= i < |s| && !(LeadingCount(s, IsSpace) <= i < LeadingCount(s, IsSpace) + |r|) ==> IsSpace(s[i])
  {
    var t := s[LeadingCount(s, IsSpace)..];
    t[..|t| - TrailingCount(t, IsSpace)]
  }

  /** Stripping twice is stripping once: a stripped URL is its own visited-set key. */
  lemma StripIdempotent(s: string)
    ensures Strip(Strip(s)) == Strip(s)
  {
    var r := Strip(s);
    if r != [] {
      assert LeadingCount(r, IsSpace) == 0;
      assert TrailingCount(r, IsSpace) == 0;
    }
  }

  /** The members of a sequence. */
  ghost function Elems<T>(s: seq<T>): set<T> {
    set x | x in s
  }

  /** No element occurs twice. */
  ghost predicate Distinct<T>(s: seq<T>) {
    forall i, j :: 0 <= i < j < |s| ==> s[i] != s[j]
  }

  /**
   * The elements of s that are not in seen, each at its first occurrence, in order:
   * the order in which a loop that skips members of a growing "seen" set handles them.
   */
  function Fresh<T(==)>(s: seq<T>, seen: set<T>): (r: seq<T>)
    ensures Elems(r) == Elems(s) - seen
    ensures |r| <= |s|
    decreases |s|
  {
    if s == [] then []
    else
      assert Elems(s) == {s[0]} + Elems(s[1..]);
      if s[0] in seen then Fresh(s[1..], seen)
      else
        var rest := Fresh(s[1..], seen + {s[0]});
        assert Elems([s[0]] + rest) == {s[0]} + Elems(rest);
        [s[0]] + rest
  }

  /** The distinct elements of s in order of first occurrence. */
  function Dedup<T(==)>(s: seq<T>): seq<T> {
    Fresh(s, {})
  }

  /** Fresh never yields an element twice. */
  lemma {:induction false} FreshDistinct<T>(s: seq<T>, seen: set<T>)
    ensures Distinct(Fresh(s, seen))
    decreases |s|
  {
    if s != [] {
      if s[0] in seen {
        FreshDistinct(s[1..], seen);
      } else {
        var rest := Fresh(s[1..], seen + {s[0]});
        FreshDistinct(s[1..], seen + {s[0]});
        assert s[0] !in Elems(rest);
        assert Fresh(s, seen) == [s[0]] + rest;
      }
    }
  }

  /** Handling one more element at the end of the input extends Fresh by it exactly when it is new. */
  lemma {:induction false} FreshSnoc<T>(s: seq<T>, x: T, seen: set<T>)
    ensures Fresh(s + [x], seen) == Fresh(s, seen) + (if x in seen || x in s then [] else [x])
    decreases |s|
  {
    if s == [] {
      assert Fresh([x], seen) == (if x in seen then [] else [x] + Fresh([], seen + {x}));
    } else {
      assert (s + [x])[1..] == s[1..] + [x];
      assert (s + [x])[0] == s[0];
      if s[0] in seen {
        FreshSnoc(s[1..], x, seen);
        assert x in s <==> x in s[1..] || x == s[0];
      } else {
        FreshSnoc(s[1..], x, seen + {s[0]});
        assert x in s <==> x in s[1..] || x == s[0];
      }
    }
  }

  /** A sequence is duplicate-free exactly when it has as many members as elements. */
  lemma {:induction false} DistinctIffCard<T>(s: seq<T>)
    ensures |Elems(s)| <= |s|
    ensures Distinct(s) <==> |Elems(s)| == |s|
  {
    if s != [] {
      DistinctIffCard(s[1..]);
      assert Elems(s) == {s[0]} + Elems(s[1..]);
      if s[0] in s[1..] {
        assert Elems(s) == Elems(s[1..]);
        assert !Distinct(s) by {
          var k :| 0 <= k < |s[1..]| && s[1..][k] == s[0];
          assert s[0] == s[k + 1];
        }
      } else {
        assert Distinct(s) <==> Distinct(s[1..]) by {
          if Distinct(s[1..]) {
            forall i, j | 0 <= i < j < |s| ensures s[i] != s[j] {
              if i > 0 { assert s[i] == s[1..][i - 1] && s[j] == s[1..][j - 1]; }
              else { assert s[j] in s[1..]; }
            }
          }
        }
      }
    }
  }
}
