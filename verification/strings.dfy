/** The few `String.prototype` operations the colour parser uses. */
module Strings {

  predicate StartsWith(s: string, prefix: string) {
    |prefix| <= |s| && s[..|prefix|] == prefix
  }

  /** A string that starts with a non-empty prefix starts with its first character. */
  lemma FirstOfPrefix(s: string, prefix: string)
    requires |prefix| > 0
    ensures StartsWith(s, prefix) ==> s[0] == prefix[0]
  {
    if StartsWith(s, prefix) {
      assert s[..|prefix|][0] == s[0];
    }
  }

  /** `s.replace(/c/g, '')`: every occurrence of `c` removed, order kept. */
  function RemoveAll(s: string, c: char): (r: string)
    ensures forall i :: 0 <= i < |r| ==> r[i] != c
    ensures |r| <= |s|
    ensures c !in s ==> r == s
  {
    if s == [] then []
    else if s[0] == c then RemoveAll(s[1..], c)
    else [s[0]] + RemoveAll(s[1..], c)
  }

  /** Exactly the occurrences of `c` go: every other character keeps its
      count, and a one-character string is kept or dropped whole. With
      `RemoveAllAppend` this fixes the result, order included. */
  lemma {:induction false} RemoveAllCounts(s: string, c: char)
    ensures multiset(RemoveAll(s, c)) == multiset(s)[c := 0]
    ensures |s| == 1 ==> RemoveAll(s, c) == if s[0] == c then [] else s
    decreases |s|
  {
    if s != [] {
      assert s == [s[0]] + s[1..];
      RemoveAllCounts(s[1..], c);
    }
  }

  /** Removing a character from a string keeps a prefix that does not contain it. */
  lemma {:induction false} RemoveAllKeepsPrefix(s: string, c: char, prefix: string)
    requires StartsWith(s, prefix) && c !in prefix
    ensures StartsWith(RemoveAll(s, c), prefix)
  {
    if prefix != [] {
      assert s[0] == prefix[0];
      assert StartsWith(s[1..], prefix[1..]) by {
        assert s[1..][..|prefix| - 1] == s[..|prefix|][1..];
      }
      RemoveAllKeepsPrefix(s[1..], c, prefix[1..]);
      var r := RemoveAll(s[1..], c);
      assert ([s[0]] + r)[..|prefix|] == [s[0]] + r[..|prefix| - 1];
    }
  }

  /** `s.replace(c, '')` with a one-character pattern: the first occurrence
      of `c` removed, if there is one. */
  function RemoveFirst(s: string, c: char): (r: string)
    ensures c !in s ==> r == s
    ensures c in s ==> |r| == |s| - 1
  {
    if s == [] then []
    else if s[0] == c then s[1..]
    else [s[0]] + RemoveFirst(s[1..], c)
  }

  /** The occurrence removed is the first one, and everything around it is kept. */
  lemma {:induction false} RemoveFirstSplice(s: string, c: char)
    requires c in s
    ensures RemoveFirst(s, c) == s[..IndexOf(s, c)] + s[IndexOf(s, c) + 1..]
    decreases |s|
  {
    if s[0] != c {
      assert s == [s[0]] + s[1..];
      assert c in s[1..];
      RemoveFirstSplice(s[1..], c);
      var j := IndexOf(s[1..], c);
      assert s[..j + 1] == [s[0]] + s[1..][..j];
      assert s[j + 2..] == s[1..][j + 1..];
    }
  }

  /** `s.split(c)`: the pieces between the separators, at least one. */
  function Split(s: string, c: char): (parts: seq<string>)
    ensures |parts| >= 1
    ensures forall k :: 0 <= k < |parts| ==> c !in parts[k]
    decreases |s|
  {
    if c !in s then [s]
    else
      var i := IndexOf(s, c);
      [s[..i]] + Split(s[i + 1..], c)
  }

  function IndexOf(s: string, c: char): (i: nat)
    requires c in s
    ensures i < |s| && s[i] == c && c !in s[..i]
  {
    if s[0] == c then 0 else 1 + IndexOf(s[1..], c)
  }

  /** `parts.join(c)`. */
  function Join(parts: seq<string>, c: char): string
    requires |parts| >= 1
  {
    if |parts| == 1 then parts[0] else parts[0] + [c] + Join(parts[1..], c)
  }

  /** Joining the pieces of a split with the same separator gives the input back. */
  lemma {:induction false} SplitJoin(s: string, c: char)
    ensures Join(Split(s, c), c) == s
    decreases |s|
  {
    if c in s {
      var i := IndexOf(s, c);
      var rest := Split(s[i + 1..], c);
      var parts := Split(s, c);
      assert parts == [s[..i]] + rest;
      assert parts[0] == s[..i] && parts[1..] == rest;
      SplitJoin(s[i + 1..], c);
      assert Join(parts, c) == s[..i] + [c] + Join(rest, c);
      assert s == s[..i] + [c] + s[i + 1..];
    }
  }

  /** Removing a character from a concatenation removes it from each part. */
  lemma {:induction false} RemoveAllAppend(a: string, b: string, c: char)
    ensures RemoveAll(a + b, c) == RemoveAll(a, c) + RemoveAll(b, c)
    decreases |a|
  {
    if a != [] {
      assert (a + b)[1..] == a[1..] + b;
      RemoveAllAppend(a[1..], b, c);
    } else {
      assert a + b == b;
    }
  }

  /** When the first part has no `c`, the first `c` removed is in the second part. */
  lemma {:induction false} RemoveFirstAppend(a: string, b: string, c: char)
    requires c !in a
    ensures RemoveFirst(a + b, c) == a + RemoveFirst(b, c)
    decreases |a|
  {
    if a != [] {
      assert (a + b)[1..] == a[1..] + b;
      RemoveFirstAppend(a[1..], b, c);
    } else {
      assert a + b == b;
    }
  }

  /** Splitting at the first separator: the part before it, then the split of the rest. */
  lemma SplitAppend(a: string, b: string, c: char)
    requires c !in a
    ensures Split(a + [c] + b, c) == [a] + Split(b, c)
  {
    var s := a + [c] + b;
    assert s[|a|] == c;
    assert IndexOf(s, c) == |a| by {
      IndexOfPrefix(a, b, c);
    }
    assert s[..|a|] == a;
    assert s[|a| + 1..] == b;
  }

  lemma {:induction false} IndexOfPrefix(a: string, b: string, c: char)
    requires c !in a
    ensures c in a + [c] + b && IndexOf(a + [c] + b, c) == |a|
    decreases |a|
  {
    var s := a + [c] + b;
    assert s[|a|] == c;
    if a != [] {
      assert s[1..] == a[1..] + [c] + b;
      IndexOfPrefix(a[1..], b, c);
    }
  }
}
