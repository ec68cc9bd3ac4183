/**
  String helpers the extraction engine relies on, written out because the
  engine leans on Python's built-in string operations: substring tests
  (`pat in s`), lower-casing, the bounded split `s.split(sep, maxsplit)` and
  `sep.join(parts)`.
 */
module Text {

  function Min(a: int, b: int): int {
    if a <= b then a else b
  }

  /** `pat` occurs in `s` starting at position `i`. */
  predicate OccursAt(s: string, pat: string, i: int) {
    0 <= i && i + |pat| <= |s| && s[i..i + |pat|] == pat
  }

  /** Python's `pat in s` on two strings: `pat` occurs contiguously in `s`. */
  predicate Contains(s: string, pat: string) {
    exists i :: 0 <= i && i <= |s| - |pat| && OccursAt(s, pat, i)
  }

  /** A substring of a substring is a substring. */
  lemma ContainsTransitive(s: string, mid: string, pat: string)
    requires Contains(s, mid) && Contains(mid, pat)
    ensures Contains(s, pat)
  {
    var i :| 0 <= i && i <= |s| - |mid| && OccursAt(s, mid, i);
    var j :| 0 <= j && j <= |mid| - |pat| && OccursAt(mid, pat, j);
    var found, inner := s[i + j..i + j + |pat|], mid[j..j + |pat|];
    forall k | 0 <= k < |pat| ensures found[k] == inner[k] {
      assert found[k] == s[i + j + k] == mid[j + k];
    }
    assert found == inner;
    assert OccursAt(s, pat, i + j);
  }

  /** For a one-character pattern, `pat in s` is plain membership. */
  lemma ContainsChar(s: string, c: char)
    ensures Contains(s, [c]) <==> c in s
  {
    if c in s {
      var i :| 0 <= i < |s| && s[i] == c;
      assert OccursAt(s, [c], i);
    }
    if Contains(s, [c]) {
      var i :| 0 <= i && i <= |s| - 1 && OccursAt(s, [c], i);
      assert s[i] == s[i..i + 1][0];
    }
  }

  /** The small ASCII letters, in alphabetical order. */
  const SmallLetters: string := "abcdefghijklmnopqrstuvwxyz"

  /** ASCII lower-casing of one character: a capital becomes the small letter at its place in the alphabet. */
  function LowerChar(c: char): (r: char)
    ensures 'A' <= c <= 'Z' ==> r == SmallLetters[c as int - 'A' as int]
    ensures !('A' <= c <= 'Z') ==> r == c
    ensures !('A' <= r <= 'Z')
  {
    if 'A' <= c <= 'Z' then (c as int + 32) as char else c
  }

  /** `s.lower()`, restricted to ASCII letters: no capital is left, and every other character stays. */
  function Lower(s: string): (r: string)
    ensures |r| == |s|
    ensures forall i :: 0 <= i < |r| ==> !('A' <= r[i] <= 'Z')
    ensures forall i :: 0 <= i < |s| && !('A' <= s[i] <= 'Z') ==> r[i] == s[i]
    ensures forall i :: 0 <= i < |s| && 'A' <= s[i] <= 'Z' ==> r[i] == SmallLetters[s[i] as int - 'A' as int]
  {
    seq(|s|, i requires 0 <= i < |s| => LowerChar(s[i]))
  }

  /** Lower-casing twice is lower-casing once. */
  lemma LowerIdempotent(s: string)
    ensures Lower(Lower(s)) == Lower(s)
  {
    var r := Lower(s);
    forall i | 0 <= i < |r| ensures Lower(r)[i] == r[i] {
    }
  }

  /** Lower-casing works character by character: it distributes over concatenation. */
  lemma LowerAppend(a: string, b: string)
    ensures Lower(a + b) == Lower(a) + Lower(b)
  {
    forall i | 0 <= i < |a + b| ensures Lower(a + b)[i] == (Lower(a) + Lower(b))[i] {
      if i < |a| { assert (a + b)[i] == a[i]; } else { assert (a + b)[i] == b[i - |a|]; }
    }
  }

  /** A word that starts with a capital and has no other capital lower-cases to its small first letter and the rest. */
  lemma LowerCapitalised(c: char, w: string)
    requires 'A' <= c <= 'Z'
    requires forall i :: 0 <= i < |w| ==> !('A' <= w[i] <= 'Z')
    ensures Lower([c] + w) == [SmallLetters[c as int - 'A' as int]] + w
  {
    LowerAppend([c], w);
  }

  /** Two strings that differ only in the case of their letters lower-case alike. */
  lemma LowerIgnoresCase(s: string, t: string)
    requires |s| == |t|
    requires forall i :: 0 <= i < |s| ==> LowerChar(s[i]) == LowerChar(t[i])
    ensures Lower(s) == Lower(t)
  {
    forall i | 0 <= i < |s| ensures Lower(s)[i] == Lower(t)[i] {
    }
  }

  /** The number of occurrences of `c` in `s`. */
  function Count(c: char, s: string): nat {
    multiset(s)[c]
  }

  /** `sep.join(parts)`. */
  function Join(parts: seq<string>, sep: string): string
    decreases |parts|
  {
    if |parts| == 0 then ""
    else if |parts| == 1 then parts[0]
    else parts[0] + sep + Join(parts[1..], sep)
  }

  /** Joining words that hold no `c` with `c` puts exactly one `c` between neighbours. */
  lemma {:induction false} JoinCount(words: seq<string>, c: char)
    requires |words| >= 1
    requires forall k :: 0 <= k < |words| ==> c !in words[k]
    ensures Count(c, Join(words, [c])) == |words| - 1
  {
    if |words| == 1 {
      assert multiset(words[0])[c] == 0;
    } else {
      JoinCount(words[1..], c);
      var rest := Join(words[1..], [c]);
      assert Join(words, [c]) == words[0] + [c] + rest;
      assert multiset(words[0] + [c] + rest) == multiset(words[0]) + multiset([c]) + multiset(rest);
      assert multiset(words[0])[c] == 0;
    }
  }

  /**
    `s.split(sep, maxsplit)` for a one-character separator: the string is cut
    at the first `maxsplit` occurrences of `sep`; the last field keeps the
    rest, separators included.  Fields may be empty, as in Python.
   */
  function Split(s: string, sep: char, maxsplit: nat): (r: seq<string>)
    ensures |r| >= 1
  {
    if |s| == 0 then [""]
    else if s[0] == sep && maxsplit > 0 then [""] + Split(s[1..], sep, maxsplit - 1)
    else
      var rest := Split(s[1..], sep, maxsplit);
      [[s[0]] + rest[0]] + rest[1..]
  }

  /** The split yields one field more than the separators it cuts at. */
  lemma {:induction false} SplitLength(s: string, sep: char, maxsplit: nat)
    ensures |Split(s, sep, maxsplit)| == 1 + Min(Count(sep, s), maxsplit)
  {
    if |s| > 0 {
      assert s == [s[0]] + s[1..];
      assert multiset(s) == multiset([s[0]]) + multiset(s[1..]);
      if s[0] == sep && maxsplit > 0 {
        SplitLength(s[1..], sep, maxsplit - 1);
      } else {
        SplitLength(s[1..], sep, maxsplit);
      }
    }
  }

  /** Putting a character in front of the first field puts it in front of the joined string. */
  lemma JoinConsFirst(c: char, parts: seq<string>, sep: string)
    requires |parts| >= 1
    ensures Join([[c] + parts[0]] + parts[1..], sep) == [c] + Join(parts, sep)
  {
    var parts' := [[c] + parts[0]] + parts[1..];
    assert parts'[1..] == parts[1..];
  }

  /** Joining the fields back with the separator gives the string again. */
  lemma {:induction false} SplitJoin(s: string, sep: char, maxsplit: nat)
    ensures Join(Split(s, sep, maxsplit), [sep]) == s
  {
    if |s| > 0 {
      if s[0] == sep && maxsplit > 0 {
        var rest := Split(s[1..], sep, maxsplit - 1);
        SplitJoin(s[1..], sep, maxsplit - 1);
        assert ([""] + rest)[1..] == rest;
        assert s == [sep] + s[1..];
      } else {
        var rest := Split(s[1..], sep, maxsplit);
        SplitJoin(s[1..], sep, maxsplit);
        JoinConsFirst(s[0], rest, [sep]);
        assert s == [s[0]] + s[1..];
      }
    }
  }

  /** Only the last field can hold the separator. */
  lemma {:induction false} SplitFields(s: string, sep: char, maxsplit: nat)
    ensures forall k :: 0 <= k < |Split(s, sep, maxsplit)| - 1 ==> sep !in Split(s, sep, maxsplit)[k]
  {
    if |s| > 0 {
      if s[0] == sep && maxsplit > 0 {
        SplitFields(s[1..], sep, maxsplit - 1);
        var rest := Split(s[1..], sep, maxsplit - 1);
        var r := Split(s, sep, maxsplit);
        assert r == [""] + rest;
        forall k | 1 <= k < |r| - 1 ensures sep !in r[k] {
          assert r[k] == rest[k - 1];
          assert 0 <= k - 1 < |rest| - 1;
          assert sep !in rest[k - 1];
        }
      } else {
        SplitFields(s[1..], sep, maxsplit);
        var rest := Split(s[1..], sep, maxsplit);
        SplitLength(s[1..], sep, maxsplit);
        var r := Split(s, sep, maxsplit);
        forall k | 0 <= k < |r| - 1 ensures sep !in r[k] {
          if k == 0 {
            assert s[0] != sep && r[0] == [s[0]] + rest[0];
          } else {
            assert r[k] == rest[k];
          }
        }
      }
    }
  }
}
