/**
 * The .NET string operations the header parsers are built from, on
 * `string` = `seq<char>`: `Split(char)`, ordinal `StartsWith` and `Contains`,
 * `IndexOf(..., StringComparison.OrdinalIgnoreCase)` and `Trim(char)`.
 */
module Strings {

  // ---------------------------------------------------------------------
  // Split and its inverse
  // ---------------------------------------------------------------------

  /** The parts glued back together with `sep` between neighbours. */
  function Join(parts: seq<string>, sep: char): string
    requires |parts| >= 1
  {
    if |parts| == 1 then parts[0] else parts[0] + [sep] + Join(parts[1..], sep)
  }

  /**
   * `s.Split(sep)`: every occurrence of `sep` ends a part, empty parts are
   * kept, so the parts never contain `sep` and joining them gives `s` back.
   */
  function Split(s: string, sep: char): (parts: seq<string>)
    ensures |parts| >= 1
    ensures forall i :: 0 <= i < |parts| ==> sep !in parts[i]
    ensures Join(parts, sep) == s
  {
    if s == [] then [""]
    else
      var rest := Split(s[1..], sep);
      if s[0] == sep then
        assert s == [sep] + s[1..];
        [""] + rest
      else
        JoinExtendsFirst(s[0], rest, sep);
        assert s == [s[0]] + s[1..];
        [[s[0]] + rest[0]] + rest[1..]
  }

  /** Prepending a character other than the separator extends the first part. */
  lemma JoinExtendsFirst(c: char, rest: seq<string>, sep: char)
    requires c != sep && |rest| >= 1
    requires forall i :: 0 <= i < |rest| ==> sep !in rest[i]
    ensures var parts := [[c] + rest[0]] + rest[1..];
            (forall i :: 0 <= i < |parts| ==> sep !in parts[i])
            && Join(parts, sep) == [c] + Join(rest, sep)
  {
    var parts := [[c] + rest[0]] + rest[1..];
    assert parts[1..] == rest[1..];
    forall i | 0 <= i < |parts| ensures sep !in parts[i] {
      if i > 0 {
        assert parts[i] == rest[i];
      }
    }
  }

  lemma {:induction false} SplitWithoutSeparator(s: string, sep: char)
    requires sep !in s
    ensures Split(s, sep) == [s]
  {
    if s != [] {
      SplitWithoutSeparator(s[1..], sep);
    }
  }

  lemma {:induction false} SplitAfterFirst(a: string, b: string, sep: char)
    requires sep !in a
    ensures Split(a + [sep] + b, sep) == [a] + Split(b, sep)
  {
    var s := a + [sep] + b;
    if a == [] {
      assert s[1..] == b;
    } else {
      assert s[1..] == a[1..] + [sep] + b;
      SplitAfterFirst(a[1..], b, sep);
      assert [a[0]] + a[1..] == a;
    }
  }

  /** Splitting undoes joining when no part holds the separator. */
  lemma {:induction false} SplitOfJoin(parts: seq<string>, sep: char)
    requires |parts| >= 1
    requires forall i :: 0 <= i < |parts| ==> sep !in parts[i]
    ensures Split(Join(parts, sep), sep) == parts
  {
    if |parts| == 1 {
      SplitWithoutSeparator(parts[0], sep);
    } else {
      SplitOfJoin(parts[1..], sep);
      SplitAfterFirst(parts[0], Join(parts[1..], sep), sep);
      assert [parts[0]] + parts[1..] == parts;
    }
  }

  lemma {:induction false} JoinAppend(parts: seq<string>, x: string, sep: char)
    requires |parts| >= 1
    ensures Join(parts + [x], sep) == Join(parts, sep) + [sep] + x
  {
    if |parts| > 1 {
      assert (parts + [x])[1..] == parts[1..] + [x];
      JoinAppend(parts[1..], x, sep);
    }
  }

  /** `.Last()`: the part that ends the sequence, with every other part before it. */
  function Last(parts: seq<string>): (r: string)
    requires |parts| >= 1
    ensures parts[..|parts| - 1] + [r] == parts
  {
    parts[|parts| - 1]
  }

  /** One more part, free of the separator, appended after `s`. */
  lemma {:induction false} SplitAppendedPart(s: string, part: string, sep: char)
    requires sep !in part
    ensures Split(s + [sep] + part, sep) == Split(s, sep) + [part]
  {
    var before := Split(s, sep);
    JoinAppend(before, part, sep);
    var parts := before + [part];
    forall j | 0 <= j < |parts| ensures sep !in parts[j] {
      if j < |before| {
        assert parts[j] == before[j];
      }
    }
    SplitOfJoin(parts, sep);
  }

  /** Whatever precedes the last separator, the last segment is what follows it. */
  lemma LastSegmentAfter(a: string, b: string, sep: char)
    requires sep !in b
    ensures Last(Split(a + [sep] + b, sep)) == b
  {
    SplitAppendedPart(a, b, sep);
  }

  // ---------------------------------------------------------------------
  // Ordinal prefix and substring tests
  // ---------------------------------------------------------------------

  /** `s.StartsWith(prefix)`, compared ordinally: character by character. */
  predicate StartsWith(s: string, prefix: string): (r: bool)
    ensures r <==> |prefix| <= |s| && forall i :: 0 <= i < |prefix| ==> s[i] == prefix[i]
  {
    |prefix| <= |s| && s[..|prefix|] == prefix
  }

  /** `sub` occurs in `s` starting at index `i`. */
  predicate OccursAt(s: string, sub: string, i: int) {
    0 <= i && i + |sub| <= |s| && s[i..i + |sub|] == sub
  }

  /** `s.Contains(sub)`, compared ordinally. */
  function Contains(s: string, sub: string): (r: bool)
    ensures r <==> exists i :: OccursAt(s, sub, i)
  {
    if StartsWith(s, sub) then
      assert OccursAt(s, sub, 0);
      true
    else if s == [] then
      assert forall i :: !OccursAt(s, sub, i);
      false
    else
      var rest := Contains(s[1..], sub);
      assert forall i :: OccursAt(s[1..], sub, i) <==> OccursAt(s, sub, i + 1) by {
        forall i ensures OccursAt(s[1..], sub, i) <==> OccursAt(s, sub, i + 1) {
          if 0 <= i && i + |sub| <= |s| - 1 {
            assert s[1..][i..i + |sub|] == s[i + 1..i + 1 + |sub|];
          }
        }
      }
      assert !OccursAt(s, sub, 0);
      assert rest ==> exists i :: OccursAt(s, sub, i) by {
        if rest {
          var j :| OccursAt(s[1..], sub, j);
          assert OccursAt(s, sub, j + 1);
        }
      }
      assert (exists i :: OccursAt(s, sub, i)) ==> rest by {
        if exists i :: OccursAt(s, sub, i) {
          var i :| OccursAt(s, sub, i);
          assert i >= 1;
          assert OccursAt(s[1..], sub, i - 1);
        }
      }
      rest
  }

  /** A string holds every substring of its prefixes. */
  lemma ContainsInPrefix(a: string, b: string, sub: string)
    requires Contains(a, sub)
    ensures Contains(a + b, sub)
  {
    var i :| OccursAt(a, sub, i);
    assert (a + b)[i..i + |sub|] == a[i..i + |sub|];
    assert OccursAt(a + b, sub, i);
  }

  // ---------------------------------------------------------------------
  // Case-insensitive search (StringComparison.OrdinalIgnoreCase)
  // ---------------------------------------------------------------------

  /** Upper-case mapping used for the ordinal ignore-case comparison (ASCII letters). */
  function ToUpperOrdinal(c: char): (r: char)
    ensures !('a' <= r <= 'z')
    ensures 'A' <= r <= 'Z' <==> 'A' <= c <= 'Z' || 'a' <= c <= 'z'
    ensures !('a' <= c <= 'z') ==> r == c
    ensures 'a' <= c <= 'z' ==> r as int == c as int - 32
  {
    if 'a' <= c <= 'z' then (c as int - 32) as char else c
  }

  /** `x` and `y` are the same character, or the lower- and upper-case forms of one ASCII letter. */
  predicate SameLetter(x: char, y: char) {
    x == y || ('a' <= x <= 'z' && y as int == x as int - 32) || ('a' <= y <= 'z' && x as int == y as int - 32)
  }

  /** Ordinal ignore-case equality: same length, same characters once both are upper-cased. */
  predicate EqualsIgnoreCase(a: string, b: string): (r: bool)
    ensures r <==> |a| == |b| && forall i :: 0 <= i < |a| ==> SameLetter(a[i], b[i])
  {
    |a| == |b| && forall i :: 0 <= i < |a| ==> ToUpperOrdinal(a[i]) == ToUpperOrdinal(b[i])
  }

  /** `sub` occurs in `s` at index `i`, ignoring case. */
  predicate OccursIgnoreCaseAt(s: string, sub: string, i: int) {
    0 <= i && i + |sub| <= |s| && EqualsIgnoreCase(s[i..i + |sub|], sub)
  }

  /** `s.IndexOf(sub, StringComparison.OrdinalIgnoreCase)`: the first match, or -1. */
  function IndexOfIgnoreCase(s: string, sub: string): (r: int)
    ensures r == -1 <==> forall i :: !OccursIgnoreCaseAt(s, sub, i)
    ensures r != -1 ==> OccursIgnoreCaseAt(s, sub, r)
    ensures forall i :: 0 <= i < r ==> !OccursIgnoreCaseAt(s, sub, i)
  {
    IndexOfIgnoreCaseFrom(s, sub, 0)
  }

  function IndexOfIgnoreCaseFrom(s: string, sub: string, k: nat): (r: int)
    requires k <= |s|
    ensures r == -1 <==> forall i :: k <= i ==> !OccursIgnoreCaseAt(s, sub, i)
    ensures r != -1 ==> k <= r && OccursIgnoreCaseAt(s, sub, r)
    ensures forall i :: k <= i < r ==> !OccursIgnoreCaseAt(s, sub, i)
    decreases |s| - k
  {
    if k + |sub| > |s| then -1
    else if OccursIgnoreCaseAt(s, sub, k) then k
    else IndexOfIgnoreCaseFrom(s, sub, k + 1)
  }

  // ---------------------------------------------------------------------
  // Trim(char)
  // ---------------------------------------------------------------------

  /** `s.TrimStart(c)`: drops every leading `c`. */
  function TrimStart(s: string, c: char): (r: string)
    ensures |r| <= |s| && r == s[|s| - |r|..]
    ensures forall i :: 0 <= i < |s| - |r| ==> s[i] == c
    ensures r == [] || r[0] != c
  {
    if s != [] && s[0] == c then TrimStart(s[1..], c) else s
  }

  /** `s.TrimEnd(c)`: drops every trailing `c`. */
  function TrimEnd(s: string, c: char): (r: string)
    ensures |r| <= |s| && r == s[..|r|]
    ensures forall i :: |r| <= i < |s| ==> s[i] == c
    ensures r == [] || r[|r| - 1] != c
  {
    if s != [] && s[|s| - 1] == c then TrimEnd(s[..|s| - 1], c) else s
  }

  /** `r` is `s` with `lead` copies of `c` cut from the front and only copies of `c` cut from the back. */
  ghost predicate TrimmedFrom(s: string, r: string, c: char, lead: int) {
    0 <= lead && lead + |r| <= |s| && r == s[lead..lead + |r|]
    && (forall i :: 0 <= i < lead ==> s[i] == c)
    && (forall i :: lead + |r| <= i < |s| ==> s[i] == c)
  }

  /**
   * `s.Trim(c)`: every leading and every trailing `c` removed, and nothing
   * else; the result neither starts nor ends with `c`.
   */
  function Trim(s: string, c: char): (r: string)
    ensures r == [] || (r[0] != c && r[|r| - 1] != c)
    ensures exists lead :: TrimmedFrom(s, r, c, lead)
    ensures forall x :: x in r ==> x in s
  {
    var t := TrimStart(s, c);
    var r := TrimEnd(t, c);
    TrimmedTwice(s, t, r, c);
    r
  }

  lemma TrimmedTwice(s: string, t: string, r: string, c: char)
    requires |t| <= |s| && t == s[|s| - |t|..]
    requires forall i :: 0 <= i < |s| - |t| ==> s[i] == c
    requires |r| <= |t| && r == t[..|r|]
    requires forall i :: |r| <= i < |t| ==> t[i] == c
    ensures TrimmedFrom(s, r, c, |s| - |t|)
    ensures forall x :: x in r ==> x in s
  {
    var lead := |s| - |t|;
    assert r == s[lead..lead + |r|];
    forall i | lead + |r| <= i < |s| ensures s[i] == c {
      assert s[i] == t[i - lead];
    }
    forall x | x in r ensures x in s {
      var k :| 0 <= k < |r| && r[k] == x;
      assert s[lead + k] == x;
    }
  }

  /** Trimming a string that is wrapped in `c` but otherwise free of it at both ends. */
  lemma TrimWrapped(n: string, c: char)
    requires n == [] || (n[0] != c && n[|n| - 1] != c)
    ensures Trim([c] + n + [c], c) == n
  {
    if n == [] {
      var s := [c] + n + [c];
      assert s[1..] == [c] && s[1..][1..] == [];
    } else {
      TrimStartWrapped(n, c);
      TrimEndAppended(n, c);
    }
  }

  lemma TrimStartWrapped(n: string, c: char)
    requires n != [] && n[0] != c
    ensures TrimStart([c] + n + [c], c) == n + [c]
  {
    var s := [c] + n + [c];
    assert s[1..] == n + [c];
    assert (n + [c])[0] == n[0];
  }

  lemma TrimEndAppended(n: string, c: char)
    requires n == [] || n[|n| - 1] != c
    ensures TrimEnd(n + [c], c) == n
  {
    var t := n + [c];
    assert t[..|t| - 1] == n;
  }
}
