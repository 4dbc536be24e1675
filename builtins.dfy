/** The Python built-ins the core relies on: `None`, and the string methods
    `str.isspace`, `str.strip`, `str.split` and `str.join`. */
module Builtins {

  /** A value that may be Python's `None` */
  datatype Option<+T> = None | Some(value: T)

  /** The characters `str.isspace` accepts: the ASCII separators and
      controls U+0009-U+000D and U+001C-U+0020, NEL, NBSP and the Unicode
      space, line and paragraph separators */
  const Whitespace: set<char> := {
      '\U{0009}', '\U{000A}', '\U{000B}', '\U{000C}', '\U{000D}', '\U{001C}', '\U{001D}', '\U{001E}',
      '\U{001F}', '\U{0020}', '\U{0085}', '\U{00A0}', '\U{1680}', '\U{2000}', '\U{2001}', '\U{2002}',
      '\U{2003}', '\U{2004}', '\U{2005}', '\U{2006}', '\U{2007}', '\U{2008}', '\U{2009}', '\U{200A}',
      '\U{2028}', '\U{2029}', '\U{202F}', '\U{205F}', '\U{3000}'
    }

  /** `c.isspace()` */
  predicate IsSpace(c: char) {
    c in Whitespace
  }

  predicate AllSpace(s: string) {
    forall i :: 0 <= i < |s| ==> IsSpace(s[i])
  }

  /** True when s neither begins nor ends with whitespace */
  predicate Trimmed(s: string) {
    s == [] || (!IsSpace(s[0]) && !IsSpace(s[|s| - 1]))
  }

  /** Length of the whitespace run at the start of s */
  function LeadingSpaces(s: string): (n: nat)
    ensures n <= |s|
    ensures AllSpace(s[..n])
    ensures n == |s| || !IsSpace(s[n])
  {
    if s == [] || !IsSpace(s[0]) then 0
    else
      var m := LeadingSpaces(s[1..]);
      assert s[..m + 1] == [s[0]] + s[1..][..m];
      m + 1
  }

  /** Length of the whitespace run at the end of s */
  function TrailingSpaces(s: string): (n: nat)
    ensures n <= |s|
    ensures AllSpace(s[|s| - n..])
    ensures n == |s| || !IsSpace(s[|s| - 1 - n])
  {
    if s == [] || !IsSpace(s[|s| - 1]) then 0
    else
      var init := s[..|s| - 1];
      var m := TrailingSpaces(init);
      assert s[|s| - (m + 1)..] == init[|init| - m..] + [s[|s| - 1]];
      m + 1
  }

  /** `s.strip()`: s without its leading and trailing whitespace. The result
      is the part of s that starts after the leading whitespace, and what
      follows it in s is whitespace only. */
  function Strip(s: string): (r: string)
    ensures Trimmed(r)
    ensures LeadingSpaces(s) + |r| <= |s|
    ensures r == s[LeadingSpaces(s)..LeadingSpaces(s) + |r|]
    ensures AllSpace(s[LeadingSpaces(s) + |r|..])
  {
    var a := LeadingSpaces(s);
    if a == |s| then []
    else
      var b := TrailingSpaces(s);
      StripParts(s, a, b);
      s[a..|s| - b]
  }

  /** A character that is not whitespace, at a, lies before a whitespace
      run of length b at the end of s, and what lies between them is trimmed */
  lemma StripParts(s: string, a: nat, b: nat)
    requires a < |s| && !IsSpace(s[a])
    requires b <= |s| && AllSpace(s[|s| - b..]) && (b == |s| || !IsSpace(s[|s| - 1 - b]))
    ensures a + b < |s|
    ensures Trimmed(s[a..|s| - b])
  {
    var r := s[a..|s| - b];
    assert r[0] == s[a];
    assert r[|r| - 1] == s[|s| - 1 - b];
  }

  /** Around the stripped part, s holds whitespace only */
  lemma StripSurroundings(s: string)
    ensures forall k :: 0 <= k < LeadingSpaces(s) ==> IsSpace(s[k])
    ensures forall k :: LeadingSpaces(s) + |Strip(s)| <= k < |s| ==> IsSpace(s[k])
  {
    var a := LeadingSpaces(s);
    var e := a + |Strip(s)|;
    assert forall k :: 0 <= k < a ==> s[k] == s[..a][k];
    assert forall k :: e <= k < |s| ==> s[k] == s[e..][k - e];
  }

  /** `c in s` for a character that is not whitespace is unaffected by stripping */
  lemma {:induction false} StripKeeps(s: string, c: char)
    requires !IsSpace(c)
    ensures c in s <==> c in Strip(s)
  {
    var a, r := LeadingSpaces(s), Strip(s);
    StripSurroundings(s);
    if c in s {
      var i :| 0 <= i < |s| && s[i] == c;
      assert r[i - a] == c;
    }
    if c in r {
      var j :| 0 <= j < |r| && r[j] == c;
      assert s[a + j] == c;
    }
  }

  /** Whitespace put in front of a string that does not start with
      whitespace is exactly its leading run */
  lemma {:induction false} LeadingSpacesPadded(pad: string, s: string)
    requires AllSpace(pad) && (s == [] || !IsSpace(s[0]))
    ensures LeadingSpaces(pad + s) == |pad|
    decreases |pad|
  {
    if pad == [] {
      assert pad + s == s;
    } else {
      var t := pad + s;
      assert t[0] == pad[0];
      assert t[1..] == pad[1..] + s;
      assert AllSpace(pad[1..]) by {
        assert forall k :: 0 <= k < |pad| - 1 ==> pad[1..][k] == pad[k + 1];
      }
      LeadingSpacesPadded(pad[1..], s);
    }
  }

  /** Whitespace put after a string that does not end with whitespace is
      exactly its trailing run */
  lemma {:induction false} TrailingSpacesPadded(s: string, pad: string)
    requires AllSpace(pad) && (s == [] || !IsSpace(s[|s| - 1]))
    ensures TrailingSpaces(s + pad) == |pad|
    decreases |pad|
  {
    if pad == [] {
      assert s + pad == s;
    } else {
      var t := s + pad;
      var init := pad[..|pad| - 1];
      assert t[|t| - 1] == pad[|pad| - 1];
      assert t[..|t| - 1] == s + init;
      assert AllSpace(init) by {
        assert forall k :: 0 <= k < |init| ==> init[k] == pad[k];
      }
      TrailingSpacesPadded(s, init);
    }
  }

  /** Stripping a string that has no surrounding whitespace changes nothing */
  lemma {:induction false} StripTrimmed(s: string)
    requires Trimmed(s)
    ensures Strip(s) == s
  {
    assert LeadingSpaces(s) == 0;
    assert s[0..] == s;
    assert TrailingSpaces(s) == 0;
    assert s[..|s|] == s;
  }

  /** Stripping whitespace added in front of a trimmed string gives it back */
  lemma {:induction false} StripPrefixSpace(pad: string, s: string)
    requires AllSpace(pad) && Trimmed(s)
    ensures Strip(pad + s) == s
  {
    var t := pad + s;
    LeadingSpacesPadded(pad, s);
    assert t[|pad|..] == s;
    assert TrailingSpaces(s) == 0;
    assert t[|pad|..|t|] == s;
  }

  /** Stripping whitespace added after a trimmed string gives it back */
  lemma {:induction false} StripSuffixSpace(s: string, pad: string)
    requires Trimmed(s) && AllSpace(pad)
    ensures Strip(s + pad) == s
  {
    var t := s + pad;
    if s == [] {
      assert t == pad + s;
      LeadingSpacesPadded(pad, s);
      assert t[|t|..] == [];
    } else {
      assert t[0] == s[0];
      assert LeadingSpaces(t) == 0;
      assert t[0..] == t;
      TrailingSpacesPadded(s, pad);
      assert t[..|t| - |pad|] == s;
    }
  }

  /** Index of the first occurrence of c in s, or |s| when there is none */
  function IndexOf(s: string, c: char): (i: nat)
    ensures i <= |s|
    ensures forall k :: 0 <= k < i ==> s[k] != c
    ensures c !in s[..i]
    ensures i < |s| ==> s[i] == c
  {
    if s == [] then 0
    else if s[0] == c then 0
    else
      var j := IndexOf(s[1..], c);
      assert s[..j + 1] == [s[0]] + s[1..][..j];
      j + 1
  }

  /** `sep.join(parts)` */
  function Join(parts: seq<string>, sep: string): string
  {
    if |parts| == 0 then ""
    else if |parts| == 1 then parts[0]
    else parts[0] + sep + Join(parts[1..], sep)
  }

  /** `s.split(sep)` for a one-character separator: one part per separator
      plus one, none of them holding the separator, and joining them back
      with the separator gives s again (empty parts included) */
  function Split(s: string, sep: char): (parts: seq<string>)
    ensures |parts| == multiset(s)[sep] + 1
    ensures forall p <- parts :: sep !in p
    ensures Join(parts, [sep]) == s
    decreases |s|
  {
    var i := IndexOf(s, sep);
    if i == |s| then
      assert sep !in s;
      [s]
    else
      var rest := Split(s[i + 1..], sep);
      SplitCons(s, i, sep, rest);
      [s[..i]] + rest
  }

  /** Putting the part before the first separator in front of the parts of
      what follows it gives the parts of the whole string */
  lemma SplitCons(s: string, i: nat, sep: char, rest: seq<string>)
    requires i < |s| && s[i] == sep && sep !in s[..i]
    requires |rest| == multiset(s[i + 1..])[sep] + 1
    requires forall p <- rest :: sep !in p
    requires Join(rest, [sep]) == s[i + 1..]
    ensures |[s[..i]] + rest| == multiset(s)[sep] + 1
    ensures forall p <- [s[..i]] + rest :: sep !in p
    ensures Join([s[..i]] + rest, [sep]) == s
  {
    assert s == s[..i] + [sep] + s[i + 1..];
    assert multiset(s) == multiset(s[..i]) + multiset([sep]) + multiset(s[i + 1..]);
    assert ([s[..i]] + rest)[1..] == rest;
  }

  /** The first occurrence of c in a + [c] + b is the one after a, when a has none */
  lemma IndexOfAfter(a: string, c: char, b: string)
    requires c !in a
    ensures IndexOf(a + [c] + b, c) == |a|
  {
    var s := a + [c] + b;
    var i := IndexOf(s, c);
    assert forall k :: 0 <= k < |a| ==> s[k] == a[k];
    assert forall k :: 0 <= k < i ==> s[..i][k] == s[k];
    assert s[|a|] == c;
  }

  /** A string without the separator splits into itself alone */
  lemma SplitWhole(s: string, sep: char)
    requires sep !in s
    ensures Split(s, sep) == [s]
  {
    assert forall k :: 0 <= k < |s| ==> s[k] != sep;
    assert IndexOf(s, sep) == |s|;
  }

  /** Splitting a part, the separator and the joined rest gives the part
      followed by the parts of the rest */
  lemma SplitAfterPart(head: string, sep: char, rest: seq<string>)
    requires sep !in head
    requires Split(Join(rest, [sep]), sep) == rest
    ensures Split(head + [sep] + Join(rest, [sep]), sep) == [head] + rest
  {
    var tail := Join(rest, [sep]);
    var s := head + [sep] + tail;
    IndexOfAfter(head, sep, tail);
    assert s[..|head|] == head;
    assert s[|head| + 1..] == tail;
  }

  /** Splitting undoes joining, when no part holds the separator */
  lemma {:induction false} SplitJoin(parts: seq<string>, sep: char)
    requires |parts| >= 1
    requires forall p <- parts :: sep !in p
    ensures Split(Join(parts, [sep]), sep) == parts
    decreases |parts|
  {
    if |parts| == 1 {
      assert parts[0] in parts;
      SplitWhole(parts[0], sep);
    } else {
      var rest := parts[1..];
      assert forall k :: 0 <= k < |rest| ==> rest[k] == parts[k + 1];
      SplitJoin(rest, sep);
      assert Join(parts, [sep]) == parts[0] + [sep] + Join(rest, [sep]);
      assert parts[0] in parts;
      SplitAfterPart(parts[0], sep, rest);
      assert [parts[0]] + rest == parts;
    }
  }
}
