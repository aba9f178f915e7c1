/** ASCII models of the Python string methods the backend relies on:
    `str.lower`, `str.title`, `str.replace` of one character, `str.strip`
    (with and without an argument) and `str.split` on a one-character
    separator. */
module Text {

  /** Python's `c.lower()` restricted to ASCII. */
  function LowerChar(c: char): char {
    if 'A' <= c <= 'Z' then (c as int + 32) as char else c
  }

  /** Python's `c.upper()` (equal to `c.title()`) restricted to ASCII. */
  function UpperChar(c: char): char {
    if 'a' <= c <= 'z' then (c as int - 32) as char else c
  }

  /** A character that has a case; in ASCII, a letter. */
  predicate IsCased(c: char) {
    'A' <= c <= 'Z' || 'a' <= c <= 'z'
  }

  /** `s.lower()` */
  function Lower(s: string): string {
    seq(|s|, i requires 0 <= i < |s| => LowerChar(s[i]))
  }

  /** `s.title()`: a character that follows a cased character is
      lower-cased, every other character is upper-cased. */
  function Title(s: string): string {
    seq(|s|, i requires 0 <= i < |s| =>
      if i > 0 && IsCased(s[i - 1]) then LowerChar(s[i]) else UpperChar(s[i]))
  }

  /** `s.replace(from, to)` for one-character arguments. */
  function ReplaceChar(s: string, from: char, to: char): string {
    seq(|s|, i requires 0 <= i < |s| => if s[i] == from then to else s[i])
  }

  /** The ASCII characters for which Python's `str.isspace` holds, i.e.
      those that `str.strip()` removes. */
  const Whitespace: set<char> :=
    {' ', '\t', '\n', '\r', 11 as char, 12 as char, 28 as char, 29 as char, 30 as char, 31 as char}

  /** `t` occurs in `s` starting at index `i`. */
  ghost predicate OccursAt(s: string, t: string, i: nat) {
    i + |t| <= |s| && s[i..i + |t|] == t
  }

  /** `t in s` on strings. */
  ghost predicate Contains(s: string, t: string) {
    exists i: nat :: OccursAt(s, t, i)
  }

  lemma OccursChars(s: string, t: string, i: nat)
    requires OccursAt(s, t, i)
    ensures forall c :: c in t ==> c in s
  {
    forall c | c in t ensures c in s {
      var k :| 0 <= k < |t| && t[k] == c;
      assert s[i + k] == c;
    }
  }

  lemma OccursInMiddle(x: string, y: string, z: string)
    ensures OccursAt(x + y + z, y, |x|)
  {
    assert (x + y + z)[|x|..|x| + |y|] == y;
  }

  lemma OccursBefore(s: string, u: string, t: string, i: nat)
    requires OccursAt(s, t, i)
    ensures OccursAt(s + u, t, i)
  {
    assert (s + u)[i..i + |t|] == s[i..i + |t|];
  }

  lemma OccursAfter(u: string, s: string, t: string, i: nat)
    requires OccursAt(s, t, i)
    ensures OccursAt(u + s, t, |u| + i) && Contains(u + s, t)
  {
    assert (u + s)[|u| + i..|u| + i + |t|] == s[i..i + |t|];
    assert OccursAt(u + s, t, |u| + i);
  }

  lemma ContainsAfter(u: string, s: string, t: string)
    requires Contains(s, t)
    ensures Contains(u + s, t)
  {
    var i: nat :| OccursAt(s, t, i);
    OccursAfter(u, s, t, i);
  }

  ghost predicate EndsWith(s: string, t: string) {
    |t| <= |s| && s[|s| - |t|..] == t
  }

  lemma EndsWithSuffix(x: string, y: string)
    ensures EndsWith(x + y, y)
  {
    assert (x + y)[|x|..] == y;
  }

  lemma EndsWithAfter(u: string, s: string, t: string)
    requires EndsWith(s, t)
    ensures EndsWith(u + s, t)
  {
    assert (u + s)[|u + s| - |t|..] == s[|s| - |t|..];
  }

  /** A string without upper-case letters is its own lower-case form. */
  lemma LowerUnchanged(s: string)
    requires forall i :: 0 <= i < |s| ==> !('A' <= s[i] <= 'Z')
    ensures Lower(s) == s
  {
  }

  lemma LowerIdempotent(s: string)
    ensures Lower(Lower(s)) == Lower(s)
  {
  }

  /** Removes leading characters that belong to `drop`. */
  function TrimStart(s: string, drop: set<char>): string
    decreases |s|
  {
    if s != [] && s[0] in drop then TrimStart(s[1..], drop) else s
  }

  /** Removes trailing characters that belong to `drop`. */
  function TrimEnd(s: string, drop: set<char>): string
    decreases |s|
  {
    if s != [] && s[|s| - 1] in drop then TrimEnd(s[..|s| - 1], drop) else s
  }

  /** `s.strip(chars)` */
  function Strip(s: string, drop: set<char>): string {
    TrimEnd(TrimStart(s, drop), drop)
  }

  /** Trimming the front leaves a suffix that starts with a kept character;
      everything cut off is in `drop`. */
  lemma {:induction false} TrimStartSpec(s: string, drop: set<char>)
    ensures var r := TrimStart(s, drop);
      && |r| <= |s| && r == s[|s| - |r|..]
      && (r == [] || r[0] !in drop)
      && forall k :: 0 <= k < |s| - |r| ==> s[k] in drop
    decreases |s|
  {
    if s != [] && s[0] in drop {
      TrimStartSpec(s[1..], drop);
    }
  }

  /** Trimming the back leaves a prefix that ends with a kept character;
      everything cut off is in `drop`. */
  lemma {:induction false} TrimEndSpec(s: string, drop: set<char>)
    ensures var r := TrimEnd(s, drop);
      && |r| <= |s| && r == s[..|r|]
      && (r == [] || r[|r| - 1] !in drop)
      && forall k :: |r| <= k < |s| ==> s[k] in drop
    decreases |s|
  {
    if s != [] && s[|s| - 1] in drop {
      TrimEndSpec(s[..|s| - 1], drop);
    }
  }

  /** `r` occurs in `s` at index `a`, and every character of `s` before
      or after that occurrence is in `drop`. */
  ghost predicate CutAt(s: string, r: string, a: nat, drop: set<char>) {
    && OccursAt(s, r, a)
    && (forall k :: 0 <= k < a ==> s[k] in drop)
    && (forall k :: a + |r| <= k < |s| ==> s[k] in drop)
  }

  /** What `s.strip(chars)` keeps occurs in `s` right after the trimmed
      front, and only characters of `chars` are cut off either end. */
  lemma StripOccurs(s: string, drop: set<char>)
    ensures exists a: nat :: CutAt(s, Strip(s, drop), a, drop)
  {
    var t := TrimStart(s, drop);
    var r := TrimEnd(t, drop);
    TrimStartSpec(s, drop);
    TrimEndSpec(t, drop);
    assert |t| <= |s|;
    var a: nat := |s| - |t|;
    assert |r| <= |t| && t == s[a..] && r == t[..|r|];
    forall k | 0 <= k < |r| ensures r[k] == s[a + k] {
      assert r[k] == t[k];
    }
    assert s[a..a + |r|] == r;
    forall k | a + |r| <= k < |s| ensures s[k] in drop {
      assert s[k] == t[k - a];
    }
    assert r == Strip(s, drop) && CutAt(s, r, a, drop);
  }

  /** Neither end of `s.strip(chars)` is in `chars`. */
  lemma StripEnds(s: string, drop: set<char>)
    ensures Strip(s, drop) == [] || Strip(s, drop)[0] !in drop
    ensures Strip(s, drop) == [] || Strip(s, drop)[|Strip(s, drop)| - 1] !in drop
  {
    var t := TrimStart(s, drop);
    var r := TrimEnd(t, drop);
    TrimStartSpec(s, drop);
    TrimEndSpec(t, drop);
    if r != [] {
      assert r[0] == t[0];
    }
  }

  /** `s.strip(chars)` is empty exactly when every character of `s` is in
      `chars`. */
  lemma StripEmpty(s: string, drop: set<char>)
    ensures Strip(s, drop) == [] <==> forall k :: 0 <= k < |s| ==> s[k] in drop
  {
    var t := TrimStart(s, drop);
    var r := TrimEnd(t, drop);
    TrimStartSpec(s, drop);
    TrimEndSpec(t, drop);
    var a := |s| - |t|;
    if r == [] {
      assert t == [];
    } else {
      assert t[0] !in drop;
      assert s[a] == t[0];
    }
  }

  /** `s.strip(chars)` is the slice of `s` left when every character of
      `drop` is cut off both ends: it occurs in `s` with only characters of
      `drop` before and after it, neither of its ends is in `drop`, and it
      is empty exactly when all of `s` is in `drop`. */
  lemma StripSpec(s: string, drop: set<char>)
    ensures exists a: nat :: CutAt(s, Strip(s, drop), a, drop)
    ensures var r := Strip(s, drop);
      && (r == [] || (r[0] !in drop && r[|r| - 1] !in drop))
      && (r == [] <==> forall k :: 0 <= k < |s| ==> s[k] in drop)
  {
    StripOccurs(s, drop);
    StripEnds(s, drop);
    StripEmpty(s, drop);
  }

  /** Conversely, a slice of `s` with only characters of `drop` around it
      and neither end in `drop` is `s.strip(chars)`: the contract of
      `StripSpec` determines the result. */
  lemma StripUnique(s: string, r: string, a: nat, drop: set<char>)
    requires CutAt(s, r, a, drop)
    requires r == [] || (r[0] !in drop && r[|r| - 1] !in drop)
    ensures r == Strip(s, drop)
  {
    StripSpec(s, drop);
    var r' := Strip(s, drop);
    var a': nat :| CutAt(s, r', a', drop);
    if r == [] {
      forall k | 0 <= k < |s| ensures s[k] in drop {
        if k >= a {
          assert a + |r| <= k;
        }
      }
    } else {
      var e := a + |r|;
      assert s[a..e][0] == s[a] && s[a..e][|r| - 1] == s[e - 1];
      if r' == [] {
        StripEmpty(s, drop);
      } else {
        var e' := a' + |r'|;
        assert OccursAt(s, r', a');
        assert s[a'..e'][0] == s[a'] && s[a'..e'][|r'| - 1] == s[e' - 1];
        assert s[a] !in drop && s[a'] !in drop && s[e - 1] !in drop && s[e' - 1] !in drop;
        assert a == a' && e == e';
      }
    }
  }

  /** Stripping only removes characters. */
  lemma StripKeepsChars(s: string, drop: set<char>)
    ensures forall c :: c in Strip(s, drop) ==> c in s
  {
    StripSpec(s, drop);
    var a: nat :| CutAt(s, Strip(s, drop), a, drop);
    OccursChars(s, Strip(s, drop), a);
  }

  /** A string whose ends are kept is its own strip. */
  lemma StripUnchanged(s: string, drop: set<char>)
    requires s == [] || (s[0] !in drop && s[|s| - 1] !in drop)
    ensures Strip(s, drop) == s
  {
  }

  /** One dropped character in front is removed. */
  lemma StripLeading(c: char, s: string, drop: set<char>)
    requires c in drop && s != [] && s[0] !in drop && s[|s| - 1] !in drop
    ensures Strip([c] + s, drop) == s
  {
    assert ([c] + s)[1..] == s;
    assert TrimStart([c] + s, drop) == TrimStart(s, drop) == s;
  }

  /** One dropped character at each end is removed. */
  lemma StripSurrounded(c: char, s: string, drop: set<char>)
    requires c in drop && s != [] && s[0] !in drop && s[|s| - 1] !in drop
    ensures Strip([c] + s + [c], drop) == s
  {
    var t := s + [c];
    assert ([c] + s + [c])[1..] == t;
    assert t[0] == s[0] && t[..|s|] == s;
    assert TrimStart([c] + s + [c], drop) == TrimStart(t, drop) == t;
    assert TrimEnd(t, drop) == TrimEnd(s, drop) == s;
  }

  lemma StripIdempotent(s: string, drop: set<char>)
    ensures Strip(Strip(s, drop), drop) == Strip(s, drop)
  {
    StripSpec(s, drop);
    StripUnchanged(Strip(s, drop), drop);
  }

  /** `s.split(sep)`: the pieces between occurrences of `sep`, in order;
      an empty string gives one empty piece and a separator at either end
      gives an empty piece there. */
  function Split(s: string, sep: char): (parts: seq<string>)
    ensures parts != []
    ensures forall i :: 0 <= i < |parts| ==> sep !in parts[i]
    decreases |s|
  {
    if s == [] then [[]]
    else
      assert s == [s[0]] + s[1..];
      var rest := Split(s[1..], sep);
      if s[0] == sep then [[]] + rest
      else [[s[0]] + rest[0]] + rest[1..]
  }

  /** There is one more piece than there are separators. */
  lemma {:induction false} SplitCount(s: string, sep: char)
    ensures |Split(s, sep)| == multiset(s)[sep] + 1
    decreases |s|
  {
    if s != [] {
      SplitCount(s[1..], sep);
      assert s == [s[0]] + s[1..];
      assert multiset(s) == multiset([s[0]]) + multiset(s[1..]);
    }
  }

  /** `sep.join(parts)` */
  function Join(parts: seq<string>, sep: char): string
    decreases |parts|
  {
    if parts == [] then []
    else if |parts| == 1 then parts[0]
    else parts[0] + [sep] + Join(parts[1..], sep)
  }

  /** Gluing a prefix onto the first piece glues it onto the join. */
  lemma JoinOntoFirst(head: string, parts: seq<string>, sep: char)
    requires parts != []
    ensures Join([head + parts[0]] + parts[1..], sep) == head + Join(parts, sep)
  {
    var glued := [head + parts[0]] + parts[1..];
    assert glued[0] == head + parts[0] && glued[1..] == parts[1..];
    if |parts| > 1 {
      assert Join(parts, sep) == parts[0] + [sep] + Join(parts[1..], sep);
      assert Join(glued, sep) == head + parts[0] + [sep] + Join(parts[1..], sep);
    }
  }

  /** An empty first piece puts a separator in front of the join. */
  lemma JoinAfterEmpty(parts: seq<string>, sep: char)
    requires parts != []
    ensures Join([[]] + parts, sep) == [sep] + Join(parts, sep)
  {
    var with := [[]] + parts;
    assert with[0] == [] && with[1..] == parts;
  }

  /** Splitting loses nothing: joining the pieces back gives the input. */
  lemma {:induction false} JoinSplit(s: string, sep: char)
    ensures Join(Split(s, sep), sep) == s
    decreases |s|
  {
    if s != [] {
      var rest := Split(s[1..], sep);
      JoinSplit(s[1..], sep);
      assert s == [s[0]] + s[1..];
      if s[0] == sep {
        assert Split(s, sep) == [[]] + rest;
        JoinAfterEmpty(rest, sep);
      } else {
        assert Split(s, sep) == [[s[0]] + rest[0]] + rest[1..];
        JoinOntoFirst([s[0]], rest, sep);
      }
    }
  }

  lemma {:induction false} SplitWithoutSep(s: string, sep: char)
    requires sep !in s
    ensures Split(s, sep) == [s]
    decreases |s|
  {
    if s != [] {
      SplitWithoutSep(s[1..], sep);
      assert [s[0]] + s[1..] == s;
    }
  }

  lemma {:induction false} SplitAtSep(a: string, sep: char, b: string)
    requires sep !in a
    ensures Split(a + [sep] + b, sep) == [a] + Split(b, sep)
    decreases |a|
  {
    var whole := a + [sep] + b;
    if a == [] {
      assert whole[0] == sep && whole[1..] == b;
    } else {
      assert whole[0] == a[0] && whole[1..] == a[1..] + [sep] + b;
      SplitAtSep(a[1..], sep, b);
      var rest := Split(whole[1..], sep);
      assert rest == [a[1..]] + Split(b, sep);
      assert Split(whole, sep) == [[a[0]] + rest[0]] + rest[1..];
      assert [a[0]] + a[1..] == a;
    }
  }

  /** Conversely, pieces free of the separator come back from splitting
      their join. */
  lemma {:induction false} SplitJoin(parts: seq<string>, sep: char)
    requires parts != []
    requires forall i :: 0 <= i < |parts| ==> sep !in parts[i]
    ensures Split(Join(parts, sep), sep) == parts
    decreases |parts|
  {
    if |parts| == 1 {
      SplitWithoutSep(parts[0], sep);
    } else {
      SplitJoin(parts[1..], sep);
      SplitAtSep(parts[0], sep, Join(parts[1..], sep));
    }
  }
}
