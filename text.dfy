/** Strings as the build scripts use them: Python's `str.strip()`,
    `startswith`, `endswith`, substring membership (`sub in s`), one-character
    `str.replace` and the deletion done by a one-class `re.sub`. */
module Text {

  /** The characters for which Python's `str.isspace()` holds; `str.strip()`
      with no argument removes exactly these from both ends. */
  predicate IsSpace(c: char) {
    || c == ' '
    || ('\t' <= c <= '\r')
    || ('\U{1C}' <= c <= '\U{1F}')
    || c == '\U{85}'
    || c == '\U{A0}'
    || c == '\U{1680}'
    || ('\U{2000}' <= c <= '\U{200A}')
    || c == '\U{2028}'
    || c == '\U{2029}'
    || c == '\U{202F}'
    || c == '\U{205F}'
    || c == '\U{3000}'
  }

  /** `s` with its leading whitespace removed. */
  function TrimLeft(s: string): (r: string)
    ensures |r| <= |s|
  {
    if s != [] && IsSpace(s[0]) then TrimLeft(s[1..]) else s
  }

  /** `s` with its trailing whitespace removed. */
  function TrimRight(s: string): (r: string)
    ensures |r| <= |s|
  {
    if s != [] && IsSpace(s[|s| - 1]) then TrimRight(s[..|s| - 1]) else s
  }

  /** Python's `s.strip()`: whitespace removed from both ends, the middle kept. */
  function Trim(s: string): string {
    TrimRight(TrimLeft(s))
  }

  /** TrimLeft removes exactly the leading run of whitespace: what it
      returns is a suffix of `s` that does not start with whitespace, and
      everything before it is whitespace. */
  lemma {:induction false} TrimLeftSpec(s: string)
    ensures var r := TrimLeft(s);
      && r == s[|s| - |r|..]
      && (forall k :: 0 <= k < |s| - |r| ==> IsSpace(s[k]))
      && (r == [] || !IsSpace(r[0]))
  {
    if s != [] && IsSpace(s[0]) {
      TrimLeftSpec(s[1..]);
    }
  }

  /** TrimRight removes exactly the trailing run of whitespace. */
  lemma {:induction false} TrimRightSpec(s: string)
    ensures var r := TrimRight(s);
      && r == s[..|r|]
      && (forall k :: |r| <= k < |s| ==> IsSpace(s[k]))
      && (r == [] || !IsSpace(r[|r| - 1]))
  {
    if s != [] && IsSpace(s[|s| - 1]) {
      TrimRightSpec(s[..|s| - 1]);
    }
  }

  /** Trim keeps a contiguous block of `s` that neither starts nor ends with
      whitespace, and drops only whitespace around it. */
  /** Leading whitespace before a non-space character is all TrimLeft
      removes. */
  lemma {:induction false} TrimLeftSkips(indent: string, s: string)
    requires forall c :: c in indent ==> IsSpace(c)
    requires s != [] && !IsSpace(s[0])
    ensures TrimLeft(indent + s) == s
  {
    if indent != [] {
      assert (indent + s)[1..] == indent[1..] + s;
      TrimLeftSkips(indent[1..], s);
    } else {
      assert indent + s == s;
    }
  }

  /** TrimRight never cuts into a prefix that ends in a non-space
      character. */
  lemma {:induction false} TrimRightKeepsPrefix(p: string, rest: string)
    requires p != [] && !IsSpace(p[|p| - 1])
    ensures StartsWith(TrimRight(p + rest), p)
  {
    var s := p + rest;
    if rest == [] {
      assert s == p;
    } else if IsSpace(s[|s| - 1]) {
      assert s[..|s| - 1] == p + rest[..|rest| - 1];
      TrimRightKeepsPrefix(p, rest[..|rest| - 1]);
    } else {
      assert s[..|p|] == p;
    }
  }

  lemma TrimSpec(s: string)
    ensures var l := TrimLeft(s); var r := Trim(s);
      && |l| <= |s| && r == s[|s| - |l|..|s| - |l| + |r|]
      && (forall k :: 0 <= k < |s| - |l| ==> IsSpace(s[k]))
      && (forall k :: |s| - |l| + |r| <= k < |s| ==> IsSpace(s[k]))
      && (r == [] || (!IsSpace(r[0]) && !IsSpace(r[|r| - 1])))
  {
    var l := TrimLeft(s);
    TrimLeftSpec(s);
    TrimRightSpec(l);
  }

  /** Python's `s.startswith(p)`. */
  predicate StartsWith(s: string, p: string) {
    |p| <= |s| && s[..|p|] == p
  }

  /** Python's `s.endswith(p)`. */
  predicate EndsWith(s: string, p: string) {
    |p| <= |s| && s[|s| - |p|..] == p
  }

  /** A space or a square bracket: the characters the URL fixer encodes and
      the file-name sanitiser replaces or removes. */
  predicate HasUnsafe(s: string) {
    ' ' in s || '[' in s || ']' in s
  }

  /** Python's `sub in s` for two strings: `sub` occurs as a contiguous block of `s`. */
  predicate Contains(s: string, sub: string)
    decreases |s|
  {
    StartsWith(s, sub) || (s != [] && Contains(s[1..], sub))
  }

  /** A one-character needle is found exactly when that character occurs. */
  lemma {:induction false} ContainsChar(s: string, c: char)
    ensures Contains(s, [c]) <==> c in s
  {
    if s != [] {
      ContainsChar(s[1..], c);
      assert s == [s[0]] + s[1..];
    }
  }

  /** Python's `s.replace(c, rep)` for a one-character `c`: every occurrence
      of `c` becomes `rep`, every other character stays. */
  function ReplaceChar(s: string, c: char, rep: string): string {
    if s == [] then []
    else (if s[0] == c then rep else [s[0]]) + ReplaceChar(s[1..], c, rep)
  }

  lemma {:induction false} ReplaceCharAppend(a: string, b: string, c: char, rep: string)
    ensures ReplaceChar(a + b, c, rep) == ReplaceChar(a, c, rep) + ReplaceChar(b, c, rep)
  {
    if a != [] {
      assert (a + b)[1..] == a[1..] + b;
      ReplaceCharAppend(a[1..], b, c, rep);
    } else {
      assert a + b == b;
    }
  }

  /** `s` with every character of `cs` deleted: what `re.sub` does with a
      character class and an empty replacement. */
  function RemoveChars(s: string, cs: set<char>): string {
    if s == [] then []
    else (if s[0] in cs then [] else [s[0]]) + RemoveChars(s[1..], cs)
  }

  lemma {:induction false} RemoveCharsAppend(a: string, b: string, cs: set<char>)
    ensures RemoveChars(a + b, cs) == RemoveChars(a, cs) + RemoveChars(b, cs)
  {
    if a != [] {
      assert (a + b)[1..] == a[1..] + b;
      RemoveCharsAppend(a[1..], b, cs);
    } else {
      assert a + b == b;
    }
  }
}
