/**
 * The string primitives the parsers and the sort key are built from:
 * Python's `str.strip`, `str.strip(chars)`, `str.split(sep)`,
 * `str.split(sep, 1)`, `str.lower` and the code-point order `<` on strings.
 */
module Text {
  import opened Wrappers

  /** The characters `str.strip()` removes: the ASCII whitespace that Python's
      `str.isspace` accepts. */
  const Whitespace: set<char> :=
    {' ', '\t', '\n', '\r', '\U{B}', '\U{C}', '\U{1C}', '\U{1D}', '\U{1E}', '\U{1F}'}

  // ---------------------------------------------------------------------------
  // Stripping

  /** Removes the longest prefix made of characters in `cs`. */
  function TrimStart(s: string, cs: set<char>): string
    decreases |s|
  {
    if s != [] && s[0] in cs then TrimStart(s[1..], cs) else s
  }

  /** Removes the longest suffix made of characters in `cs`. */
  function TrimEnd(s: string, cs: set<char>): string
    decreases |s|
  {
    if s != [] && s[|s| - 1] in cs then TrimEnd(s[..|s| - 1], cs) else s
  }

  /** `TrimStart` keeps a suffix, cuts only characters of `cs`, and stops at
      the first character outside `cs`. */
  lemma {:induction false} TrimStartSpec(s: string, cs: set<char>)
    ensures var r := TrimStart(s, cs);
      && |r| <= |s| && r == s[|s| - |r|..]
      && (forall i | 0 <= i < |s| - |r| :: s[i] in cs)
      && (r == [] || r[0] !in cs)
    decreases |s|
  {
    if s != [] && s[0] in cs {
      TrimStartSpec(s[1..], cs);
    }
  }

  /** `TrimEnd` keeps a prefix, cuts only characters of `cs`, and stops at
      the last character outside `cs`. */
  lemma {:induction false} TrimEndSpec(s: string, cs: set<char>)
    ensures var r := TrimEnd(s, cs);
      && |r| <= |s| && r == s[..|r|]
      && (forall i | |r| <= i < |s| :: s[i] in cs)
      && (r == [] || r[|r| - 1] !in cs)
    decreases |s|
  {
    if s != [] && s[|s| - 1] in cs {
      TrimEndSpec(s[..|s| - 1], cs);
    }
  }

  /** `s.strip(chars)`: both ends stripped of the characters in `cs`. */
  function StripChars(s: string, cs: set<char>): string
  {
    TrimEnd(TrimStart(s, cs), cs)
  }

  /** `s.strip()`. */
  function Strip(s: string): string
  {
    StripChars(s, Whitespace)
  }

  /** The result of stripping is a contiguous piece of the input, everything
      cut off on either side is in `cs`, and the piece neither starts nor ends
      with a character of `cs`. */
  lemma StripCharsIsMaximalSlice(s: string, cs: set<char>)
    ensures exists i, j | 0 <= i <= j <= |s| ::
              && StripChars(s, cs) == s[i..j]
              && (forall k | 0 <= k < i :: s[k] in cs)
              && (forall k | j <= k < |s| :: s[k] in cs)
    ensures StripChars(s, cs) != [] ==>
              StripChars(s, cs)[0] !in cs && StripChars(s, cs)[|StripChars(s, cs)| - 1] !in cs
  {
    var t := TrimStart(s, cs);
    var r := TrimEnd(t, cs);
    TrimStartSpec(s, cs);
    TrimEndSpec(t, cs);
    var i := |s| - |t|;
    assert r == s[i..i + |r|];
    assert forall k | i + |r| <= k < |s| :: s[k] == t[k - i];
    if r != [] {
      assert r[0] == t[0];
    }
  }

  /** Stripping removes everything exactly when every character is in `cs`. */
  lemma StripCharsEmptyIff(s: string, cs: set<char>)
    ensures StripChars(s, cs) == [] <==> forall i | 0 <= i < |s| :: s[i] in cs
  {
    var t := TrimStart(s, cs);
    TrimStartSpec(s, cs);
    TrimEndSpec(t, cs);
  }

  /** A character outside `cs` survives stripping. */
  lemma StripCharsKeeps(s: string, cs: set<char>, i: nat)
    requires i < |s| && s[i] !in cs
    ensures s[i] in StripChars(s, cs)
  {
    var t := TrimStart(s, cs);
    TrimStartSpec(s, cs);
    TrimEndSpec(t, cs);
    var k := i - (|s| - |t|);
    assert t[k] == s[i];
    assert StripChars(s, cs)[k] == t[k];
  }

  /** A string with no character of `cs` at either end is left as it is. */
  lemma {:induction false} StripCharsFixed(s: string, cs: set<char>)
    requires s == [] || (s[0] !in cs && s[|s| - 1] !in cs)
    ensures StripChars(s, cs) == s
  {
  }

  /** Stripping twice is stripping once. */
  lemma StripCharsIdempotent(s: string, cs: set<char>)
    ensures StripChars(StripChars(s, cs), cs) == StripChars(s, cs)
  {
    StripCharsIsMaximalSlice(s, cs);
    StripCharsFixed(StripChars(s, cs), cs);
  }

  // ---------------------------------------------------------------------------
  // Splitting

  /** The inverse of `Split`: the parts glued back with `sep` between them. */
  function Join(parts: seq<string>, sep: char): string
  {
    if parts == [] then []
    else if |parts| == 1 then parts[0]
    else parts[0] + [sep] + Join(parts[1..], sep)
  }

  /** `s.split(sep)` for a one-character `sep`: always at least one part, and
      empty parts are kept. */
  function Split(s: string, sep: char): (parts: seq<string>)
    ensures |parts| >= 1
    decreases |s|
  {
    if s == [] then [[]]
    else
      var rest := Split(s[1..], sep);
      if s[0] == sep then [[]] + rest
      else [[s[0]] + rest[0]] + rest[1..]
  }

  /** No part holds the separator, and joining the parts gives back the
      input. */
  lemma {:induction false} SplitJoin(s: string, sep: char)
    ensures forall i | 0 <= i < |Split(s, sep)| :: sep !in Split(s, sep)[i]
    ensures Join(Split(s, sep), sep) == s
    decreases |s|
  {
    if s != [] {
      var rest := Split(s[1..], sep);
      SplitJoin(s[1..], sep);
      if s[0] == sep {
        assert ([[]] + rest)[1..] == rest;
      } else {
        var parts := [[s[0]] + rest[0]] + rest[1..];
        assert parts[1..] == rest[1..];
        assert s == [s[0]] + s[1..];
        if |rest| > 1 {
          assert Join(rest, sep) == rest[0] + [sep] + Join(rest[1..], sep);
        }
      }
    }
  }

  /** A piece with no separator is one part, and a separator after such a
      piece starts the next part. */
  lemma {:induction false} SplitAfterPiece(x: string, sep: char, y: string)
    requires sep !in x
    ensures Split(x + [sep] + y, sep) == [x] + Split(y, sep)
    ensures Split(x, sep) == [x]
    decreases |x|
  {
    if x == [] {
      assert ([] + [sep] + y)[1..] == y;
    } else {
      SplitAfterPiece(x[1..], sep, y);
      assert (x + [sep] + y)[1..] == x[1..] + [sep] + y;
      assert [x[0]] + x[1..] == x;
    }
  }

  /** `s.split(sep, 1)` where the tuple unpacking `key, value = ...` succeeds:
      `None` when `sep` does not occur (the unpacking raises), otherwise the
      text before the first `sep` and everything after it. */
  function SplitFirst(s: string, sep: char): Option<(string, string)>
    decreases |s|
  {
    if s == [] then None
    else if s[0] == sep then Some(([], s[1..]))
    else match SplitFirst(s[1..], sep)
      case None => None
      case Some(kv) => Some(([s[0]] + kv.0, kv.1))
  }

  /** The split fails exactly when `sep` is absent; otherwise the key holds no
      `sep` and key, `sep` and value make up the input. */
  lemma {:induction false} SplitFirstSpec(s: string, sep: char)
    ensures SplitFirst(s, sep).None? <==> sep !in s
    ensures SplitFirst(s, sep).Some? ==>
              var kv := SplitFirst(s, sep).value;
              sep !in kv.0 && kv.0 + [sep] + kv.1 == s
    decreases |s|
  {
    if s != [] && s[0] != sep {
      SplitFirstSpec(s[1..], sep);
      assert s == [s[0]] + s[1..];
      if SplitFirst(s[1..], sep).Some? {
        var kv := SplitFirst(s[1..], sep).value;
        assert [s[0]] + kv.0 + [sep] + kv.1 == [s[0]] + (kv.0 + [sep] + kv.1);
      }
    }
  }

  /** The first separator splits, later ones stay in the value. */
  lemma {:induction false} SplitFirstAt(x: string, sep: char, y: string)
    requires sep !in x
    ensures SplitFirst(x + [sep] + y, sep) == Some((x, y))
    decreases |x|
  {
    if x != [] {
      SplitFirstAt(x[1..], sep, y);
      assert (x + [sep] + y)[1..] == x[1..] + [sep] + y;
      assert [x[0]] + x[1..] == x;
    }
  }

  // ---------------------------------------------------------------------------
  // Case folding

  function LowerChar(c: char): char
  {
    if 'A' <= c <= 'Z' then (c as int + 32) as char else c
  }

  /** `s.lower()` on the ASCII letters. */
  function Lower(s: string): string
    decreases |s|
  {
    if s == [] then [] else [LowerChar(s[0])] + Lower(s[1..])
  }

  /** Lowering keeps the length and maps every character on its own. */
  lemma {:induction false} LowerSpec(s: string)
    ensures |Lower(s)| == |s|
    ensures forall i | 0 <= i < |s| :: Lower(s)[i] == LowerChar(s[i])
    decreases |s|
  {
    if s != [] {
      LowerSpec(s[1..]);
      assert forall i | 1 <= i < |s| :: Lower(s)[i] == Lower(s[1..])[i - 1];
    }
  }

  /** Two strings that differ only in the case of ASCII letters lower to the
      same string, and lowering is idempotent. */
  lemma LowerIgnoresCase(a: string, b: string)
    requires |a| == |b|
    requires forall i | 0 <= i < |a| :: LowerChar(a[i]) == LowerChar(b[i])
    ensures Lower(a) == Lower(b)
    ensures Lower(Lower(a)) == Lower(a)
  {
    LowerSpec(a);
    LowerSpec(b);
    LowerSpec(Lower(a));
  }

  /** No upper-case ASCII letter survives lowering. */
  lemma LowerHasNoUpper(s: string)
    ensures forall i | 0 <= i < |Lower(s)| :: !('A' <= Lower(s)[i] <= 'Z')
  {
    LowerSpec(s);
  }

  // ---------------------------------------------------------------------------
  // Python's string order: lexicographic by code point

  predicate StrLt(a: string, b: string)
    decreases |a|
  {
    if a == [] then b != []
    else b != [] && (a[0] < b[0] || (a[0] == b[0] && StrLt(a[1..], b[1..])))
  }

  lemma {:induction false} StrLtIrreflexive(a: string)
    ensures !StrLt(a, a)
    decreases |a|
  {
    if a != [] {
      StrLtIrreflexive(a[1..]);
    }
  }

  lemma {:induction false} StrLtTransitive(a: string, b: string, c: string)
    requires StrLt(a, b) && StrLt(b, c)
    ensures StrLt(a, c)
    decreases |a|
  {
    if a != [] && a[0] == b[0] && b[0] == c[0] {
      StrLtTransitive(a[1..], b[1..], c[1..]);
    }
  }

  lemma {:induction false} StrLtTotal(a: string, b: string)
    ensures a == b || StrLt(a, b) || StrLt(b, a)
    decreases |a|
  {
    if a != [] && b != [] && a[0] == b[0] {
      StrLtTotal(a[1..], b[1..]);
      if a[1..] == b[1..] {
        assert a == [a[0]] + a[1..] && b == [b[0]] + b[1..];
      }
    }
  }
}
