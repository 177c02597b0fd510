/** The optional value the application writes as `x ?? undefined`. */
module Wrappers {
  datatype Option<+T> = None | Some(value: T)
}

/** The JavaScript string operations the application relies on: `trim`, `toUpperCase`,
    relational comparison of strings, and `split` on one character. */
module Text {
  import opened Wrappers

  /** WhiteSpace and LineTerminator code points of ECMAScript, the set `String.prototype.trim`
      and `Number(string)` strip. */
  predicate IsWhitespace(c: char) {
    var n := c as int;
    (0x9 <= n <= 0xD) || n == 0x20 || n == 0xA0 || n == 0x1680 || (0x2000 <= n <= 0x200A)
    || n == 0x2028 || n == 0x2029 || n == 0x202F || n == 0x205F || n == 0x3000 || n == 0xFEFF
  }

  predicate AllWhitespace(s: string) {
    forall i | 0 <= i < |s| :: IsWhitespace(s[i])
  }

  /** Leading whitespace removed. */
  function TrimStart(s: string): (r: string)
    ensures |r| <= |s| && r == s[|s| - |r|..]
    ensures r == [] || !IsWhitespace(r[0])
    ensures forall i | 0 <= i < |s| - |r| :: IsWhitespace(s[i])
  {
    if s != [] && IsWhitespace(s[0]) then TrimStart(s[1..]) else s
  }

  /** Trailing whitespace removed. */
  function TrimEnd(s: string): (r: string)
    ensures |r| <= |s| && r == s[..|r|]
    ensures r == [] || !IsWhitespace(r[|r| - 1])
    ensures forall i | |r| <= i < |s| :: IsWhitespace(s[i])
  {
    if s != [] && IsWhitespace(s[|s| - 1]) then TrimEnd(s[..|s| - 1]) else s
  }

  /** `s.trim()`: the result is empty exactly when `s` is all whitespace, and otherwise
      neither starts nor ends with whitespace. */
  function Trim(s: string): (r: string)
    ensures |r| <= |s|
    ensures r == [] <==> AllWhitespace(s)
    ensures r == [] || (!IsWhitespace(r[0]) && !IsWhitespace(r[|r| - 1]))
  {
    TrimEnd(TrimStart(s))
  }

  /** `r` is `s` with `k` whitespace characters cut from the start and only whitespace cut
      from the end. */
  predicate WhitespaceCut(s: string, k: int, r: string) {
    0 <= k <= |s| - |r| && r == s[k..k + |r|] && AllWhitespace(s[..k]) && AllWhitespace(s[k + |r|..])
  }

  /** The trimmed text is a slice of `s` with only whitespace cut from either side. */
  lemma TrimIsSlice(s: string)
    ensures exists k :: WhitespaceCut(s, k, Trim(s))
  {
    var t := TrimStart(s);
    var k := |s| - |t|;
    assert WhitespaceCut(s, k, Trim(s)) by {
      TrimStartIsSuffix(s);
      TrimEndIsPrefix(t);
      WhitespaceAround(s, k, t, TrimEnd(t));
    }
  }

  /** Leading whitespace is cut from the start and nothing else. */
  lemma TrimStartIsSuffix(s: string)
    ensures var t := TrimStart(s); t == s[|s| - |t|..] && AllWhitespace(s[..|s| - |t|])
  {
    var k := |s| - |TrimStart(s)|;
    forall i | 0 <= i < k ensures IsWhitespace(s[..k][i]) {
      assert s[..k][i] == s[i];
    }
  }

  /** Trailing whitespace is cut from the end and nothing else. */
  lemma TrimEndIsPrefix(t: string)
    ensures var r := TrimEnd(t); r == t[..|r|] && AllWhitespace(t[|r|..])
  {
    var r := TrimEnd(t);
    forall i | 0 <= i < |t[|r|..]| ensures IsWhitespace(t[|r|..][i]) {
      assert t[|r|..][i] == t[|r| + i];
    }
  }

  /** A prefix of the suffix `t` of `s`, with whitespace cut on both sides, is a slice of `s`
      with whitespace on both sides. */
  lemma WhitespaceAround(s: string, k: nat, t: string, r: string)
    requires k <= |s| && t == s[k..] && |r| <= |t| && r == t[..|r|]
    requires AllWhitespace(s[..k]) && AllWhitespace(t[|r|..])
    ensures WhitespaceCut(s, k, r)
  {
    assert s[k + |r|..] == t[|r|..];
  }

  /** Trimming twice is trimming once. */
  lemma TrimIdempotent(s: string)
    ensures Trim(Trim(s)) == Trim(s)
  {
    var r := Trim(s);
    if r != [] {
      assert TrimStart(r) == r;
      assert TrimEnd(r) == r;
    }
  }

  /** `s.trim() || undefined`: the trimmed text, or absent when nothing is left. */
  function TrimmedOrAbsent(s: string): (r: Option<string>)
    ensures r == None <==> AllWhitespace(s)
    ensures r.Some? ==> r.value == Trim(s) && r.value != []
  {
    var t := Trim(s);
    if t == [] then None else Some(t)
  }

  /** ASCII lower-case letters, the only ones the model upper-cases. */
  predicate IsLowerAscii(c: char) {
    'a' <= c <= 'z'
  }

  function UpperChar(c: char): char {
    if IsLowerAscii(c) then (c as int - 32) as char else c
  }

  /** `s.toUpperCase()` on the ASCII letters. */
  function ToUpper(s: string): (r: string)
    ensures |r| == |s|
  {
    seq(|s|, i requires 0 <= i < |s| => UpperChar(s[i]))
  }

  /** Upper-casing leaves no lower-case letter, changes nothing else, and is idempotent. */
  lemma ToUpperProperties(s: string)
    ensures forall i | 0 <= i < |s| :: !IsLowerAscii(ToUpper(s)[i])
    ensures forall i | 0 <= i < |s| && !IsLowerAscii(s[i]) :: ToUpper(s)[i] == s[i]
    ensures ToUpper(ToUpper(s)) == ToUpper(s)
  {
  }

  /** `a < b` on JavaScript strings: lexicographic order of the characters, a proper prefix
      coming first. */
  predicate StrLess(a: string, b: string) {
    |b| > 0 && (|a| == 0 || a[0] < b[0] || (a[0] == b[0] && StrLess(a[1..], b[1..])))
  }

  lemma {:induction false} StrLessIrreflexive(a: string)
    ensures !StrLess(a, a)
  {
    if |a| > 0 {
      StrLessIrreflexive(a[1..]);
    }
  }

  lemma {:induction false} StrLessAsymmetric(a: string, b: string)
    ensures !(StrLess(a, b) && StrLess(b, a))
  {
    if |a| > 0 && |b| > 0 && a[0] == b[0] {
      StrLessAsymmetric(a[1..], b[1..]);
    }
  }

  lemma {:induction false} StrLessTransitive(a: string, b: string, c: string)
    requires StrLess(a, b) && StrLess(b, c)
    ensures StrLess(a, c)
  {
    if |a| > 0 && a[0] == b[0] && b[0] == c[0] {
      StrLessTransitive(a[1..], b[1..], c[1..]);
    }
  }

  lemma {:induction false} StrLessConnected(a: string, b: string)
    requires a != b
    ensures StrLess(a, b) || StrLess(b, a)
  {
    if |a| > 0 && |b| > 0 && a[0] == b[0] {
      assert a == [a[0]] + a[1..] && b == [b[0]] + b[1..];
      StrLessConnected(a[1..], b[1..]);
    }
  }

  /** `!(a < b)` is `a >= b`: equal, or greater. */
  lemma StrNotLess(a: string, b: string)
    ensures !StrLess(a, b) <==> (a == b || StrLess(b, a))
  {
    if a == b {
      StrLessIrreflexive(a);
    } else {
      StrLessConnected(a, b);
      StrLessAsymmetric(a, b);
    }
  }

  /** `s.split(sep)` for a one-character separator. */
  function Split(s: string, sep: char): (parts: seq<string>)
    ensures |parts| >= 1
    ensures forall k | 0 <= k < |parts| :: sep !in parts[k]
  {
    if s == [] then [[]]
    else
      var rest := Split(s[1..], sep);
      if s[0] == sep then [[]] + rest
      else [[s[0]] + rest[0]] + rest[1..]
  }

  /** `parts.join(sep)`. */
  function Join(parts: seq<string>, sep: char): string
    requires |parts| >= 1
  {
    if |parts| == 1 then parts[0] else parts[0] + [sep] + Join(parts[1..], sep)
  }

  /** Splitting loses nothing: joining the parts back gives the original string. */
  lemma {:induction false} JoinSplit(s: string, sep: char)
    ensures Join(Split(s, sep), sep) == s
  {
    if s != [] {
      var rest := Split(s[1..], sep);
      JoinSplit(s[1..], sep);
      if s[0] == sep {
        assert Split(s, sep)[1..] == rest;
      } else {
        var parts := Split(s, sep);
        if |rest| == 1 {
          assert parts == [[s[0]] + rest[0]];
        } else {
          assert parts[1..] == rest[1..];
          assert Join(rest, sep) == rest[0] + [sep] + Join(rest[1..], sep);
        }
      }
    }
  }

  /** The parts of a string that starts with a separator-free piece: that piece, then the
      parts of the rest. */
  lemma {:induction false} SplitAfterPiece(a: string, sep: char, b: string)
    requires sep !in a
    ensures Split(a + [sep] + b, sep) == [a] + Split(b, sep)
  {
    if a == [] {
      assert a + [sep] + b == [sep] + b;
      assert ([sep] + b)[1..] == b;
    } else {
      assert (a + [sep] + b)[1..] == a[1..] + [sep] + b;
      SplitAfterPiece(a[1..], sep, b);
      assert [a[0]] + a[1..] == a;
    }
  }

  lemma {:induction false} SplitWithoutSeparator(s: string, sep: char)
    requires sep !in s
    ensures Split(s, sep) == [s]
  {
    if s != [] {
      SplitWithoutSeparator(s[1..], sep);
      assert [s[0]] + s[1..] == s;
    }
  }
}
