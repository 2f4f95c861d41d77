/**
 * Character classes and string helpers used by the rewrite engine: the
 * classes its regular expressions name, `String.prototype.trim`, and
 * `String.prototype.split` on a single character with its inverse `join`.
 */
module Text {

  /** `["']`: the quote that opens an attribute value. */
  predicate IsQuote(c: char) {
    c == '"' || c == '\''
  }

  /** `[a-zA-Z0-9._-]`: the characters of a url token captured in function mode. */
  predicate IsTokenChar(c: char) {
    ('a' <= c <= 'z') || ('A' <= c <= 'Z') || ('0' <= c <= '9') || c == '.' || c == '_' || c == '-'
  }

  /** The characters that `.` does not match in a JavaScript regular expression without the `s` flag. */
  predicate IsLineTerminator(c: char) {
    c == '\n' || c == '\r' || c == '\U{2028}' || c == '\U{2029}'
  }

  /**
   * The characters `trim` removes: ECMAScript WhiteSpace (tab, vertical tab,
   * form feed, space, no-break space, byte order mark and the Unicode space
   * separators) and LineTerminator.
   */
  predicate IsTrimmable(c: char) {
    || c == '\t' || c == '\U{000B}' || c == '\U{000C}' || c == ' ' || c == '\U{00A0}' || c == '\U{FEFF}'
    || c == '\U{1680}' || ('\U{2000}' <= c <= '\U{200A}') || c == '\U{202F}' || c == '\U{205F}' || c == '\U{3000}'
    || IsLineTerminator(c)
  }

  /** `n` dots. */
  function Dots(n: nat): (r: string)
    ensures |r| == n && forall i :: 0 <= i < n ==> r[i] == '.'
  {
    seq(n, _ => '.')
  }

  /** Length of the longest run of `.` at the start of `v` (the greedy `[.]+`). */
  function DotRun(v: string): (n: nat)
    ensures n <= |v|
    ensures forall i :: 0 <= i < n ==> v[i] == '.'
    ensures n < |v| ==> v[n] != '.'
  {
    if v != [] && v[0] == '.' then 1 + DotRun(v[1..]) else 0
  }

  /** Length of the longest run of token characters at the start of `v` (the greedy `[a-zA-Z0-9._-]+`). */
  function TokenRun(v: string): (n: nat)
    ensures n <= |v|
    ensures forall i :: 0 <= i < n ==> IsTokenChar(v[i])
    ensures n < |v| ==> !IsTokenChar(v[n])
  {
    if v != [] && IsTokenChar(v[0]) then 1 + TokenRun(v[1..]) else 0
  }

  /** A run of token characters followed by a non-token character is measured exactly. */
  lemma {:induction false} TokenRunOf(a: string, b: string)
    requires forall c :: c in a ==> IsTokenChar(c)
    requires b == [] || !IsTokenChar(b[0])
    ensures TokenRun(a + b) == |a|
  {
    if a != [] {
      assert IsTokenChar(a[0]) by { assert a[0] in a; }
      assert (a + b)[1..] == a[1..] + b;
      forall c | c in a[1..] ensures IsTokenChar(c) { assert c in a; }
      TokenRunOf(a[1..], b);
    }
  }

  /** `s` without its leading trimmable characters. */
  function TrimStart(s: string): (r: string)
    ensures |r| <= |s| && r == s[|s| - |r|..]
    ensures forall i :: 0 <= i < |s| - |r| ==> IsTrimmable(s[i])
    ensures r != [] ==> !IsTrimmable(r[0])
  {
    if s != [] && IsTrimmable(s[0]) then TrimStart(s[1..]) else s
  }

  /** `s` without its trailing trimmable characters. */
  function TrimEnd(s: string): (r: string)
    ensures |r| <= |s| && r == s[..|r|]
    ensures forall i :: |r| <= i < |s| ==> IsTrimmable(s[i])
    ensures r != [] ==> !IsTrimmable(r[|r| - 1])
  {
    if s != [] && IsTrimmable(s[|s| - 1]) then TrimEnd(s[..|s| - 1]) else s
  }

  /** `String.prototype.trim`. */
  function Trim(s: string): string {
    TrimEnd(TrimStart(s))
  }

  /** No trimmable character at either end. */
  predicate IsTrimmed(s: string) {
    s == [] || (!IsTrimmable(s[0]) && !IsTrimmable(s[|s| - 1]))
  }

  /**
   * `trim` removes exactly the trimmable characters at both ends: its result
   * is a slice of `s`, has no trimmable character at either end, and
   * everything cut off around it is trimmable.
   */
  lemma TrimSpec(s: string)
    ensures IsTrimmed(Trim(s))
    ensures exists a, b :: (0 <= a <= b <= |s| && Trim(s) == s[a..b]
                            && (forall i :: 0 <= i < a ==> IsTrimmable(s[i]))
                            && (forall i :: b <= i < |s| ==> IsTrimmable(s[i])))
  {
    var a, b := TrimCut(s);
    TrimEnds(s);
  }

  /** Where `trim` cuts `s`. */
  lemma TrimCut(s: string) returns (a: nat, b: nat)
    ensures 0 <= a <= b <= |s| && Trim(s) == s[a..b]
    ensures forall i :: 0 <= i < a ==> IsTrimmable(s[i])
    ensures forall i :: b <= i < |s| ==> IsTrimmable(s[i])
  {
    var t := TrimStart(s);
    var r := TrimEnd(t);
    a := |s| - |t|;
    b := a + |r|;
    assert t == s[a..];
    assert r == t[..|r|];
    assert r == s[a..b];
    forall i | b <= i < |s|
      ensures IsTrimmable(s[i])
    {
      assert |r| <= i - a < |t|;
      assert IsTrimmable(t[i - a]);
      assert s[i] == t[i - a];
    }
  }

  lemma TrimEnds(s: string)
    ensures IsTrimmed(Trim(s))
  {
    var t := TrimStart(s);
    var r := TrimEnd(t);
    if r != [] {
      assert r[0] == t[0];
    }
  }

  /** A string with nothing to trim is its own trim, also after one space is put in front of it. */
  lemma TrimmedFixed(s: string)
    requires IsTrimmed(s)
    ensures Trim(s) == s
    ensures Trim([' '] + s) == s
  {
    assert TrimStart(s) == s;
    assert ([' '] + s)[1..] == s;
  }

  /** `s.split(sep)` for a one-character separator: the pieces between the separators, at least one. */
  function Split(s: string, sep: char): (parts: seq<string>)
    ensures |parts| >= 1
    ensures forall i :: 0 <= i < |parts| ==> sep !in parts[i]
  {
    if s == [] then [""]
    else
      var rest := Split(s[1..], sep);
      if s[0] == sep then [""] + rest
      else [[s[0]] + rest[0]] + rest[1..]
  }

  /** `parts.join(sep)`. */
  function Join(parts: seq<string>, sep: string): string {
    if parts == [] then ""
    else if |parts| == 1 then parts[0]
    else parts[0] + sep + Join(parts[1..], sep)
  }

  /** Joining the pieces of a split with the separator gives back the string. */
  lemma {:induction false} JoinSplit(s: string, sep: char)
    ensures Join(Split(s, sep), [sep]) == s
  {
    if s != [] {
      var rest := Split(s[1..], sep);
      JoinSplit(s[1..], sep);
      if s[0] != sep {
        var parts := Split(s, sep);
        assert parts[1..] == rest[1..];
        if |rest| > 1 {
          assert rest == [rest[0]] + rest[1..];
          assert Join(rest, [sep]) == rest[0] + [sep] + Join(rest[1..], [sep]);
        }
      }
    }
  }

  /** Splitting a join of separator-free pieces gives back the pieces. */
  lemma {:induction false} SplitJoin(parts: seq<string>, sep: char)
    requires |parts| >= 1
    requires forall i :: 0 <= i < |parts| ==> sep !in parts[i]
    ensures Split(Join(parts, [sep]), sep) == parts
  {
    if |parts| == 1 {
      SplitNoSep(parts[0], sep);
    } else {
      var tail := Join(parts[1..], [sep]);
      SplitJoin(parts[1..], sep);
      SplitBefore(parts[0], tail, sep);
    }
  }

  /** A string without the separator splits into itself. */
  lemma {:induction false} SplitNoSep(s: string, sep: char)
    requires sep !in s
    ensures Split(s, sep) == [s]
  {
    if s != [] {
      assert s[0] in s;
      assert sep !in s[1..] by { forall c | c in s[1..] ensures c != sep { assert c in s; } }
      SplitNoSep(s[1..], sep);
      assert [s[0]] + s[1..] == s;
    }
  }

  /** Splitting `a + [sep] + b`, with no separator in `a`, gives `a` and then the pieces of `b`. */
  lemma {:induction false} SplitBefore(a: string, b: string, sep: char)
    requires sep !in a
    ensures Split(a + [sep] + b, sep) == [a] + Split(b, sep)
  {
    if a == [] {
      assert a + [sep] + b == [sep] + b;
      assert ([sep] + b)[1..] == b;
    } else {
      assert sep !in a[1..] by { forall c | c in a[1..] ensures c != sep { assert c in a; } }
      assert (a + [sep] + b)[1..] == a[1..] + [sep] + b;
      SplitBefore(a[1..], b, sep);
      assert [a[0]] + a[1..] == a;
    }
  }
}
