/**
 * `String.prototype.replace` with a global regular expression: a
 * left-to-right scan that tries the expression at each index, emits the
 * replacement for a match and continues after it, and copies the character
 * otherwise. The scan is generic in the matcher, as `replace` is in its
 * regular expression; every match of the six patterns is a non-empty
 * prefix of the text it is tried on, so the scan never meets an empty match.
 */
module Scan {
  import opened Wrappers
  import opened Patterns

  /** A regular expression tried at the start of the remaining text. */
  type Matcher = string -> Option<Match>

  /** Each match the matcher reports is a non-empty prefix of the text. */
  ghost predicate Advances(exec: Matcher) {
    forall t :: exec(t).Some? ==> Consumes(exec(t).value, t)
  }

  /** One of the six patterns as a matcher. */
  function MatcherOf(p: Pattern): (exec: Matcher)
    ensures Advances(exec)
    ensures forall t :: exec(t) == Exec(p, t)
  {
    t => Exec(p, t)
  }

  /** The text `s.replace(exec, emit)` produces, where `emit` gives the replacement of one match. */
  function Replace(exec: Matcher, s: string, emit: Match -> string): string
    requires Advances(exec)
    decreases |s|
  {
    if s == [] then []
    else match exec(s)
      case Some(m) => emit(m) + Replace(exec, s[Length(m)..], emit)
      case None => [s[0]] + Replace(exec, s[1..], emit)
  }

  /** The scan, as the loop that runs it. */
  method ReplaceAll(exec: Matcher, s: string, emit: Match -> string) returns (r: string)
    requires Advances(exec)
    ensures r == Replace(exec, s, emit)
  {
    r := [];
    var i := 0;
    while i < |s|
      invariant 0 <= i <= |s|
      invariant r + Replace(exec, s[i..], emit) == Replace(exec, s, emit)
      decreases |s| - i
    {
      var e := exec(s[i..]);
      var n := if e.Some? then Length(e.value) else 1;
      ReplaceStep(exec, s, i, emit);
      if e.Some? {
        AppendAssoc(r, emit(e.value), Replace(exec, s[i + n..], emit));
        r := r + emit(e.value);
      } else {
        AppendAssoc(r, [s[i]], Replace(exec, s[i + n..], emit));
        r := r + [s[i]];
      }
      i := i + n;
    }
  }

  /** One step of the scan at index `i`: a match is replaced and skipped, otherwise one character is copied. */
  lemma ReplaceStep(exec: Matcher, s: string, i: nat, emit: Match -> string)
    requires Advances(exec) && i < |s|
    ensures exec(s[i..]).Some? ==>
      (var n := Length(exec(s[i..]).value);
       0 < n && i + n <= |s| && Replace(exec, s[i..], emit) == emit(exec(s[i..]).value) + Replace(exec, s[i + n..], emit))
    ensures exec(s[i..]).None? ==> Replace(exec, s[i..], emit) == [s[i]] + Replace(exec, s[i + 1..], emit)
  {
    var t := s[i..];
    match exec(t)
    case Some(m) =>
      assert t[Length(m)..] == s[i + Length(m)..];
    case None =>
      assert t[1..] == s[i + 1..];
  }

  lemma AppendAssoc(a: string, b: string, c: string)
    ensures a + b + c == a + (b + c)
  {
  }

  /** No index of `x` starts a match in `x + y`. */
  ghost predicate NoMatchIn(exec: Matcher, x: string, y: string) {
    forall k :: 0 <= k < |x| ==> exec((x + y)[k..]).None?
  }

  /** Text in which no match starts is copied through unchanged. */
  lemma {:induction false} CopyUnmatched(exec: Matcher, x: string, y: string, emit: Match -> string)
    requires Advances(exec) && NoMatchIn(exec, x, y)
    ensures Replace(exec, x + y, emit) == x + Replace(exec, y, emit)
  {
    if x != [] {
      assert (x + y)[0..] == x + y;
      assert (x + y)[1..] == x[1..] + y;
      forall k | 0 <= k < |x[1..]|
        ensures exec((x[1..] + y)[k..]).None?
      {
        assert (x[1..] + y)[k..] == (x + y)[k + 1..];
      }
      CopyUnmatched(exec, x[1..], y, emit);
    }
  }

  /** A document in which no match starts comes back unchanged. */
  lemma Untouched(exec: Matcher, s: string, emit: Match -> string)
    requires Advances(exec) && NoMatchIn(exec, s, [])
    ensures Replace(exec, s, emit) == s
  {
    CopyUnmatched(exec, s, [], emit);
    assert s + [] == s;
  }

  /** A match of exactly `x` at the start is replaced and the scan goes on after it. */
  lemma TakeMatch(exec: Matcher, x: string, y: string, emit: Match -> string)
    requires Advances(exec)
    requires exec(x + y).Some? && Group(exec(x + y).value, 0) == x
    ensures Replace(exec, x + y, emit) == emit(exec(x + y).value) + Replace(exec, y, emit)
  {
    assert (x + y)[|x|..] == y;
  }

  // ---------------------------------------------------------------------
  // Where no match can start
  // ---------------------------------------------------------------------

  /** Two names each followed by the separator at the same index are the same name. */
  lemma SameKey(m: string, n: string, c: char, z: string)
    requires c !in m && c !in n
    requires m + [c] <= n + [c] + z
    ensures m == n
  {
    if |m| < |n| {
      SepInside(m, n, c, z);
    } else if |n| < |m| {
      SepInside(n, m, c, z);
    } else {
      assert (n + [c] + z)[..|n|] == n;
    }
  }

  /** When two words are each followed by `c` at the same index, the longer one holds `c`. */
  lemma SepInside(m: string, n: string, c: char, z: string)
    requires |m| < |n|
    requires m + [c] <= n + [c] + z || n + [c] <= m + [c] + z
    ensures c in n
  {
    if m + [c] <= n + [c] + z {
      assert n[|m|] == (n + [c] + z)[|m|];
    } else {
      assert n[|m|] == (m + [c] + z)[|m|];
    }
  }

  /** Text that opens with a character no name contains starts no match. */
  lemma NonKeyStart(p: Pattern, t: string)
    requires t != [] && !KeyChar(t[0])
    ensures Exec(p, t).None?
  {
    if Exec(p, t).Some? {
      ExecNeedsKey(p, t);
      var m :| m in Names(p) && m + [Sep(p)] <= t;
      NamesShape(p);
      assert false;
    }
  }

  /** A word that is not one of the pattern's names, followed by the separator, starts no match. */
  lemma NameNoMatch(p: Pattern, n: string, z: string)
    requires Sep(p) !in n
    requires n !in Names(p)
    ensures Exec(p, n + [Sep(p)] + z).None?
  {
    var t := n + [Sep(p)] + z;
    if Exec(p, t).Some? {
      ExecNeedsKey(p, t);
      var m :| m in Names(p) && m + [Sep(p)] <= t;
      NamesShape(p);
      assert Sep(p) !in m;
      SameKey(m, n, Sep(p), z);
      assert false;
    }
  }

  /**
   * No match starts in text without the separator that ends in a character
   * no name contains: a name that starts there would need the separator
   * inside the text or would run over its last character.
   */
  lemma PlainNoMatch(p: Pattern, x: string, y: string)
    requires Sep(p) !in x
    requires x == [] || !KeyChar(x[|x| - 1])
    ensures NoMatchIn(MatcherOf(p), x, y)
  {
    forall k | 0 <= k < |x|
      ensures MatcherOf(p)((x + y)[k..]).None?
    {
      PlainAt(p, x, y, k);
    }
  }

  lemma PlainAt(p: Pattern, x: string, y: string, k: nat)
    requires Sep(p) !in x
    requires k < |x| && !KeyChar(x[|x| - 1])
    ensures MatcherOf(p)((x + y)[k..]).None?
  {
    var t := (x + y)[k..];
    if Exec(p, t).Some? {
      ExecNeedsKey(p, t);
      var n :| n in Names(p) && n + [Sep(p)] <= t;
      NamesShape(p);
      KeyReachesEnd(n, Sep(p), x, y, k);
      assert false;
    }
  }

  /** A name followed by a separator that `x` lacks, starting inside `x`, covers the last character of `x`. */
  lemma KeyReachesEnd(n: string, c: char, x: string, y: string, k: nat)
    requires c !in x && k < |x|
    requires n + [c] <= (x + y)[k..]
    ensures k + |n| >= |x| && n[|x| - 1 - k] == x[|x| - 1]
  {
    if k + |n| < |x| {
      SepInText(n, c, x, y, k);
    } else {
      assert n[|x| - 1 - k] == (x + y)[k..][|x| - 1 - k];
    }
  }

  lemma SepInText(n: string, c: char, x: string, y: string, k: nat)
    requires k + |n| < |x|
    requires n + [c] <= (x + y)[k..]
    ensures c in x
  {
    assert x[k + |n|] == (x + y)[k..][|n|];
  }

  /**
   * No match starts inside a word whose tails, from each index of `w`
   * on, are not names: the only name that could start there is the whole
   * tail up to the separator.
   */
  lemma InnerKeys(p: Pattern, w: string, v: string, z: string)
    requires Sep(p) !in w + v
    requires forall k :: 0 <= k < |w| ==> (w + v)[k..] !in Names(p)
    ensures NoMatchIn(MatcherOf(p), w, v + [Sep(p)] + z)
  {
    forall k | 0 <= k < |w|
      ensures MatcherOf(p)((w + (v + [Sep(p)] + z))[k..]).None?
    {
      var n := (w + v)[k..];
      assert Sep(p) !in n by {
        forall c | c in n ensures c != Sep(p) { assert c in w + v; }
      }
      assert (w + (v + [Sep(p)] + z))[k..] == n + [Sep(p)] + z;
      NameNoMatch(p, n, z);
    }
  }

  /**
   * A word and its separator where the pattern fails at the word's start
   * and no tail of the word is a name: no match starts anywhere in them.
   */
  lemma MissedKey(p: Pattern, u: string, z: string)
    requires u != [] && Sep(p) !in u
    requires forall k :: 0 < k < |u| ==> u[k..] !in Names(p)
    requires Exec(p, u + [Sep(p)] + z).None?
    ensures NoMatchIn(MatcherOf(p), u + [Sep(p)], z)
  {
    var t := u + [Sep(p)] + z;
    forall k | 0 <= k < |u| + 1
      ensures MatcherOf(p)((u + [Sep(p)] + z)[k..]).None?
    {
      if k == 0 {
        assert t[k..] == t;
      } else if k < |u| {
        assert Sep(p) !in u[k..] by {
          forall c | c in u[k..] ensures c != Sep(p) { assert c in u; }
        }
        assert t[k..] == u[k..] + [Sep(p)] + z;
        NameNoMatch(p, u[k..], z);
      } else {
        NamesShape(p);
        NonKeyStart(p, t[k..]);
      }
    }
  }

  /** Text without the pattern's separator holds no match at all. */
  lemma NoSepNoMatch(p: Pattern, s: string)
    requires Sep(p) !in s
    ensures NoMatchIn(MatcherOf(p), s, [])
  {
    forall k | 0 <= k < |s|
      ensures MatcherOf(p)((s + [])[k..]).None?
    {
      assert s + [] == s;
      if Exec(p, s[k..]).Some? {
        ExecNeedsKey(p, s[k..]);
        var n :| n in Names(p) && n + [Sep(p)] <= s[k..];
        assert (s + [])[k..] == s[k..];
        SepInText(n, Sep(p), s, [], k);
        assert false;
      }
    }
  }

  /** `t` starts with one of the pattern's names followed by its separator. */
  ghost predicate KeyAt(p: Pattern, t: string) {
    exists n :: n in Names(p) && n + [Sep(p)] <= t
  }

  /** Nowhere in `s` does one of the pattern's names stand before its separator. */
  ghost predicate NoKey(p: Pattern, s: string) {
    forall i :: 0 <= i < |s| ==> !KeyAt(p, s[i..])
  }

  /** Text in which no name stands before its separator holds no match. */
  lemma NoKeyNoMatch(p: Pattern, s: string)
    requires NoKey(p, s)
    ensures NoMatchIn(MatcherOf(p), s, [])
  {
    assert s + [] == s;
    forall k | 0 <= k < |s|
      ensures MatcherOf(p)((s + [])[k..]).None?
    {
      if Exec(p, s[k..]).Some? {
        ExecNeedsKey(p, s[k..]);
        assert KeyAt(p, s[k..]);
        assert false;
      }
    }
  }

  /** Text without the pattern's separator holds none of its names before it. */
  lemma NoSepNoKey(p: Pattern, s: string)
    requires Sep(p) !in s
    ensures NoKey(p, s)
  {
    forall i | 0 <= i < |s|
      ensures !KeyAt(p, s[i..])
    {
      if KeyAt(p, s[i..]) {
        var n :| n in Names(p) && n + [Sep(p)] <= s[i..];
        PrefixChar(n + [Sep(p)], s[i..], |n|);
        assert false;
      }
    }
  }

  /**
   * Text whose one separator follows a word none of whose tails is a name,
   * with a character no name contains before the word: no name stands
   * before the separator.
   */
  lemma NoKeyWord(p: Pattern, a: string, u: string, b: string)
    requires a != [] && !KeyChar(a[|a| - 1]) && Sep(p) !in a
    requires Sep(p) !in u && forall k :: 0 <= k < |u| ==> u[k..] !in Names(p)
    requires Sep(p) !in b
    ensures NoKey(p, a + u + [Sep(p)] + b)
  {
    forall i | 0 <= i < |a + u + [Sep(p)] + b|
      ensures !KeyAt(p, (a + u + [Sep(p)] + b)[i..])
    {
      NoKeyWordAt(p, a, u, b, i);
    }
  }

  lemma NoKeyWordAt(p: Pattern, a: string, u: string, b: string, i: nat)
    requires a != [] && !KeyChar(a[|a| - 1]) && Sep(p) !in a
    requires Sep(p) !in u && forall k :: 0 <= k < |u| ==> u[k..] !in Names(p)
    requires Sep(p) !in b
    requires i < |a + u + [Sep(p)] + b|
    ensures !KeyAt(p, (a + u + [Sep(p)] + b)[i..])
  {
    var x := a + u;
    assert Sep(p) !in x;
    assert a + u + [Sep(p)] + b == x + [Sep(p)] + b;
    if KeyAt(p, (x + [Sep(p)] + b)[i..]) {
      var n :| n in Names(p) && n + [Sep(p)] <= (x + [Sep(p)] + b)[i..];
      NamesShape(p);
      OnlySep(n, Sep(p), x, b, i);
      UnlistedTail(p, a, u, i);
      assert false;
    }
  }

  /** No tail of a word that follows a character no name contains is a name. */
  lemma UnlistedTail(p: Pattern, a: string, u: string, i: nat)
    requires a != [] && !KeyChar(a[|a| - 1])
    requires forall k :: 0 <= k < |u| ==> u[k..] !in Names(p)
    requires i <= |a + u|
    ensures (a + u)[i..] !in Names(p)
  {
    if i < |a| {
      assert (a + u)[i..][|a| - 1 - i] == a[|a| - 1];
      assert !AllKeyChars((a + u)[i..]);
      NamesShape(p);
    } else if i < |a + u| {
      assert (a + u)[i..] == u[i - |a|..];
    } else {
      NamesShape(p);
    }
  }

  /** A word of name characters followed by `c` in text whose only `c` follows `x` ends where `x` does. */
  lemma OnlySep(n: string, c: char, x: string, b: string, i: nat)
    requires AllKeyChars(n) && !KeyChar(c)
    requires c !in x && c !in b
    requires i <= |x + [c] + b| && n + [c] <= (x + [c] + b)[i..]
    ensures i + |n| == |x| && n == x[i..]
  {
    var t := x + [c] + b;
    PrefixChar(n + [c], t[i..], |n|);
    if i + |n| == |x| {
      assert n == t[i..i + |n|] == x[i..];
    }
  }

  /**
   * Text in which no name stands before its separator, followed by a
   * character that is neither a name character nor the separator: no match
   * starts in the text, whatever comes after it.
   */
  lemma KeyFreeBefore(p: Pattern, x: string, y: string)
    requires NoKey(p, x)
    requires y != [] && !KeyChar(y[0]) && y[0] != Sep(p)
    ensures NoMatchIn(MatcherOf(p), x, y)
  {
    forall k | 0 <= k < |x|
      ensures MatcherOf(p)((x + y)[k..]).None?
    {
      KeyFreeAt(p, x, y, k);
    }
  }

  lemma KeyFreeAt(p: Pattern, x: string, y: string, k: nat)
    requires NoKey(p, x)
    requires y != [] && !KeyChar(y[0]) && y[0] != Sep(p)
    requires k < |x|
    ensures Exec(p, (x + y)[k..]).None?
  {
    if Exec(p, (x + y)[k..]).Some? {
      ExecNeedsKey(p, (x + y)[k..]);
      KeyAcross(p, x, y, k);
      assert false;
    }
  }

  /** No name followed by its separator starts inside `x` and runs past it. */
  lemma KeyAcross(p: Pattern, x: string, y: string, k: nat)
    requires NoKey(p, x)
    requires y != [] && !KeyChar(y[0]) && y[0] != Sep(p)
    requires k < |x|
    ensures !KeyAt(p, (x + y)[k..])
  {
    if KeyAt(p, (x + y)[k..]) {
      var n :| n in Names(p) && n + [Sep(p)] <= (x + y)[k..];
      NamesShape(p);
      KeyStaysInside(n, Sep(p), x, y, k);
      assert KeyAt(p, x[k..]);
      assert false;
    }
  }

  /**
   * A word of name characters followed by `c`, starting inside `x`, ends
   * inside `x` when the text after `x` opens with neither `c` nor a name
   * character.
   */
  lemma KeyStaysInside(n: string, c: char, x: string, y: string, k: nat)
    requires AllKeyChars(n) && !KeyChar(c)
    requires y != [] && !KeyChar(y[0]) && y[0] != c
    requires k < |x| && n + [c] <= (x + y)[k..]
    ensures n + [c] <= x[k..]
  {
    if |n| < |x| - k {
      PrefixInside(n + [c], x, y, k);
    } else {
      PrefixChar(n + [c], (x + y)[k..], |x| - k);
      assert false;
    }
  }

  lemma PrefixChar(a: string, t: string, i: nat)
    requires a <= t && i < |a|
    ensures a[i] == t[i]
  {
  }

  /** A prefix of the text from `k` on that ends before `x` does is a prefix of `x` from `k` on. */
  lemma PrefixInside(a: string, x: string, y: string, k: nat)
    requires k + |a| <= |x|
    requires a <= (x + y)[k..]
    ensures a <= x[k..]
  {
    assert a == (x + y)[k..k + |a|] == x[k..k + |a|];
  }

  /**
   * Text that ends in a character no name contains and in which no name
   * stands before its separator starts no match, whatever comes after it:
   * a name starting inside it either ends inside it or covers its last
   * character.
   */
  lemma KeyFreeEnd(p: Pattern, x: string, y: string)
    requires NoKey(p, x) && x != [] && !KeyChar(x[|x| - 1])
    ensures NoMatchIn(MatcherOf(p), x, y)
  {
    forall k | 0 <= k < |x|
      ensures MatcherOf(p)((x + y)[k..]).None?
    {
      KeyFreeEndAt(p, x, y, k);
    }
  }

  lemma KeyFreeEndAt(p: Pattern, x: string, y: string, k: nat)
    requires NoKey(p, x) && x != [] && !KeyChar(x[|x| - 1])
    requires k < |x|
    ensures Exec(p, (x + y)[k..]).None?
  {
    if Exec(p, (x + y)[k..]).Some? {
      ExecNeedsKey(p, (x + y)[k..]);
      KeyEndsInside(p, x, y, k);
      assert false;
    }
  }

  /** No name followed by its separator starts inside `x` and runs past its last character. */
  lemma KeyEndsInside(p: Pattern, x: string, y: string, k: nat)
    requires NoKey(p, x) && x != [] && !KeyChar(x[|x| - 1])
    requires k < |x|
    ensures !KeyAt(p, (x + y)[k..])
  {
    if KeyAt(p, (x + y)[k..]) {
      var n :| n in Names(p) && n + [Sep(p)] <= (x + y)[k..];
      NamesShape(p);
      KeyCoversEnd(n, Sep(p), x, y, k);
      PrefixInside(n + [Sep(p)], x, y, k);
      assert KeyAt(p, x[k..]);
      assert false;
    }
  }

  /** A word of name characters followed by `c`, starting inside `x`, ends before the last character of `x` when that one is no name character. */
  lemma KeyCoversEnd(n: string, c: char, x: string, y: string, k: nat)
    requires AllKeyChars(n) && x != [] && !KeyChar(x[|x| - 1])
    requires k < |x| && n + [c] <= (x + y)[k..]
    ensures k + |n| < |x|
  {
    if k + |n| >= |x| {
      PrefixChar(n + [c], (x + y)[k..], |x| - 1 - k);
    }
  }

  /** Such text is copied, and the scan goes on after it. */
  lemma CopyKeyFree(p: Pattern, x: string, z: string, emit: Match -> string)
    requires NoKey(p, x) && x != [] && !KeyChar(x[|x| - 1])
    ensures Replace(MatcherOf(p), x + z, emit) == x + Replace(MatcherOf(p), z, emit)
  {
    KeyFreeEnd(p, x, z);
    CopyUnmatched(MatcherOf(p), x, z, emit);
  }

  /**
   * Two texts without a name before its separator, joined where no name
   * can cross (after a character no name contains, or before one that is
   * neither a name character nor the separator), hold none either.
   */
  lemma NoKeyJoin(p: Pattern, a: string, b: string)
    requires NoKey(p, a) && NoKey(p, b)
    requires (a != [] && !KeyChar(a[|a| - 1])) || (b != [] && !KeyChar(b[0]) && b[0] != Sep(p))
    ensures NoKey(p, a + b)
  {
    forall i | 0 <= i < |a + b|
      ensures !KeyAt(p, (a + b)[i..])
    {
      if i < |a| {
        if a != [] && !KeyChar(a[|a| - 1]) {
          KeyEndsInside(p, a, b, i);
        } else {
          KeyAcross(p, a, b, i);
        }
      } else {
        assert (a + b)[i..] == b[i - |a|..];
      }
    }
  }

  /**
   * A word, its separator and the text after it, where no tail of the word
   * is one of the pattern's names: nothing in the word and separator is
   * replaced.
   */
  lemma UnlistedWord(p: Pattern, u: string, z: string, emit: Match -> string)
    requires u != [] && Sep(p) !in u
    requires forall k :: 0 <= k < |u| ==> u[k..] !in Names(p)
    ensures Replace(MatcherOf(p), u + [Sep(p)] + z, emit) == u + [Sep(p)] + Replace(MatcherOf(p), z, emit)
  {
    assert u[0..] == u;
    NameNoMatch(p, u, z);
    MissedKey(p, u, z);
    CopyUnmatched(MatcherOf(p), u + [Sep(p)], z, emit);
  }

  /**
   * Text without the separator that ends in a character no name contains
   * is copied, and the scan goes on after it.
   */
  lemma CopyPlain(p: Pattern, x: string, z: string, emit: Match -> string)
    requires Sep(p) !in x
    requires x != [] && !KeyChar(x[|x| - 1])
    ensures Replace(MatcherOf(p), x + z, emit) == x + Replace(MatcherOf(p), z, emit)
  {
    PlainNoMatch(p, x, z);
    CopyUnmatched(MatcherOf(p), x, z, emit);
  }

  /** A word shorter than every name of the pattern, and its separator, are copied. */
  lemma ShortWord(p: Pattern, u: string, z: string, emit: Match -> string)
    requires u != [] && Sep(p) !in u
    requires forall n :: n in Names(p) ==> |u| < |n|
    ensures Replace(MatcherOf(p), u + [Sep(p)] + z, emit) == u + [Sep(p)] + Replace(MatcherOf(p), z, emit)
  {
    forall k | 0 <= k < |u|
      ensures u[k..] !in Names(p)
    {
      assert |u[k..]| <= |u|;
    }
    UnlistedWord(p, u, z, emit);
  }
}
