/**
 * The six regular expressions of the rewrite engine, each written out as a
 * matcher that runs at the start of the remaining text `t` and returns the
 * match with its capture groups, exactly as `RegExp.prototype.exec` would at
 * that index. None of the expressions looks behind or anchors with `^`, so
 * matching on the remaining text is the same as matching at an index.
 */
module Patterns {
  import opened Wrappers
  import opened Text

  /** The attribute names of `replace.rx` and `replace.captureRx`, in alternation order. */
  const PrimaryNames: seq<string> :=
    ["href", "src", "codebase", "cite", "background", "action", "profile", "formaction", "icon", "manifest", "archive"]

  /** The attribute names of `replace.extra`. */
  const ExtraNames: seq<string> := ["poster", "longdesc", "usemap"]

  /** The property names of `replace.backgrounds`. */
  const StyleProperties: seq<string> := ["background", "background-image"]

  /**
   * A successful match. `groups[0]` is the whole matched text and
   * `groups[n]` is capture group `n`; a group that did not take part is "",
   * which is also what `$n` expands to for it.
   */
  datatype Match = Match(groups: seq<string>)

  function Group(m: Match, n: nat): string {
    if n < |m.groups| then m.groups[n] else ""
  }

  /** Length of the matched text. */
  function Length(m: Match): nat {
    |Group(m, 0)|
  }

  /** The match is a non-empty prefix of `t`. */
  predicate Consumes(m: Match, t: string) {
    0 < Length(m) <= |t| && Group(m, 0) <= t
  }

  predicate SlashAt(v: string, i: nat) {
    i < |v| && v[i] == '/'
  }

  // ---------------------------------------------------------------------
  // The relative-url lead `(([.]+\/)|(?:\/)|(?=#))(?!\/)`
  // ---------------------------------------------------------------------

  /** Which alternative of the lead matched: a dot-run and a slash, a single slash, or the `#` lookahead. */
  datatype Lead = DotsSlash(dots: nat) | Slash | Anchor

  /** The text the lead consumes; the `(?=#)` alternative consumes nothing. */
  function LeadText(l: Lead): string {
    match l
    case DotsSlash(n) => Dots(n) + "/"
    case Slash => "/"
    case Anchor => ""
  }

  /** The `([.]+\/)` group: the consumed dot-run and slash, or "" when another alternative matched. */
  function DotGroup(l: Lead): string {
    if l.DotsSlash? then LeadText(l) else ""
  }

  /**
   * The lead at the start of an attribute or `url(` value. The alternatives
   * are tried in order; `[.]+` is greedy and giving dots back never helps,
   * because a shorter run is followed by a dot and not by `/`.
   */
  function RelativeLead(v: string): (r: Option<Lead>)
    ensures r.Some? ==> LeadText(r.value) <= v
  {
    var d := DotRun(v);
    if 0 < d && SlashAt(v, d) && !SlashAt(v, d + 1) then
      assert v[..d] == Dots(d);
      assert v[..d + 1] == Dots(d) + "/";
      Some(DotsSlash(d))
    else if SlashAt(v, 0) && !SlashAt(v, 1) then Some(Slash)
    else if 0 < |v| && v[0] == '#' then Some(Anchor)
    else None
  }

  /** Declarative reading of the lead: what must stand at the start of the value for each alternative. */
  predicate IsRelativeLead(v: string, l: Lead) {
    match l
    case DotsSlash(n) => 0 < n && Dots(n) + "/" <= v && !(Dots(n) + "//" <= v)
    case Slash => "/" <= v && !("//" <= v)
    case Anchor => "#" <= v
  }

  /** The matcher finds exactly the leads of the declarative reading. */
  lemma RelativeLeadSpec(v: string, l: Lead)
    ensures RelativeLead(v) == Some(l) <==> IsRelativeLead(v, l)
  {
    var d := DotRun(v);
    match l
    case DotsSlash(n) =>
      if IsRelativeLead(v, l) {
        assert (Dots(n) + "/")[n] == '/';
        assert forall i :: 0 <= i < n ==> v[i] == (Dots(n) + "/")[i];
        assert d == n;
      }
    case Slash =>
      if IsRelativeLead(v, l) {
        assert v[0] == "/"[0];
      }
    case Anchor =>
      if IsRelativeLead(v, l) {
        assert v[0] == "#"[0];
      }
      if RelativeLead(v) == Some(l) {
        assert v[..1] == "#";
      }
  }

  /**
   * A lead recognised with at least one character after it is recognised
   * whatever follows: the matcher looks no further than the character
   * after the lead.
   */
  lemma LeadExtends(l: Lead, x: string, y: string)
    requires x != [] && RelativeLead(LeadText(l) + x) == Some(l)
    ensures RelativeLead(LeadText(l) + x + y) == Some(l)
  {
    var v := LeadText(l) + x;
    RelativeLeadSpec(v, l);
    RelativeLeadSpec(v + y, l);
    match l
    case DotsSlash(n) =>
      PrefixGrows(Dots(n) + "/", v, y);
      PrefixStays(Dots(n) + "//", v, y);
    case Slash =>
      PrefixGrows("/", v, y);
      PrefixStays("//", v, y);
    case Anchor =>
      PrefixGrows("#", v, y);
  }

  lemma PrefixGrows(a: string, v: string, y: string)
    requires a <= v
    ensures a <= v + y
  {
    assert (v + y)[..|a|] == v[..|a|];
  }

  lemma PrefixStays(a: string, v: string, y: string)
    requires |a| <= |v| && !(a <= v)
    ensures !(a <= v + y)
  {
    assert (v + y)[..|a|] == v[..|a|];
  }

  /**
   * The values no lead accepts: empty, starting with anything but `.`, `/`
   * or `#` (a scheme such as `http:`, a host such as `www.foo.com`),
   * starting with `//`, or a dot-run that is not followed by exactly one `/`.
   */
  lemma NotRelativeSpec(v: string)
    ensures RelativeLead(v).None? <==>
      || v == []
      || (v[0] != '.' && v[0] != '/' && v[0] != '#')
      || (SlashAt(v, 0) && SlashAt(v, 1))
      || (v[0] == '.' && (!SlashAt(v, DotRun(v)) || SlashAt(v, DotRun(v) + 1)))
  {
  }

  // ---------------------------------------------------------------------
  // The captured url `(([.]+\/)|(?:\/)|(?:#))(?!\/)[a-zA-Z0-9._-]+`
  // ---------------------------------------------------------------------

  /** The text the lead consumes in the capture pattern, where `#` is consumed. */
  function CaptureLeadText(l: Lead): string {
    match l
    case DotsSlash(n) => Dots(n) + "/"
    case Slash => "/"
    case Anchor => "#"
  }

  /**
   * The captured url at the start of a value: its lead and its whole length.
   * The lead alternatives are tried in order and each needs at least one
   * token character after it; the greedy token run ends the expression, so
   * it is never given back.
   */
  function CapturedUrl(v: string): (r: Option<(Lead, nat)>)
    ensures r.Some? ==> |CaptureLeadText(r.value.0)| < r.value.1 <= |v|
  {
    var d := DotRun(v);
    if 0 < d && SlashAt(v, d) && !SlashAt(v, d + 1) && TokenRun(v[d + 1..]) > 0 then
      Some((DotsSlash(d), d + 1 + TokenRun(v[d + 1..])))
    else if SlashAt(v, 0) && !SlashAt(v, 1) && TokenRun(v[1..]) > 0 then
      Some((Slash, 1 + TokenRun(v[1..])))
    else if 0 < |v| && v[0] == '#' && !SlashAt(v, 1) && TokenRun(v[1..]) > 0 then
      Some((Anchor, 1 + TokenRun(v[1..])))
    else None
  }

  /** Declarative reading of the captured url `v[..n]`: a lead, then a maximal non-empty run of token characters. */
  predicate IsCapturedUrl(v: string, l: Lead, n: nat) {
    var lead := CaptureLeadText(l);
    && (l.DotsSlash? ==> 0 < l.dots)
    && lead <= v
    && |lead| < n <= |v|
    && (forall i :: |lead| <= i < n ==> IsTokenChar(v[i]))
    && (n < |v| ==> !IsTokenChar(v[n]))
  }

  /** The capture matcher finds exactly the urls of the declarative reading. */
  lemma CapturedUrlSpec(v: string, l: Lead, n: nat)
    ensures CapturedUrl(v) == Some((l, n)) <==> IsCapturedUrl(v, l, n)
  {
    match l
    case DotsSlash(k) => CapturedDotsSpec(v, k, n);
    case Slash =>
      if IsCapturedUrl(v, l, n) {
        assert v[0] == "/"[0];
        TokenRunWindow(v, 1, n);
      }
      if CapturedUrl(v) == Some((l, n)) {
        assert v[..1] == "/";
      }
    case Anchor =>
      if IsCapturedUrl(v, l, n) {
        assert v[0] == "#"[0];
        TokenRunWindow(v, 1, n);
      }
      if CapturedUrl(v) == Some((l, n)) {
        assert v[..1] == "#";
      }
  }

  lemma CapturedDotsSpec(v: string, k: nat, n: nat)
    ensures CapturedUrl(v) == Some((DotsSlash(k), n)) <==> IsCapturedUrl(v, DotsSlash(k), n)
  {
    if IsCapturedUrl(v, DotsSlash(k), n) {
      CapturedDotsFound(v, k, n);
    }
    if CapturedUrl(v) == Some((DotsSlash(k), n)) {
      CapturedDotsShape(v, k, n);
    }
  }

  /** A dot-run lead followed by a maximal token run is what the capture matcher finds. */
  lemma CapturedDotsFound(v: string, k: nat, n: nat)
    requires IsCapturedUrl(v, DotsSlash(k), n)
    ensures CapturedUrl(v) == Some((DotsSlash(k), n))
  {
    assert (Dots(k) + "/")[k] == '/';
    assert forall i :: 0 <= i < k ==> v[i] == (Dots(k) + "/")[i];
    assert DotRun(v) == k;
    assert SlashAt(v, k) && !SlashAt(v, k + 1);
    TokenRunWindow(v, k + 1, n);
  }

  /** What the capture matcher finds with a dot-run lead has the declarative shape. */
  lemma CapturedDotsShape(v: string, k: nat, n: nat)
    requires CapturedUrl(v) == Some((DotsSlash(k), n))
    ensures IsCapturedUrl(v, DotsSlash(k), n)
  {
    assert DotRun(v) == k && 0 < k && SlashAt(v, k);
    assert v[..k + 1] == Dots(k) + "/";
  }

  /** A maximal token run between `a` and `n` is what `TokenRun` measures from `a`. */
  lemma TokenRunWindow(v: string, a: nat, n: nat)
    requires a < n <= |v|
    requires forall i :: a <= i < n ==> IsTokenChar(v[i])
    requires n < |v| ==> !IsTokenChar(v[n])
    ensures TokenRun(v[a..]) == n - a
  {
    var r := TokenRun(v[a..]);
    assert forall i :: 0 <= i < |v[a..]| ==> v[a..][i] == v[a + i];
  }

  // ---------------------------------------------------------------------
  // Name alternations: `(names)=["']` + value, and `(names):` + declaration
  // ---------------------------------------------------------------------

  /** What follows the name: the attribute value of `rx`/`extra`, of `captureRx`, or a style declaration. */
  datatype Rule = RelativeAttr | CapturedAttr | Declaration

  /** The character that ends the name. */
  function RuleSep(rule: Rule): char {
    if rule == Declaration then ':' else '='
  }

  /** The lazy `.*?` followed by a character of `stops`: the index of that character, or no match when the text ends or a line terminator comes first. */
  function LazyUntil(t: string, i: nat, stops: seq<char>): (r: Option<nat>)
    decreases |t| - i
    ensures r.Some? ==> IsLazyEnd(t, i, r.value, stops)
    ensures r.None? ==> forall j :: !IsLazyEnd(t, i, j, stops)
  {
    if i >= |t| then None
    else if t[i] in stops then Some(i)
    else if IsLineTerminator(t[i]) then None
    else
      assert forall j :: IsLazyEnd(t, i, j, stops) ==> IsLazyEnd(t, i + 1, j, stops);
      LazyUntil(t, i + 1, stops)
  }

  /** `t[j]` is the first stop at or after `i`, and no line terminator comes before it. */
  predicate IsLazyEnd(t: string, i: nat, j: nat, stops: seq<char>) {
    && i <= j < |t|
    && t[j] in stops
    && forall k :: i <= k < j ==> t[k] !in stops && !IsLineTerminator(t[k])
  }

  /**
   * One alternative of the alternation: `name`, its separator, and the rest
   * of the expression. Groups for `rx`/`extra`: prefix, name, lead, dots;
   * for `captureRx`: prefix, name, url, lead, dots; for `backgrounds`:
   * prefix, name, value, `;`.
   */
  function NamedWith(name: string, rule: Rule, t: string): (r: Option<Match>)
    ensures r.Some? ==> Consumes(r.value, t)
  {
    var sep := RuleSep(rule);
    if |t| <= |name| || t[..|name|] != name || t[|name|] != sep then None
    else match rule
      case Declaration =>
        var k := |name| + 1;
        (match LazyUntil(t, k, [';'])
         case Some(j) => Some(Match([t[..j + 1], t[..k], name, t[k..j], [t[j]]]))
         case None => None)
      case RelativeAttr =>
        var k := |name| + 2;
        if |t| < k || !IsQuote(t[k - 1]) then None
        else
          (match RelativeLead(t[k..])
           case Some(l) =>
             var e := k + |LeadText(l)|;
             Some(Match([t[..e], t[..k], name, t[k..e], DotGroup(l)]))
           case None => None)
      case CapturedAttr =>
        var k := |name| + 2;
        if |t| < k || !IsQuote(t[k - 1]) then None
        else
          (match CapturedUrl(t[k..])
           case Some((l, n)) =>
             Some(Match([t[..k + n], t[..k], name, t[k..k + n], CaptureLeadText(l), DotGroup(l)]))
           case None => None)
  }

  /** The alternation `(n1|n2|...)`: the first name, in order, for which the whole expression matches. */
  function FirstNamed(names: seq<string>, rule: Rule, t: string): (r: Option<Match>)
    ensures r.Some? ==> Consumes(r.value, t)
  {
    if names == [] then None
    else match NamedWith(names[0], rule, t)
      case Some(m) => Some(m)
      case None => FirstNamed(names[1..], rule, t)
  }

  /** `replace.urls`: `(url\(["']?)` and the lead; the optional quote is taken first and given back when the lead fails. */
  function ExecUrl(t: string): (r: Option<Match>)
    ensures r.Some? ==> Consumes(r.value, t)
  {
    if |t| < 4 || t[..4] != "url(" then None
    else if |t| > 4 && IsQuote(t[4]) && RelativeLead(t[5..]).Some? then
      var l := RelativeLead(t[5..]).value;
      var e := 5 + |LeadText(l)|;
      Some(Match([t[..e], t[..5], t[5..e], DotGroup(l)]))
    else
      match RelativeLead(t[4..])
      case Some(l) =>
        var e := 4 + |LeadText(l)|;
        Some(Match([t[..e], t[..4], t[4..e], DotGroup(l)]))
      case None => None
  }

  /** `replace.srcset`: `(srcset=["'])(.*?)(["'])`; the value ends at the first quote of either kind. */
  function ExecSrcset(t: string): (r: Option<Match>)
    ensures r.Some? ==> Consumes(r.value, t)
  {
    if |t| < 8 || t[..7] != "srcset=" || !IsQuote(t[7]) then None
    else
      match LazyUntil(t, 8, ['"', '\''])
      case Some(j) => Some(Match([t[..j + 1], t[..8], t[8..j], [t[j]]]))
      case None => None
  }

  // ---------------------------------------------------------------------
  // The patterns
  // ---------------------------------------------------------------------

  /** `replace.rx`, `replace.extra`, `replace.backgrounds`, `replace.urls`, `replace.srcset`, `replace.captureRx`. */
  datatype Pattern = Rx | Extra | Backgrounds | Urls | Srcset | CaptureRx

  /** The pattern tried at the start of `t`. */
  function Exec(p: Pattern, t: string): (r: Option<Match>)
    ensures r.Some? ==> Consumes(r.value, t)
  {
    match p
    case Rx => FirstNamed(PrimaryNames, RelativeAttr, t)
    case Extra => FirstNamed(ExtraNames, RelativeAttr, t)
    case Backgrounds => FirstNamed(StyleProperties, Declaration, t)
    case Urls => ExecUrl(t)
    case Srcset => ExecSrcset(t)
    case CaptureRx => FirstNamed(PrimaryNames, CapturedAttr, t)
  }

  /** The names each pattern opens with. */
  function Names(p: Pattern): seq<string> {
    match p
    case Rx => PrimaryNames
    case Extra => ExtraNames
    case Backgrounds => StyleProperties
    case Urls => ["url"]
    case Srcset => ["srcset"]
    case CaptureRx => PrimaryNames
  }

  /** The character that follows the name. */
  function Sep(p: Pattern): char {
    match p
    case Backgrounds => ':'
    case Urls => '('
    case _ => '='
  }

  /** The characters names are made of. */
  predicate KeyChar(c: char) {
    ('a' <= c <= 'z') || c == '-'
  }

  /** All characters of `n` are name characters. */
  predicate AllKeyChars(n: string) {
    forall i :: 0 <= i < |n| ==> KeyChar(n[i])
  }

  /** Every name of the list is non-empty and made of name characters. */
  predicate NameList(names: seq<string>) {
    forall n :: n in names ==> |n| > 0 && AllKeyChars(n)
  }

  /** Every name is non-empty and made of name characters; no separator is one. */
  lemma NamesShape(p: Pattern)
    ensures NameList(Names(p))
    ensures !KeyChar(Sep(p))
  {
    SepShape(p);
    match p
    case Rx => PrimaryNamesShape();
    case CaptureRx => PrimaryNamesShape();
    case Extra => ExtraNamesShape();
    case Backgrounds => StylePropertiesShape();
    case Urls => UrlShape();
    case Srcset => SrcsetShape();
  }

  lemma SepShape(p: Pattern)
    ensures !KeyChar(Sep(p))
  {
  }

  lemma UrlShape()
    ensures NameList(["url"])
  {
    assert AllKeyChars("url");
  }

  lemma SrcsetShape()
    ensures NameList(["srcset"])
  {
    assert AllKeyChars("srcset");
  }

  lemma PrimaryNamesShape()
    ensures NameList(PrimaryNames)
  {
    assert AllKeyChars("href") && AllKeyChars("src") && AllKeyChars("codebase") && AllKeyChars("cite");
    assert AllKeyChars("background") && AllKeyChars("action") && AllKeyChars("profile");
    assert AllKeyChars("formaction") && AllKeyChars("icon") && AllKeyChars("manifest") && AllKeyChars("archive");
  }

  lemma ExtraNamesShape()
    ensures NameList(ExtraNames)
  {
    assert AllKeyChars("poster") && AllKeyChars("longdesc") && AllKeyChars("usemap");
  }

  lemma StylePropertiesShape()
    ensures NameList(StyleProperties)
  {
    assert AllKeyChars("background") && AllKeyChars("background-image");
  }

  /** Every match opens with one of the pattern's names and its separator. */
  lemma ExecNeedsKey(p: Pattern, t: string)
    requires Exec(p, t).Some?
    ensures exists n :: n in Names(p) && n + [Sep(p)] <= t
  {
    match p
    case Urls =>
      assert "url" in Names(p) && "url" + ['('] == t[..4];
    case Srcset =>
      assert "srcset" in Names(p) && "srcset" + ['='] == t[..7];
    case Rx => FirstNamedNeedsKey(Names(p), RelativeAttr, t);
    case Extra => FirstNamedNeedsKey(Names(p), RelativeAttr, t);
    case Backgrounds => FirstNamedNeedsKey(Names(p), Declaration, t);
    case CaptureRx => FirstNamedNeedsKey(Names(p), CapturedAttr, t);
  }

  lemma {:induction false} FirstNamedNeedsKey(names: seq<string>, rule: Rule, t: string)
    requires FirstNamed(names, rule, t).Some?
    ensures exists n :: n in names && n + [RuleSep(rule)] <= t
  {
    if NamedWith(names[0], rule, t).Some? {
      var n := names[0];
      assert t[..|n| + 1] == n + [RuleSep(rule)];
    } else {
      FirstNamedNeedsKey(names[1..], rule, t);
      var n :| n in names[1..] && n + [RuleSep(rule)] <= t;
      assert n in names;
    }
  }

  /**
   * When the text opens with a name and its separator, the alternation
   * tries that name and no other: names contain no separator, so no other
   * name is followed by the separator at this point.
   */
  lemma {:induction false} FirstNamedAt(names: seq<string>, rule: Rule, name: string, rest: string)
    requires RuleSep(rule) !in name
    requires forall n :: n in names ==> RuleSep(rule) !in n
    ensures FirstNamed(names, rule, name + [RuleSep(rule)] + rest)
         == if name in names then NamedWith(name, rule, name + [RuleSep(rule)] + rest) else None
  {
    if names != [] {
      var n := names[0];
      if n != name {
        NamedWithOther(n, rule, name, rest);
      }
      FirstNamedAt(names[1..], rule, name, rest);
      assert name in names <==> name == n || name in names[1..];
    }
  }

  /** A name other than the one in front of the separator does not match. */
  lemma NamedWithOther(n: string, rule: Rule, name: string, rest: string)
    requires n != name
    requires RuleSep(rule) !in n && RuleSep(rule) !in name
    ensures NamedWith(n, rule, name + [RuleSep(rule)] + rest).None?
  {
    var t := name + [RuleSep(rule)] + rest;
    if |n| < |name| {
      assert t[|n|] in name;
    } else if |n| > |name| {
      assert |n| <= |t| ==> t[..|n|][|name|] == RuleSep(rule) && t[..|n|][|name|] in t[..|n|];
    } else {
      assert t[..|n|] == name;
    }
  }

  // ---------------------------------------------------------------------
  // What each pattern matches at a site
  // ---------------------------------------------------------------------

  /** Names never contain the separator that follows them. */
  lemma SepNotInNames(p: Pattern)
    ensures forall n :: n in Names(p) ==> Sep(p) !in n
  {
    NamesShape(p);
  }

  /** The rule that follows the names of a pattern built on the name alternation. */
  function RuleOf(p: Pattern): Rule
    requires p != Urls && p != Srcset
  {
    match p
    case Backgrounds => Declaration
    case CaptureRx => CapturedAttr
    case _ => RelativeAttr
  }

  /** At one of its names and the separator, an alternation pattern tries that name only. */
  lemma ExecAtName(p: Pattern, rule: Rule, name: string, rest: string)
    requires p != Urls && p != Srcset && rule == RuleOf(p)
    requires name in Names(p)
    ensures RuleSep(rule) == Sep(p) && RuleSep(rule) !in name
    ensures Exec(p, name + [RuleSep(rule)] + rest) == NamedWith(name, rule, name + [RuleSep(rule)] + rest)
  {
    SepNotInNames(p);
    FirstNamedAt(Names(p), rule, name, rest);
  }

  /**
   * `rx` and `extra` at `name=` and a quote: they match exactly when the
   * value opens with a relative lead; group 1 is the name, `=` and the
   * quote, group 4 the dot-run and slash of a dotted lead.
   */
  lemma ExecAttr(p: Pattern, name: string, q: char, v: string)
    requires p == Rx || p == Extra
    requires name in Names(p) && IsQuote(q)
    ensures Exec(p, name + "=" + [q] + v) ==
      match RelativeLead(v)
      case Some(l) => Some(Match([name + "=" + [q] + LeadText(l), name + "=" + [q], name, LeadText(l), DotGroup(l)]))
      case None => None
  {
    var t := name + "=" + [q] + v;
    assert Exec(p, t) == NamedWith(name, RelativeAttr, t) && '=' !in name by {
      ExecAtName(p, RelativeAttr, name, [q] + v);
      assert t == name + [RuleSep(RelativeAttr)] + ([q] + v);
    }
    NamedRelative(name, q, v);
  }

  lemma NamedRelative(name: string, q: char, v: string)
    requires IsQuote(q) && '=' !in name
    ensures NamedWith(name, RelativeAttr, name + "=" + [q] + v) ==
      match RelativeLead(v)
      case Some(l) => Some(Match([name + "=" + [q] + LeadText(l), name + "=" + [q], name, LeadText(l), DotGroup(l)]))
      case None => None
  {
    match RelativeLead(v)
    case Some(l) =>
      AttrSlices(name, q, v, |LeadText(l)|);
      assert v[..|LeadText(l)|] == LeadText(l);
    case None =>
      AttrSlices(name, q, v, 0);
  }

  /** The pieces of `name="v` that the attribute alternatives cut out, for a value prefix of length `n`. */
  lemma AttrSlices(name: string, q: char, v: string, n: nat)
    requires n <= |v|
    ensures var t, k := name + "=" + [q] + v, |name| + 2;
      && |name| < |t| && t[..|name|] == name && t[|name|] == '='
      && k <= |t| && t[k - 1] == q && t[..k] == name + "=" + [q] && t[k..] == v
      && t[..k + n] == name + "=" + [q] + v[..n] && t[k..k + n] == v[..n]
  {
    var t, k := name + "=" + [q] + v, |name| + 2;
    assert t[..k] == name + "=" + [q];
    assert t[..k + n] == t[..k] + t[k..k + n];
  }

  /**
   * `captureRx` at `name=` and a quote: it matches exactly when the value
   * opens with a captured url; group 3 is that url, lead included.
   */
  lemma ExecCapture(name: string, q: char, v: string)
    requires name in PrimaryNames && IsQuote(q)
    ensures Exec(CaptureRx, name + "=" + [q] + v) ==
      match CapturedUrl(v)
      case Some((l, n)) => Some(Match([name + "=" + [q] + v[..n], name + "=" + [q], name, v[..n], CaptureLeadText(l), DotGroup(l)]))
      case None => None
  {
    var t := name + "=" + [q] + v;
    assert Exec(CaptureRx, t) == NamedWith(name, CapturedAttr, t) && '=' !in name by {
      ExecAtName(CaptureRx, CapturedAttr, name, [q] + v);
      assert t == name + [RuleSep(CapturedAttr)] + ([q] + v);
    }
    NamedCaptured(name, q, v);
  }

  lemma NamedCaptured(name: string, q: char, v: string)
    requires IsQuote(q) && '=' !in name
    ensures NamedWith(name, CapturedAttr, name + "=" + [q] + v) ==
      match CapturedUrl(v)
      case Some((l, n)) => Some(Match([name + "=" + [q] + v[..n], name + "=" + [q], name, v[..n], CaptureLeadText(l), DotGroup(l)]))
      case None => None
  {
    match CapturedUrl(v)
    case Some((l, n)) =>
      AttrSlices(name, q, v, n);
    case None =>
      AttrSlices(name, q, v, 0);
  }

  /** The first stop the lazy scan can end at is unique. */
  lemma LazyEndUnique(t: string, i: nat, j: nat, j': nat, stops: seq<char>)
    requires IsLazyEnd(t, i, j, stops) && IsLazyEnd(t, i, j', stops)
    ensures j == j'
  {
  }

  /** The lazy scan from the start of `value` ends at the stop right after it. */
  lemma LazyUntilAfter(pre: string, value: string, c: char, rest: string, stops: seq<char>)
    requires c in stops
    requires forall i :: 0 <= i < |value| ==> value[i] !in stops && !IsLineTerminator(value[i])
    ensures LazyUntil(pre + value + [c] + rest, |pre|, stops) == Some(|pre| + |value|)
  {
    var t := pre + value + [c] + rest;
    var j := |pre| + |value|;
    assert forall k :: |pre| <= k < j ==> t[k] == value[k - |pre|];
    assert IsLazyEnd(t, |pre|, j, stops);
    match LazyUntil(t, |pre|, stops)
    case Some(j') => LazyEndUnique(t, |pre|, j, j', stops);
    case None =>
  }

  /**
   * `backgrounds` at a style property and `:`: the value runs lazily to
   * the first `;`; group 1 is the property and `:`, group 3 the value,
   * group 4 the `;`.
   */
  lemma ExecDeclaration(name: string, value: string, rest: string)
    requires name in StyleProperties
    requires forall i :: 0 <= i < |value| ==> value[i] != ';' && !IsLineTerminator(value[i])
    ensures Exec(Backgrounds, name + ":" + value + ";" + rest) ==
      Some(Match([name + ":" + value + ";", name + ":", name, value, ";"]))
  {
    var t := name + ":" + value + ";" + rest;
    assert Exec(Backgrounds, t) == NamedWith(name, Declaration, t) by {
      SepNotInNames(Backgrounds);
      assert t == name + [RuleSep(Declaration)] + (value + ";" + rest);
      FirstNamedAt(StyleProperties, Declaration, name, value + ";" + rest);
    }
    SepNotInNames(Backgrounds);
    NamedDeclaration(name, value, rest);
  }

  /** One property name of the alternation followed by `:`, a value without `;` or line break, and `;`. */
  lemma NamedDeclaration(name: string, value: string, rest: string)
    requires ':' !in name
    requires forall i :: 0 <= i < |value| ==> value[i] != ';' && !IsLineTerminator(value[i])
    ensures NamedWith(name, Declaration, name + ":" + value + ";" + rest) ==
      Some(Match([name + ":" + value + ";", name + ":", name, value, ";"]))
  {
    var t := name + ":" + value + ";" + rest;
    var k := |name| + 1;
    var j := k + |value|;
    assert LazyUntil(t, k, [';']) == Some(j) by {
      LazyUntilAfter(name + ":", value, ';', rest, [';']);
      assert t == (name + ":") + value + [';'] + rest;
    }
    assert t[..|name|] == name && t[|name|] == ':' && t[..k] == name + ":";
    assert t[..j + 1] == name + ":" + value + ";" && t[k..j] == value && [t[j]] == ";";
  }

  /** `backgrounds` does not match when no `;` ends the value before a line terminator or the end of the text. */
  lemma DeclarationUnterminated(name: string, v: string)
    requires name in StyleProperties
    requires forall i :: 0 <= i < |v| && v[i] == ';' ==> exists k :: 0 <= k < i && IsLineTerminator(v[k])
    ensures Exec(Backgrounds, name + ":" + v).None?
  {
    var t := name + ":" + v;
    assert Exec(Backgrounds, t) == NamedWith(name, Declaration, t) by {
      SepNotInNames(Backgrounds);
      assert t == name + [RuleSep(Declaration)] + v;
      FirstNamedAt(StyleProperties, Declaration, name, v);
    }
    SepNotInNames(Backgrounds);
    NamedUnterminated(name, v);
  }

  /** A property name and `:` followed by a value whose every `;` comes after a line break does not match. */
  lemma NamedUnterminated(name: string, v: string)
    requires forall i :: 0 <= i < |v| && v[i] == ';' ==> exists k :: 0 <= k < i && IsLineTerminator(v[k])
    ensures NamedWith(name, Declaration, name + ":" + v).None?
  {
    var t := name + ":" + v;
    var k := |name| + 1;
    assert t[..|name|] == name && t[|name|] == ':';
    assert forall i :: 0 <= i < |v| ==> t[k + i] == v[i];
  }

  /**
   * `srcset` at `srcset=` and a quote: the value runs to the first quote
   * of either kind; group 1 is `srcset=` and the opening quote, group 2 the
   * value, group 3 the closing quote.
   */
  lemma ExecSrcsetAttr(q: char, value: string, q': char, rest: string)
    requires IsQuote(q) && IsQuote(q')
    requires forall i :: 0 <= i < |value| ==> !IsQuote(value[i]) && !IsLineTerminator(value[i])
    ensures Exec(Srcset, "srcset=" + [q] + value + [q'] + rest) ==
      Some(Match(["srcset=" + [q] + value + [q'], "srcset=" + [q], value, [q']]))
  {
    var t := "srcset=" + [q] + value + [q'] + rest;
    LazyUntilAfter("srcset=" + [q], value, q', rest, ['"', '\'']);
    var j := 8 + |value|;
    assert t[..7] == "srcset=" && t[7] == q;
    assert t[..8] == "srcset=" + [q] && t[8..j] == value && t[j] == q';
    assert t[..j + 1] == "srcset=" + [q] + value + [q'];
  }

  /** `urls` at `url(` and a quote: the quote is kept in group 1 when a relative lead follows it. */
  lemma ExecQuotedUrl(q: char, v: string)
    requires IsQuote(q)
    ensures Exec(Urls, "url(" + [q] + v) ==
      match RelativeLead(v)
      case Some(l) => Some(Match(["url(" + [q] + LeadText(l), "url(" + [q], LeadText(l), DotGroup(l)]))
      case None => None
  {
    var t := "url(" + [q] + v;
    assert t[..4] == "url(" && t[4] == q && t[5..] == v && t[..5] == "url(" + [q];
    match RelativeLead(v)
    case Some(l) =>
      var e := 5 + |LeadText(l)|;
      assert t[..e] == "url(" + [q] + LeadText(l) && t[5..e] == LeadText(l);
    case None =>
      assert t[4..] == [q] + v;
  }

  /** `urls` at `url(` without a quote: group 1 is `url(` alone. */
  lemma ExecBareUrl(v: string)
    requires v == [] || !IsQuote(v[0])
    ensures Exec(Urls, "url(" + v) ==
      match RelativeLead(v)
      case Some(l) => Some(Match(["url(" + LeadText(l), "url(", LeadText(l), DotGroup(l)]))
      case None => None
  {
    var t := "url(" + v;
    assert t[..4] == "url(" && t[4..] == v;
    match RelativeLead(v)
    case Some(l) =>
      var e := 4 + |LeadText(l)|;
      assert t[..e] == "url(" + LeadText(l) && t[4..e] == LeadText(l);
    case None =>
  }
}
