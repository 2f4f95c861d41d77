/**
 * The rewrite engine: the replacement templates and callbacks of the
 * string-mode pipeline `all`, the srcset candidate loop, function mode
 * `replace.iterate`, and the dispatch `replace(str, url)`.
 *
 * JavaScript expands `$` patterns in a replacement string; the base url is
 * spliced into such strings, so the model asks for a base without `$`,
 * where the template is the literal concatenation written here.
 */
module Absolutify {
  import opened Wrappers
  import opened Text
  import opened Patterns
  import opened Scan

  // ---------------------------------------------------------------------
  // Replacements
  // ---------------------------------------------------------------------

  /** `'$1' + url + '/$4'`: the name, `=` and quote, the base, a slash, and the dot-run and slash of a dotted lead. */
  function AttrTemplate(base: string): Match -> string {
    m => Group(m, 1) + base + "/" + Group(m, 4)
  }

  /** `'$1' + url + '/'`: `url(` and its quote, the base and a slash; the lead itself is dropped. */
  function UrlTemplate(base: string): Match -> string {
    m => Group(m, 1) + base + "/"
  }

  /** The `backgrounds` callback: property and `:`, the value with each `url(` lead rewritten, then the `;`. */
  function DeclarationCallback(base: string): Match -> string {
    m => Group(m, 1) + Replace(MatcherOf(Urls), Group(m, 3), UrlTemplate(base)) + Group(m, 4)
  }

  /** `replace(/^(\/)(?!\/)/, url + '/')` on one trimmed candidate: only a single leading slash becomes the base and a slash. */
  function RewriteUrl(c: string, base: string): string {
    if SlashAt(c, 0) && !SlashAt(c, 1) then base + "/" + c[1..] else c
  }

  /** One srcset candidate as the callback appends it. */
  function Candidate(item: string, base: string): string {
    RewriteUrl(Trim(item), base)
  }

  /**
   * `srcs` after the `forEach` has visited `items`: each candidate is
   * appended, preceded by `", "` only when `srcs` is already non-empty.
   */
  function Joined(items: seq<string>, base: string): string {
    if items == [] then ""
    else
      var srcs := Joined(items[..|items| - 1], base);
      (if srcs != "" then srcs + ", " else srcs) + Candidate(items[|items| - 1], base)
  }

  /** The rewritten srcset value: the candidates of `value.split(',')`, joined as the loop joins them. */
  function SrcsetList(value: string, base: string): string {
    Joined(Split(value, ','), base)
  }

  /** The srcset callback's work on the captured value: split on `,`, then the loop over the pieces. */
  method SrcsetValue(value: string, base: string) returns (srcs: string)
    ensures srcs == SrcsetList(value, base)
  {
    var sizes := Split(value, ',');
    srcs := JoinCandidates(sizes, base);
  }

  /** The `forEach` loop: each trimmed and rewritten item is appended, behind `", "` once `srcs` is non-empty. */
  method JoinCandidates(sizes: seq<string>, base: string) returns (srcs: string)
    ensures srcs == Joined(sizes, base)
  {
    srcs := "";
    var i := 0;
    while i < |sizes|
      invariant 0 <= i <= |sizes|
      invariant srcs == Joined(sizes[..i], base)
    {
      JoinedStep(sizes, i, base);
      if srcs != "" {
        srcs := srcs + ", ";
      }
      srcs := srcs + Candidate(sizes[i], base);
      i := i + 1;
    }
    assert sizes[..|sizes|] == sizes;
  }

  /** One more turn of the loop appends the next candidate, behind `", "` when `srcs` is non-empty. */
  lemma JoinedStep(items: seq<string>, i: nat, base: string)
    requires i < |items|
    ensures Joined(items[..i + 1], base)
         == (if Joined(items[..i], base) != "" then Joined(items[..i], base) + ", " else Joined(items[..i], base))
            + Candidate(items[i], base)
  {
    assert items[..i + 1][..i] == items[..i];
  }

  /** The `srcset` callback: `srcset=` and quote, the rewritten list, the closing quote. */
  function SrcsetCallback(base: string): Match -> string {
    m => Group(m, 1) + SrcsetList(Group(m, 2), base) + Group(m, 3)
  }

  // ---------------------------------------------------------------------
  // The two modes and the dispatch
  // ---------------------------------------------------------------------

  /** `all(str, url)`: the four passes, each over the output of the one before. */
  function StringMode(s: string, base: string): string
    requires '$' !in base
  {
    var replaced := Replace(MatcherOf(Rx), s, AttrTemplate(base));
    var replaced' := Replace(MatcherOf(Extra), replaced, AttrTemplate(base));
    var replaced'' := Replace(MatcherOf(Backgrounds), replaced', DeclarationCallback(base));
    Replace(MatcherOf(Srcset), replaced'', SrcsetCallback(base))
  }

  /** `all`, reassigning `replaced` pass by pass. */
  method All(str: string, url: string) returns (replaced: string)
    requires '$' !in url
    ensures replaced == StringMode(str, url)
  {
    replaced := ReplaceAll(MatcherOf(Rx), str, AttrTemplate(url));
    replaced := ReplaceAll(MatcherOf(Extra), replaced, AttrTemplate(url));
    replaced := ReplaceAll(MatcherOf(Backgrounds), replaced, DeclarationCallback(url));
    replaced := ReplaceAll(MatcherOf(Srcset), replaced, SrcsetCallback(url));
  }

  /** The `captureRx` callback: the prefix, then the iterator's result for the captured url and the matched name. */
  function IterateCallback(f: (string, string) -> string): Match -> string {
    m => Group(m, 1) + f(Group(m, 3), Group(m, 2))
  }

  /** `replace.iterate(str, f)`. */
  function Iterate(s: string, f: (string, string) -> string): string {
    Replace(MatcherOf(CaptureRx), s, IterateCallback(f))
  }

  /** The second argument of `replace`: a base url, or an iterator called with the url and the attribute name. */
  datatype Policy = BaseUrl(url: string) | Iterator(f: (string, string) -> string)

  /** `replace(str, url)`: a function argument selects function mode, anything else string mode. */
  function Absolutify(s: string, policy: Policy): string
    requires policy.BaseUrl? ==> '$' !in policy.url
  {
    match policy
    case Iterator(f) => Iterate(s, f)
    case BaseUrl(url) => StringMode(s, url)
  }

  // ---------------------------------------------------------------------
  // Attribute passes
  // ---------------------------------------------------------------------

  /**
   * A match of exactly `x` whose group 1 is `open` and group 4 is `dots`,
   * under the attribute template: `open`, the base, a slash and `dots` are
   * emitted, and the scan goes on after `x`.
   */
  lemma AttrSite(exec: Matcher, x: string, open: string, dots: string, y: string, base: string)
    requires Advances(exec) && exec(x + y).Some?
    requires Group(exec(x + y).value, 0) == x
    requires Group(exec(x + y).value, 1) == open && Group(exec(x + y).value, 4) == dots
    ensures Replace(exec, x + y, AttrTemplate(base)) == open + base + "/" + dots + Replace(exec, y, AttrTemplate(base))
  {
    TakeMatch(exec, x, y, AttrTemplate(base));
  }

  /**
   * `rx` and `extra` rewrite a value that opens with a relative lead: the
   * name, `=` and the same quote are kept, the base and a slash are put in
   * place of the lead, and a dotted lead's dot-run and slash follow them
   * again.
   */
  lemma RewritesRelativeValue(p: Pattern, name: string, q: char, l: Lead, w: string, base: string)
    requires p == Rx || p == Extra
    requires name in Names(p) && IsQuote(q)
    requires RelativeLead(LeadText(l) + w) == Some(l)
    ensures Replace(MatcherOf(p), name + "=" + [q] + (LeadText(l) + w), AttrTemplate(base))
         == name + "=" + [q] + base + "/" + DotGroup(l) + Replace(MatcherOf(p), w, AttrTemplate(base))
  {
    var open := name + "=" + [q];
    var x := open + LeadText(l);
    var m := Match([x, open, name, LeadText(l), DotGroup(l)]);
    assert MatcherOf(p)(x + w) == Some(m) by {
      AppendAssoc(open, LeadText(l), w);
      ExecAttr(p, name, q, LeadText(l) + w);
    }
    assert Group(m, 0) == x && Group(m, 1) == open && Group(m, 4) == DotGroup(l);
    AttrSite(MatcherOf(p), x, open, DotGroup(l), w, base);
    AppendAssoc(open, LeadText(l), w);
  }

  /** A value opening with one `/` (not `//`): the slash becomes the base and a slash, as `/relative` becomes `base/relative`. */
  lemma RewritesRootRelative(p: Pattern, name: string, q: char, w: string, base: string)
    requires p == Rx || p == Extra
    requires name in Names(p) && IsQuote(q)
    requires w == [] || w[0] != '/'
    ensures Replace(MatcherOf(p), name + "=" + [q] + "/" + w, AttrTemplate(base))
         == name + "=" + [q] + base + "/" + Replace(MatcherOf(p), w, AttrTemplate(base))
  {
    var open := name + "=" + [q];
    var x := open + "/";
    var m := Match([x, open, name, "/", ""]);
    assert MatcherOf(p)(x + w) == Some(m) by {
      SlashLead(w);
      ExecAttr(p, name, q, "/" + w);
      AppendAssoc(open, "/", w);
    }
    assert Group(m, 0) == x && Group(m, 1) == open && Group(m, 4) == "";
    AttrSite(MatcherOf(p), x, open, "", w, base);
    assert open + base + "/" + "" == open + base + "/";
  }

  lemma SlashLead(w: string)
    requires w == [] || w[0] != '/'
    ensures RelativeLead("/" + w) == Some(Slash)
  {
  }

  /** A value opening with `#`: the base and a slash go in front of the `#`. */
  lemma RewritesAnchor(p: Pattern, name: string, q: char, w: string, base: string)
    requires p == Rx || p == Extra
    requires name in Names(p) && IsQuote(q)
    ensures Replace(MatcherOf(p), name + "=" + [q] + ("#" + w), AttrTemplate(base))
         == name + "=" + [q] + base + "/" + ("#" + Replace(MatcherOf(p), w, AttrTemplate(base)))
  {
    AnchorLead(w);
    ExecAttr(p, name, q, "#" + w);
    AttrSite(MatcherOf(p), name + "=" + [q], name + "=" + [q], "", "#" + w, base);
    KeepsHash(p, w, AttrTemplate(base));
    assert name + "=" + [q] + base + "/" + "" == name + "=" + [q] + base + "/";
  }

  lemma AnchorLead(w: string)
    ensures RelativeLead("#" + w) == Some(Anchor)
  {
  }

  /** A `#` is copied: no match starts at it. */
  lemma KeepsHash(p: Pattern, w: string, emit: Match -> string)
    ensures Replace(MatcherOf(p), "#" + w, emit) == "#" + Replace(MatcherOf(p), w, emit)
  {
    HashNoMatch(p, w);
    CopyUnmatched(MatcherOf(p), "#", w, emit);
  }

  lemma HashNoMatch(p: Pattern, w: string)
    ensures NoMatchIn(MatcherOf(p), "#", w)
  {
    assert Sep(p) != '#';
    PlainNoMatch(p, "#", w);
  }

  /** A value opening with a dot-run and one slash (`../`, `./`): the base and a slash go in front, and the dot-run and slash stay. */
  lemma RewritesDotted(p: Pattern, name: string, q: char, n: nat, w: string, base: string)
    requires p == Rx || p == Extra
    requires name in Names(p) && IsQuote(q)
    requires 0 < n && (w == [] || w[0] != '/')
    ensures Replace(MatcherOf(p), name + "=" + [q] + (Dots(n) + "/" + w), AttrTemplate(base))
         == name + "=" + [q] + base + "/" + (Dots(n) + "/") + Replace(MatcherOf(p), w, AttrTemplate(base))
  {
    DotsLead(n, w);
    RewritesRelativeValue(p, name, q, DotsSlash(n), w, base);
  }

  lemma DotsLead(n: nat, w: string)
    requires 0 < n && (w == [] || w[0] != '/')
    ensures RelativeLead(Dots(n) + "/" + w) == Some(DotsSlash(n))
  {
    var v := Dots(n) + "/" + w;
    assert Dots(n) + "/" <= v;
    assert v[n] == '/';
    assert n + 1 < |v| ==> v[n + 1] == w[0];
    RelativeLeadSpec(v, DotsSlash(n));
  }

  /**
   * A value without a relative lead (`//host`, `http://`, `www.foo.com`,
   * `..//x`) is left alone: no match starts in the attribute name, its `=`
   * or its quote, whatever word the name is.
   */
  lemma KeepsNonRelative(p: Pattern, name: string, q: char, v: string, emit: Match -> string)
    requires p == Rx || p == Extra
    requires '=' !in name && IsQuote(q)
    requires RelativeLead(v).None?
    ensures Replace(MatcherOf(p), name + "=" + [q] + v, emit) == name + "=" + [q] + Replace(MatcherOf(p), v, emit)
  {
    forall k | 0 <= k < |name + "=" + [q]|
      ensures MatcherOf(p)((name + "=" + [q] + v)[k..]).None?
    {
      NoAttrMatchAt(p, name, q, v, k);
    }
    CopyUnmatched(MatcherOf(p), name + "=" + [q], v, emit);
  }

  lemma NoAttrMatchAt(p: Pattern, name: string, q: char, v: string, k: nat)
    requires p == Rx || p == Extra
    requires '=' !in name && IsQuote(q)
    requires RelativeLead(v).None?
    requires k < |name| + 2
    ensures Exec(p, (name + "=" + [q] + v)[k..]).None?
  {
    if k < |name| {
      var tail := name[k..];
      assert '=' !in tail by {
        forall c | c in tail ensures c != '=' { assert c in name; }
      }
      assert (name + "=" + [q] + v)[k..] == tail + "=" + [q] + v;
      NoAttrMatchName(p, tail, q, v);
    } else {
      assert (name + "=" + [q] + v)[k..] == (if k == |name| then "=" else []) + [q] + v;
      NoAttrMatchSep(p, k - |name|, q, v);
    }
  }

  /** A word followed by `=`, a quote and a value without a relative lead starts no attribute match. */
  lemma NoAttrMatchName(p: Pattern, name: string, q: char, v: string)
    requires p == Rx || p == Extra
    requires '=' !in name && IsQuote(q)
    requires RelativeLead(v).None?
    ensures Exec(p, name + "=" + [q] + v).None?
  {
    if name in Names(p) {
      ExecAttr(p, name, q, v);
    } else {
      assert name + "=" + [q] + v == name + [Sep(p)] + ([q] + v);
      NameNoMatch(p, name, [q] + v);
    }
  }

  /** Neither the `=` nor the quote starts an attribute match. */
  lemma NoAttrMatchSep(p: Pattern, i: nat, q: char, v: string)
    requires p == Rx || p == Extra
    requires i < 2 && IsQuote(q)
    ensures Exec(p, (if i == 0 then "=" else []) + [q] + v).None?
  {
    var t := (if i == 0 then "=" else []) + [q] + v;
    assert t[0] == '=' || t[0] == q;
    NonKeyStart(p, t);
  }

  // ---------------------------------------------------------------------
  // Style pass
  // ---------------------------------------------------------------------

  /**
   * A `background:` or `background-image:` declaration: the property, the
   * `:` and the `;` are emitted again, and the value between them goes
   * through the `url(` pass.
   */
  lemma RewritesDeclaration(name: string, value: string, rest: string, base: string)
    requires name in StyleProperties
    requires forall i :: 0 <= i < |value| ==> value[i] != ';' && !IsLineTerminator(value[i])
    ensures Replace(MatcherOf(Backgrounds), name + ":" + value + ";" + rest, DeclarationCallback(base))
         == name + ":" + Replace(MatcherOf(Urls), value, UrlTemplate(base)) + ";"
            + Replace(MatcherOf(Backgrounds), rest, DeclarationCallback(base))
  {
    ExecDeclaration(name, value, rest);
    var x := name + ":" + value + ";";
    assert name + ":" + value + ";" + rest == x + rest;
    TakeMatch(MatcherOf(Backgrounds), x, rest, DeclarationCallback(base));
  }

  /**
   * A match of exactly `x` whose group 1 is `open`, under the `url(`
   * template: `open`, the base and a slash are emitted, and the scan goes on
   * after `x`.
   */
  lemma UrlSite(exec: Matcher, x: string, open: string, y: string, base: string)
    requires Advances(exec) && exec(x + y).Some?
    requires Group(exec(x + y).value, 0) == x && Group(exec(x + y).value, 1) == open
    ensures Replace(exec, x + y, UrlTemplate(base)) == open + base + "/" + Replace(exec, y, UrlTemplate(base))
  {
    TakeMatch(exec, x, y, UrlTemplate(base));
  }

  /** `url(` with a quote and a relative lead: the opener and quote stay, the lead is replaced by the base and a slash. */
  lemma RewritesQuotedUrl(q: char, l: Lead, w: string, base: string)
    requires IsQuote(q) && RelativeLead(LeadText(l) + w) == Some(l)
    ensures Replace(MatcherOf(Urls), "url(" + [q] + (LeadText(l) + w), UrlTemplate(base))
         == "url(" + [q] + base + "/" + Replace(MatcherOf(Urls), w, UrlTemplate(base))
  {
    ExecQuotedUrl(q, LeadText(l) + w);
    assert "url(" + [q] + (LeadText(l) + w) == "url(" + [q] + LeadText(l) + w;
    UrlSite(MatcherOf(Urls), "url(" + [q] + LeadText(l), "url(" + [q], w, base);
  }

  /** `url(` without a quote and a relative lead: the lead, a `../` included, is replaced by the base and a slash. */
  lemma RewritesBareUrl(l: Lead, w: string, base: string)
    requires RelativeLead(LeadText(l) + w) == Some(l)
    ensures Replace(MatcherOf(Urls), "url(" + (LeadText(l) + w), UrlTemplate(base))
         == "url(" + base + "/" + Replace(MatcherOf(Urls), w, UrlTemplate(base))
  {
    RelativeLeadSpec(LeadText(l) + w, l);
    assert !IsQuote((LeadText(l) + w)[0]) by {
      if l.DotsSlash? {
        assert (LeadText(l) + w)[0] == Dots(l.dots)[0] == '.';
      }
    }
    ExecBareUrl(LeadText(l) + w);
    assert "url(" + (LeadText(l) + w) == "url(" + LeadText(l) + w;
    UrlSite(MatcherOf(Urls), "url(" + LeadText(l), "url(", w, base);
  }

  /** `url(` followed by no relative lead, quoted or not (`url(//host/a.svg)`), is left alone. */
  lemma KeepsNonRelativeUrl(v: string, base: string)
    requires RelativeLead(v).None?
    requires v != [] && IsQuote(v[0]) ==> RelativeLead(v[1..]).None?
    ensures Replace(MatcherOf(Urls), "url(" + v, UrlTemplate(base)) == "url(" + Replace(MatcherOf(Urls), v, UrlTemplate(base))
  {
    UrlNoMatch(v);
    CopyUnmatched(MatcherOf(Urls), "url(", v, UrlTemplate(base));
  }

  lemma UrlNoMatch(v: string)
    requires RelativeLead(v).None?
    requires v != [] && IsQuote(v[0]) ==> RelativeLead(v[1..]).None?
    ensures NoMatchIn(MatcherOf(Urls), "url(", v)
  {
    UrlOpenerNoMatch(v);
    UnlistedTails();
    assert "url"[0..] == "url";
    MissedKey(Urls, "url", v);
    assert "url" + [Sep(Urls)] == "url(";
  }

  lemma UrlOpenerNoMatch(v: string)
    requires RelativeLead(v).None?
    requires v != [] && IsQuote(v[0]) ==> RelativeLead(v[1..]).None?
    ensures Exec(Urls, "url" + [Sep(Urls)] + v).None?
  {
    assert "url" + [Sep(Urls)] + v == "url(" + v;
    if v != [] && IsQuote(v[0]) {
      assert "url(" + v == "url(" + [v[0]] + v[1..];
      ExecQuotedUrl(v[0], v[1..]);
    } else {
      ExecBareUrl(v);
    }
  }

  lemma UnlistedTails()
    ensures forall k :: 0 < k < 3 ==> "url"[k..] !in Names(Urls)
  {
    assert "url"[1..] == "rl" && "url"[2..] == "l";
  }

  // ---------------------------------------------------------------------
  // Srcset pass
  // ---------------------------------------------------------------------

  /** A `srcset` value up to the first quote of either kind is replaced by its rewritten candidate list, between the same quotes. */
  lemma RewritesSrcsetAttr(q: char, value: string, q': char, rest: string, base: string)
    requires IsQuote(q) && IsQuote(q')
    requires forall i :: 0 <= i < |value| ==> !IsQuote(value[i]) && !IsLineTerminator(value[i])
    ensures Replace(MatcherOf(Srcset), "srcset=" + [q] + value + [q'] + rest, SrcsetCallback(base))
         == "srcset=" + [q] + SrcsetList(value, base) + [q'] + Replace(MatcherOf(Srcset), rest, SrcsetCallback(base))
  {
    ExecSrcsetAttr(q, value, q', rest);
    var x := "srcset=" + [q] + value + [q'];
    assert "srcset=" + [q] + value + [q'] + rest == x + rest;
    TakeMatch(MatcherOf(Srcset), x, rest, SrcsetCallback(base));
  }

  /** The candidates of a list, rewritten one by one. */
  function Candidates(items: seq<string>, base: string): (cs: seq<string>)
    ensures |cs| == |items|
    ensures forall i :: 0 <= i < |items| ==> cs[i] == Candidate(items[i], base)
  {
    seq(|items|, i requires 0 <= i < |items| => Candidate(items[i], base))
  }

  /** The list without its leading empty strings. */
  function DropEmptyPrefix(cs: seq<string>): (r: seq<string>)
    ensures r == [] || r[0] != ""
  {
    if cs != [] && cs[0] == "" then DropEmptyPrefix(cs[1..]) else cs
  }

  /** What is dropped is exactly the leading empty strings: the rest is a suffix of the list. */
  lemma {:induction false} DropEmptyPrefixSpec(cs: seq<string>)
    ensures |DropEmptyPrefix(cs)| <= |cs| && DropEmptyPrefix(cs) == cs[|cs| - |DropEmptyPrefix(cs)|..]
    ensures forall i :: 0 <= i < |cs| - |DropEmptyPrefix(cs)| ==> cs[i] == ""
  {
    if cs != [] && cs[0] == "" {
      DropEmptyPrefixSpec(cs[1..]);
    }
  }

  /** Appending to a list appends after its leading empty strings are dropped, unless nothing is left. */
  lemma {:induction false} DropEmptyAppend(cs: seq<string>, c: string)
    ensures DropEmptyPrefix(cs + [c]) ==
      if DropEmptyPrefix(cs) == [] then (if c == "" then [] else [c]) else DropEmptyPrefix(cs) + [c]
  {
    if cs != [] {
      assert (cs + [c])[1..] == cs[1..] + [c];
      DropEmptyAppend(cs[1..], c);
    } else {
      assert cs + [c] == [c];
      assert [c][1..] == [];
    }
  }

  /** Joining after one more element. */
  lemma {:induction false} JoinAppend(xs: seq<string>, x: string, sep: string)
    requires xs != []
    ensures Join(xs + [x], sep) == Join(xs, sep) + sep + x
  {
    if |xs| == 1 {
      assert (xs + [x])[1..] == [x];
    } else {
      assert (xs + [x])[1..] == xs[1..] + [x];
      JoinAppend(xs[1..], x, sep);
    }
  }

  /** A join that opens with a non-empty string is non-empty. */
  lemma JoinStartsWith(xs: seq<string>, sep: string)
    requires xs != []
    ensures xs[0] <= Join(xs, sep)
  {
  }

  /**
   * The loop's guarded append is `join(', ')` of the rewritten candidates
   * once the leading empty ones are dropped: an empty candidate before the
   * first non-empty one leaves no separator, any later one does.
   */
  lemma {:induction false} JoinedIsJoin(items: seq<string>, base: string)
    ensures Joined(items, base) == Join(DropEmptyPrefix(Candidates(items, base)), ", ")
  {
    if items != [] {
      var init := items[..|items| - 1];
      var c := Candidate(items[|items| - 1], base);
      JoinedIsJoin(init, base);
      CandidatesLast(items, base);
      DropEmptyAppend(Candidates(init, base), c);
      var d := DropEmptyPrefix(Candidates(init, base));
      if d != [] {
        JoinAppend(d, c, ", ");
        JoinStartsWith(d, ", ");
      }
    }
  }

  lemma CandidatesLast(items: seq<string>, base: string)
    requires items != []
    ensures Candidates(items, base)
         == Candidates(items[..|items| - 1], base) + [Candidate(items[|items| - 1], base)]
  {
    var init := items[..|items| - 1];
    var cs := Candidates(init, base) + [Candidate(items[|items| - 1], base)];
    forall i | 0 <= i < |items|
      ensures Candidates(items, base)[i] == cs[i]
    {
      if i < |init| {
        assert items[i] == init[i];
      }
    }
  }

  /** The candidates after the first, each behind the space that follows the comma. */
  function Spaced(cs: seq<string>): (r: seq<string>)
    ensures |r| == |cs|
    ensures forall i :: 0 <= i < |cs| ==> r[i] == (if i == 0 then cs[0] else " " + cs[i])
  {
    seq(|cs|, i requires 0 <= i < |cs| => if i == 0 then cs[0] else " " + cs[i])
  }

  /** `cs.join(', ')` is the comma join of the spaced candidates. */
  lemma {:induction false} JoinSpaced(cs: seq<string>)
    requires cs != []
    ensures Join(cs, ", ") == Join(Spaced(cs), ",")
  {
    if |cs| > 1 {
      JoinSpaced(cs[1..]);
      JoinPrefixed(cs[1..]);
      assert Spaced(cs)[1..] == seq(|cs| - 1, i requires 0 <= i < |cs| - 1 => " " + cs[1..][i]);
    }
  }

  lemma {:induction false} JoinPrefixed(ys: seq<string>)
    requires ys != []
    ensures Join(seq(|ys|, i requires 0 <= i < |ys| => " " + ys[i]), ",") == " " + Join(ys, ", ")
  {
    var ps := seq(|ys|, i requires 0 <= i < |ys| => " " + ys[i]);
    if |ys| > 1 {
      JoinPrefixed(ys[1..]);
      assert ps[1..] == seq(|ys| - 1, i requires 0 <= i < |ys| - 1 => " " + ys[1..][i]);
    }
  }

  /** Each candidate of a list with its single leading slash rewritten. */
  function Rewritten(cs: seq<string>, base: string): (r: seq<string>)
    ensures |r| == |cs|
    ensures forall i :: 0 <= i < |cs| ==> r[i] == RewriteUrl(cs[i], base)
  {
    seq(|cs|, i requires 0 <= i < |cs| => RewriteUrl(cs[i], base))
  }

  /** A srcset list: non-empty candidates with nothing to trim and no comma. */
  predicate CandidateList(cs: seq<string>) {
    cs != [] && forall i :: 0 <= i < |cs| ==> cs[i] != "" && IsTrimmed(cs[i]) && ',' !in cs[i]
  }

  /**
   * A srcset value written as trimmed, non-empty candidates joined with
   * `", "` comes back as the same list with each candidate rewritten on its
   * own: the split, trim and guarded rejoin lose and add nothing else.
   */
  lemma SrcsetRewrite(cs: seq<string>, base: string)
    requires CandidateList(cs)
    ensures SrcsetList(Join(cs, ", "), base) == Join(Rewritten(cs, base), ", ")
  {
    var sp := Spaced(cs);
    SplitSpaced(cs);
    JoinedIsJoin(sp, base);
    CandidatesSpaced(cs, base);
    assert RewriteUrl(cs[0], base) != "";
  }

  /** Splitting the `", "` join on `,` gives the candidates, each after the first behind its space. */
  lemma SplitSpaced(cs: seq<string>)
    requires CandidateList(cs)
    ensures Split(Join(cs, ", "), ',') == Spaced(cs)
  {
    var sp := Spaced(cs);
    JoinSpaced(cs);
    forall i | 0 <= i < |sp|
      ensures ',' !in sp[i]
    {
      if i > 0 {
        assert forall c :: c in sp[i] ==> c == ' ' || c in cs[i];
      }
    }
    SplitJoin(sp, ',');
  }

  /** Trimming takes the space off again, so each piece becomes its candidate rewritten. */
  lemma CandidatesSpaced(cs: seq<string>, base: string)
    requires CandidateList(cs)
    ensures Candidates(Spaced(cs), base) == Rewritten(cs, base)
  {
    var sp := Spaced(cs);
    forall i | 0 <= i < |cs|
      ensures Candidates(sp, base)[i] == Rewritten(cs, base)[i]
    {
      TrimmedFixed(cs[i]);
      if i > 0 {
        assert sp[i] == [' '] + cs[i];
      }
    }
  }

  /** A list whose candidates do not open with a single slash (`//host/a.png 2x`, `./a.png`) comes back unchanged. */
  lemma SrcsetKeepsList(cs: seq<string>, base: string)
    requires CandidateList(cs)
    requires forall i :: 0 <= i < |cs| ==> !(SlashAt(cs[i], 0) && !SlashAt(cs[i], 1))
    ensures SrcsetList(Join(cs, ", "), base) == Join(cs, ", ")
  {
    SrcsetRewrite(cs, base);
    RewrittenFixed(cs, base);
  }

  lemma RewrittenFixed(cs: seq<string>, base: string)
    requires forall i :: 0 <= i < |cs| ==> !(SlashAt(cs[i], 0) && !SlashAt(cs[i], 1))
    ensures Rewritten(cs, base) == cs
  {
    forall i | 0 <= i < |cs|
      ensures Rewritten(cs, base)[i] == cs[i]
    {
    }
  }

  // ---------------------------------------------------------------------
  // Function mode
  // ---------------------------------------------------------------------

  /**
   * A match of exactly `x` with the prefix, name and url in groups 1 to 3,
   * under the iterate callback: the prefix and the iterator's result for
   * the url and the name are emitted, and the scan goes on after `x`.
   */
  lemma IterateSite(exec: Matcher, x: string, prefix: string, name: string, url: string, y: string, f: (string, string) -> string)
    requires Advances(exec) && exec(x + y).Some?
    requires Group(exec(x + y).value, 0) == x && Group(exec(x + y).value, 1) == prefix
    requires Group(exec(x + y).value, 2) == name && Group(exec(x + y).value, 3) == url
    ensures Replace(exec, x + y, IterateCallback(f)) == prefix + f(url, name) + Replace(exec, y, IterateCallback(f))
  {
    TakeMatch(exec, x, y, IterateCallback(f));
  }

  /**
   * `captureRx` hands the iterator the captured url, lead included, and the
   * matched name, and puts its result in place of exactly that url.
   */
  lemma CapturesUrl(name: string, q: char, u: string, w: string, f: (string, string) -> string, l: Lead)
    requires name in PrimaryNames && IsQuote(q)
    requires CapturedUrl(u + w) == Some((l, |u|))
    ensures Iterate(name + "=" + [q] + (u + w), f) == name + "=" + [q] + f(u, name) + Iterate(w, f)
  {
    ExecCapture(name, q, u + w);
    assert (u + w)[..|u|] == u;
    assert name + "=" + [q] + (u + w) == name + "=" + [q] + u + w;
    IterateSite(MatcherOf(CaptureRx), name + "=" + [q] + u, name + "=" + [q], name, u, w, f);
  }

  /**
   * A value that is not a captured url (`/` or `#` alone, `//host`, a
   * scheme) is left alone in function mode, and the iterator is not called
   * for it.
   */
  lemma IterateKeepsUncaptured(name: string, q: char, v: string, f: (string, string) -> string)
    requires '=' !in name && IsQuote(q)
    requires CapturedUrl(v).None?
    ensures Iterate(name + "=" + [q] + v, f) == name + "=" + [q] + Iterate(v, f)
  {
    forall k | 0 <= k < |name + "=" + [q]|
      ensures MatcherOf(CaptureRx)((name + "=" + [q] + v)[k..]).None?
    {
      NoCaptureAt(name, q, v, k);
    }
    CopyUnmatched(MatcherOf(CaptureRx), name + "=" + [q], v, IterateCallback(f));
  }

  lemma NoCaptureAt(name: string, q: char, v: string, k: nat)
    requires '=' !in name && IsQuote(q)
    requires CapturedUrl(v).None?
    requires k < |name| + 2
    ensures Exec(CaptureRx, (name + "=" + [q] + v)[k..]).None?
  {
    if k < |name| {
      var tail := name[k..];
      assert '=' !in tail by {
        forall c | c in tail ensures c != '=' { assert c in name; }
      }
      assert (name + "=" + [q] + v)[k..] == tail + "=" + [q] + v;
      NoCaptureName(tail, q, v);
    } else {
      var t := (name + "=" + [q] + v)[k..];
      assert t[0] == '=' || t[0] == q;
      NonKeyStart(CaptureRx, t);
    }
  }

  lemma NoCaptureName(name: string, q: char, v: string)
    requires '=' !in name && IsQuote(q)
    requires CapturedUrl(v).None?
    ensures Exec(CaptureRx, name + "=" + [q] + v).None?
  {
    if name in PrimaryNames {
      ExecCapture(name, q, v);
    } else {
      assert name + "=" + [q] + v == name + [Sep(CaptureRx)] + ([q] + v);
      NameNoMatch(CaptureRx, name, [q] + v);
    }
  }

  /** Function mode does not touch the extra names: `poster=`, `longdesc=` and `usemap=` values are copied. */
  lemma IterateSkipsExtraNames(name: string, rest: string, f: (string, string) -> string)
    requires name in ExtraNames
    ensures Iterate(name + "=" + rest, f) == name + "=" + Iterate(rest, f)
  {
    ExtraTailsUnlisted(name);
    assert "=" == [Sep(CaptureRx)];
    UnlistedWord(CaptureRx, name, rest, IterateCallback(f));
  }

  lemma ExtraTailsUnlisted(name: string)
    requires name in ExtraNames
    ensures forall k :: 0 <= k < |name| ==> name[k..] !in PrimaryNames
    ensures '=' !in name
  {
    if name == "poster" {
      PosterTails();
    } else if name == "longdesc" {
      LongdescTails();
    } else {
      UsemapTails();
    }
  }

  lemma PosterTails()
    ensures forall k :: 0 <= k < 6 ==> "poster"[k..] !in PrimaryNames
  {
    forall k | 0 <= k < 6
      ensures "poster"[k..] !in PrimaryNames
    {
      if k == 0 {
        assert "poster"[k..] == "poster";
      } else if k == 1 {
        assert "poster"[k..] == "oster";
      } else if k == 2 {
        assert "poster"[k..] == "ster";
      } else if k == 3 {
        assert "poster"[k..] == "ter";
      } else if k == 4 {
        assert "poster"[k..] == "er";
      } else {
        assert "poster"[k..] == "r";
      }
    }
  }

  lemma LongdescTails()
    ensures forall k :: 0 <= k < 8 ==> "longdesc"[k..] !in PrimaryNames
  {
    forall k | 0 <= k < 8
      ensures "longdesc"[k..] !in PrimaryNames
    {
      if k == 0 {
        assert "longdesc"[k..] == "longdesc";
      } else if k == 1 {
        assert "longdesc"[k..] == "ongdesc";
      } else if k == 2 {
        assert "longdesc"[k..] == "ngdesc";
      } else if k == 3 {
        assert "longdesc"[k..] == "gdesc";
      } else if k == 4 {
        assert "longdesc"[k..] == "desc";
      } else if k == 5 {
        assert "longdesc"[k..] == "esc";
      } else if k == 6 {
        assert "longdesc"[k..] == "sc";
      } else {
        assert "longdesc"[k..] == "c";
      }
    }
  }

  lemma UsemapTails()
    ensures forall k :: 0 <= k < 6 ==> "usemap"[k..] !in PrimaryNames
  {
    forall k | 0 <= k < 6
      ensures "usemap"[k..] !in PrimaryNames
    {
      if k == 0 {
        assert "usemap"[k..] == "usemap";
      } else if k == 1 {
        assert "usemap"[k..] == "semap";
      } else if k == 2 {
        assert "usemap"[k..] == "emap";
      } else if k == 3 {
        assert "usemap"[k..] == "map";
      } else if k == 4 {
        assert "usemap"[k..] == "ap";
      } else {
        assert "usemap"[k..] == "p";
      }
    }
  }

  // ---------------------------------------------------------------------
  // Whole documents
  // ---------------------------------------------------------------------

  /**
   * A document in which no name of any string-mode pass stands before that
   * pass's separator comes back unchanged from string mode: each pass finds
   * no match and copies the text it was given.
   */
  lemma StringModeKeeps(s: string, base: string)
    requires '$' !in base
    requires NoKey(Rx, s) && NoKey(Extra, s) && NoKey(Backgrounds, s) && NoKey(Srcset, s)
    ensures StringMode(s, base) == s
  {
    NoKeyNoMatch(Rx, s);
    Untouched(MatcherOf(Rx), s, AttrTemplate(base));
    NoKeyNoMatch(Extra, s);
    Untouched(MatcherOf(Extra), s, AttrTemplate(base));
    NoKeyNoMatch(Backgrounds, s);
    Untouched(MatcherOf(Backgrounds), s, DeclarationCallback(base));
    NoKeyNoMatch(Srcset, s);
    Untouched(MatcherOf(Srcset), s, SrcsetCallback(base));
  }

  /**
   * A document in which no name of `captureRx` stands before `=` comes back
   * unchanged from function mode, and the iterator is never called.
   */
  lemma IterateKeeps(s: string, f: (string, string) -> string)
    requires NoKey(CaptureRx, s)
    ensures Iterate(s, f) == s
  {
    NoKeyNoMatch(CaptureRx, s);
    Untouched(MatcherOf(CaptureRx), s, IterateCallback(f));
  }

  /** Either mode of `replace` leaves a document unchanged when none of its patterns' names stands before a separator. */
  lemma AbsolutifyKeeps(s: string, policy: Policy)
    requires policy.BaseUrl? ==> '$' !in policy.url
    ensures policy.Iterator? && NoKey(CaptureRx, s) ==> Absolutify(s, policy) == s
    ensures policy.BaseUrl? && NoKey(Rx, s) && NoKey(Extra, s) && NoKey(Backgrounds, s) && NoKey(Srcset, s)
      ==> Absolutify(s, policy) == s
  {
    match policy
    case Iterator(f) =>
      if NoKey(CaptureRx, s) {
        IterateKeeps(s, f);
      }
    case BaseUrl(url) =>
      if NoKey(Rx, s) && NoKey(Extra, s) && NoKey(Backgrounds, s) && NoKey(Srcset, s) {
        StringModeKeeps(s, url);
      }
  }
}
