/**
 * The documents of the test suite (test.js), put through the model: the
 * fixed `ok` fragment that no call may change, and each asserted rewrite.
 * A document is written as the concatenation of its pieces, and each pass
 * is followed piece by piece with the lemmas of the scan and the engine.
 */
module Examples {
  import opened Wrappers
  import opened Text
  import opened Patterns
  import opened Scan
  import opened Absolutify

  // ---------------------------------------------------------------------
  // Document pieces
  // ---------------------------------------------------------------------

  /** An element with one attribute: `open`, then `name="v"` (or with `'`), then `after`. */
  function Tag(open: string, name: string, q: char, v: string, after: string): string {
    open + (name + "=" + [q] + (v + ([q] + after)))
  }

  /** Text before an attribute: it ends outside a name and holds no `=` or `:`. */
  predicate Opening(open: string) {
    open != [] && !KeyChar(open[|open| - 1]) && '=' !in open && ':' !in open
  }

  /** Text after an attribute's closing quote: it ends with `>` and holds no `=` or `:`. */
  predicate Closing(after: string) {
    after != [] && after[|after| - 1] == '>' && '=' !in after && ':' !in after
  }

  /**
   * Text that ends in a character no name contains and in which pass `p`
   * finds none of its names before its separator: the pass copies it,
   * whatever follows.
   */
  ghost predicate Passive(p: Pattern, x: string) {
    x != [] && !KeyChar(x[|x| - 1]) && NoKey(p, x)
  }

  /** Text that each of the four passes of string mode copies. */
  ghost predicate StringPassive(x: string) {
    Passive(Rx, x) && Passive(Extra, x) && Passive(Backgrounds, x) && Passive(Srcset, x)
  }

  /** `<img src="v" />`. */
  function Img(v: string): string {
    Tag("<img ", "src", '"', v, " />")
  }

  /** `<source srcset="value">`. */
  function Source(value: string): string {
    Tag("<source ", "srcset", '"', value, ">")
  }

  /** `<style>.shapes{background-image:value;}</style>`. */
  function Style(value: string): string {
    "<style>.shapes{" + ("background-image" + ":" + value + ";" + "}</style>")
  }

  /** A value no lead accepts and no url is captured from: it opens with a character other than `.`, `/` and `#`, or with `//`. */
  predicate Inert(v: string) {
    v != [] && ((v[0] != '.' && v[0] != '/' && v[0] != '#') || (|v| >= 2 && v[0] == '/' && v[1] == '/'))
  }

  /** No quote and no line terminator: a srcset value the srcset pass takes whole. */
  predicate Unquoted(s: string) {
    forall i :: 0 <= i < |s| ==> !IsQuote(s[i]) && !IsLineTerminator(s[i])
  }

  lemma InertValue(v: string, z: string)
    requires Inert(v)
    ensures RelativeLead(v + z).None? && CapturedUrl(v + z).None?
  {
    assert (v + z)[0] == v[0];
    if |v| >= 2 {
      assert (v + z)[1] == v[1];
    }
  }

  lemma UnquotedJoin(a: string, b: string, c: string)
    requires Unquoted(a) && Unquoted(b) && Unquoted(c)
    ensures Unquoted(a + b + c)
  {
    forall i | 0 <= i < |a + b + c|
      ensures !IsQuote((a + b + c)[i]) && !IsLineTerminator((a + b + c)[i])
    {
      if i < |a| {
        assert (a + b + c)[i] == a[i];
      } else if i < |a| + |b| {
        assert (a + b + c)[i] == b[i - |a|];
      } else {
        assert (a + b + c)[i] == c[i - |a| - |b|];
      }
    }
  }

  /** Two steps of a scan, each emitting a piece and leaving the rest, emit the two pieces. */
  lemma Steps2(r0: string, r1: string, r2: string, a: string, b: string)
    requires r0 == a + r1 && r1 == b + r2
    ensures r0 == a + b + r2
  {
  }

  /** Three steps of a scan. */
  lemma Steps3(r0: string, r1: string, r2: string, r3: string, a: string, b: string, c: string)
    requires r0 == a + r1 && r1 == b + r2 && r2 == c + r3
    ensures r0 == a + b + c + r3
  {
  }

  /** Six steps of a scan that ends with the text. */
  lemma Steps6(r0: string, r1: string, r2: string, r3: string, r4: string, r5: string, r6: string,
               a: string, b: string, c: string, d: string, e: string, f: string)
    requires r0 == a + r1 && r1 == b + r2 && r2 == c + r3 && r3 == d + r4 && r4 == e + r5 && r5 == f + r6 && r6 == []
    ensures r0 == a + (b + (c + (d + (e + f))))
  {
  }

  // ---------------------------------------------------------------------
  // One element through one pass
  // ---------------------------------------------------------------------

  lemma TagSplit(open: string, name: string, q: char, v: string, after: string, z: string)
    ensures Tag(open, name, q, v, after) + z == open + (name + "=" + [q] + (v + ([q] + after) + z))
  {
  }

  lemma TagChars(open: string, name: string, q: char, v: string, after: string, c: char)
    requires after != []
    ensures Tag(open, name, q, v, after)[|Tag(open, name, q, v, after)| - 1] == after[|after| - 1]
    ensures c !in open && c !in name && c != '=' && c != q && c !in v && c !in after ==> c !in Tag(open, name, q, v, after)
  {
  }

  /** What follows a value: it ends with `>` and adds no `=` or `:`. */
  lemma ValueTail(q: char, v: string, after: string)
    requires IsQuote(q) && Closing(after)
    ensures v + ([q] + after) != [] && !KeyChar((v + ([q] + after))[|v + ([q] + after)| - 1])
    ensures '=' !in v ==> '=' !in v + ([q] + after)
    ensures ':' !in v ==> ':' !in v + ([q] + after)
    ensures '=' !in v ==> '=' !in [q] + v + ([q] + after)
  {
    assert (v + ([q] + after))[|v + ([q] + after)| - 1] == after[|after| - 1];
    assert ([q] + v + ([q] + after))[|[q] + v + ([q] + after)| - 1] == after[|after| - 1];
  }

  /** The opening text of an element is copied by a pass that does not look for its characters. */
  lemma TagOpen(p: Pattern, open: string, name: string, q: char, v: string, after: string, z: string, emit: Match -> string)
    requires Passive(p, open)
    ensures Replace(MatcherOf(p), Tag(open, name, q, v, after) + z, emit)
         == open + Replace(MatcherOf(p), name + "=" + [q] + (v + ([q] + after) + z), emit)
  {
    TagSplit(open, name, q, v, after, z);
    CopyKeyFree(p, open, name + "=" + [q] + (v + ([q] + after) + z), emit);
  }

  /** The rest of a value, its closing quote and the text after it are copied when they hold no separator. */
  lemma ValueCopied(p: Pattern, q: char, w: string, after: string, z: string, emit: Match -> string)
    requires Sep(p) == '=' || Sep(p) == ':'
    requires IsQuote(q) && Closing(after) && Sep(p) !in w
    ensures Replace(MatcherOf(p), w + ([q] + after) + z, emit) == w + ([q] + after) + Replace(MatcherOf(p), z, emit)
  {
    ValueTail(q, w, after);
    CopyPlain(p, w + ([q] + after), z, emit);
  }

  /** Opening text holds no separator of a pass that looks for `=` or `:`. */
  lemma OpeningPassive(p: Pattern, open: string)
    requires Sep(p) == '=' || Sep(p) == ':'
    requires Opening(open)
    ensures Passive(p, open)
  {
    NoSepNoKey(p, open);
  }

  /** Nor does a value tail without that separator. */
  lemma TailPassive(p: Pattern, q: char, w: string, after: string)
    requires Sep(p) == '=' || Sep(p) == ':'
    requires IsQuote(q) && Closing(after) && Sep(p) !in w
    ensures Passive(p, w + ([q] + after))
  {
    ValueTail(q, w, after);
    NoSepNoKey(p, w + ([q] + after));
  }

  /** Passive text stays passive behind text without a key that it joins where no name can cross. */
  lemma PassiveJoin(p: Pattern, a: string, b: string)
    requires NoKey(p, a) && Passive(p, b)
    requires (a != [] && !KeyChar(a[|a| - 1])) || (!KeyChar(b[0]) && b[0] != Sep(p))
    ensures Passive(p, a + b)
  {
    NoKeyJoin(p, a, b);
    assert (a + b)[|a + b| - 1] == b[|b| - 1];
  }

  /** A value rewritten to the base, a slash and the dot-run, before a passive tail, is passive for a pass whose separator none of them holds. */
  lemma RewrittenPassive(p: Pattern, base: string, l: Lead, w: string, q: char, after: string)
    requires Sep(p) == '=' || Sep(p) == ':'
    requires NoKey(p, base) && Passive(p, w + ([q] + after))
    ensures Passive(p, base + "/" + DotGroup(l) + w + ([q] + after))
  {
    var c := "/" + DotGroup(l);
    var t := w + ([q] + after);
    DotGroupPlain(l);
    assert c[|c| - 1] == '/';
    NoSepNoKey(p, c);
    PassiveJoin(p, c, t);
    assert (c + t)[0] == '/';
    PassiveJoin(p, base, c + t);
    assert base + "/" + DotGroup(l) + w + ([q] + after) == base + (c + t);
  }

  /** A relative lead before a passive tail is passive for an attribute pass. */
  lemma LeadPassive(p: Pattern, l: Lead, w: string, q: char, after: string)
    requires Sep(p) == '='
    requires Passive(p, w + ([q] + after))
    ensures Passive(p, LeadText(l) + w + ([q] + after))
  {
    var t := w + ([q] + after);
    if l.Anchor? {
      assert LeadText(l) + w + ([q] + after) == t;
    } else {
      var a := LeadText(l);
      assert a[|a| - 1] == '/' && '=' !in a;
      NoSepNoKey(p, a);
      PassiveJoin(p, a, t);
      assert LeadText(l) + w + ([q] + after) == a + t;
    }
  }

  /** `rx` and `extra` copy an attribute whose value has no relative lead. */
  lemma AttrKept(p: Pattern, name: string, q: char, v: string, after: string, z: string, emit: Match -> string)
    requires p == Rx || p == Extra
    requires Closing(after) && '=' !in name && IsQuote(q)
    requires Inert(v) && '=' !in v
    ensures Replace(MatcherOf(p), name + "=" + [q] + (v + ([q] + after) + z), emit)
         == name + "=" + [q] + (v + ([q] + after)) + Replace(MatcherOf(p), z, emit)
  {
    var m := MatcherOf(p);
    var tail := v + ([q] + after) + z;
    InertValue(v, ([q] + after) + z);
    assert v + ([q] + after) + z == v + (([q] + after) + z);
    KeepsNonRelative(p, name, q, tail, emit);
    ValueCopied(p, q, v, after, z, emit);
    Steps2(Replace(m, name + "=" + [q] + tail, emit), Replace(m, tail, emit), Replace(m, z, emit),
           name + "=" + [q], v + ([q] + after));
  }

  /** `rx` and `extra` copy an element whose value has no relative lead. */
  lemma TagAttrKept(p: Pattern, open: string, name: string, q: char, v: string, after: string, z: string, emit: Match -> string)
    requires p == Rx || p == Extra
    requires Opening(open) && Closing(after) && '=' !in name && IsQuote(q)
    requires Inert(v) && '=' !in v
    ensures Replace(MatcherOf(p), Tag(open, name, q, v, after) + z, emit)
         == Tag(open, name, q, v, after) + Replace(MatcherOf(p), z, emit)
  {
    var m := MatcherOf(p);
    var rest := name + "=" + [q] + (v + ([q] + after) + z);
    OpeningPassive(p, open);
    TagOpen(p, open, name, q, v, after, z, emit);
    AttrKept(p, name, q, v, after, z, emit);
    Steps2(Replace(m, Tag(open, name, q, v, after) + z, emit), Replace(m, rest, emit), Replace(m, z, emit),
           open, name + "=" + [q] + (v + ([q] + after)));
  }

  /** Function mode copies an attribute whose value is not a captured url. */
  lemma AttrIterKept(name: string, q: char, v: string, after: string, z: string, f: (string, string) -> string)
    requires Closing(after) && '=' !in name && IsQuote(q)
    requires Inert(v) && '=' !in v
    ensures Iterate(name + "=" + [q] + (v + ([q] + after) + z), f) == name + "=" + [q] + (v + ([q] + after)) + Iterate(z, f)
  {
    var m := MatcherOf(CaptureRx);
    var emit := IterateCallback(f);
    var tail := v + ([q] + after) + z;
    InertValue(v, ([q] + after) + z);
    assert v + ([q] + after) + z == v + (([q] + after) + z);
    IterateKeepsUncaptured(name, q, tail, f);
    ValueCopied(CaptureRx, q, v, after, z, emit);
    Steps2(Replace(m, name + "=" + [q] + tail, emit), Replace(m, tail, emit), Replace(m, z, emit),
           name + "=" + [q], v + ([q] + after));
  }

  /** Function mode copies an element whose value is not a captured url. */
  lemma TagIterKept(open: string, name: string, q: char, v: string, after: string, z: string, f: (string, string) -> string)
    requires Opening(open) && Closing(after) && '=' !in name && IsQuote(q)
    requires Inert(v) && '=' !in v
    ensures Iterate(Tag(open, name, q, v, after) + z, f) == Tag(open, name, q, v, after) + Iterate(z, f)
  {
    var m := MatcherOf(CaptureRx);
    var emit := IterateCallback(f);
    var rest := name + "=" + [q] + (v + ([q] + after) + z);
    OpeningPassive(CaptureRx, open);
    TagOpen(CaptureRx, open, name, q, v, after, z, emit);
    AttrIterKept(name, q, v, after, z, f);
    Steps2(Replace(m, Tag(open, name, q, v, after) + z, emit), Replace(m, rest, emit), Replace(m, z, emit),
           open, name + "=" + [q] + (v + ([q] + after)));
  }

  /** A pass that looks for `=` copies an attribute whose name holds none of its names. */
  lemma WordKept(p: Pattern, name: string, q: char, v: string, after: string, z: string, emit: Match -> string)
    requires Sep(p) == '='
    requires IsQuote(q) && Passive(p, v + ([q] + after))
    requires name != [] && '=' !in name
    requires forall k :: 0 <= k < |name| ==> name[k..] !in Names(p)
    ensures Replace(MatcherOf(p), name + "=" + [q] + (v + ([q] + after) + z), emit)
         == name + "=" + [q] + (v + ([q] + after)) + Replace(MatcherOf(p), z, emit)
  {
    var m := MatcherOf(p);
    var t := v + ([q] + after);
    WordShape(name, Sep(p), q, t, z);
    UnlistedWord(p, name, [q] + t + z, emit);
    QuotedCopied(p, q, t, z, emit);
    Steps2(Replace(m, name + [Sep(p)] + ([q] + t + z), emit), Replace(m, [q] + t + z, emit), Replace(m, z, emit),
           name + [Sep(p)], [q] + t);
  }

  /** A pass that looks for `=` copies an opening quote and passive text after it. */
  lemma QuotedCopied(p: Pattern, q: char, t: string, z: string, emit: Match -> string)
    requires Sep(p) == '=' && IsQuote(q) && Passive(p, t)
    ensures Replace(MatcherOf(p), [q] + t + z, emit) == [q] + t + Replace(MatcherOf(p), z, emit)
  {
    NoSepNoKey(p, [q]);
    PassiveJoin(p, [q], t);
    CopyKeyFree(p, [q] + t, z, emit);
  }

  lemma WordShape(name: string, c: char, q: char, t: string, z: string)
    requires c == '='
    ensures name + "=" + [q] + (t + z) == name + [c] + ([q] + t + z)
    ensures name + [c] + ([q] + t) == name + "=" + [q] + t
  {
  }

  /**
   * A pass that looks for `=` copies an element whose attribute name holds
   * none of its names, when the opening text and the value tail hold none
   * of them before `=` either.
   */
  lemma TagUnlisted(p: Pattern, open: string, name: string, q: char, v: string, after: string, z: string, emit: Match -> string)
    requires Sep(p) == '='
    requires Passive(p, open) && IsQuote(q) && Passive(p, v + ([q] + after))
    requires name != [] && '=' !in name
    requires forall k :: 0 <= k < |name| ==> name[k..] !in Names(p)
    ensures Replace(MatcherOf(p), Tag(open, name, q, v, after) + z, emit)
         == Tag(open, name, q, v, after) + Replace(MatcherOf(p), z, emit)
  {
    var m := MatcherOf(p);
    var rest := name + "=" + [q] + (v + ([q] + after) + z);
    TagOpen(p, open, name, q, v, after, z, emit);
    WordKept(p, name, q, v, after, z, emit);
    Steps2(Replace(m, Tag(open, name, q, v, after) + z, emit), Replace(m, rest, emit), Replace(m, z, emit),
           open, name + "=" + [q] + (v + ([q] + after)));
  }

  /** The same for an element whose opening text and value hold no `=`. */
  lemma PlainUnlisted(p: Pattern, open: string, name: string, q: char, v: string, after: string, z: string, emit: Match -> string)
    requires Sep(p) == '='
    requires Opening(open) && Closing(after) && IsQuote(q) && '=' !in v
    requires name != [] && '=' !in name
    requires forall k :: 0 <= k < |name| ==> name[k..] !in Names(p)
    ensures Replace(MatcherOf(p), Tag(open, name, q, v, after) + z, emit)
         == Tag(open, name, q, v, after) + Replace(MatcherOf(p), z, emit)
  {
    OpeningPassive(p, open);
    TailPassive(p, q, v, after);
    TagUnlisted(p, open, name, q, v, after, z, emit);
  }

  /** The style pass copies an element without `:`. */
  lemma TagCopied(open: string, name: string, q: char, v: string, after: string, z: string, emit: Match -> string)
    requires Opening(open) && Closing(after) && IsQuote(q)
    requires ':' !in name && ':' !in v
    ensures Replace(MatcherOf(Backgrounds), Tag(open, name, q, v, after) + z, emit)
         == Tag(open, name, q, v, after) + Replace(MatcherOf(Backgrounds), z, emit)
  {
    TagChars(open, name, q, v, after, ':');
    CopyPlain(Backgrounds, Tag(open, name, q, v, after), z, emit);
  }

  /** The style pass copies an attribute whose value is a short scheme, `:` and a rest without `:`. */
  lemma SchemeKept(name: string, q: char, s: string, w: string, after: string, z: string, emit: Match -> string)
    requires Closing(after) && IsQuote(q) && ':' !in name
    requires s != [] && ':' !in s && |s| < 10 && ':' !in w
    ensures Replace(MatcherOf(Backgrounds), name + "=" + [q] + (s + ":" + w + ([q] + after) + z), emit)
         == name + "=" + [q] + (s + ":" + w + ([q] + after)) + Replace(MatcherOf(Backgrounds), z, emit)
  {
    var m := MatcherOf(Backgrounds);
    var a := name + "=" + [q];
    var tail := w + ([q] + after) + z;
    var rest := s + [':'] + tail;
    SchemeShape(name, q, s, w, [q] + after, z);
    CopyPlain(Backgrounds, a, rest, emit);
    SchemeValueKept(s, w, after, q, z, emit);
    Steps2(Replace(m, a + rest, emit), Replace(m, rest, emit), Replace(m, z, emit),
           a, s + [':'] + (w + ([q] + after)));
  }

  lemma SchemeShape(name: string, q: char, s: string, w: string, t: string, z: string)
    requires IsQuote(q) && ':' !in name
    ensures name + "=" + [q] + (s + ":" + w + t + z) == name + "=" + [q] + (s + [':'] + (w + t + z))
    ensures name + "=" + [q] + (s + [':'] + (w + t)) == name + "=" + [q] + (s + ":" + w + t)
    ensures ':' !in name + "=" + [q] && (name + "=" + [q])[|name + "=" + [q]| - 1] == q
  {
  }

  lemma SchemeValueKept(s: string, w: string, after: string, q: char, z: string, emit: Match -> string)
    requires Closing(after) && IsQuote(q)
    requires s != [] && ':' !in s && |s| < 10 && ':' !in w
    ensures Replace(MatcherOf(Backgrounds), s + [':'] + (w + ([q] + after) + z), emit)
         == s + [':'] + (w + ([q] + after)) + Replace(MatcherOf(Backgrounds), z, emit)
  {
    var m := MatcherOf(Backgrounds);
    var tail := w + ([q] + after) + z;
    ShorterThanProperties(s);
    ShortWord(Backgrounds, s, tail, emit);
    ValueCopied(Backgrounds, q, w, after, z, emit);
    Steps2(Replace(m, s + [':'] + tail, emit), Replace(m, tail, emit), Replace(m, z, emit),
           s + [':'], w + ([q] + after));
  }

  lemma ShorterThanProperties(s: string)
    requires |s| < 10
    ensures forall n :: n in Names(Backgrounds) ==> |s| < |n|
  {
  }

  /** The style pass copies an element whose value is a short scheme, `:` and a rest without `:`. */
  lemma TagSchemeCopied(open: string, name: string, q: char, s: string, w: string, after: string, z: string, emit: Match -> string)
    requires Opening(open) && Closing(after) && IsQuote(q) && ':' !in name
    requires s != [] && ':' !in s && |s| < 10 && ':' !in w
    ensures Replace(MatcherOf(Backgrounds), Tag(open, name, q, s + ":" + w, after) + z, emit)
         == Tag(open, name, q, s + ":" + w, after) + Replace(MatcherOf(Backgrounds), z, emit)
  {
    var m := MatcherOf(Backgrounds);
    var v := s + ":" + w;
    var rest := name + "=" + [q] + (v + ([q] + after) + z);
    OpeningPassive(Backgrounds, open);
    TagOpen(Backgrounds, open, name, q, v, after, z, emit);
    SchemeKept(name, q, s, w, after, z, emit);
    Steps2(Replace(m, Tag(open, name, q, v, after) + z, emit), Replace(m, rest, emit), Replace(m, z, emit),
           open, name + "=" + [q] + (v + ([q] + after)));
  }

  /** `rx` and `extra` rewrite an attribute whose value opens with a relative lead. */
  lemma AttrRewritten(p: Pattern, name: string, q: char, l: Lead, w: string, after: string, z: string, base: string)
    requires p == Rx || p == Extra
    requires name in Names(p) && IsQuote(q) && Passive(p, w + ([q] + after))
    requires RelativeLead(LeadText(l) + (w + ([q] + after) + z)) == Some(l)
    ensures Replace(MatcherOf(p), name + "=" + [q] + (LeadText(l) + w + ([q] + after) + z), AttrTemplate(base))
         == name + "=" + [q] + (base + "/" + DotGroup(l) + w + ([q] + after)) + Replace(MatcherOf(p), z, AttrTemplate(base))
  {
    var m := MatcherOf(p);
    var emit := AttrTemplate(base);
    var tail := w + ([q] + after) + z;
    Regroup(LeadText(l), w, [q] + after, z);
    RewritesRelativeValue(p, name, q, l, tail, base);
    CopyKeyFree(p, w + ([q] + after), z, emit);
    Steps2(Replace(m, name + "=" + [q] + (LeadText(l) + tail), emit), Replace(m, tail, emit), Replace(m, z, emit),
           name + "=" + [q] + base + "/" + DotGroup(l), w + ([q] + after));
    RewrittenShape(name, q, base, DotGroup(l), w, [q] + after);
  }

  lemma RewrittenShape(name: string, q: char, base: string, d: string, w: string, t: string)
    ensures name + "=" + [q] + base + "/" + d + (w + t) == name + "=" + [q] + (base + "/" + d + w + t)
  {
  }

  lemma Regroup(a: string, b: string, c: string, z: string)
    ensures a + b + c + z == a + (b + c + z)
  {
  }

  /** `rx` and `extra` rewrite an element whose value opens with a relative lead: the base and a slash replace the lead, a dot-run stays. */
  lemma TagRewritten(p: Pattern, open: string, name: string, q: char, l: Lead, w: string, after: string, z: string, base: string)
    requires p == Rx || p == Extra
    requires Passive(p, open) && name in Names(p) && IsQuote(q) && Passive(p, w + ([q] + after))
    requires RelativeLead(LeadText(l) + (w + ([q] + after) + z)) == Some(l)
    ensures Replace(MatcherOf(p), Tag(open, name, q, LeadText(l) + w, after) + z, AttrTemplate(base))
         == Tag(open, name, q, base + "/" + DotGroup(l) + w, after) + Replace(MatcherOf(p), z, AttrTemplate(base))
  {
    var m := MatcherOf(p);
    var emit := AttrTemplate(base);
    var v := LeadText(l) + w;
    var rest := name + "=" + [q] + (v + ([q] + after) + z);
    TagOpen(p, open, name, q, v, after, z, emit);
    AttrRewritten(p, name, q, l, w, after, z, base);
    var v' := base + "/" + DotGroup(l) + w;
    Steps2(Replace(m, Tag(open, name, q, v, after) + z, emit), Replace(m, rest, emit), Replace(m, z, emit),
           open, name + "=" + [q] + (v' + ([q] + after)));
  }

  /** Function mode replaces a captured url by the iterator's result for it and the matched name. */
  lemma AttrCaptured(name: string, q: char, u: string, w: string, after: string, z: string,
                     f: (string, string) -> string, l: Lead)
    requires name in PrimaryNames && IsQuote(q) && Passive(CaptureRx, w + ([q] + after))
    requires CapturedUrl(u + (w + ([q] + after) + z)) == Some((l, |u|))
    ensures Iterate(name + "=" + [q] + (u + w + ([q] + after) + z), f)
         == name + "=" + [q] + (f(u, name) + w + ([q] + after)) + Iterate(z, f)
  {
    var m := MatcherOf(CaptureRx);
    var emit := IterateCallback(f);
    var tail := w + ([q] + after) + z;
    Regroup(u, w, [q] + after, z);
    CapturesUrl(name, q, u, tail, f, l);
    CopyKeyFree(CaptureRx, w + ([q] + after), z, emit);
    Steps2(Replace(m, name + "=" + [q] + (u + tail), emit), Replace(m, tail, emit), Replace(m, z, emit),
           name + "=" + [q] + f(u, name), w + ([q] + after));
    CapturedShape(name, q, f(u, name), w, [q] + after);
  }

  lemma CapturedShape(name: string, q: char, x: string, w: string, t: string)
    ensures name + "=" + [q] + x + (w + t) == name + "=" + [q] + (x + w + t)
  {
  }

  /** Function mode replaces a captured url by the iterator's result for it and the matched name. */
  lemma TagCaptured(open: string, name: string, q: char, u: string, w: string, after: string, z: string,
                    f: (string, string) -> string, l: Lead)
    requires Passive(CaptureRx, open) && name in PrimaryNames && IsQuote(q) && Passive(CaptureRx, w + ([q] + after))
    requires CapturedUrl(u + (w + ([q] + after) + z)) == Some((l, |u|))
    ensures Iterate(Tag(open, name, q, u + w, after) + z, f) == Tag(open, name, q, f(u, name) + w, after) + Iterate(z, f)
  {
    var m := MatcherOf(CaptureRx);
    var emit := IterateCallback(f);
    var v := u + w;
    var rest := name + "=" + [q] + (v + ([q] + after) + z);
    TagOpen(CaptureRx, open, name, q, v, after, z, emit);
    AttrCaptured(name, q, u, w, after, z, f, l);
    var v' := f(u, name) + w;
    Steps2(Replace(m, Tag(open, name, q, v, after) + z, emit), Replace(m, rest, emit), Replace(m, z, emit),
           open, name + "=" + [q] + (v' + ([q] + after)));
  }

  // ---------------------------------------------------------------------
  // The style and the srcset through their passes
  // ---------------------------------------------------------------------

  /** A style without `=` is copied by every pass that looks for `=`. */
  lemma StyleCopied(p: Pattern, value: string, z: string, emit: Match -> string)
    requires Sep(p) == '=' && '=' !in value
    ensures Replace(MatcherOf(p), Style(value) + z, emit) == Style(value) + Replace(MatcherOf(p), z, emit)
  {
    StyleShape(value);
    CopyPlain(p, Style(value), z, emit);
  }

  lemma StyleShape(value: string)
    ensures Style(value)[|Style(value)| - 1] == '>'
    ensures forall c :: c in Style(value) ==> c in value || c in "<style>.shapes{background-image:;}</style>"
  {
  }

  lemma SourceSplit(value: string, z: string)
    ensures Source(value) + z == "<source " + ("srcset=" + ['"'] + value + ['"'] + (">" + z))
  {
  }

  lemma SourceRebuilt(list: string)
    ensures "<source " + ("srcset=" + ['"'] + list + ['"'] + ">") == Source(list)
  {
  }

  /** The srcset pass puts the value of a srcset through the candidate rewrite and keeps the rest. */
  lemma SourceRewritten(value: string, z: string, base: string)
    requires Unquoted(value)
    ensures Replace(MatcherOf(Srcset), Source(value) + z, SrcsetCallback(base))
         == Source(SrcsetList(value, base)) + Replace(MatcherOf(Srcset), z, SrcsetCallback(base))
  {
    var m := MatcherOf(Srcset);
    var emit := SrcsetCallback(base);
    var list := SrcsetList(value, base);
    var rest := "srcset=" + ['"'] + value + ['"'] + (">" + z);
    SourceHead(value, z, emit);
    SourceAttr(value, z, base);
    Steps2(Replace(m, Source(value) + z, emit), Replace(m, rest, emit), Replace(m, z, emit),
           "<source ", "srcset=" + ['"'] + list + ['"'] + ">");
    SourceRebuilt(list);
  }

  lemma SourceHead(value: string, z: string, emit: Match -> string)
    ensures Replace(MatcherOf(Srcset), Source(value) + z, emit)
         == "<source " + Replace(MatcherOf(Srcset), "srcset=" + ['"'] + value + ['"'] + (">" + z), emit)
  {
    SourceSplit(value, z);
    CopyPlain(Srcset, "<source ", "srcset=" + ['"'] + value + ['"'] + (">" + z), emit);
  }

  lemma SourceAttr(value: string, z: string, base: string)
    requires Unquoted(value)
    ensures Replace(MatcherOf(Srcset), "srcset=" + ['"'] + value + ['"'] + (">" + z), SrcsetCallback(base))
         == "srcset=" + ['"'] + SrcsetList(value, base) + ['"'] + ">" + Replace(MatcherOf(Srcset), z, SrcsetCallback(base))
  {
    var m := MatcherOf(Srcset);
    var emit := SrcsetCallback(base);
    assert ">"[0] == '>';
    CopyPlain(Srcset, ">", z, emit);
    RewritesSrcsetAttr('"', value, '"', ">" + z, base);
    Steps2(Replace(m, "srcset=" + ['"'] + value + ['"'] + (">" + z), emit), Replace(m, ">" + z, emit), Replace(m, z, emit),
           "srcset=" + ['"'] + SrcsetList(value, base) + ['"'], ">");
  }

  lemma StyleSplit(value: string, z: string)
    ensures Style(value) + z == "<style>.shapes{" + ("background-image" + ":" + value + ";" + ("}</style>" + z))
    ensures ':' !in "<style>.shapes{" && ':' !in "}</style>"
  {
  }

  lemma StyleRebuilt(value: string)
    ensures "<style>.shapes{" + ("background-image" + ":" + value + ";" + "}</style>") == Style(value)
  {
  }

  /** The style pass puts the value of the `background-image` declaration through the `url(` rewrite and keeps the rest. */
  lemma StyleRewritten(value: string, z: string, base: string)
    requires forall i :: 0 <= i < |value| ==> value[i] != ';' && !IsLineTerminator(value[i])
    ensures Replace(MatcherOf(Backgrounds), Style(value) + z, DeclarationCallback(base))
         == Style(Replace(MatcherOf(Urls), value, UrlTemplate(base))) + Replace(MatcherOf(Backgrounds), z, DeclarationCallback(base))
  {
    var m := MatcherOf(Backgrounds);
    var emit := DeclarationCallback(base);
    var v' := Replace(MatcherOf(Urls), value, UrlTemplate(base));
    var rest := "background-image" + ":" + value + ";" + ("}</style>" + z);
    StyleHead(value, z, emit);
    StyleDeclaration(value, z, base);
    Steps2(Replace(m, Style(value) + z, emit), Replace(m, rest, emit), Replace(m, z, emit),
           "<style>.shapes{", "background-image" + ":" + v' + ";" + "}</style>");
    StyleRebuilt(v');
  }

  lemma StyleHead(value: string, z: string, emit: Match -> string)
    ensures Replace(MatcherOf(Backgrounds), Style(value) + z, emit)
         == "<style>.shapes{" + Replace(MatcherOf(Backgrounds), "background-image" + ":" + value + ";" + ("}</style>" + z), emit)
  {
    StyleSplit(value, z);
    CopyPlain(Backgrounds, "<style>.shapes{", "background-image" + ":" + value + ";" + ("}</style>" + z), emit);
  }

  lemma StyleDeclaration(value: string, z: string, base: string)
    requires forall i :: 0 <= i < |value| ==> value[i] != ';' && !IsLineTerminator(value[i])
    ensures Replace(MatcherOf(Backgrounds), "background-image" + ":" + value + ";" + ("}</style>" + z), DeclarationCallback(base))
         == "background-image" + ":" + Replace(MatcherOf(Urls), value, UrlTemplate(base)) + ";" + "}</style>"
            + Replace(MatcherOf(Backgrounds), z, DeclarationCallback(base))
  {
    var m := MatcherOf(Backgrounds);
    var emit := DeclarationCallback(base);
    StyleSplit(value, z);
    CopyPlain(Backgrounds, "}</style>", z, emit);
    RewritesDeclaration("background-image", value, "}</style>" + z, base);
    Steps2(Replace(m, "background-image" + ":" + value + ";" + ("}</style>" + z), emit), Replace(m, "}</style>" + z, emit), Replace(m, z, emit),
           "background-image" + ":" + Replace(MatcherOf(Urls), value, UrlTemplate(base)) + ";", "}</style>");
  }

  /** A `url(` whose value has no relative lead and no second `(` is copied. */
  lemma UrlKept(v: string, base: string)
    requires Inert(v) && !IsQuote(v[0]) && '(' !in v
    ensures Replace(MatcherOf(Urls), "url(" + v, UrlTemplate(base)) == "url(" + v
  {
    InertValue(v, []);
    assert v + [] == v;
    KeepsNonRelativeUrl(v, base);
    NoSepNoMatch(Urls, v);
    Untouched(MatcherOf(Urls), v, UrlTemplate(base));
  }


  // ---------------------------------------------------------------------
  // The `ok` fragment through every pass
  // ---------------------------------------------------------------------

  const OkUrl: string := "url(" + OkUrlValue
  const OkUrlValue: string := "//foo.com/assets/circle.svg)"
  const OkCandidates: seq<string> := ["//foo.com/logo/small.png 1x", "//foo.com/logo/large.png 2x"]
  const OkSrcset: string := "//foo.com/logo/small.png 1x" + ", " + "//foo.com/logo/large.png 2x"

  /** The fragment every test appends: four image sources, a style and a srcset that no pass may change. */
  const Ok: string :=
    Img("www.foo.com") + (Img("google.com") + (Img("http://www.bar.com") + (Img("//baz.com")
    + (Style(OkUrl) + Source(OkSrcset)))))

  lemma OkParts()
    ensures Ok == Img("www.foo.com") + (Img("google.com") + (Img("http://www.bar.com") + (Img("//baz.com")
                  + (Style(OkUrl) + (Source(OkSrcset) + [])))))
  {
    assert Source(OkSrcset) + [] == Source(OkSrcset);
  }

  /** The fixed text around the image and srcset values. */
  lemma TagPieces()
    ensures Opening("<img ") && Closing(" />") && Opening("<source ") && Closing(">")
    ensures "src" != [] && '=' !in "src" && ':' !in "src" && "srcset" != [] && '=' !in "srcset" && ':' !in "srcset"
  {
  }

  /** `src` holds no `srcset`. */
  lemma SrcUnlisted()
    ensures forall k :: 0 <= k < |"src"| ==> "src"[k..] !in Names(Srcset)
  {
  }

  /** `srcset` holds none of the names of the attribute passes. */
  lemma SrcsetUnlisted(p: Pattern)
    requires p == Rx || p == Extra || p == CaptureRx
    ensures forall k :: 0 <= k < |"srcset"| ==> "srcset"[k..] !in Names(p)
  {
    forall k | 0 <= k < 6
      ensures "srcset"[k..] !in Names(p)
    {
      if k == 0 {
        assert "srcset"[k..] == "srcset";
      } else if k == 1 {
        assert "srcset"[k..] == "rcset";
      } else if k == 2 {
        assert "srcset"[k..] == "cset";
      } else if k == 3 {
        assert "srcset"[k..] == "set";
      } else if k == 4 {
        assert "srcset"[k..] == "et";
      } else {
        assert "srcset"[k..] == "t";
      }
    }
  }

  lemma OkImage1()
    ensures Inert("www.foo.com") && '=' !in "www.foo.com" && ':' !in "www.foo.com"
  {
  }

  lemma OkImage2()
    ensures Inert("google.com") && '=' !in "google.com" && ':' !in "google.com"
  {
  }

  lemma OkImage3()
    ensures Inert("http://www.bar.com") && '=' !in "http://www.bar.com"
  {
  }

  lemma OkImage3Scheme()
    ensures "http://www.bar.com" == "http" + ":" + "//www.bar.com" && ':' !in "http" && ':' !in "//www.bar.com"
  {
  }

  lemma OkImage4()
    ensures Inert("//baz.com") && '=' !in "//baz.com" && ':' !in "//baz.com"
  {
  }

  lemma OkStyleValue()
    ensures '=' !in OkUrl
    ensures forall i :: 0 <= i < |OkUrl| ==> OkUrl[i] != ';' && !IsLineTerminator(OkUrl[i])
  {
  }

  lemma OkUrlInert()
    ensures Inert(OkUrlValue) && '(' !in OkUrlValue
  {
  }

  lemma OkSrcsetValue()
    ensures Inert(OkSrcset) && '=' !in OkSrcset && ':' !in OkSrcset
  {
  }

  lemma OkSrcsetChars()
    ensures Unquoted(OkSrcset)
  {
    assert Unquoted("//foo.com/logo/small.png 1x");
    assert Unquoted(", ");
    assert Unquoted("//foo.com/logo/large.png 2x");
    UnquotedJoin("//foo.com/logo/small.png 1x", ", ", "//foo.com/logo/large.png 2x");
  }

  /** The srcset of `ok` has only `//` candidates: the candidate rewrite gives it back. */
  lemma OkSrcsetKept(base: string)
    ensures SrcsetList(OkSrcset, base) == OkSrcset
  {
    var c0 := OkCandidates[0];
    var c1 := OkCandidates[1];
    assert IsTrimmed(c0) && IsTrimmed(c1);
    assert ',' !in c0 && ',' !in c1;
    assert SlashAt(c0, 1) && SlashAt(c1, 1);
    assert CandidateList(OkCandidates);
    SrcsetKeepsList(OkCandidates, base);
    assert Join(OkCandidates, ", ") == c0 + ", " + Join([c1], ", ");
  }

  /** `rx` and `extra` give `ok` back. */
  lemma OkAttrKept(p: Pattern, emit: Match -> string)
    requires p == Rx || p == Extra
    ensures Replace(MatcherOf(p), Ok, emit) == Ok
  {
    var m := MatcherOf(p);
    var z5 := Source(OkSrcset) + [];
    var z4 := Style(OkUrl) + z5;
    var z3 := Img("//baz.com") + z4;
    var z2 := Img("http://www.bar.com") + z3;
    var z1 := Img("google.com") + z2;
    OkParts();
    TagPieces();
    OkImage1();
    OkImage2();
    OkImage3();
    OkImage4();
    OkStyleValue();
    OkSrcsetValue();
    TagAttrKept(p, "<img ", "src", '"', "www.foo.com", " />", z1, emit);
    TagAttrKept(p, "<img ", "src", '"', "google.com", " />", z2, emit);
    TagAttrKept(p, "<img ", "src", '"', "http://www.bar.com", " />", z3, emit);
    TagAttrKept(p, "<img ", "src", '"', "//baz.com", " />", z4, emit);
    StyleCopied(p, OkUrl, z5, emit);
    SrcsetUnlisted(p);
    PlainUnlisted(p, "<source ", "srcset", '"', OkSrcset, ">", [], emit);
    Steps6(Replace(m, Img("www.foo.com") + z1, emit), Replace(m, z1, emit), Replace(m, z2, emit), Replace(m, z3, emit),
           Replace(m, z4, emit), Replace(m, z5, emit), Replace(m, [], emit),
           Img("www.foo.com"), Img("google.com"), Img("http://www.bar.com"), Img("//baz.com"), Style(OkUrl), Source(OkSrcset));
  }

  /** Function mode gives `ok` back. */
  lemma OkIterKept(f: (string, string) -> string)
    ensures Iterate(Ok, f) == Ok
  {
    var m := MatcherOf(CaptureRx);
    var emit := IterateCallback(f);
    var z5 := Source(OkSrcset) + [];
    var z4 := Style(OkUrl) + z5;
    var z3 := Img("//baz.com") + z4;
    var z2 := Img("http://www.bar.com") + z3;
    var z1 := Img("google.com") + z2;
    OkParts();
    TagPieces();
    OkImage1();
    OkImage2();
    OkImage3();
    OkImage4();
    OkStyleValue();
    OkSrcsetValue();
    TagIterKept("<img ", "src", '"', "www.foo.com", " />", z1, f);
    TagIterKept("<img ", "src", '"', "google.com", " />", z2, f);
    TagIterKept("<img ", "src", '"', "http://www.bar.com", " />", z3, f);
    TagIterKept("<img ", "src", '"', "//baz.com", " />", z4, f);
    StyleCopied(CaptureRx, OkUrl, z5, emit);
    SrcsetUnlisted(CaptureRx);
    PlainUnlisted(CaptureRx, "<source ", "srcset", '"', OkSrcset, ">", [], emit);
    Steps6(Replace(m, Img("www.foo.com") + z1, emit), Replace(m, z1, emit), Replace(m, z2, emit), Replace(m, z3, emit),
           Replace(m, z4, emit), Replace(m, z5, emit), Replace(m, [], emit),
           Img("www.foo.com"), Img("google.com"), Img("http://www.bar.com"), Img("//baz.com"), Style(OkUrl), Source(OkSrcset));
  }

  /** The style pass gives `ok` back: its one `url(` starts with `//`. */
  lemma OkStyleKept(base: string)
    ensures Replace(MatcherOf(Backgrounds), Ok, DeclarationCallback(base)) == Ok
  {
    var m := MatcherOf(Backgrounds);
    var emit := DeclarationCallback(base);
    var z5 := Source(OkSrcset) + [];
    var z4 := Style(OkUrl) + z5;
    var z3 := Img("//baz.com") + z4;
    var z2 := Img("http://www.bar.com") + z3;
    var z1 := Img("google.com") + z2;
    OkParts();
    TagPieces();
    OkImage1();
    OkImage2();
    OkImage3Scheme();
    OkImage4();
    OkStyleValue();
    OkSrcsetValue();
    TagCopied("<img ", "src", '"', "www.foo.com", " />", z1, emit);
    TagCopied("<img ", "src", '"', "google.com", " />", z2, emit);
    TagSchemeCopied("<img ", "src", '"', "http", "//www.bar.com", " />", z3, emit);
    TagCopied("<img ", "src", '"', "//baz.com", " />", z4, emit);
    StyleRewritten(OkUrl, z5, base);
    OkUrlKept(base);
    TagCopied("<source ", "srcset", '"', OkSrcset, ">", [], emit);
    Steps6(Replace(m, Img("www.foo.com") + z1, emit), Replace(m, z1, emit), Replace(m, z2, emit), Replace(m, z3, emit),
           Replace(m, z4, emit), Replace(m, z5, emit), Replace(m, [], emit),
           Img("www.foo.com"), Img("google.com"), Img("http://www.bar.com"), Img("//baz.com"), Style(OkUrl), Source(OkSrcset));
  }

  lemma OkUrlKept(base: string)
    ensures Replace(MatcherOf(Urls), OkUrl, UrlTemplate(base)) == OkUrl
  {
    OkUrlInert();
    UrlKept(OkUrlValue, base);
  }

  /** The srcset pass gives `ok` back: both candidates start with `//`. */
  lemma OkSrcsetPassKept(base: string)
    ensures Replace(MatcherOf(Srcset), Ok, SrcsetCallback(base)) == Ok
  {
    var m := MatcherOf(Srcset);
    var emit := SrcsetCallback(base);
    var z5 := Source(OkSrcset) + [];
    var z4 := Style(OkUrl) + z5;
    var z3 := Img("//baz.com") + z4;
    var z2 := Img("http://www.bar.com") + z3;
    var z1 := Img("google.com") + z2;
    OkParts();
    TagPieces();
    SrcUnlisted();
    OkImage1();
    OkImage2();
    OkImage3();
    OkImage4();
    OkStyleValue();
    OkSrcsetChars();
    PlainUnlisted(Srcset, "<img ", "src", '"', "www.foo.com", " />", z1, emit);
    PlainUnlisted(Srcset, "<img ", "src", '"', "google.com", " />", z2, emit);
    PlainUnlisted(Srcset, "<img ", "src", '"', "http://www.bar.com", " />", z3, emit);
    PlainUnlisted(Srcset, "<img ", "src", '"', "//baz.com", " />", z4, emit);
    StyleCopied(Srcset, OkUrl, z5, emit);
    SourceRewritten(OkSrcset, [], base);
    OkSrcsetKept(base);
    Steps6(Replace(m, Img("www.foo.com") + z1, emit), Replace(m, z1, emit), Replace(m, z2, emit), Replace(m, z3, emit),
           Replace(m, z4, emit), Replace(m, z5, emit), Replace(m, [], emit),
           Img("www.foo.com"), Img("google.com"), Img("http://www.bar.com"), Img("//baz.com"), Style(OkUrl), Source(OkSrcset));
  }

  /**
   * The fixed `ok` fragment comes back unchanged from every call, whether
   * with a base url or with an iterator.
   */
  lemma OkKept(policy: Policy)
    requires policy.BaseUrl? ==> '$' !in policy.url
    ensures Absolutify.Absolutify(Ok, policy) == Ok
  {
    match policy
    case Iterator(f) =>
      OkIterKept(f);
    case BaseUrl(base) =>
      OkAttrKept(Rx, AttrTemplate(base));
      OkAttrKept(Extra, AttrTemplate(base));
      OkStyleKept(base);
      OkSrcsetPassKept(base);
  }

  // ---------------------------------------------------------------------
  // String mode: the documents of the string tests
  // ---------------------------------------------------------------------

  /** The base url of the tests. */
  const ExampleBase: string := "http" + ":" + "//www.example.com"

  lemma ExampleBaseChars()
    ensures '$' !in ExampleBase && '=' !in ExampleBase && ExampleBase[0] == 'h'
    ensures ExampleBase + "/" == "http" + ":" + "//www.example.com/"
    ensures ':' !in "//www.example.com/" && '=' !in "/"
  {
    assert "//www.example.com" + "/" == "//www.example.com/";
  }

  /** The example base holds neither `$` nor `=`, and its one `:` follows the scheme. */
  lemma ExampleBaseNoKey()
    ensures '$' !in ExampleBase && '=' !in ExampleBase && NoKey(Backgrounds, ExampleBase)
  {
    ExampleBaseChars();
    SchemeBaseNoKey("http", "//www.example.com");
  }

  lemma DotGroupPlain(l: Lead)
    ensures ':' !in DotGroup(l) && '=' !in DotGroup(l)
  {
  }

  /** The attribute pass of string mode other than `p`. */
  function OtherAttrPass(p: Pattern): (o: Pattern)
    requires p == Rx || p == Extra
    ensures (o == Rx || o == Extra) && o != p
  {
    if p == Rx then Extra else Rx
  }

  /** A listed name holds neither separator. */
  lemma ListedName(p: Pattern, name: string)
    requires name in Names(p)
    ensures name != [] && '=' !in name && ':' !in name
  {
    NamesShape(p);
    assert AllKeyChars(name);
    forall c | c in name
      ensures c != '=' && c != ':'
    {
      var i :| 0 <= i < |name| && name[i] == c;
      assert KeyChar(name[i]);
    }
  }

  /**
   * A base that is a short scheme, `:` and a rest without `:` (`http:` and
   * `https:` urls without a port) holds no style property before `:`: the
   * properties are longer than the scheme.
   */
  lemma SchemeBaseNoKey(s: string, w: string)
    requires ':' !in s && |s| < 10 && ':' !in w
    ensures NoKey(Backgrounds, s + ":" + w)
  {
    var v := s + ":" + w;
    forall i | 0 <= i < |v|
      ensures !KeyAt(Backgrounds, v[i..])
    {
      forall n | n in Names(Backgrounds)
        ensures !(n + [':'] <= v[i..])
      {
        ShorterThanProperties(s);
        LongKeyMissed(n, s, w, i);
      }
    }
  }

  /** A word longer than the scheme is not followed by the one `:` of `scheme:rest`. */
  lemma LongKeyMissed(n: string, s: string, w: string, i: nat)
    requires ':' !in s && ':' !in w && |s| < |n|
    requires i < |s + ":" + w|
    ensures !(n + [':'] <= (s + ":" + w)[i..])
  {
    var v := s + ":" + w;
    var j := i + |n|;
    if j < |v| {
      assert j > |s| && v[j] == w[j - |s| - 1];
      assert v[i..][|n|] != ':';
    }
  }

  /**
   * The style pass copies an element whose value is a base without a style
   * key, a slash, the dot-run and a passive tail, when its opening text is
   * passive too.
   */
  lemma TagBaseCopied(open: string, name: string, q: char, base: string, l: Lead, w: string, after: string, z: string, emit: Match -> string)
    requires Passive(Backgrounds, open) && IsQuote(q) && ':' !in name
    requires NoKey(Backgrounds, base) && Passive(Backgrounds, w + ([q] + after))
    ensures Replace(MatcherOf(Backgrounds), Tag(open, name, q, base + "/" + DotGroup(l) + w, after) + z, emit)
         == Tag(open, name, q, base + "/" + DotGroup(l) + w, after) + Replace(MatcherOf(Backgrounds), z, emit)
  {
    var a := name + "=" + [q];
    var t := base + "/" + DotGroup(l) + w + ([q] + after);
    RewrittenPassive(Backgrounds, base, l, w, q, after);
    SchemeShape(name, q, [], [], [], []);
    NoSepNoKey(Backgrounds, a);
    PassiveJoin(Backgrounds, a, t);
    PassiveJoin(Backgrounds, open, a + t);
    assert Tag(open, name, q, base + "/" + DotGroup(l) + w, after) == open + (a + t);
    CopyKeyFree(Backgrounds, open + (a + t), z, emit);
  }

  /**
   * The two attribute passes over an element whose name is on the list of
   * pass `p` and whose value opens with a relative lead: `p` rewrites the
   * lead, the other pass copies the element, and the rest of the document
   * goes through both passes on its own.
   */
  lemma AttrPasses(p: Pattern, open: string, name: string, q: char, l: Lead, w: string, after: string, z: string, base: string)
    requires p == Rx || p == Extra
    requires Passive(Rx, open) && Passive(Extra, open) && IsQuote(q) && name in Names(p)
    requires forall k :: 0 <= k < |name| ==> name[k..] !in Names(OtherAttrPass(p))
    requires Passive(Rx, w + ([q] + after)) && Passive(Extra, w + ([q] + after)) && '=' !in base
    requires RelativeLead(LeadText(l) + (w + [q])) == Some(l)
    ensures Replace(MatcherOf(Extra), Replace(MatcherOf(Rx), Tag(open, name, q, LeadText(l) + w, after) + z, AttrTemplate(base)), AttrTemplate(base))
         == Tag(open, name, q, base + "/" + DotGroup(l) + w, after)
          + Replace(MatcherOf(Extra), Replace(MatcherOf(Rx), z, AttrTemplate(base)), AttrTemplate(base))
  {
    var at := AttrTemplate(base);
    var v := LeadText(l) + w;
    var v' := base + "/" + DotGroup(l) + w;
    var z1 := Replace(MatcherOf(Rx), z, at);
    ListedName(p, name);
    if p == Rx {
      assert Replace(MatcherOf(Rx), Tag(open, name, q, v, after) + z, at) == Tag(open, name, q, v', after) + z1 by {
        LeadBeforeTail(l, w, q, after, z);
        TagRewritten(Rx, open, name, q, l, w, after, z, base);
      }
      RewrittenUnlisted(Extra, open, name, q, base, l, w, after, z1, at);
    } else {
      assert Passive(Rx, v + ([q] + after)) by {
        LeadPassive(Rx, l, w, q, after);
      }
      TagUnlisted(Rx, open, name, q, v, after, z, at);
      LeadBeforeTail(l, w, q, after, z1);
      TagRewritten(Extra, open, name, q, l, w, after, z1, base);
    }
  }

  lemma LeadBeforeTail(l: Lead, w: string, q: char, after: string, z: string)
    requires RelativeLead(LeadText(l) + (w + [q])) == Some(l)
    ensures RelativeLead(LeadText(l) + (w + ([q] + after) + z)) == Some(l)
  {
    LeadExtends(l, w + [q], after + z);
    assert LeadText(l) + (w + ([q] + after) + z) == LeadText(l) + (w + [q]) + (after + z);
  }

  /**
   * With a base url, an element whose attribute is on the list of either
   * attribute pass and whose value has a relative lead comes out of all four
   * passes with the lead replaced, and the rest of the document goes through
   * on its own. The opening text before the attribute and the value tail
   * after the lead (with the closing quote and the text up to the end of the
   * element) may hold anything in which no pass finds one of its names
   * before its separator: further attributes and inline styles with
   * unlisted names. The base must hold no `=` (the attribute passes would
   * see an attribute inside it) and no style property before `:` (the style
   * pass would rewrite inside it); an element whose name holds a name of
   * another `=` pass as a tail is out of scope.
   */
  lemma TagStringMode(p: Pattern, open: string, name: string, q: char, l: Lead, w: string, after: string, z: string, base: string)
    requires p == Rx || p == Extra
    requires IsQuote(q) && name in Names(p)
    requires forall k :: 0 <= k < |name| ==> name[k..] !in Names(OtherAttrPass(p)) && name[k..] !in Names(Srcset)
    requires StringPassive(open) && StringPassive(w + ([q] + after))
    requires RelativeLead(LeadText(l) + (w + [q])) == Some(l)
    requires '$' !in base && '=' !in base && NoKey(Backgrounds, base)
    ensures StringMode(Tag(open, name, q, LeadText(l) + w, after) + z, base)
         == Tag(open, name, q, base + "/" + DotGroup(l) + w, after) + StringMode(z, base)
  {
    var v' := base + "/" + DotGroup(l) + w;
    var z2 := Replace(MatcherOf(Extra), Replace(MatcherOf(Rx), z, AttrTemplate(base)), AttrTemplate(base));
    var z3 := Replace(MatcherOf(Backgrounds), z2, DeclarationCallback(base));
    var t' := Tag(open, name, q, v', after);
    var r2 := Replace(MatcherOf(Extra), Replace(MatcherOf(Rx), Tag(open, name, q, LeadText(l) + w, after) + z, AttrTemplate(base)), AttrTemplate(base));
    assert r2 == t' + z2 by {
      AttrPasses(p, open, name, q, l, w, after, z, base);
    }
    assert Replace(MatcherOf(Backgrounds), t' + z2, DeclarationCallback(base)) == t' + z3 by {
      ListedName(p, name);
      TagBaseCopied(open, name, q, base, l, w, after, z2, DeclarationCallback(base));
    }
    assert Replace(MatcherOf(Srcset), t' + z3, SrcsetCallback(base)) == t' + Replace(MatcherOf(Srcset), z3, SrcsetCallback(base)) by {
      ListedName(p, name);
      RewrittenUnlisted(Srcset, open, name, q, base, l, w, after, z3, SrcsetCallback(base));
    }
  }

  /** A pass that looks for `=` copies an element rewritten to a base without `=`, when the attribute name holds none of its names. */
  lemma RewrittenUnlisted(p: Pattern, open: string, name: string, q: char, base: string, l: Lead, w: string, after: string, z: string,
                          emit: Match -> string)
    requires Sep(p) == '='
    requires Passive(p, open) && IsQuote(q) && Passive(p, w + ([q] + after)) && '=' !in base
    requires name != [] && '=' !in name
    requires forall k :: 0 <= k < |name| ==> name[k..] !in Names(p)
    ensures Replace(MatcherOf(p), Tag(open, name, q, base + "/" + DotGroup(l) + w, after) + z, emit)
         == Tag(open, name, q, base + "/" + DotGroup(l) + w, after) + Replace(MatcherOf(p), z, emit)
  {
    var v' := base + "/" + DotGroup(l) + w;
    assert Passive(p, v' + ([q] + after)) by {
      NoSepNoKey(p, base);
      RewrittenPassive(p, base, l, w, q, after);
    }
    TagUnlisted(p, open, name, q, v', after, z, emit);
  }

  /** The same for an element whose opening text and value tail hold no `=` and no `:`. */
  lemma PlainStringMode(p: Pattern, open: string, name: string, q: char, l: Lead, w: string, after: string, z: string, base: string)
    requires p == Rx || p == Extra
    requires Opening(open) && Closing(after) && IsQuote(q) && name in Names(p)
    requires forall k :: 0 <= k < |name| ==> name[k..] !in Names(OtherAttrPass(p)) && name[k..] !in Names(Srcset)
    requires '=' !in w && ':' !in w
    requires RelativeLead(LeadText(l) + (w + [q])) == Some(l)
    requires '$' !in base && '=' !in base && NoKey(Backgrounds, base)
    ensures StringMode(Tag(open, name, q, LeadText(l) + w, after) + z, base)
         == Tag(open, name, q, base + "/" + DotGroup(l) + w, after) + StringMode(z, base)
  {
    PlainPieces(open, q, w, after);
    TagStringMode(p, open, name, q, l, w, after, z, base);
  }

  /** Opening text and a value tail without `=` and `:` are copied by every pass of string mode. */
  lemma PlainPieces(open: string, q: char, w: string, after: string)
    requires Opening(open) && Closing(after) && IsQuote(q) && '=' !in w && ':' !in w
    ensures StringPassive(open) && StringPassive(w + ([q] + after))
  {
    OpeningPassive(Rx, open);
    OpeningPassive(Extra, open);
    OpeningPassive(Backgrounds, open);
    OpeningPassive(Srcset, open);
    TailPassive(Rx, q, w, after);
    TailPassive(Extra, q, w, after);
    TailPassive(Backgrounds, q, w, after);
    TailPassive(Srcset, q, w, after);
  }

  /** `href` and `action` hold no `srcset`. */
  lemma ShortNames()
    ensures "href" in PrimaryNames && "href" != [] && '=' !in "href" && ':' !in "href"
    ensures "action" in PrimaryNames && "action" != [] && '=' !in "action" && ':' !in "action"
    ensures forall k :: 0 <= k < |"href"| ==> "href"[k..] !in Names(Srcset)
    ensures forall k :: 0 <= k < |"action"| ==> "action"[k..] !in Names(Srcset)
    ensures forall k :: 0 <= k < |"href"| ==> "href"[k..] !in Names(Extra)
    ensures forall k :: 0 <= k < |"action"| ==> "action"[k..] !in Names(Extra)
  {
    assert "action"[0..] == "action";
  }

  lemma LinkPieces()
    ensures Opening("<a ") && Closing(">Heyo</a>") && Closing(">Section</a>") && Opening("<form ") && Closing(">")
  {
  }

  /** A relative lead is recognised from the characters that follow it. */
  lemma LeadOf(l: Lead, x: string)
    requires l.DotsSlash? ==> 0 < l.dots
    requires l.Anchor? ==> x != [] && x[0] == '#'
    requires !l.Anchor? ==> x == [] || x[0] != '/'
    ensures RelativeLead(LeadText(l) + x) == Some(l)
  {
    match l
    case Slash =>
      SlashLead(x);
    case DotsSlash(n) =>
      DotsLead(n, x);
    case Anchor =>
      assert x == "#" + x[1..];
      AnchorLead(x[1..]);
  }

  /**
   * The `extra` list goes through the same four passes: with any base that
   * holds no `$`, no `=` and no style property before `:`, a root-relative
   * `poster` gets the base in front and nothing else changes.
   */
  lemma PosterStringMode(base: string)
    requires '$' !in base && '=' !in base && NoKey(Backgrounds, base)
    ensures StringMode("<video poster=\"/a.png\">", base) == "<video poster=\"" + base + "/a.png\">"
  {
    assert "poster" in Names(Extra) && Opening("<video ") && Closing(">");
    ExtraTailsUnlisted("poster");
    assert forall k :: 0 <= k < |"poster"| ==> "poster"[k..] !in Names(Srcset) by {
      assert "poster"[0..] == "poster";
    }
    assert ("a.png" + ['"'])[0] == 'a';
    LeadOf(Slash, "a.png" + ['"']);
    PlainStringMode(Extra, "<video ", "poster", '"', Slash, "a.png", ">", [], base);
    PosterLink();
    PosterOut(base);
    assert StringMode([], base) == [];
  }

  lemma PosterLink()
    ensures Tag("<video ", "poster", '"', LeadText(Slash) + "a.png", ">") + [] == "<video poster=\"/a.png\">"
  {
    TagFlat("<video ", "poster", '"', LeadText(Slash), "a.png", ">");
    assert "<video " + "poster" + "=" + ['"'] + LeadText(Slash) == "<video poster=\"/";
    assert "a.png" + (['"'] + ">") == "a.png\">";
  }

  lemma PosterOut(base: string)
    ensures Tag("<video ", "poster", '"', base + "/" + DotGroup(Slash) + "a.png", ">") + []
         == "<video poster=\"" + base + "/a.png\">"
  {
    assert base + "/" + DotGroup(Slash) + "a.png" == base + "/a.png";
    TagFlat("<video ", "poster", '"', base, "/a.png", ">");
    assert "<video " + "poster" + "=" + ['"'] == "<video poster=\"";
    assert "/a.png" + (['"'] + ">") == "/a.png\">";
  }

  /** With a base url, `ok` comes back unchanged. */
  lemma OkStringMode()
    ensures StringMode(Ok, ExampleBase) == Ok
  {
    ExampleBaseChars();
    OkKept(BaseUrl(ExampleBase));
  }

  lemma RelativeLink()
    ensures Tag("<a ", "href", '"', LeadText(Slash) + "relative", ">Heyo</a>") == "<a href=\"/relative\">Heyo</a>"
  {
    TagFlat("<a ", "href", '"', LeadText(Slash), "relative", ">Heyo</a>");
    assert "<a " + "href" + "=" + ['"'] + LeadText(Slash) == "<a href=\"/";
    assert "relative" + (['"'] + ">Heyo</a>") == "relative\">Heyo</a>";
  }

  /** Tag with its value spliced between a fixed head and tail. */
  lemma TagFlat(open: string, name: string, q: char, b: string, r: string, after: string)
    ensures Tag(open, name, q, b + r, after) == (open + name + "=" + [q]) + b + (r + ([q] + after))
  {
  }

  lemma RelativeLinkRewritten()
    ensures Tag("<a ", "href", '"', ExampleBase + "/" + DotGroup(Slash) + "relative", ">Heyo</a>")
         == "<a href=\"" + ExampleBase + "/relative\">Heyo</a>"
  {
    assert ExampleBase + "/" + DotGroup(Slash) + "relative" == ExampleBase + "/relative";
    TagFlat("<a ", "href", '"', ExampleBase, "/relative", ">Heyo</a>");
    assert "<a " + "href" + "=" + ['"'] == "<a href=\"";
    assert "/relative" + (['"'] + ">Heyo</a>") == "/relative\">Heyo</a>";
  }

  /** test.js:17-24: a root-relative link gets the base in front. */
  lemma StringReplaceRelative()
    ensures StringMode("<a href=\"/relative\">Heyo</a>" + Ok, ExampleBase)
         == "<a href=\"" + ExampleBase + "/relative\">Heyo</a>" + Ok
  {
    ShortNames();
    LinkPieces();
    var x := "relative" + ['"'];
    assert x[0] == 'r';
    LeadOf(Slash, x);
    ExampleBaseNoKey();
    PlainStringMode(Rx, "<a ", "href", '"', Slash, "relative", ">Heyo</a>", Ok, ExampleBase);
    RelativeLink();
    RelativeLinkRewritten();
    OkStringMode();
  }

  lemma TwoDots()
    ensures LeadText(DotsSlash(2)) == "../" && DotGroup(DotsSlash(2)) == "../"
  {
    assert Dots(2) == "..";
  }

  lemma StringReplaceDotsLink()
    ensures Tag("<a ", "href", '"', LeadText(DotsSlash(2)) + "relative", ">Heyo</a>") == "<a href=\"../relative\">Heyo</a>"
  {
    TwoDots();
    TagFlat("<a ", "href", '"', LeadText(DotsSlash(2)), "relative", ">Heyo</a>");
    assert "<a " + "href" + "=" + ['"'] + LeadText(DotsSlash(2)) == "<a href=\"../";
    assert "relative" + (['"'] + ">Heyo</a>") == "relative\">Heyo</a>";
  }

  lemma StringReplaceDotsRewritten()
    ensures Tag("<a ", "href", '"', ExampleBase + "/" + DotGroup(DotsSlash(2)) + "relative", ">Heyo</a>")
         == "<a href=\"" + ExampleBase + "/../relative\">Heyo</a>"
  {
    TwoDots();
    assert ExampleBase + "/" + DotGroup(DotsSlash(2)) + "relative" == ExampleBase + "/../relative";
    TagFlat("<a ", "href", '"', ExampleBase, "/../relative", ">Heyo</a>");
    assert "<a " + "href" + "=" + ['"'] == "<a href=\"";
    assert "/../relative" + (['"'] + ">Heyo</a>") == "/../relative\">Heyo</a>";
  }

  /** test.js:26-32: a dot-run lead stays after the base. */
  lemma StringReplaceDots()
    ensures StringMode("<a href=\"../relative\">Heyo</a>" + Ok, ExampleBase)
         == "<a href=\"" + ExampleBase + "/../relative\">Heyo</a>" + Ok
  {
    ShortNames();
    LinkPieces();
    var x := "relative" + ['"'];
    assert x[0] == 'r';
    TwoDots();
    LeadOf(DotsSlash(2), x);
    ExampleBaseNoKey();
    PlainStringMode(Rx, "<a ", "href", '"', DotsSlash(2), "relative", ">Heyo</a>", Ok, ExampleBase);
    StringReplaceDotsLink();
    StringReplaceDotsRewritten();
    OkStringMode();
  }

  lemma StringReplaceRootLink()
    ensures Tag("<a ", "href", '"', LeadText(Slash) + "", ">Heyo</a>") == "<a href=\"/\">Heyo</a>"
  {
    TagFlat("<a ", "href", '"', LeadText(Slash), "", ">Heyo</a>");
    assert "<a " + "href" + "=" + ['"'] + LeadText(Slash) == "<a href=\"/";
    assert "" + (['"'] + ">Heyo</a>") == "\">Heyo</a>";
  }

  lemma StringReplaceRootRewritten()
    ensures Tag("<a ", "href", '"', ExampleBase + "/" + DotGroup(Slash) + "", ">Heyo</a>")
         == "<a href=\"" + ExampleBase + "/\">Heyo</a>"
  {
    assert ExampleBase + "/" + DotGroup(Slash) + "" == ExampleBase + "/";
    TagFlat("<a ", "href", '"', ExampleBase, "/", ">Heyo</a>");
    assert "<a " + "href" + "=" + ['"'] == "<a href=\"";
    assert "/" + (['"'] + ">Heyo</a>") == "/\">Heyo</a>";
  }

  /** test.js:34-40: a value that is only a slash becomes the base and a slash. */
  lemma StringReplaceRoot()
    ensures StringMode("<a href=\"/\">Heyo</a>" + Ok, ExampleBase)
         == "<a href=\"" + ExampleBase + "/\">Heyo</a>" + Ok
  {
    ShortNames();
    LinkPieces();
    var x := "" + ['"'];
    assert x[0] == '"';
    LeadOf(Slash, x);
    ExampleBaseNoKey();
    PlainStringMode(Rx, "<a ", "href", '"', Slash, "", ">Heyo</a>", Ok, ExampleBase);
    StringReplaceRootLink();
    StringReplaceRootRewritten();
    OkStringMode();
  }

  lemma StringReplaceSingleQuoteLink()
    ensures Tag("<a ", "href", '\'', LeadText(DotsSlash(2)) + "relative", ">Heyo</a>") == "<a href='../relative'>Heyo</a>"
  {
    TwoDots();
    TagFlat("<a ", "href", '\'', LeadText(DotsSlash(2)), "relative", ">Heyo</a>");
    assert "<a " + "href" + "=" + ['\''] + LeadText(DotsSlash(2)) == "<a href='../";
    assert "relative" + (['\''] + ">Heyo</a>") == "relative'>Heyo</a>";
  }

  lemma StringReplaceSingleQuoteRewritten()
    ensures Tag("<a ", "href", '\'', ExampleBase + "/" + DotGroup(DotsSlash(2)) + "relative", ">Heyo</a>")
         == "<a href='" + ExampleBase + "/../relative'>Heyo</a>"
  {
    TwoDots();
    assert ExampleBase + "/" + DotGroup(DotsSlash(2)) + "relative" == ExampleBase + "/../relative";
    TagFlat("<a ", "href", '\'', ExampleBase, "/../relative", ">Heyo</a>");
    assert "<a " + "href" + "=" + ['\''] == "<a href='";
    assert "/../relative" + (['\''] + ">Heyo</a>") == "/../relative'>Heyo</a>";
  }

  /** test.js:43-50: the single quote is kept. */
  lemma StringReplaceSingleQuote()
    ensures StringMode("<a href='../relative'>Heyo</a>" + Ok, ExampleBase)
         == "<a href='" + ExampleBase + "/../relative'>Heyo</a>" + Ok
  {
    ShortNames();
    LinkPieces();
    var x := "relative" + ['\''];
    assert x[0] == 'r';
    TwoDots();
    LeadOf(DotsSlash(2), x);
    ExampleBaseNoKey();
    PlainStringMode(Rx, "<a ", "href", '\'', DotsSlash(2), "relative", ">Heyo</a>", Ok, ExampleBase);
    StringReplaceSingleQuoteLink();
    StringReplaceSingleQuoteRewritten();
    OkStringMode();
  }

  lemma StringReplaceAnchorLink()
    ensures Tag("<a ", "href", '"', LeadText(Anchor) + "#section", ">Section</a>") == "<a href=\"#section\">Section</a>"
  {
    TagFlat("<a ", "href", '"', LeadText(Anchor), "#section", ">Section</a>");
    assert "<a " + "href" + "=" + ['"'] + LeadText(Anchor) == "<a href=\"";
    assert "#section" + (['"'] + ">Section</a>") == "#section\">Section</a>";
  }

  lemma StringReplaceAnchorRewritten()
    ensures Tag("<a ", "href", '"', ExampleBase + "/" + DotGroup(Anchor) + "#section", ">Section</a>")
         == "<a href=\"" + ExampleBase + "/#section\">Section</a>"
  {
    assert ExampleBase + "/" + DotGroup(Anchor) + "#section" == ExampleBase + "/#section";
    TagFlat("<a ", "href", '"', ExampleBase, "/#section", ">Section</a>");
    assert "<a " + "href" + "=" + ['"'] == "<a href=\"";
    assert "/#section" + (['"'] + ">Section</a>") == "/#section\">Section</a>";
  }

  /** test.js:63-70: an anchor gets the base and a slash in front of the `#`. */
  lemma StringReplaceAnchor()
    ensures StringMode("<a href=\"#section\">Section</a>" + Ok, ExampleBase)
         == "<a href=\"" + ExampleBase + "/#section\">Section</a>" + Ok
  {
    ShortNames();
    LinkPieces();
    var x := "#section" + ['"'];
    assert x[0] == '#';
    LeadOf(Anchor, x);
    ExampleBaseNoKey();
    PlainStringMode(Rx, "<a ", "href", '"', Anchor, "#section", ">Section</a>", Ok, ExampleBase);
    StringReplaceAnchorLink();
    StringReplaceAnchorRewritten();
    OkStringMode();
  }

  lemma FormLink()
    ensures Tag("<form ", "action", '"', LeadText(Slash) + "index.php", ">") == "<form action=\"/index.php\">"
  {
    TagFlat("<form ", "action", '"', LeadText(Slash), "index.php", ">");
    assert "<form " + "action" + "=" + ['"'] + LeadText(Slash) == "<form action=\"/";
    assert "index.php" + (['"'] + ">") == "index.php\">";
  }

  lemma FormRewritten()
    ensures Tag("<form ", "action", '"', ExampleBase + "/" + DotGroup(Slash) + "index.php", ">")
         == "<form action=\"" + ExampleBase + "/index.php\">"
  {
    assert ExampleBase + "/" + DotGroup(Slash) + "index.php" == ExampleBase + "/index.php";
    TagFlat("<form ", "action", '"', ExampleBase, "/index.php", ">");
    assert "<form " + "action" + "=" + ['"'] == "<form action=\"";
    assert "/index.php" + (['"'] + ">") == "/index.php\">";
  }

  /** A form whose action is root-relative, followed by any document. */
  lemma FormStringMode(z: string)
    ensures StringMode("<form action=\"/index.php\">" + z, ExampleBase)
         == "<form action=\"" + ExampleBase + "/index.php\">" + StringMode(z, ExampleBase)
  {
    ShortNames();
    LinkPieces();
    assert ("index.php" + ['"'])[0] == 'i';
    LeadOf(Slash, "index.php" + ['"']);
    ExampleBaseNoKey();
    PlainStringMode(Rx, "<form ", "action", '"', Slash, "index.php", ">", z, ExampleBase);
    FormLink();
    FormRewritten();
  }

  lemma Glue(a: string, b: string, z: string)
    ensures a + b + z == a + (b + z)
  {
  }

  lemma Glue4(a: string, f: string, e: string, t: string, z: string)
    ensures a + (f + e + t) + z == a + f + e + t + z
  {
  }

  /** test.js:53-60: every element in the document is rewritten. */
  lemma StringMultiReplace()
    ensures StringMode("<a href=\"/relative\">Heyo</a>" + "<form action=\"/index.php\">" + Ok, ExampleBase)
         == "<a href=\"" + ExampleBase + "/relative\">Heyo</a>" + "<form action=\"" + ExampleBase + "/index.php\">" + Ok
  {
    var form := "<form action=\"/index.php\">";
    var form' := "<form action=\"" + ExampleBase + "/index.php\">";
    var link' := "<a href=\"" + ExampleBase + "/relative\">Heyo</a>";
    FormStringMode(Ok);
    OkStringMode();
    ShortNames();
    LinkPieces();
    var x := "relative" + ['"'];
    assert x[0] == 'r';
    LeadOf(Slash, x);
    ExampleBaseNoKey();
    PlainStringMode(Rx, "<a ", "href", '"', Slash, "relative", ">Heyo</a>", form + Ok, ExampleBase);
    RelativeLink();
    RelativeLinkRewritten();
    Glue("<a href=\"/relative\">Heyo</a>", form, Ok);
    Glue(link', form', Ok);
    Glue4(link', "<form action=\"", ExampleBase, "/index.php\">", Ok);
  }

  /** A value spliced after a base: `x + y` read as one piece. */
  lemma Spliced(a: string, base: string, x: string, y: string, r: string)
    requires x + y == r
    ensures a + base + x + y == a + base + r
  {
  }

  lemma SquareText()
    ensures "url(/assets/square.svg)" == "url(" + (LeadText(Slash) + "assets/square.svg)")
    ensures "/" + "assets/square.svg)" == "/assets/square.svg)"
    ensures "assets/square.svg)"[0] == 'a' && '(' !in "assets/square.svg)"
  {
  }

  /** The two-layer `background-image` value of the test, written in two pieces. */
  const Layers: string := "url(/assets/circle.svg)," + "url(/assets/square.svg)"

  lemma CircleText()
    ensures Layers == "url(" + (LeadText(Slash) + ("assets/circle.svg)," + "url(/assets/square.svg)"))
  {
    assert "url(/assets/circle.svg)," == "url(" + (LeadText(Slash) + "assets/circle.svg),");
  }

  lemma CircleChars()
    ensures "/" + "assets/circle.svg)," == "/assets/circle.svg),"
    ensures ("assets/circle.svg)," + "url(/assets/square.svg)")[0] == 'a'
    ensures '(' !in "assets/circle.svg)," && "assets/circle.svg),"[|"assets/circle.svg),"| - 1] == ','
  {
  }

  /** The second layer of the test's `background-image`: a bare root-relative `url(`. */
  lemma SquareUrl(base: string)
    ensures Replace(MatcherOf(Urls), "url(/assets/square.svg)", UrlTemplate(base)) == "url(" + base + "/assets/square.svg)"
  {
    var w := "assets/square.svg)";
    SquareText();
    LeadOf(Slash, w);
    RewritesBareUrl(Slash, w, base);
    NoSepNoMatch(Urls, w);
    Untouched(MatcherOf(Urls), w, UrlTemplate(base));
    Spliced("url(", base, "/", w, "/assets/square.svg)");
  }

  /** The first layer is rewritten and the scan goes on after the comma. */
  lemma CircleUrl(base: string)
    ensures Replace(MatcherOf(Urls), Layers, UrlTemplate(base))
         == "url(" + base + "/assets/circle.svg)," + Replace(MatcherOf(Urls), "url(/assets/square.svg)", UrlTemplate(base))
  {
    var m := MatcherOf(Urls);
    var t := UrlTemplate(base);
    var x := "assets/circle.svg),";
    var w := x + "url(/assets/square.svg)";
    CircleText();
    CircleChars();
    LeadOf(Slash, w);
    RewritesBareUrl(Slash, w, base);
    CopyPlain(Urls, x, "url(/assets/square.svg)", t);
    Steps2(Replace(m, "url(" + (LeadText(Slash) + w), t), Replace(m, w, t), Replace(m, "url(/assets/square.svg)", t),
           "url(" + base + "/", x);
    Spliced("url(", base, "/", x, "/assets/circle.svg),");
  }

  /** Both layers of a multi-layer `background-image` are rewritten, each on its own. */
  lemma LayersRewritten(base: string)
    ensures Replace(MatcherOf(Urls), Layers, UrlTemplate(base))
         == "url(" + base + "/assets/circle.svg),url(" + base + "/assets/square.svg)"
  {
    CircleUrl(base);
    SquareUrl(base);
    LayersJoin(base);
  }

  lemma LayersJoin(base: string)
    ensures "url(" + base + "/assets/circle.svg)," + ("url(" + base + "/assets/square.svg)")
         == "url(" + base + "/assets/circle.svg),url(" + base + "/assets/square.svg)"
  {
    Glue4("url(" + base + "/assets/circle.svg),", "url(", base, "/assets/square.svg)", []);
    assert "/assets/circle.svg)," + "url(" == "/assets/circle.svg),url(";
  }

  /** No `;` and no line terminator: a declaration value the style pass takes whole. */
  predicate OneDeclaration(s: string) {
    forall i :: 0 <= i < |s| ==> s[i] != ';' && !IsLineTerminator(s[i])
  }

  lemma OneDeclarationJoin(a: string, b: string)
    requires OneDeclaration(a) && OneDeclaration(b)
    ensures OneDeclaration(a + b)
  {
    forall i | 0 <= i < |a + b|
      ensures (a + b)[i] != ';' && !IsLineTerminator((a + b)[i])
    {
      if i < |a| {
        assert (a + b)[i] == a[i];
      } else {
        assert (a + b)[i] == b[i - |a|];
      }
    }
  }

  lemma LayersNoEquals()
    ensures '=' !in Layers
  {
    assert '=' !in "url(/assets/circle.svg)," && '=' !in "url(/assets/square.svg)";
  }

  lemma LayersChars()
    ensures forall i :: 0 <= i < |Layers| ==> Layers[i] != ';' && !IsLineTerminator(Layers[i])
  {
    assert OneDeclaration("url(/assets/circle.svg),");
    assert OneDeclaration("url(/assets/square.svg)");
    OneDeclarationJoin("url(/assets/circle.svg),", "url(/assets/square.svg)");
  }

  lemma LayersOutChars()
    ensures '=' !in "url(" + ExampleBase + "/assets/circle.svg),url(" + ExampleBase + "/assets/square.svg)"
  {
    ExampleBaseChars();
    assert '=' !in "url(" && '=' !in "/assets/circle.svg),url(" && '=' !in "/assets/square.svg)";
  }

  /** test.js:73-82: every `url(` layer of a `background-image` declaration gets the base. */
  lemma StringReplaceBackground()
    ensures StringMode(Style(Layers) + Ok, ExampleBase)
         == Style("url(" + ExampleBase + "/assets/circle.svg),url(" + ExampleBase + "/assets/square.svg)") + Ok
  {
    var b := ExampleBase;
    var v' := "url(" + b + "/assets/circle.svg),url(" + b + "/assets/square.svg)";
    assert Replace(MatcherOf(Rx), Style(Layers) + Ok, AttrTemplate(b)) == Style(Layers) + Ok by {
      LayersNoEquals();
      StyleCopied(Rx, Layers, Ok, AttrTemplate(b));
      OkAttrKept(Rx, AttrTemplate(b));
    }
    assert Replace(MatcherOf(Extra), Style(Layers) + Ok, AttrTemplate(b)) == Style(Layers) + Ok by {
      LayersNoEquals();
      StyleCopied(Extra, Layers, Ok, AttrTemplate(b));
      OkAttrKept(Extra, AttrTemplate(b));
    }
    assert Replace(MatcherOf(Backgrounds), Style(Layers) + Ok, DeclarationCallback(b)) == Style(v') + Ok by {
      LayersChars();
      StyleRewritten(Layers, Ok, b);
      OkStyleKept(b);
      LayersRewritten(b);
    }
    assert Replace(MatcherOf(Srcset), Style(v') + Ok, SrcsetCallback(b)) == Style(v') + Ok by {
      LayersOutChars();
      StyleCopied(Srcset, v', Ok, SrcsetCallback(b));
      OkSrcsetPassKept(b);
    }
  }


  // The srcset of test.js:85: two root-relative candidates around a `//` one.
  const SizesSmall: string := "/logo/272x92dp.png 1x"
  const SizesMedium: string := "//foo.com/" + "logo/" + "544x184dp.png 2x"
  const SizesLarge: string := "/logo/816x276dp.png 3x"
  const Sizes: seq<string> := [SizesSmall, SizesMedium, SizesLarge]
  const SizesSrcset: string := SizesSmall + ", " + SizesMedium + ", " + SizesLarge

  /** A srcset candidate with nothing to trim and no quote, comma, `=` or `:`. */
  predicate PlainCandidate(c: string) {
    c != "" && IsTrimmed(c) && ',' !in c && Unquoted(c) && '=' !in c && ':' !in c
  }

  lemma SmallPlain()
    ensures PlainCandidate(SizesSmall)
  {
  }

  lemma MediumPlain()
    ensures PlainCandidate(SizesMedium)
  {
    assert PlainPiece("//foo.com/") && PlainPiece("logo/") && PlainPiece("544x184dp.png 2x");
    PlainJoin("//foo.com/", "logo/", "544x184dp.png 2x");
  }

  /** A piece of a candidate: no quote, line terminator, comma, `=` or `:`. */
  predicate PlainPiece(s: string) {
    Unquoted(s) && ',' !in s && '=' !in s && ':' !in s
  }

  lemma PlainJoin(a: string, b: string, c: string)
    requires PlainPiece(a) && PlainPiece(b) && PlainPiece(c)
    requires a != "" && !IsTrimmable(a[0]) && c != "" && !IsTrimmable(c[|c| - 1])
    ensures PlainCandidate(a + b + c)
  {
    UnquotedJoin(a, b, c);
    assert (a + b + c)[0] == a[0];
    assert (a + b + c)[|a + b + c| - 1] == c[|c| - 1];
  }

  lemma LargePlain()
    ensures PlainCandidate(SizesLarge)
  {
  }

  lemma SizesCandidates()
    ensures CandidateList(Sizes)
  {
    SmallPlain();
    MediumPlain();
    LargePlain();
  }

  lemma SizesJoined()
    ensures Join(Sizes, ", ") == SizesSrcset
  {
    assert Sizes[1..] == [SizesMedium, SizesLarge];
    assert Join([SizesMedium, SizesLarge], ", ") == SizesMedium + ", " + Join([SizesLarge], ", ");
  }

  lemma NotInJoin(a: string, b: string, c: string, ch: char)
    requires ch !in a && ch !in b && ch !in c
    ensures ch !in a + b + c
  {
  }

  lemma SizesChars()
    ensures Unquoted(SizesSrcset) && '=' !in SizesSrcset && ':' !in SizesSrcset
  {
    SmallPlain();
    MediumPlain();
    LargePlain();
    assert Unquoted(", ") && '=' !in ", " && ':' !in ", ";
    UnquotedJoin(SizesSmall, ", ", SizesMedium);
    UnquotedJoin(SizesSmall + ", " + SizesMedium, ", ", SizesLarge);
    NotInJoin(SizesSmall, ", ", SizesMedium, '=');
    NotInJoin(SizesSmall + ", " + SizesMedium, ", ", SizesLarge, '=');
    NotInJoin(SizesSmall, ", ", SizesMedium, ':');
    NotInJoin(SizesSmall + ", " + SizesMedium, ", ", SizesLarge, ':');
  }

  /** Only the candidates with a single leading slash get the base. */
  lemma SmallRewritten(base: string)
    ensures RewriteUrl(SizesSmall, base) == base + "/logo/272x92dp.png 1x"
  {
    assert SizesSmall[1..] == "logo/272x92dp.png 1x";
    Spliced([], base, "/", "logo/272x92dp.png 1x", "/logo/272x92dp.png 1x");
  }

  lemma MediumKept(base: string)
    ensures RewriteUrl(SizesMedium, base) == SizesMedium
  {
  }

  lemma LargeRewritten(base: string)
    ensures RewriteUrl(SizesLarge, base) == base + "/logo/816x276dp.png 3x"
  {
    assert SizesLarge[1..] == "logo/816x276dp.png 3x";
    Spliced([], base, "/", "logo/816x276dp.png 3x", "/logo/816x276dp.png 3x");
  }

  lemma JoinThree(a: string, b: string, c: string)
    ensures Join([a, b, c], ", ") == a + ", " + b + ", " + c
  {
    assert [a, b, c][1..] == [b, c];
    assert [b, c][1..] == [c];
    assert Join([b, c], ", ") == b + ", " + c;
    assert Join([a, b, c], ", ") == a + ", " + (b + ", " + c);
  }

  lemma SizesListed(base: string)
    ensures SrcsetList(SizesSrcset, base) == Join(Rewritten(Sizes, base), ", ")
  {
    SizesCandidates();
    SizesJoined();
    SrcsetRewrite(Sizes, base);
  }

  lemma SizesEach(base: string)
    ensures Rewritten(Sizes, base) == [base + "/logo/272x92dp.png 1x", SizesMedium, base + "/logo/816x276dp.png 3x"]
  {
    SmallRewritten(base);
    MediumKept(base);
    LargeRewritten(base);
  }

  lemma SizesRewritten(base: string)
    ensures SrcsetList(SizesSrcset, base)
         == base + "/logo/272x92dp.png 1x" + ", " + SizesMedium + ", " + base + "/logo/816x276dp.png 3x"
  {
    SizesListed(base);
    SizesEach(base);
    JoinThree(base + "/logo/272x92dp.png 1x", SizesMedium, base + "/logo/816x276dp.png 3x");
  }

  /** test.js:84-93: in a srcset the single-slash candidates get the base and the `//` one is kept. */
  lemma StringReplaceSrcset()
    ensures StringMode(Source(SizesSrcset) + Ok, ExampleBase)
         == Source(ExampleBase + "/logo/272x92dp.png 1x" + ", " + SizesMedium + ", " + ExampleBase + "/logo/816x276dp.png 3x") + Ok
  {
    var b := ExampleBase;
    assert Replace(MatcherOf(Rx), Source(SizesSrcset) + Ok, AttrTemplate(b)) == Source(SizesSrcset) + Ok by {
      TagPieces();
      SizesChars();
      SrcsetUnlisted(Rx);
      PlainUnlisted(Rx, "<source ", "srcset", '"', SizesSrcset, ">", Ok, AttrTemplate(b));
      OkAttrKept(Rx, AttrTemplate(b));
    }
    assert Replace(MatcherOf(Extra), Source(SizesSrcset) + Ok, AttrTemplate(b)) == Source(SizesSrcset) + Ok by {
      TagPieces();
      SizesChars();
      SrcsetUnlisted(Extra);
      PlainUnlisted(Extra, "<source ", "srcset", '"', SizesSrcset, ">", Ok, AttrTemplate(b));
      OkAttrKept(Extra, AttrTemplate(b));
    }
    assert Replace(MatcherOf(Backgrounds), Source(SizesSrcset) + Ok, DeclarationCallback(b)) == Source(SizesSrcset) + Ok by {
      TagPieces();
      SizesChars();
      TagCopied("<source ", "srcset", '"', SizesSrcset, ">", Ok, DeclarationCallback(b));
      OkStyleKept(b);
    }
    assert Replace(MatcherOf(Srcset), Source(SizesSrcset) + Ok, SrcsetCallback(b))
        == Source(SrcsetList(SizesSrcset, b)) + Ok by {
      SizesChars();
      SourceRewritten(SizesSrcset, Ok, b);
      OkSrcsetPassKept(b);
    }
    SizesRewritten(b);
  }

  // ---------------------------------------------------------------------
  // Function mode: the tests of test.js:95-158
  // ---------------------------------------------------------------------

  /** The iterator of test.js:99-101: the base in front of the url. */
  function SiteIterator(url: string, attr: string): string {
    ExampleBase + url
  }

  /** The iterator of test.js:109-111. */
  function PublicIterator(url: string, attr: string): string {
    ExampleBase + "/public/" + url
  }

  /** The iterator of test.js:119-121. */
  function SlashIterator(url: string, attr: string): string {
    ExampleBase + "/" + url
  }

  /** A non-empty run of `[A-Za-z0-9._-]`. */
  predicate Token(t: string) {
    t != [] && forall i :: 0 <= i < |t| ==> IsTokenChar(t[i])
  }

  /** The capture takes the lead and the whole token run, and stops at the first other character. */
  lemma CaptureOf(l: Lead, t: string, x: string)
    requires l.DotsSlash? ==> 0 < l.dots
    requires Token(t) && (x == [] || !IsTokenChar(x[0]))
    ensures CapturedUrl(CaptureLeadText(l) + t + x) == Some((l, |CaptureLeadText(l) + t|))
  {
    var lead := CaptureLeadText(l);
    var v := lead + t + x;
    var n := |lead| + |t|;
    assert v[..|lead|] == lead;
    forall i | |lead| <= i < n
      ensures IsTokenChar(v[i])
    {
      assert v[i] == t[i - |lead|];
    }
    if n < |v| {
      assert v[n] == x[0];
    }
    CapturedUrlSpec(v, l, n);
  }

  /**
   * In function mode an element whose primary-list attribute holds a
   * captured url has that url replaced by what the iterator makes of it,
   * and the rest of the document goes through on its own. The opening text
   * and the value tail after the url may hold anything in which the capture
   * finds no listed name before `=`.
   */
  lemma TagIterate(open: string, name: string, q: char, l: Lead, t: string, w: string, after: string, z: string,
                   f: (string, string) -> string)
    requires Passive(CaptureRx, open) && name in PrimaryNames && IsQuote(q) && Passive(CaptureRx, w + ([q] + after))
    requires l.DotsSlash? ==> 0 < l.dots
    requires Token(t) && (w == [] || !IsTokenChar(w[0]))
    ensures Iterate(Tag(open, name, q, CaptureLeadText(l) + t + w, after) + z, f)
         == Tag(open, name, q, f(CaptureLeadText(l) + t, name) + w, after) + Iterate(z, f)
  {
    var x := w + ([q] + after) + z;
    assert x[0] == if w == [] then q else w[0];
    CaptureOf(l, t, x);
    TagCaptured(open, name, q, CaptureLeadText(l) + t, w, after, z, f, l);
  }

  /** The same for an element whose opening text and value tail hold no `=`. */
  lemma PlainIterate(open: string, name: string, q: char, l: Lead, t: string, w: string, after: string, z: string,
                     f: (string, string) -> string)
    requires Opening(open) && Closing(after) && name in PrimaryNames && IsQuote(q) && '=' !in w
    requires l.DotsSlash? ==> 0 < l.dots
    requires Token(t) && (w == [] || !IsTokenChar(w[0]))
    ensures Iterate(Tag(open, name, q, CaptureLeadText(l) + t + w, after) + z, f)
         == Tag(open, name, q, f(CaptureLeadText(l) + t, name) + w, after) + Iterate(z, f)
  {
    OpeningPassive(CaptureRx, open);
    TailPassive(CaptureRx, q, w, after);
    TagIterate(open, name, q, l, t, w, after, z, f);
  }

  lemma CaptureLeads()
    ensures CaptureLeadText(DotsSlash(2)) == "../" && CaptureLeadText(DotsSlash(1)) == "./"
  {
    assert Dots(2) == "..";
    assert Dots(1) == ".";
  }

  lemma FunctionReplaceLink()
    ensures Tag("<a ", "href", '"', CaptureLeadText(Slash) + "relative" + "", ">Heyo</a>") == "<a href=\"/relative\">Heyo</a>"
  {
    CaptureLeads();
    TagFlat("<a ", "href", '"', CaptureLeadText(Slash) + "relative", "", ">Heyo</a>");
    assert "<a " + "href" + "=" + ['"'] + (CaptureLeadText(Slash) + "relative") == "<a href=\"/relative";
    assert "" + (['"'] + ">Heyo</a>") == "\">Heyo</a>";
  }

  lemma FunctionReplaceOut()
    ensures Tag("<a ", "href", '"', SiteIterator(CaptureLeadText(Slash) + "relative", "href") + "", ">Heyo</a>")
         == "<a href=\"" + ExampleBase + "/relative\">Heyo</a>"
  {
    CaptureLeads();
    assert SiteIterator(CaptureLeadText(Slash) + "relative", "href") + "" == ExampleBase + "/relative";
    TagFlat("<a ", "href", '"', ExampleBase, "/relative", ">Heyo</a>");
    assert "<a " + "href" + "=" + ['"'] == "<a href=\"";
    assert "/relative" + (['"'] + ">Heyo</a>") == "/relative\">Heyo</a>";
  }

  /** test.js:95-104: the url is the root-relative lead and its token run. */
  lemma FunctionReplace()
    ensures Iterate("<a href=\"/relative\">Heyo</a>" + Ok, SiteIterator)
         == "<a href=\"" + ExampleBase + "/relative\">Heyo</a>" + Ok
  {
    ShortNames();
    LinkPieces();
    assert Token("relative");
    PlainIterate("<a ", "href", '"', Slash, "relative", "", ">Heyo</a>", Ok, SiteIterator);
    FunctionReplaceLink();
    FunctionReplaceOut();
    OkIterKept(SiteIterator);
  }

  lemma FunctionReplaceDotsLink()
    ensures Tag("<a ", "href", '"', CaptureLeadText(DotsSlash(2)) + "two" + "", ">Heyo</a>") == "<a href=\"../two\">Heyo</a>"
  {
    CaptureLeads();
    TagFlat("<a ", "href", '"', CaptureLeadText(DotsSlash(2)) + "two", "", ">Heyo</a>");
    assert "<a " + "href" + "=" + ['"'] + (CaptureLeadText(DotsSlash(2)) + "two") == "<a href=\"../two";
    assert "" + (['"'] + ">Heyo</a>") == "\">Heyo</a>";
  }

  lemma FunctionReplaceDotsOut()
    ensures Tag("<a ", "href", '"', PublicIterator(CaptureLeadText(DotsSlash(2)) + "two", "href") + "", ">Heyo</a>")
         == "<a href=\"" + ExampleBase + "/public/../two\">Heyo</a>"
  {
    CaptureLeads();
    assert PublicIterator(CaptureLeadText(DotsSlash(2)) + "two", "href") + "" == ExampleBase + "/public/../two";
    TagFlat("<a ", "href", '"', ExampleBase, "/public/../two", ">Heyo</a>");
    assert "<a " + "href" + "=" + ['"'] == "<a href=\"";
    assert "/public/../two" + (['"'] + ">Heyo</a>") == "/public/../two\">Heyo</a>";
  }

  /** test.js:106-114: a dot-run lead is part of the url the iterator sees. */
  lemma FunctionReplaceDots()
    ensures Iterate("<a href=\"../two\">Heyo</a>" + Ok, PublicIterator)
         == "<a href=\"" + ExampleBase + "/public/../two\">Heyo</a>" + Ok
  {
    ShortNames();
    LinkPieces();
    assert Token("two");
    PlainIterate("<a ", "href", '"', DotsSlash(2), "two", "", ">Heyo</a>", Ok, PublicIterator);
    FunctionReplaceDotsLink();
    FunctionReplaceDotsOut();
    OkIterKept(PublicIterator);
  }

  lemma FunctionReplaceDotLink()
    ensures Tag("<a ", "href", '"', CaptureLeadText(DotsSlash(1)) + "three" + "", ">Heyo</a>") == "<a href=\"./three\">Heyo</a>"
  {
    CaptureLeads();
    TagFlat("<a ", "href", '"', CaptureLeadText(DotsSlash(1)) + "three", "", ">Heyo</a>");
    assert "<a " + "href" + "=" + ['"'] + (CaptureLeadText(DotsSlash(1)) + "three") == "<a href=\"./three";
    assert "" + (['"'] + ">Heyo</a>") == "\">Heyo</a>";
  }

  lemma FunctionReplaceDotOut()
    ensures Tag("<a ", "href", '"', SlashIterator(CaptureLeadText(DotsSlash(1)) + "three", "href") + "", ">Heyo</a>")
         == "<a href=\"" + ExampleBase + "/./three\">Heyo</a>"
  {
    CaptureLeads();
    assert SlashIterator(CaptureLeadText(DotsSlash(1)) + "three", "href") + "" == ExampleBase + "/./three";
    TagFlat("<a ", "href", '"', ExampleBase, "/./three", ">Heyo</a>");
    assert "<a " + "href" + "=" + ['"'] == "<a href=\"";
    assert "/./three" + (['"'] + ">Heyo</a>") == "/./three\">Heyo</a>";
  }

  /** test.js:116-124: a single dot is a dot-run too. */
  lemma FunctionReplaceDot()
    ensures Iterate("<a href=\"./three\">Heyo</a>" + Ok, SlashIterator)
         == "<a href=\"" + ExampleBase + "/./three\">Heyo</a>" + Ok
  {
    ShortNames();
    LinkPieces();
    assert Token("three");
    PlainIterate("<a ", "href", '"', DotsSlash(1), "three", "", ">Heyo</a>", Ok, SlashIterator);
    FunctionReplaceDotLink();
    FunctionReplaceDotOut();
    OkIterKept(SlashIterator);
  }

  lemma FunctionReplaceAnchorLink()
    ensures Tag("<a ", "href", '"', CaptureLeadText(Anchor) + "section" + "", ">Section</a>") == "<a href=\"#section\">Section</a>"
  {
    CaptureLeads();
    TagFlat("<a ", "href", '"', CaptureLeadText(Anchor) + "section", "", ">Section</a>");
    assert "<a " + "href" + "=" + ['"'] + (CaptureLeadText(Anchor) + "section") == "<a href=\"#section";
    assert "" + (['"'] + ">Section</a>") == "\">Section</a>";
  }

  lemma FunctionReplaceAnchorOut()
    ensures Tag("<a ", "href", '"', SiteIterator(CaptureLeadText(Anchor) + "section", "href") + "", ">Section</a>")
         == "<a href=\"" + ExampleBase + "#section\">Section</a>"
  {
    CaptureLeads();
    assert SiteIterator(CaptureLeadText(Anchor) + "section", "href") + "" == ExampleBase + "#section";
    TagFlat("<a ", "href", '"', ExampleBase, "#section", ">Section</a>");
    assert "<a " + "href" + "=" + ['"'] == "<a href=\"";
    assert "#section" + (['"'] + ">Section</a>") == "#section\">Section</a>";
  }

  /** test.js:137-146: the `#` is consumed and handed to the iterator with the name. */
  lemma FunctionReplaceAnchor()
    ensures Iterate("<a href=\"#section\">Section</a>" + Ok, SiteIterator)
         == "<a href=\"" + ExampleBase + "#section\">Section</a>" + Ok
  {
    ShortNames();
    LinkPieces();
    assert Token("section");
    PlainIterate("<a ", "href", '"', Anchor, "section", "", ">Section</a>", Ok, SiteIterator);
    FunctionReplaceAnchorLink();
    FunctionReplaceAnchorOut();
    OkIterKept(SiteIterator);
  }

  /** No suffix of `lowsrc` that starts inside `low` is a primary name. */
  lemma LowUnlisted()
    ensures '=' !in "low" + "src"
    ensures forall k :: 0 <= k < |"low"| ==> ("low" + "src")[k..] !in Names(CaptureRx)
  {
    assert "low" + "src" == "lowsrc";
    assert "lowsrc"[0..] == "lowsrc" && "lowsrc"[1..] == "owsrc" && "lowsrc"[2..] == "wsrc";
  }

  lemma AttrShape(name: string, q: char, v: string)
    ensures name + "=" + [q] + v == name + ['='] + ([q] + v)
  {
  }

  /** The scan copies `low` when `src=` follows it. */
  lemma LowCopied(t: string, emit: Match -> string)
    ensures Replace(MatcherOf(CaptureRx), "low" + ("src" + ['='] + t), emit)
         == "low" + Replace(MatcherOf(CaptureRx), "src" + ['='] + t, emit)
  {
    LowUnlisted();
    InnerKeys(CaptureRx, "low", "src", t);
    CopyUnmatched(MatcherOf(CaptureRx), "low", "src" + ['='] + t, emit);
  }

  /** From `src=` on, `/x1` is the url and `/logo.png` stays. */
  lemma SrcCaptured(z: string, f: (string, string) -> string)
    ensures Iterate("src" + "=" + ['"'] + ("/x1" + "/logo.png" + (['"'] + ">") + z), f)
         == "src" + "=" + ['"'] + (f("/x1", "src") + "/logo.png" + (['"'] + ">")) + Iterate(z, f)
  {
    assert Closing(">") && "src" in PrimaryNames && '=' !in "/logo.png";
    assert Token("x1") && "/logo.png"[0] == '/';
    CaptureOf(Slash, "x1", "/logo.png" + (['"'] + ">") + z);
    assert CaptureLeadText(Slash) + "x1" == "/x1";
    TailPassive(CaptureRx, '"', "/logo.png", ">");
    AttrCaptured("src", '"', "/x1", "/logo.png", ">", z, f, Slash);
  }

  /**
   * `lowsrc="` holds `src="`, so the capture matches from `src`: `low` is
   * copied, `src` is the name the iterator sees and `/x1` the url, and the
   * `/logo.png` after the token run stays.
   */
  lemma LowsrcCaptured(z: string, f: (string, string) -> string)
    ensures Iterate("<img " + ("low" + ("src" + "=" + ['"'] + ("/x1" + "/logo.png" + (['"'] + ">") + z))), f)
         == "<img " + "low" + ("src" + "=" + ['"'] + (f("/x1", "src") + "/logo.png" + (['"'] + ">"))) + Iterate(z, f)
  {
    var m := MatcherOf(CaptureRx);
    var emit := IterateCallback(f);
    var v := "/x1" + "/logo.png" + (['"'] + ">") + z;
    var y := "src" + "=" + ['"'] + v;
    var y' := "src" + "=" + ['"'] + (f("/x1", "src") + "/logo.png" + (['"'] + ">"));
    assert Replace(m, y, emit) == y' + Replace(m, z, emit) by {
      SrcCaptured(z, f);
    }
    assert Replace(m, "low" + y, emit) == "low" + Replace(m, y, emit) by {
      AttrShape("src", '"', v);
      LowCopied(['"'] + v, emit);
    }
    assert Replace(m, "<img " + ("low" + y), emit) == "<img " + Replace(m, "low" + y, emit) by {
      assert Opening("<img ");
      CopyPlain(CaptureRx, "<img ", "low" + y, emit);
    }
    Steps3(Replace(m, "<img " + ("low" + y), emit), Replace(m, "low" + y, emit), Replace(m, y, emit), Replace(m, z, emit),
           "<img ", "low", y');
  }

  lemma LowsrcLink(z: string)
    ensures "<img lowsrc=\"/x1/logo.png\">" + z
         == "<img " + ("low" + ("src" + "=" + ['"'] + ("/x1" + "/logo.png" + (['"'] + ">") + z)))
  {
    assert "<img lowsrc=\"/x1/logo.png\">" == "<img " + "low" + "src" + "=" + ['"'] + "/x1" + "/logo.png" + ['"'] + ">";
  }

  lemma LowsrcOut()
    ensures "<img " + "low" + ("src" + "=" + ['"'] + (SiteIterator("/x1", "src") + "/logo.png" + (['"'] + ">")))
         == "<img lowsrc=\"" + ExampleBase + "/x1/logo.png\">"
  {
    assert "<img " + "low" + ("src" + "=" + ['"']) == "<img lowsrc=\"";
    assert "/x1" + "/logo.png" + (['"'] + ">") == "/x1/logo.png\">";
  }

  /** test.js:126-134: `lowsrc` is matched as `src`, and only the token run after the slash is the url. */
  lemma FunctionReplaceLowsrc()
    ensures Iterate("<img lowsrc=\"/x1/logo.png\">" + Ok, SiteIterator)
         == "<img lowsrc=\"" + ExampleBase + "/x1/logo.png\">" + Ok
  {
    LowsrcLink(Ok);
    LowsrcCaptured(Ok, SiteIterator);
    LowsrcOut();
    OkIterKept(SiteIterator);
  }

  /**
   * `dynsrc` is no name of its own either, but it ends in `src`: the first
   * pass copies `dyn` and rewrites the `src="/` after it, so `dynsrc="/x"`
   * is absolutified like `src="/x"`.
   */
  lemma DynsrcRewritten(w: string, base: string)
    requires w == [] || w[0] != '/'
    ensures Replace(MatcherOf(Rx), "dyn" + ("src" + "=" + ['"'] + "/" + w), AttrTemplate(base))
         == "dyn" + ("src" + "=" + ['"'] + base + "/" + Replace(MatcherOf(Rx), w, AttrTemplate(base)))
  {
    var t := ['"'] + "/" + w;
    assert "src" + "=" + ['"'] + "/" + w == "src" + ['='] + t;
    assert '=' !in "dyn" + "src";
    assert forall k :: 0 <= k < |"dyn"| ==> ("dyn" + "src")[k..] !in Names(Rx) by {
      assert "dyn" + "src" == "dynsrc";
      assert "dynsrc"[0..] == "dynsrc" && "dynsrc"[1..] == "ynsrc" && "dynsrc"[2..] == "nsrc";
    }
    InnerKeys(Rx, "dyn", "src", t);
    CopyUnmatched(MatcherOf(Rx), "dyn", "src" + ['='] + t, AttrTemplate(base));
    RewritesRootRelative(Rx, "src", '"', w, base);
  }

  lemma FormCaptureLink()
    ensures Tag("<form ", "action", '"', CaptureLeadText(Slash) + "index.php" + "", ">") == "<form action=\"/index.php\">"
  {
    TagFlat("<form ", "action", '"', CaptureLeadText(Slash) + "index.php", "", ">");
    assert "<form " + "action" + "=" + ['"'] + (CaptureLeadText(Slash) + "index.php") == "<form action=\"/index.php";
    assert "" + (['"'] + ">") == "\">";
  }

  lemma FormCaptureOut()
    ensures Tag("<form ", "action", '"', SiteIterator(CaptureLeadText(Slash) + "index.php", "action") + "", ">")
         == "<form action=\"" + ExampleBase + "/index.php\">"
  {
    assert SiteIterator(CaptureLeadText(Slash) + "index.php", "action") + "" == ExampleBase + "/index.php";
    TagFlat("<form ", "action", '"', ExampleBase, "/index.php", ">");
    assert "<form " + "action" + "=" + ['"'] == "<form action=\"";
    assert "/index.php" + (['"'] + ">") == "/index.php\">";
  }

  /** test.js:149-158: the iterator is called for every captured url in the document. */
  lemma FunctionMultiReplace()
    ensures Iterate("<a href=\"/relative\">Heyo</a>" + "<form action=\"/index.php\">" + Ok, SiteIterator)
         == "<a href=\"" + ExampleBase + "/relative\">Heyo</a>" + "<form action=\"" + ExampleBase + "/index.php\">" + Ok
  {
    var form := "<form action=\"/index.php\">";
    var form' := "<form action=\"" + ExampleBase + "/index.php\">";
    var link := "<a href=\"/relative\">Heyo</a>";
    var link' := "<a href=\"" + ExampleBase + "/relative\">Heyo</a>";
    assert Iterate(form + Ok, SiteIterator) == form' + Ok by {
      ShortNames();
      LinkPieces();
      assert Token("index.php");
      PlainIterate("<form ", "action", '"', Slash, "index.php", "", ">", Ok, SiteIterator);
      FormCaptureLink();
      FormCaptureOut();
      OkIterKept(SiteIterator);
    }
    assert Iterate(link + (form + Ok), SiteIterator) == link' + Iterate(form + Ok, SiteIterator) by {
      ShortNames();
      LinkPieces();
      assert Token("relative");
      PlainIterate("<a ", "href", '"', Slash, "relative", "", ">Heyo</a>", form + Ok, SiteIterator);
      FunctionReplaceLink();
      FunctionReplaceOut();
    }
    Glue(link, form, Ok);
    Glue(link', form', Ok);
    Glue4(link', "<form action=\"", ExampleBase, "/index.php\">", Ok);
  }

  /** No tail of `title` is a name of any pass that looks for `=`. */
  lemma TitleTails()
    ensures forall k :: 0 <= k < |"title"| ==> "title"[k..] !in PrimaryNames
    ensures forall k :: 0 <= k < |"title"| ==> "title"[k..] !in ExtraNames
    ensures forall k :: 0 <= k < |"title"| ==> "title"[k..] !in Names(Srcset)
  {
    forall k | 0 <= k < 5
      ensures "title"[k..] !in PrimaryNames && "title"[k..] !in ExtraNames && "title"[k..] !in Names(Srcset)
    {
      if k == 0 {
        assert "title"[k..] == "title";
      } else if k == 1 {
        assert "title"[k..] == "itle";
      } else if k == 2 {
        assert "title"[k..] == "tle";
      } else if k == 3 {
        assert "title"[k..] == "le";
      } else {
        assert "title"[k..] == "e";
      }
    }
  }

  /**
   * An element with an attribute that no pass lists comes back unchanged
   * from either mode, with any base and any iterator.
   */
  lemma UnlistedAttrKept(policy: Policy)
    requires policy.BaseUrl? ==> '$' !in policy.url
    ensures Absolutify.Absolutify("<a title=\"x\">", policy) == "<a title=\"x\">"
  {
    var s := "<a title=\"x\">";
    assert s == "<a " + "title" + ['='] + "\"x\">";
    assert NoKey(Rx, s) && NoKey(CaptureRx, s) by {
      TitleTails();
      NoKeyWord(Rx, "<a ", "title", "\"x\">");
      NoKeyWord(CaptureRx, "<a ", "title", "\"x\">");
    }
    assert NoKey(Extra, s) && NoKey(Srcset, s) by {
      TitleTails();
      NoKeyWord(Extra, "<a ", "title", "\"x\">");
      NoKeyWord(Srcset, "<a ", "title", "\"x\">");
    }
    assert NoKey(Backgrounds, s) by {
      assert ':' !in s;
      NoSepNoKey(Backgrounds, s);
    }
    AbsolutifyKeeps(s, policy);
  }

  /** The value tail of a link followed by a `title` attribute: no pass finds a name of its own before its separator in it. */
  lemma TitleTailPassive()
    ensures StringPassive("relative" + (['"'] + " title=\"x\">Heyo</a>"))
    ensures Passive(CaptureRx, "" + (['"'] + " title=\"x\">Heyo</a>"))
  {
    var t := "relative" + (['"'] + " title=\"x\">Heyo</a>");
    assert t == "relative\"" + " title=\"x\">Heyo</a>";
    TitleTail(Rx, "relative\"");
    TitleTail(Extra, "relative\"");
    TitleTail(Srcset, "relative\"");
    assert ':' !in t && t[|t| - 1] == '>';
    NoSepNoKey(Backgrounds, t);
    var u := "" + (['"'] + " title=\"x\">Heyo</a>");
    assert u == "\"" + " title=\"x\">Heyo</a>";
    TitleTail(CaptureRx, "\"");
  }

  /** Text ending in a quote, then ` title="x">Heyo</a>`: an attribute pass finds none of its names before `=`. */
  lemma TitleTail(p: Pattern, a: string)
    requires p == Rx || p == Extra || p == Srcset || p == CaptureRx
    requires '=' !in a && a != [] && a[|a| - 1] == '"'
    ensures Passive(p, a + " title=\"x\">Heyo</a>")
  {
    var b := "\"x\">Heyo</a>";
    var t := a + " title=\"x\">Heyo</a>";
    assert t == (a + " ") + "title" + ['='] + b;
    assert t[|t| - 1] == '>';
    TitleTails();
    NoKeyWord(p, a + " ", "title", b);
  }

  /** `<a href="v" title="x">Heyo</a>`: a link with a further attribute after `href`. */
  function TitledLink(v: string): string {
    "<a href=\"" + v + "\" title=\"x\">Heyo</a>"
  }

  lemma TitleLink(v: string)
    ensures Tag("<a ", "href", '"', v, " title=\"x\">Heyo</a>") + [] == TitledLink(v)
  {
  }

  /**
   * A further attribute after the rewritten one is copied: with a base
   * url, `href` gets the base and `title` stays.
   */
  lemma TitleAfterLink()
    ensures StringMode(TitledLink("/relative"), ExampleBase) == TitledLink(ExampleBase + "/relative")
  {
    var after := " title=\"x\">Heyo</a>";
    var v0 := LeadText(Slash) + "relative";
    var v1 := ExampleBase + "/" + DotGroup(Slash) + "relative";
    ExampleBaseChars();
    calc {
      StringMode(TitledLink("/relative"), ExampleBase);
      { assert v0 == "/relative"; TitleLink(v0); }
      StringMode(Tag("<a ", "href", '"', v0, after) + [], ExampleBase);
      { TitleLinkStringMode(); }
      Tag("<a ", "href", '"', v1, after) + [];
      { assert v1 == ExampleBase + "/relative"; TitleLink(v1); }
      TitledLink(ExampleBase + "/relative");
    }
  }

  lemma TitleLinkStringMode()
    ensures StringMode(Tag("<a ", "href", '"', LeadText(Slash) + "relative", " title=\"x\">Heyo</a>") + [], ExampleBase)
         == Tag("<a ", "href", '"', ExampleBase + "/" + DotGroup(Slash) + "relative", " title=\"x\">Heyo</a>") + []
  {
    ShortNames();
    LinkPieces();
    PlainPieces("<a ", '"', "", ">Heyo</a>");
    TitleTailPassive();
    var x := "relative" + ['"'];
    assert x[0] == 'r';
    LeadOf(Slash, x);
    ExampleBaseNoKey();
    TagStringMode(Rx, "<a ", "href", '"', Slash, "relative", " title=\"x\">Heyo</a>", [], ExampleBase);
    assert StringMode([], ExampleBase) == [];
  }

  /** The same in function mode, for any iterator: the iterator sees `/relative` and `href`, and `title` stays. */
  lemma TitleAfterLinkIterated(f: (string, string) -> string)
    ensures Iterate(TitledLink("/relative"), f) == TitledLink(f("/relative", "href"))
  {
    var after := " title=\"x\">Heyo</a>";
    var v0 := CaptureLeadText(Slash) + "relative" + "";
    var v1 := f(CaptureLeadText(Slash) + "relative", "href") + "";
    assert Iterate(Tag("<a ", "href", '"', v0, after) + [], f) == Tag("<a ", "href", '"', v1, after) + Iterate([], f) by {
      ShortNames();
      LinkPieces();
      OpeningPassive(CaptureRx, "<a ");
      TitleTailPassive();
      assert Token("relative");
      TagIterate("<a ", "href", '"', Slash, "relative", "", after, [], f);
    }
    CaptureLeads();
    assert CaptureLeadText(Slash) + "relative" == "/relative";
    assert v0 == "/relative";
    assert v1 == f("/relative", "href");
    TitleLink(v0);
    TitleLink(v1);
  }

  // ---------------------------------------------------------------------
  // The dispatch
  // ---------------------------------------------------------------------

  /**
   * test.js:17-24 and 95-104 through `replace` itself: the base-url string
   * runs the string-mode passes, the function runs function mode, and both
   * give the same document.
   */
  lemma DispatchExamples()
    ensures Absolutify.Absolutify("<a href=\"/relative\">Heyo</a>" + Ok, BaseUrl(ExampleBase))
         == "<a href=\"" + ExampleBase + "/relative\">Heyo</a>" + Ok
    ensures Absolutify.Absolutify("<a href=\"/relative\">Heyo</a>" + Ok, Iterator(SiteIterator))
         == "<a href=\"" + ExampleBase + "/relative\">Heyo</a>" + Ok
  {
    ExampleBaseChars();
    StringReplaceRelative();
    FunctionReplace();
  }
}
