# absolutify in Dafny

A model of `absolutify`, a small JavaScript library that rewrites the relative
URL references in an HTML string. It makes them absolute against a base URL
(string mode), or hands each one to a caller-supplied iterator (function mode).
Every other character of the document is copied through unchanged.

The model follows `absolutify.js`:

- **`Patterns`** (`patterns.dfy`): the six regular expressions `replace.rx`,
  `replace.extra`, `replace.backgrounds`, `replace.urls`, `replace.srcset` and
  `replace.captureRx`. Each is a dedicated matcher that runs at the start of the
  remaining text and returns the match with its capture groups, as `exec` does.
  - The relative-URL lead (`[.]+/`, `/` or a look-ahead on `#`, never followed by
    `/`) and the captured url of function mode are each given a declarative
    reading, and are proved to find exactly what that reading describes.
  - The name alternations try the names in source order.
  - The lazy `.*?` stops at the first terminator and fails at a line break.
- **`Scan`** (`scan.dfy`): `String.prototype.replace` with a global expression.
  - `Replace` is the left-to-right scan: it emits the replacement of a match and
    resumes after it, and otherwise copies one character.
  - `ReplaceAll` is the loop that runs that scan, proved equal to it.
  - Lemmas say where no match can start, so the text there is copied.
- **`Text`** (`text.dfy`): the string primitives the engine relies on.
  - The greedy dot run and token run.
  - `trim`, with the full ECMAScript white-space and line-terminator set.
  - `split` on one character, and `join`.
- **`Absolutify`** (`absolutify.dfy`): the engine itself.
  - The replacement templates `'$1' + url + '/$4'` and `'$1' + url + '/'`.
  - The `backgrounds` callback.
  - The srcset callback and its `forEach` loop, as the method `JoinCandidates`.
  - `all`, as the method `All`, which reassigns `replaced` pass by pass.
  - `replace.iterate`, and the dispatch `replace(str, url)`.
  - A lemma for each kind of rewrite:
    - an attribute value with a `/`, dot-run or `#` lead;
    - a value that is kept;
    - a `background` declaration, including `url(` with and without a quote;
    - a srcset list;
    - a captured url in function mode.
- **`Examples`** (`examples.dfy`): every assertion of `test.js`, proved on the
  model. This includes the fixed `ok` fragment, which comes back unchanged in
  both modes for any base and any iterator.

Behaviour that follows the code as written:

- The `extra` alternation lists only `poster`, `longdesc` and `usemap`.
  `dynsrc` and `lowsrc` are not names of their own. Both end in `src`, so the
  first pass and `captureRx` reach `lowsrc="` and `dynsrc="` through their
  `src="` ending; the iterator then receives `src` as the attribute name.
- Function mode runs `captureRx` alone. It uses the primary names only, never
  the extra ones, styles or srcset values.
- Function mode consumes the `#`: the iterator receives `#section`, not an empty
  string.
- The dot lead is a single greedy run of dots and a slash (`[.]+/`), not a list
  of `./` and `../` segments. `..../x` is a lead, and in `../../x` the lead is
  the first `../` and the rest of the value follows it unchanged.
- `.` in the lazy `.*?` excludes all four JavaScript line terminators: `\n`,
  `\r`, U+2028 and U+2029.
- `trim` removes the ECMAScript white space and line terminators.

## Model

| member | source | states |
|---|---|---|
| Text.DotRun | absolutify.js:24 | the greedy `[.]+`: every character of the run is a dot and the one after it is not |
| Text.TokenRun | absolutify.js:58 | the greedy `[a-zA-Z0-9._-]+`: every character of the run is a token character and the one after it is not |
| Text.TokenRunOf | absolutify.js:58 | a run of token characters followed by a non-token character is measured exactly |
| Text.TrimSpec | absolutify.js:48 | `trim` keeps a slice of its input with no trimmable character at either end, and everything cut off is trimmable |
| Text.TrimmedFixed | absolutify.js:48 | a candidate with nothing to trim is unchanged by `trim`, also behind the space that follows a comma |
| Text.Split | absolutify.js:44 | `split(',')` yields at least one piece and no piece holds the separator |
| Text.JoinSplit | absolutify.js:44 | joining the pieces of a split with the separator gives back the string |
| Text.SplitJoin | absolutify.js:44 | splitting a join of separator-free pieces gives back the pieces |
| Patterns.RelativeLead | absolutify.js:24 | a lead that is found is a prefix of the value |
| Patterns.RelativeLeadSpec | absolutify.js:24 | the lead matcher accepts a dot-run and one slash, a single slash, or a `#`, in both directions of the if-and-only-if with the declarative reading |
| Patterns.LeadExtends | absolutify.js:24 | a lead recognised with one character after it stays recognised whatever follows, since `(?!\/)` looks at one character only |
| Patterns.NotRelativeSpec | absolutify.js:24 | no lead matches exactly when the value is empty, opens with anything but `.`, `/`, `#`, opens with `//`, or has a dot-run not followed by exactly one `/` |
| Patterns.CapturedUrlSpec | absolutify.js:58 | `captureRx`'s url is a lead (with `#` consumed) and a maximal non-empty token run, in both directions |
| Patterns.CapturedDotsSpec | absolutify.js:58 | the dot-run case of the captured url, in both directions |
| Patterns.LazyUntil | absolutify.js:30 | the lazy `.*?` ends at the first stop character with no line terminator before it, and fails when there is none |
| Patterns.LazyEndUnique | absolutify.js:34 | the end of the lazy scan is unique |
| Patterns.NamesShape | absolutify.js:24-34 | every name of every pattern is non-empty and made of lower-case letters and `-`, and no separator is such a character |
| Patterns.ExecNeedsKey | absolutify.js:24-34 | every match opens with one of the pattern's names and its separator |
| Patterns.FirstNamedAt | absolutify.js:24 | at a name followed by its separator, the alternation tries that name and no other |
| Patterns.ExecAttr | absolutify.js:24-27 | `rx` and `extra` at `name=` and a quote match exactly when the value opens with a lead; groups 1 and 4 are the prefix and the dot group |
| Patterns.ExecCapture | absolutify.js:58 | `captureRx` at `name=` and a quote matches exactly when the value opens with a captured url; group 3 is that url |
| Patterns.ExecDeclaration | absolutify.js:30 | `backgrounds` takes the value up to the first `;`; groups 1 to 4 are the property with `:`, the property, the value and the `;` |
| Patterns.DeclarationUnterminated | absolutify.js:30 | a declaration whose every `;` comes after a line break does not match |
| Patterns.ExecSrcsetAttr | absolutify.js:34 | `srcset` takes the value up to the first quote of either kind |
| Patterns.ExecQuotedUrl | absolutify.js:31 | `url(` with a quote keeps the quote in group 1 when a lead follows it |
| Patterns.ExecBareUrl | absolutify.js:31 | `url(` without a quote matches when a lead follows it directly |
| Scan.MatcherOf | absolutify.js:24-34 | every match of a pattern is a non-empty prefix of the text, so the scan always advances |
| Scan.ReplaceAll | absolutify.js:38 | the scan loop produces exactly the global `replace` of the document |
| Scan.CopyUnmatched | absolutify.js:38 | text in which no match starts is copied through unchanged |
| Scan.TakeMatch | absolutify.js:38 | a match is replaced by its replacement and the scan resumes right after it |
| Scan.NoSepNoMatch | absolutify.js:24-34 | no match starts in text without the pattern's separator |
| Scan.NoKeyNoMatch | absolutify.js:24-34 | no match starts in text where no name of the pattern stands before its separator |
| Scan.KeyFreeBefore | absolutify.js:24-34 | no match starts in such text followed by a character that is neither a name character nor the separator, whatever comes after it |
| Scan.KeyFreeEnd | absolutify.js:24-34 | no match starts in text that holds no name before its separator and ends in a character no name contains, whatever comes after it |
| Scan.CopyKeyFree | absolutify.js:38 | such text is copied and the scan goes on after it |
| Scan.NoKeyJoin | absolutify.js:24-34 | two texts without a name before the separator, joined where no name can cross, hold none either |
| Scan.NoKeyWord | absolutify.js:24-34 | text whose one separator follows a word with no listed name as a tail, after a character no name contains, holds no name before a separator |
| Scan.UnlistedWord | absolutify.js:24-34 | a word none of whose tails is a name is copied with its separator |
| Scan.NameNoMatch | absolutify.js:24-34 | a word that is not one of the names, followed by the separator, starts no match |
| Absolutify.RewritesRelativeValue | absolutify.js:38-39 | a value with a lead keeps its name, `=` and quote, then gets the base and `/`, then the lead's dot group, and the scan resumes after the lead |
| Absolutify.RewritesRootRelative | absolutify.js:38-39 | `name="/x` becomes `name="base/x` |
| Absolutify.RewritesDotted | absolutify.js:38-39 | `name="../x` becomes `name="base/../x`: the dot-run and slash are kept |
| Absolutify.RewritesAnchor | absolutify.js:38-39 | `name="#x` becomes `name="base/#x` |
| Absolutify.KeepsNonRelative | absolutify.js:24-27 | a value with no lead (`//host`, a scheme, `www.foo.com`) is left alone with its name, whatever the name |
| Absolutify.RewritesDeclaration | absolutify.js:40-42 | a `background`/`background-image` declaration re-emits property, `:` and `;` and runs the `url(` pass on its value only |
| Absolutify.RewritesQuotedUrl | absolutify.js:41 | `url("` with a lead keeps the opener and quote and replaces the lead by the base and `/` |
| Absolutify.RewritesBareUrl | absolutify.js:41 | `url(` with a lead replaces the lead, a `../` included, by the base and `/` |
| Absolutify.KeepsNonRelativeUrl | absolutify.js:31 | `url(` followed by no lead, quoted or not, is left alone |
| Absolutify.RewritesSrcsetAttr | absolutify.js:43-51 | a srcset value up to the first quote is replaced by its rewritten candidate list between the same quotes |
| Absolutify.JoinCandidates | absolutify.js:45-49 | the `forEach` loop builds the guarded join of the trimmed and rewritten candidates |
| Absolutify.SrcsetValue | absolutify.js:44-49 | the callback's split and loop compute the rewritten srcset list |
| Absolutify.JoinedIsJoin | absolutify.js:45-49 | the guarded append equals `join(', ')` of the candidates once the leading empty ones are dropped |
| Absolutify.DropEmptyPrefixSpec | absolutify.js:47 | what the `if (srcs)` guard skips is exactly the leading empty candidates |
| Absolutify.SrcsetRewrite | absolutify.js:43-50 | a list of trimmed candidates joined with `, ` comes back as the same list with each candidate rewritten on its own |
| Absolutify.SrcsetKeepsList | absolutify.js:48 | a list with no single-slash candidate (`//host`, `./a`) comes back unchanged |
| Absolutify.All | absolutify.js:37-52 | `all` runs the four passes in order, each over the previous output |
| Absolutify.AbsolutifyKeeps | absolutify.js:12-15 | `replace` returns a document unchanged when, for the mode it selects, no name of any pass stands before that pass's separator |
| Absolutify.CapturesUrl | absolutify.js:70-74 | the iterator receives the captured url (lead included) and the matched name, and its result replaces exactly that url |
| Absolutify.IterateKeepsUncaptured | absolutify.js:70-74 | a value that is not a captured url (`/` or `#` alone, `//host`) is left alone and the iterator is not called |
| Absolutify.IterateSkipsExtraNames | absolutify.js:70-74 | function mode copies `poster=`, `longdesc=` and `usemap=` values |
| Absolutify.StringModeKeeps | absolutify.js:37-52 | a document in which no name of `rx`, `extra`, `backgrounds` or `srcset` stands before that pattern's separator comes back unchanged from string mode |
| Absolutify.IterateKeeps | absolutify.js:70-74 | a document in which no primary name stands before `=` comes back unchanged from function mode, and the iterator is never called |
| Examples.TagStringMode | absolutify.js:37-52 | for any base without `$`, `=` or a style property before `:`, an element whose attribute is on the `rx` or `extra` list and opens with a lead is rewritten once by the four passes, and the rest of the document follows; the text before the attribute and the value after the lead, with the closing quote and the rest of the element, may hold anything in which no pass finds one of its names before its separator, such as further attributes and inline styles with unlisted names |
| Examples.PosterStringMode | absolutify.js:27 | a root-relative `poster` value gets the base in front, for any such base |
| Examples.SchemeBaseNoKey | absolutify.js:30 | a base made of a scheme, `:` and a rest without `:` holds no style property before `:` |
| Examples.TagIterate | absolutify.js:70-74 | an element with a captured url hands it, with the matched name, to the iterator and the rest of the document follows; the text before the attribute and the value after the url, with the closing quote and the rest of the element, may hold anything in which the capture finds no listed name before `=`, such as further unlisted attributes |
| Examples.TitleAfterLink | absolutify.js:37-52 | in `<a href="/relative" title="x">Heyo</a>` the `href` value gets the base and the `title` attribute after it is copied |
| Examples.TitleAfterLinkIterated | absolutify.js:70-74 | for every iterator, the same element hands `/relative` and `href` to the iterator and keeps the `title` attribute |
| Examples.OkKept | test.js:8-15 | the `ok` fragment comes back unchanged from both modes, for every base and every iterator |
| Examples.StringReplaceRelative | test.js:17-24 | `href="/relative"` gets the base |
| Examples.StringReplaceDots | test.js:26-32 | `href="../relative"` becomes `base/../relative` |
| Examples.StringReplaceRoot | test.js:34-40 | `href="/"` becomes `href="base/"` |
| Examples.StringReplaceSingleQuote | test.js:43-50 | the single quote is kept |
| Examples.StringMultiReplace | test.js:53-60 | both the link and the form action are rewritten |
| Examples.StringReplaceAnchor | test.js:63-70 | `href="#section"` becomes `base/#section` |
| Examples.StringReplaceBackground | test.js:73-82 | both `url(` layers of the declaration get the base |
| Examples.StringReplaceSrcset | test.js:84-93 | the single-slash candidates get the base and the `//` candidate is kept |
| Examples.FunctionReplace | test.js:95-104 | the iterator receives `/relative` |
| Examples.FunctionReplaceDots | test.js:106-114 | the iterator receives `../two` |
| Examples.FunctionReplaceDot | test.js:116-124 | the iterator receives `./three` |
| Examples.DynsrcRewritten | absolutify.js:24 | `dynsrc="/` is rewritten by the first pass through its `src="/` ending |
| Examples.FunctionReplaceLowsrc | test.js:126-134 | `lowsrc=` is matched as `src=`, the iterator receives `/x1`, and `/logo.png` stays after the result |
| Examples.FunctionReplaceAnchor | test.js:137-146 | the iterator receives `#section`, so no `/` is put before the `#` |
| Examples.FunctionMultiReplace | test.js:149-158 | the iterator is called for both urls of the document |
| Examples.UnlistedAttrKept | absolutify.js:12-15 | `<a title="x">`, whose attribute no pass lists, comes back unchanged from both modes, for every base and every iterator |
| Examples.DispatchExamples | absolutify.js:12-15 | a base-url string selects string mode and a function selects function mode |

## Left out

- The module wrapper and the export to `module.exports` or the global object (absolutify.js:1-2, 76-83) are plumbing; they do not change what the engine computes.
- Absolutify.StringMode: requires a base url without `$`. JavaScript expands `$` patterns in the replacement strings that the base is spliced into, and the model splices the base in literally.
- Absolutify.All: requires a base url without `$`, for the same reason.
- Absolutify.Absolutify: requires a base url without `$` in string mode, for the same reason.
- Absolutify.AbsolutifyKeeps: requires a base url without `$` in string mode, for the same reason.
- Absolutify.StringModeKeeps: requires a base url without `$`, for the same reason.
- Examples.TagStringMode: covers only bases without `=`. With a base that holds a query string such as `?a=b`, the result is the same unless a listed name stands before that `=`; this is not proved.
- Examples.TagStringMode: covers only attribute names with no name of the other `=` passes as a tail. None of the listed names has one.
- Examples.TagStringMode: covers only elements in which no pass finds one of its names before its separator outside the rewritten attribute. An element with a second listed attribute, such as `<img src="/a" srcset="/b 2x">`, has no closed form proved; the scan lemmas still describe each pass over it.
- Examples.TagIterate: covers only elements in which the capture finds no listed name before `=` outside the captured attribute, for the same reason.
- The pattern fields (`replace.rx` and the others) are properties that callers could reassign. The model takes them as the constants the file defines.
- A general regular-expression engine is not modelled. Each of the six expressions is written as its own matcher.
- The iterator is a total function from strings to a string. Exceptions thrown by a caller's iterator, and non-string results coerced by `+`, are not modelled.
- Any argument other than a function is treated as a base-url string. JavaScript would coerce another value with `+`.
- Strings are sequences of Unicode characters, not of UTF-16 code units, so surrogate pairs are not modelled.
- The mocha `describe`/`it` harness of test.js is test scaffolding. Its assertions are the lemmas of `Examples`.
