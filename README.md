# A verified model of the liova.io static preview server

`serve_static.py` serves a Jekyll site without Jekyll. Its request handler,
`JekyllStaticHandler`, does four things that this project models and proves
properties of:

- **Request-path normalisation** (`do_GET`). `/` becomes `/index.html`, and a path
  with no `.html` or `.css` ending and no `.` in its last segment gets `.html`
  appended. The handler rewrites its `path` field in place, so the model is a class
  with a `path` field and a method that `modifies` it.
- **Front matter** (`process_jekyll_content`). A page that starts with `---` is cut at
  the first two `---` markers. The text between them is read line by line: a line with
  a colon sets a key, split at the first colon and stripped on both sides, and a later
  line overwrites an earlier one. The stripped rest is the body. A page without a
  second marker keeps its whole text.
- **Layout composition.** When the front matter names a layout that exists, the body
  replaces every `{{ content }}` in the layout text. The result then goes through the
  template pass with three variables: `page.title`, `site.title` and
  `site.description`. Each falls back to the site configuration and then to a fixed
  default.
- **The template pass** (`process_template_vars`). The pass runs in this order:
  1. Two stylesheet tags become plain URLs.
  2. For each variable in turn, every `{% if name %} ... {% endif %}` block, across
     lines, becomes the value. Then every `{{ name }}` becomes the value.
  3. Every remaining single-line `{% ... %}` tag is deleted.
  4. Every remaining single-line `{{ ... }}` output is deleted.

Modules:

- `Text` (`text.dfy`): the Python string operations the handler uses, each on
  sequences of characters. These are `in`, `find`, `startswith`, `endswith`, `split`
  with a `maxsplit`, `join`, `replace` and `strip`, with Python's whitespace set.
  Their partner lemmas relate them to one another: `split` then `join` gives the
  text back, and `replace` is a `join` of a `split`.
- `Patterns` (`patterns.dfy`): `re.sub` for the expressions the handler uses, all of
  the form `open.*?close`. A match starting at an index ends at the first `close`
  after the opener. Without `re.DOTALL`, a newline before that `close` means there
  is no match at that index. The scan resumes after each match, or one character
  further when there is none. The variable name is pasted into the opener
  unescaped, so a `.` in it is a wildcard.
- `RequestPath` (`paths.dfy`): `os.path.basename` and the two path rewrites.
- `FrontMatter` (`front_matter.dfy`): the line parser, the dictionary the loop builds,
  and the split at the markers.
- `Templates` (`templates.dfy`): the template pass as functions.
- `Pieces` (`pieces.dfy`): a page as a sequence of pieces, which is how the pass sees
  a page. A piece is one construct, or an `{% if name %} ... {% endif %}` block around a
  run of constructs. A construct is plain text, an output `{{ name }}`, a tag
  `{% words %}`, or one of the two stylesheet tags. `Render` gives a page's text.
  `PageOK` says the delimiters stay where they delimit: plain text holds no `{`, names
  hold no brace or newline, and a tag outside a block does not start with `if`.
- `PagePass` (`pass.dfy`): the template pass on a whole page of pieces. Each step is
  shown to act on each piece on its own: no match or occurrence starts in one piece and
  runs into the next. `Expected` says what the page becomes, piece by piece, and
  `TemplatePass` proves that the pass yields it.
- `Handler` (`handler.dfy`): the class `JekyllStaticHandler` and its methods, plus
  the function they are proved against, `JekyllContent`.
  - The methods use the source's loops: the loop over front-matter lines and the
    loop over the variables.
  - The front-matter loop is its own method, `ParseFrontMatter`, called where the
    source has the loop inline.
  - The layout files that exist are given to the model as a map from layout name
    to file text.

## Model

| member | source | states |
|---|---|---|
| Text.IndexFrom | serve_static.py:67 | a position found is at or after the start and holds an occurrence of the pattern |
| Text.IndexFromLeftmost | serve_static.py:67 | the position found is the leftmost occurrence; none is found only when there is no occurrence |
| Text.ContainsChar | serve_static.py:67 | `c in line` for a one-character pattern is membership, and the first occurrence is the first index holding that character |
| Text.FirstCharAt | serve_static.py:67-68 | the first index holding a character is the position `find` reports for it |
| Text.Split | serve_static.py:64 | `split` with a `maxsplit`; specified by `SplitFromParts` (the number of parts), `JoinSplit` (joining the parts gives the text back) and `SplitOnce` |
| Text.SplitFromParts | serve_static.py:64 | `split` gives at least one part, and at most `maxsplit + 1` when `maxsplit` is not negative |
| Text.JoinSplit | serve_static.py:64 | joining the parts of a `split` with the separator gives back the text |
| Text.SplitOnce | serve_static.py:68 | `line.split(':', 1)` gives the text before the first colon and the text after it, or the whole line when it has no colon |
| Text.Replace | serve_static.py:82 | `str.replace`; specified by `ReplaceIsJoinOfSplit`, `ReplaceConcat`, `ReplaceFirstOnly` and `ReplaceAbsent` |
| Text.ReplaceIsJoinOfSplit | serve_static.py:82 | `s.replace(pat, repl)` equals `repl.join(s.split(pat))` |
| Text.ReplaceConcat | serve_static.py:82 | `replace` on `a + b` is `replace` on `a` followed by `replace` on `b` when no occurrence straddles the cut |
| Text.ReplaceFirstOnly | serve_static.py:82 | when the first occurrence is the one after `pre` and the rest holds none, only that occurrence is replaced and the text around it is kept |
| Text.ReplaceSingle | serve_static.py:82 | a single occurrence between text free of the pattern's first character becomes the replacement, and the rest is kept |
| Text.ReplaceAbsent | serve_static.py:82 | text where the pattern does not occur is left unchanged |
| Text.Strip | serve_static.py:69-70 | `strip()` gives a slice of the text cut only at whitespace, with no whitespace left at either end |
| Text.StripUnpadded | serve_static.py:70 | a text that neither starts nor ends with whitespace is its own `strip()` |
| Patterns.MatchEnd | serve_static.py:105 | a match ends after its opener and closer, and within the text |
| Patterns.MatchEndIsShortestMatch | serve_static.py:105 | a match is the opener, the shortest span `.` can cover, then the closer; there is no match exactly when no closer follows across such a span |
| Patterns.MatchEndFind | serve_static.py:105 | the match at an index is the opener there, then the first closer `find` reports after it, unless a newline `.` cannot span comes in between |
| Patterns.ReplaceMatches | serve_static.py:105-112 | `re.sub` for `open.*?close`; specified by `MatchEndIsShortestMatch`, `ReplaceMatchesConcat`, `ReplaceBlock`, `NoOpener` and the two deletion lemmas |
| Patterns.ReplaceMatchesConcat | serve_static.py:105 | `re.sub` on `a + b` is `re.sub` on `a` followed by `re.sub` on `b` when no match starting in `a` runs on into `b` |
| Patterns.NoOpener | serve_static.py:111-112 | text without the opener's first, literal character is left unchanged |
| Patterns.ReplaceBlock | serve_static.py:105 | a block `open mid close`, ended by the first `close` after the opener, between text free of openers becomes the replacement, whatever `mid` holds |
| Patterns.ReplaceBlockAt | serve_static.py:105 | the block opened at `p` and closed at the first `close` after it, at `q`, becomes the replacement, and the text around it is kept |
| Patterns.WholeBlockReplaced | serve_static.py:105 | a text that is one block, opened by a head the opener matches through its wildcards and ended by its first `close`, becomes the replacement |
| Patterns.DeletionIsSubsequence | serve_static.py:111-112 | deleting the matches gives a subsequence of the input |
| Patterns.SingleLineDeletionKeepsNewlines | serve_static.py:111-112 | deleting matches without DOTALL keeps every newline of the input |
| RequestPath.Basename | serve_static.py:26 | the result is the suffix after the last `/`: it holds no `/`, and a `/` precedes it unless it is the whole path |
| RequestPath.NormalizePath | serve_static.py:22-27 | the two rewrites of `do_GET`; specified by `RootIsIndex`, `NormalizeOther`, `NormalizedHasExtension` and `NormalizeIdempotent` |
| RequestPath.RootIsIndex | serve_static.py:22-23 | `/` is served as the same path as `/index.html` |
| RequestPath.NormalizeOther | serve_static.py:25-27 | any path but `/` is kept when it has an extension, and otherwise gets exactly `.html` appended |
| RequestPath.NormalizedHasExtension | serve_static.py:22-27 | every normalised path ends in `.html` or `.css` or has a `.` in its last segment |
| RequestPath.NormalizeIdempotent | serve_static.py:22-27 | normalising twice is normalising once |
| FrontMatter.LineEntry | serve_static.py:67-69 | the entry of one front-matter line; specified by `LineEntryAtFirstColon` and `LineEntryNoColon` |
| FrontMatter.LineEntryAtFirstColon | serve_static.py:67-69 | a line with a colon gives an entry whose key and value are the stripped text on either side of its first colon |
| FrontMatter.LineEntryNoColon | serve_static.py:67 | a line without a colon gives no entry |
| FrontMatter.AssignKeys | serve_static.py:69 | after a run of assignments, a key is in the dictionary exactly when some assignment sets it |
| FrontMatter.AssignLastWins | serve_static.py:69 | a key's value is the one set by the last assignment to it |
| FrontMatter.AssignSkipsNone | serve_static.py:67 | a step that assigns nothing changes nothing, wherever it stands |
| FrontMatter.Entries | serve_static.py:66-69 | the dictionary the loop builds; specified by `EntriesStep`, `EntriesKeys`, `EntriesLastWins` and `ColonFreeLineIgnored` |
| FrontMatter.EntriesStep | serve_static.py:66-69 | one more line leaves the dictionary as it was, or with that line's key set to its value |
| FrontMatter.EntriesKeys | serve_static.py:66-69 | a key is in the front matter exactly when some line gives an entry for it |
| FrontMatter.EntriesLastWins | serve_static.py:66-69 | a key's value is the one on the last line with that key |
| FrontMatter.ColonFreeLineIgnored | serve_static.py:67 | a line without a colon can be removed without changing the front matter |
| FrontMatter.ExtractFrontMatter | serve_static.py:61-72 | the split of a page into front matter and body; specified by `NoFrontMatter` and `FrontMatterBlock` |
| FrontMatter.NoFrontMatter | serve_static.py:62-64 | a page that does not start with `---`, or has no second `---`, has no front matter and keeps its whole text as body |
| FrontMatter.SplitAtMarkers | serve_static.py:64 | the split at `---` gives the empty prefix, the text up to the first closing `---`, and the rest, whatever further `---` it holds |
| FrontMatter.FrontMatterBlock | serve_static.py:61-70 | a `---`-delimited block gives the front matter of its stripped lines, and the stripped rest is the body |
| Templates.AssetTagChars | serve_static.py:98-100 | only the first two characters of the asset tags are `{`, and the two tags first differ at index 16 |
| Templates.RewriteAssetUrls | serve_static.py:98-100 | the two asset rewrites; specified by `StyleAssetRewritten`, `CustomAssetRewritten`, `RewriteKeepsPlaceholder` and `NoBraceNoAssetTag` |
| Templates.StyleAssetRewritten | serve_static.py:98-99 | in a page whose only `{` are those of the stylesheet tag, the tag becomes `/assets/css/style.css` and the text around it is kept |
| Templates.CustomAssetRewritten | serve_static.py:100 | in a page whose only `{` are those of the custom stylesheet tag, the tag becomes `/assets/css/custom.css`; the longer stylesheet tag does not match it |
| Templates.NoBraceNoAssetTag | serve_static.py:98-100 | text without `{` is left alone by both asset rewrites |
| Templates.RewriteKeepsPlaceholder | serve_static.py:98-100 | in a page whose only `{` are those of a `{{ name }}` placeholder, the asset rewrite leaves the page alone |
| Templates.SubstituteVar | serve_static.py:103-108 | one turn of the loop over the variables; specified by `IfBlockSubstituted`, `PlaceholderSubstituted`, `OtherVariableKeepsPlaceholder` and `SubstituteVarNoBrace` |
| Templates.SubstituteVars | serve_static.py:103-108 | the loop over the variables in order; specified by `OtherVariablesKeepPlaceholder`, `LaterVariablesIdle` and `SubstituteVarsNoBrace` |
| Templates.SubstituteVarNoBrace | serve_static.py:103-108 | a variable's step leaves text without `{` unchanged |
| Templates.SubstituteVarsNoBrace | serve_static.py:103-108 | the loop over the variables leaves text without `{` unchanged |
| Templates.NoIfBlockOpener | serve_static.py:105 | in a page whose only `{` are those of one placeholder, no `{% if %}` opener matches, whatever the variable |
| Templates.PlaceholderSubstituted | serve_static.py:108 | in a page whose only `{` are those of `{{ name }}`, the placeholder becomes the value and the text around it is kept |
| Templates.OtherPlaceholderAbsent | serve_static.py:108 | the placeholder of one name does not occur in a page whose only `{` are those of the placeholder of another name (names without spaces) |
| Templates.OtherVariableKeepsPlaceholder | serve_static.py:103-108 | another variable's turn leaves a page holding one placeholder unchanged |
| Templates.OtherVariablesKeepPlaceholder | serve_static.py:103-108 | the turns of any number of other variables leave a page holding one placeholder unchanged |
| Templates.IfBlockSubstituted | serve_static.py:105-108 | an `{% if name %} ... {% endif %}` block, spanning any lines and holding any Liquid before its first `{% endif %}`, becomes the value, in a page whose text around the block holds no `{` |
| Templates.LookalikeIfBlockSubstituted | serve_static.py:105 | a block on `page` + any character + `title` is filled with the value of `page.title` |
| Templates.LookalikeBlockReplaced | serve_static.py:105 | the expression on `page.title` matches a whole block on `page` + any character + `title` |
| Templates.LookalikeOpener | serve_static.py:105 | the opener on `page.title` matches the opener on `page` + any character + `title` |
| Templates.LaterVariablesIdle | serve_static.py:103-108 | once the first `k` variables leave no `{`, the remaining variables change nothing |
| Templates.StripLiquidSyntax | serve_static.py:111-112 | the clean-up; specified by `CleanupIsSubsequence`, `CleanupKeepsLines` and `UnknownOutputDeleted` |
| Templates.TemplateVars | serve_static.py:96-114 | the whole template pass; specified by `PagePass.TemplatePass`, `VariableFilled`, `UnknownOutputDeleted` and `NoBraceUnchanged` |
| Templates.VariableFilled | serve_static.py:96-114 | through the whole pass, the placeholder of any variable (earlier variables having other names) is filled with that variable's value, in a page whose only Liquid is that placeholder |
| Templates.UnknownOutputDeleted | serve_static.py:103-112 | through the whole pass, the placeholder of a name that is no variable is deleted, in a page whose only Liquid is that placeholder |
| Templates.NoBraceUnchanged | serve_static.py:96-114 | a page without `{` comes out of the whole pass unchanged |
| Templates.CleanupIsSubsequence | serve_static.py:111-112 | the clean-up only deletes characters |
| Templates.CleanupKeepsLines | serve_static.py:111-112 | the clean-up keeps the page's line count |
| Patterns.WholeBlockMatch | serve_static.py:105 | the match at the start of a head the opener matches, a middle that holds no closer, and the closer, is the whole text |
| PagePass.SubstPageText | serve_static.py:98-100 | each `str.replace` step of the pass on a page of pieces (an asset rewrite, or a variable's placeholder at line 108) turns every construct equal to its target into the replacement and keeps every other piece, whatever pieces stand around it |
| PagePass.SubstInlineText | serve_static.py:98-100 | a construct is its step's target and becomes the replacement, or holds no occurrence of the target and is kept; no occurrence starts in it and runs past its end |
| PagePass.SubstBlockText | serve_static.py:98-108 | in a block, a `str.replace` step acts on the body construct by construct and keeps the block's own tags |
| PagePass.AssetsText | serve_static.py:98-100 | the two asset rewrites on a page turn every stylesheet tag into its URL and keep everything else, and the page stays well formed |
| PagePass.FillsOpener | serve_static.py:105 | a variable name that matches a block's name character by character, `.` matching anything, gives an opener that matches the block's opener in full |
| PagePass.FilledBlock | serve_static.py:105 | a block whose opener the variable's opener matches is one whole match, ended by its own `{% endif %}`, and becomes the value, whatever its body holds |
| PagePass.IfPieceText | serve_static.py:105 | a variable's block expression turns a block it fills into the value and leaves every other piece as it is; no match starting in a piece runs into the next |
| PagePass.IfPageText | serve_static.py:105 | on a whole page, the block expression replaces exactly the blocks the variable's opener fills, each by the value |
| PagePass.VarsText | serve_static.py:103-108 | the loop over the variables on a page is the turns of the variables, in order, on each piece |
| PagePass.VarsPieceIs | serve_static.py:103-108 | after the loop, a block is the value of the first variable whose opener fills it; otherwise each output is the value of the first variable of its name, and the rest is kept |
| PagePass.TagDeleted | serve_static.py:111 | a tag `{% words %}` is one match of the first deletion and is removed |
| PagePass.OutputDeleted | serve_static.py:112 | an output `{{ name }}` is one match of the second deletion and is removed |
| PagePass.StripSwept | serve_static.py:111-112 | the clean-up of a run of constructs deletes exactly the tags and then exactly the outputs |
| PagePass.CleanStage | serve_static.py:111-112 | the clean-up of a page after the loop leaves exactly the plain text of its constructs |
| PagePass.PieceOutcome | serve_static.py:96-114 | each piece comes out of the pass as `ExpectedPiece` says: text kept, a stylesheet tag its URL, an output its variable's value or nothing, a tag nothing, a block the value of the first variable that fills it or else what its body becomes |
| PagePass.TemplatePass | serve_static.py:96-114 | the whole pass on a well formed page of pieces gives `Expected`: each piece turns out as `ExpectedPiece` says, whatever pieces stand around it |
| Handler.LayoutPageServed | serve_static.py:59-114 | a page whose layout, with every `{{ content }}` replaced by the stripped body, is a well formed page of pieces is served as `Expected` of those pieces with the page's variables |
| Handler.PageVariablesDecided | serve_static.py:84-105 | the opener of each of the three variables matches a block's opener in full or fails within it, on every well formed page |
| PagePass.OpenerDecided | serve_static.py:105 | a name with no space, no `%` and no two `.` in a row gives an opener that matches a block's opener in full or fails within it |
| Handler.PageTitle | serve_static.py:85-87 | the page's own title, else the site's, else `Delano Johnson`; its use is specified by `PageTitleFilled` |
| Handler.PageVariables | serve_static.py:84-90 | the three variables in order; specified by `VariableNames`, `PageTitleFilled`, `SiteTitleFilled` and `SiteDescriptionFilled` |
| Handler.VariableNames | serve_static.py:85-89 | the three variable names differ from each other, hold no space and no `{`, and do not start with a quote |
| Handler.JekyllContent | serve_static.py:59-94 | what the handler serves; specified by `UnmarkedPageServedAsIs`, `NoLayoutServesBody`, `LayoutFilled`, `LayoutComposes`, `LayoutPageServed`, `LayoutWrapsBody` and `BodyOutputDeleted` |
| Handler.JekyllStaticHandler.constructor | serve_static.py:16-17 | the site configuration is the one given, or the empty one when none is given |
| Handler.JekyllStaticHandler.NormalizeRequestPath | serve_static.py:20-27 | the new path is the normalised old path |
| Handler.JekyllStaticHandler.ParseFrontMatter | serve_static.py:66-69 | the loop over the lines builds exactly the front matter `Entries` describes |
| Handler.JekyllStaticHandler.ProcessJekyllContent | serve_static.py:59-94 | the result is the page as `JekyllContent` composes it: the body, or the layout around it through the template pass |
| Handler.JekyllStaticHandler.ProcessTemplateVars | serve_static.py:96-114 | the loop over the variables and the regular-expression passes compute the template pass `TemplateVars` |
| Handler.UnmarkedPageServedAsIs | serve_static.py:62-64 | a page that does not start with `---`, or has no second `---` so that the three-way unpacking fails, is served exactly as it is |
| Handler.NoLayoutServesBody | serve_static.py:61-77 | with no layout, or a layout that does not exist, the page is served as its stripped body |
| Handler.LayoutFilled | serve_static.py:59-92 | with a layout that exists, the served page is the layout with every `{{ content }}` (none, one or several) replaced by the stripped body, passed through the template pass with the page's variables, whatever Liquid the body holds |
| Handler.LayoutComposes | serve_static.py:59-92 | the one-placeholder case of `LayoutFilled`: with a layout whose first `{{ content }}` is the only one, the stripped body takes its place and the text around it is kept |
| Handler.PlainLayoutPlaceholder | serve_static.py:82 | in a layout whose only `{` are those of `{{ content }}`, that placeholder is the first and only one |
| Handler.LayoutWrapsBody | serve_static.py:75-92 | with a layout and a body free of Liquid, the named layout is served with the stripped body in place of `{{ content }}` |
| Handler.BodyOutputDeleted | serve_static.py:82-112 | Liquid in the body goes through the template pass: a body that is the output tag of a name other than the three variables is deleted from the served page |
| Handler.PageTitleFilled | serve_static.py:85-108 | `{{ page.title }}` is filled with the page's own title, else the site's, else `Delano Johnson`, in a page whose only Liquid it is |
| Handler.SiteTitleFilled | serve_static.py:88-108 | `{{ site.title }}` is filled with the site's title, else the default, in a page whose only Liquid it is |
| Handler.SiteDescriptionFilled | serve_static.py:89-108 | `{{ site.description }}` is filled with the site's description, else the default, in a page whose only Liquid it is |

## Left out


- The serving part of `do_GET` (`translate_path`, the file test, the fall-back to plain serving) and `serve_processed_html`: file-system and HTTP input/output.
- The layout file lookup: layouts are a map from layout name to file text. Building the path with `os.path.join` and testing it with `os.path.exists` is not modelled, including names holding `/` or `..`.
- Exceptions other than the failed three-way unpacking of the `---` split: an error raised later (for example by `re.sub`) ends the processing, and the caller then serves the file raw. The model has no such path.
- `Patterns.ReplaceMatches`: the replacement is inserted literally. Python's `re.sub` expands backslash escapes in it, so a value holding a backslash is altered or raises an error. The model does not capture that.
- `Patterns.CharMatches`: only `.` is treated as a regular-expression metacharacter of a pasted variable name. The three names the handler passes hold no other metacharacter.
- `Handler.PageVariables`: configuration values are strings. `None` values and the `value or ''` fall-back for them are not modelled.
- Templates.StyleAssetRewritten, Templates.CustomAssetRewritten, Templates.RewriteKeepsPlaceholder: proved for a page whose only `{` are those of the one tag or placeholder. Pages with several constructs are covered by `PagePass.AssetsText`.
- Templates.PlaceholderSubstituted, Templates.VariableFilled, Templates.UnknownOutputDeleted: proved for a page whose only Liquid is the one placeholder. Pages with several constructs are covered by `PagePass.TemplatePass`, within the limits below.
- Templates.IfBlockSubstituted: the text around the block and the value hold no `{`. What the block holds is free up to its first `{% endif %}`.
- Handler.PageTitleFilled, Handler.SiteTitleFilled, Handler.SiteDescriptionFilled: proved for a page whose only Liquid is the one placeholder, and a value without `{`.
- Handler.LayoutWrapsBody: a body and layout free of Liquid; `Handler.LayoutFilled` states the general case, for any number of `{{ content }}`, with the template pass left applied.
- PagePass.TemplatePass: only pages made of pieces that satisfy `PageOK` are covered. The theorem says nothing about plain text holding `{` (inline CSS or scripts, for instance), a `{% if %}` without a matching `{% endif %}`, a tag starting with `if` outside a block, nested blocks, tag words holding `{`, `%` or a newline, or output names holding a brace or a newline or starting with a quote.
- PagePass.TemplatePass: variable names hold no brace and do not start with a quote, and values hold no `{`. A value with `{` can form new Liquid that later steps act on; the theorem does not cover it.
- PagePass.TemplatePass: each variable's opener must either match a block's opener in full or fail within it. This is `BlocksDecided`. An opener longer than the block's opener, which matches all of it and runs on into the body, is not covered. The handler's three variables always meet this condition (`Handler.PageVariablesDecided`).
- Handler.LayoutPageServed: the layout with the stripped body in its placeholders must render a page of pieces that satisfies `PageOK`, and the three values must hold no `{`, as for `PagePass.TemplatePass`.
- `create_simple_css`, `start_server`, the browser timer and the command-line entry point: setup and I/O outside the handler.
