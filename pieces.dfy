/** A page seen as a sequence of the Liquid constructs the template pass of serve_static.py
    (lines 96-114) knows about: plain text, outputs `{{ name }}`, tags `{% tag %}`, the two
    stylesheet tags and `{% if name %} ... {% endif %}` blocks. This module renders such a
    page and states which of the pass's patterns can start where in it. */
module Pieces {
  import opened Text
  import opened Patterns
  import opened Templates

  /** A construct that the pass sees on one line. */
  datatype Inline =
    | Plain(text: string)
    | Output(name: string)
    | Tag(tag: string)
    | StyleTag
    | CustomTag

  /** A piece of a page: one construct, or a conditional block around a run of them. */
  datatype Piece = Single(inline: Inline) | IfBlock(name: string, body: seq<Inline>)

  function TagText(t: string): string {
    "{% " + t + " %}"
  }

  function InlineText(x: Inline): string {
    match x
    case Plain(t) => t
    case Output(n) => Placeholder(n)
    case Tag(t) => TagText(t)
    case StyleTag => StyleAssetTag
    case CustomTag => CustomAssetTag
  }

  function InlinesText(xs: seq<Inline>): string {
    if xs == [] then [] else InlineText(xs[0]) + InlinesText(xs[1..])
  }

  function PieceText(p: Piece): string {
    match p
    case Single(x) => InlineText(x)
    case IfBlock(n, body) => IfBlockOpen(n) + InlinesText(body) + IfBlockClose
  }

  /** The text of a page. */
  function Render(ps: seq<Piece>): string {
    if ps == [] then [] else PieceText(ps[0]) + Render(ps[1..])
  }

  /** A tag's words hold no `{`, `%` or newline. */
  predicate TagWord(t: string) {
    '{' !in t && '%' !in t && '\n' !in t
  }

  /** The delimiting characters stay where they delimit: plain text holds no `{`; an
      output's name holds no brace or newline and does not start with a quote (the asset
      tags do); a tag's words are a `TagWord`. */
  predicate Lexical(x: Inline) {
    match x
    case Plain(t) => '{' !in t
    case Output(n) => '{' !in n && '}' !in n && '\n' !in n && (n == [] || n[0] != '\'')
    case Tag(t) => TagWord(t)
    case _ => true
  }

  /** A construct outside a block: a tag does not start with `if`, so it opens no block. */
  predicate Loose(x: Inline) {
    Lexical(x) && !(x.Tag? && StartsWith(x.tag, "if"))
  }

  /** A construct inside a block: also not the block's own `endif`. */
  predicate Nested(x: Inline) {
    Loose(x) && x != Tag("endif")
  }

  predicate PieceOK(p: Piece) {
    match p
    case Single(x) => Loose(x)
    case IfBlock(n, body) => TagWord(n) && forall x :: x in body ==> Nested(x)
  }

  predicate PageOK(ps: seq<Piece>) {
    forall i :: 0 <= i < |ps| ==> PieceOK(ps[i])
  }

  // ---------------------------------------------------------------------------------
  // The characters of the constructs.

  lemma PlaceholderChars(n: string)
    ensures |Placeholder(n)| == |n| + 6
    ensures Placeholder(n)[0] == '{' && Placeholder(n)[1] == '{' && Placeholder(n)[2] == ' '
    ensures forall i :: 0 <= i < |n| ==> Placeholder(n)[3 + i] == n[i]
    ensures Placeholder(n)[|n| + 3] == ' ' && Placeholder(n)[|n| + 4] == '}' && Placeholder(n)[|n| + 5] == '}'
  {
  }

  lemma TagChars(t: string)
    ensures |TagText(t)| == |t| + 6
    ensures TagText(t)[0] == '{' && TagText(t)[1] == '%' && TagText(t)[2] == ' '
    ensures forall i :: 0 <= i < |t| ==> TagText(t)[3 + i] == t[i]
    ensures TagText(t)[|t| + 3] == ' ' && TagText(t)[|t| + 4] == '%' && TagText(t)[|t| + 5] == '}'
  {
  }

  lemma IfBlockOpenIsTag(n: string)
    ensures IfBlockOpen(n) == TagText("if " + n)
  {
    assert "{% if " == "{% " + "if ";
  }

  lemma IfBlockCloseIsTag()
    ensures IfBlockClose == TagText("endif")
  {
  }

  /** Two words between the same delimiters, the closing one starting with a space and a
      character neither word holds, differ within the shorter text. */
  lemma WordsDiffer(lead: string, w: string, u: string, trail: string)
    requires |trail| >= 2 && trail[0] == ' ' && trail[1] != ' '
    requires trail[1] !in w && trail[1] !in u && w != u
    ensures MissesAt(lead + w + trail, lead + u + trail, 0)
  {
    var a, b := lead + w + trail, lead + u + trail;
    var l := |lead|;
    if i :| 0 <= i < |w| && i < |u| && w[i] != u[i] {
      assert a[l + i] == w[i] && b[l + i] == u[i];
    } else if |w| < |u| {
      assert w == u[..|w|];
      assert a[l + |w|] == ' ' && b[l + |w|] == u[|w|];
      if u[|w|] == ' ' {
        assert a[l + |w| + 1] == trail[1];
        if |w| + 1 < |u| {
          assert b[l + |w| + 1] == u[|w| + 1];
        } else {
          assert b[l + |w| + 1] == ' ';
        }
      }
    } else if |u| < |w| {
      assert u == w[..|u|];
      assert b[l + |u|] == ' ' && a[l + |u|] == w[|u|];
      if w[|u|] == ' ' {
        assert b[l + |u| + 1] == trail[1];
        if |u| + 1 < |w| {
          assert a[l + |u| + 1] == w[|u| + 1];
        } else {
          assert a[l + |u| + 1] == ' ';
        }
      }
    }
  }

  /** Tags with different words differ within the first. */
  lemma TagsDiffer(t: string, u: string)
    requires '%' !in t && '%' !in u && t != u
    ensures MissesAt(TagText(t), TagText(u), 0)
  {
    WordsDiffer("{% ", t, u, " %}");
  }

  /** An output of another name differs from a variable's placeholder within the output. */
  lemma OutputsDiffer(n: string, v: string)
    requires '}' !in n && '}' !in v && n != v
    ensures MissesAt(Placeholder(n), Placeholder(v), 0)
  {
    WordsDiffer("{{ ", n, v, " }}");
  }

  // ---------------------------------------------------------------------------------
  // Where the patterns of the pass can start.

  /** Every `{` in `a` opens a tag: a `%` follows it. */
  predicate BracesOpenTags(a: string) {
    forall j :: 0 <= j < |a| && a[j] == '{' ==> j + 1 < |a| && a[j + 1] == '%'
  }

  /** No `{` in `a` opens a tag. */
  predicate BracesOpenNoTags(a: string) {
    forall j :: 0 <= j < |a| && a[j] == '{' ==> j + 1 < |a| && a[j + 1] != '%'
  }

  lemma TagsUntouched(a: string, pat: string)
    requires BracesOpenTags(a) && |pat| >= 2 && pat[0] == '{' && pat[1] != '%'
    ensures Untouched(a, pat)
  {
    forall j | 0 <= j < |a|
      ensures MissesAt(a, pat, j)
    {
      if a[j] == '{' {
        assert a[j + 1] != pat[1];
      } else {
        assert a[j + 0] != pat[0];
      }
    }
  }

  lemma NoTagsUntouched(a: string, pat: string)
    requires BracesOpenNoTags(a) && |pat| >= 2 && pat[0] == '{' && pat[1] == '%'
    ensures Untouched(a, pat)
  {
    forall j | 0 <= j < |a|
      ensures MissesAt(a, pat, j)
    {
      if a[j] == '{' {
        assert a[j + 1] != pat[1];
      } else {
        assert a[j + 0] != pat[0];
      }
    }
  }

  lemma TagsMatchUntouched(a: string, open: string, dotAll: bool)
    requires BracesOpenTags(a) && |open| >= 2 && open[0] == '{' && open[1] != '%' && open[1] != '.'
    ensures MatchUntouched(a, open, dotAll)
  {
    forall j | 0 <= j < |a|
      ensures OpenerMissesAt(a, open, dotAll, j)
    {
      if a[j] == '{' {
        assert !CharMatches(a[j + 1], open[1], dotAll);
      } else {
        assert !CharMatches(a[j + 0], open[0], dotAll);
      }
    }
  }

  lemma NoTagsMatchUntouched(a: string, open: string, dotAll: bool)
    requires BracesOpenNoTags(a) && |open| >= 2 && open[0] == '{' && open[1] == '%'
    ensures MatchUntouched(a, open, dotAll)
  {
    forall j | 0 <= j < |a|
      ensures OpenerMissesAt(a, open, dotAll, j)
    {
      if a[j] == '{' {
        assert !CharMatches(a[j + 1], open[1], dotAll);
      } else {
        assert !CharMatches(a[j + 0], open[0], dotAll);
      }
    }
  }

  /** A tag's text opens only itself; any other construct's text opens no tag. */
  lemma InlineBraces(x: Inline)
    requires Lexical(x)
    ensures x.Tag? ==> BracesOpenTags(InlineText(x))
    ensures !x.Tag? ==> BracesOpenNoTags(InlineText(x))
  {
    match x
    case Plain(t) =>
    case Output(n) => PlaceholderChars(n);
    case Tag(t) => TagChars(t);
    case StyleTag => AssetTagChars();
    case CustomTag => AssetTagChars();
  }

  /** Text without `{` is where no pattern of the pass starts. */
  lemma NoBraceUntouched(a: string, pat: string)
    requires pat != [] && pat[0] == '{' && '{' !in a
    ensures Untouched(a, pat)
  {
    forall j | 0 <= j < |a|
      ensures MissesAt(a, pat, j)
    {
      assert a[j + 0] != pat[0];
    }
  }

  lemma NoBraceMatchUntouched(a: string, open: string, dotAll: bool)
    requires open != [] && open[0] == '{' && '{' !in a
    ensures MatchUntouched(a, open, dotAll)
  {
    forall j | 0 <= j < |a|
      ensures OpenerMissesAt(a, open, dotAll, j)
    {
      assert !CharMatches(a[j + 0], open[0], dotAll);
    }
  }

  /** The text of an output or an asset tag: `{{ ` and no other `{`. */
  predicate OpensTwice(a: string) {
    |a| >= 3 && a[0] == '{' && a[1] == '{' && a[2] == ' ' && forall k :: 2 <= k < |a| ==> a[k] != '{'
  }

  lemma OpensTwiceInline(x: Inline)
    requires Lexical(x) && (x.Output? || x.StyleTag? || x.CustomTag?)
    ensures OpensTwice(InlineText(x))
  {
    if x.Output? {
      PlaceholderChars(x.name);
    } else {
      AssetTagChars();
    }
  }

  /** A pattern opening with `{{` can only start at the first character of such a text. */
  lemma OpensTwiceMisses(a: string, pat: string, j: nat)
    requires OpensTwice(a) && |pat| >= 2 && pat[0] == '{' && pat[1] == '{' && 1 <= j < |a|
    ensures MissesAt(a, pat, j)
  {
    if j == 1 {
      assert a[j + 1] != pat[1];
    } else {
      assert a[j + 0] != pat[0];
    }
  }

  lemma OpensTwiceUntouched(a: string, pat: string)
    requires OpensTwice(a) && |pat| >= 2 && pat[0] == '{' && pat[1] == '{' && MissesAt(a, pat, 0)
    ensures Untouched(a, pat)
  {
    forall j | 0 <= j < |a|
      ensures MissesAt(a, pat, j)
    {
      if j > 0 {
        OpensTwiceMisses(a, pat, j);
      }
    }
  }

  lemma OpensTwiceSealed(a: string)
    requires OpensTwice(a)
    ensures Sealed(a, a)
  {
    forall j | 0 <= j < |a|
      ensures j + |a| <= |a| || MissesAt(a, a, j)
    {
      if j > 0 {
        OpensTwiceMisses(a, a, j);
      }
    }
  }

  /** A tag that a pattern misses at its start holds no start of it. */
  lemma TagUntouched(t: string, pat: string)
    requires '{' !in t && pat != [] && pat[0] == '{' && MissesAt(TagText(t), pat, 0)
    ensures Untouched(TagText(t), pat)
  {
    TagChars(t);
    forall j | 0 <= j < |TagText(t)|
      ensures MissesAt(TagText(t), pat, j)
    {
      if j > 0 {
        assert TagText(t)[j + 0] != pat[0];
      }
    }
  }

  lemma TagMatchUntouched(t: string, open: string, dotAll: bool)
    requires '{' !in t && open != [] && open[0] == '{' && OpenerMissesAt(TagText(t), open, dotAll, 0)
    ensures MatchUntouched(TagText(t), open, dotAll)
  {
    TagChars(t);
    forall j | 0 <= j < |TagText(t)|
      ensures OpenerMissesAt(TagText(t), open, dotAll, j)
    {
      if j > 0 {
        assert !CharMatches(TagText(t)[j + 0], open[0], dotAll);
      }
    }
  }
}
