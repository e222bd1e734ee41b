/** The template pass of serve_static.py (lines 96-114) on a whole page built from pieces:
    each of its steps acts on every piece on its own, and the page that comes out is,
    piece by piece, what `Expected` says. */
module PagePass {
  import opened Text
  import opened Patterns
  import opened Templates
  import opened Pieces

  // ---------------------------------------------------------------------------------
  // The `str.replace` steps: the two asset rewrites and a variable's placeholder.

  datatype Subst = StyleUrl | CustomUrl | Fill(name: string, value: string)

  /** The construct a step replaces. */
  function Target(st: Subst): Inline {
    match st
    case StyleUrl => StyleTag
    case CustomUrl => CustomTag
    case Fill(v, _) => Output(v)
  }

  function Replacement(st: Subst): string {
    match st
    case StyleUrl => StyleAssetUrl
    case CustomUrl => CustomAssetUrl
    case Fill(_, w) => w
  }

  /** A variable's name holds no brace and does not start with a quote; its value holds
      no `{`. */
  predicate SubstOK(st: Subst) {
    st.Fill? ==> '{' !in st.name && '}' !in st.name && (st.name == [] || st.name[0] != '\'') && '{' !in st.value
  }

  function SubstInline(x: Inline, st: Subst): Inline {
    if x == Target(st) then Plain(Replacement(st)) else x
  }

  function SubstInlines(xs: seq<Inline>, st: Subst): seq<Inline> {
    seq(|xs|, i requires 0 <= i < |xs| => SubstInline(xs[i], st))
  }

  function SubstPiece(p: Piece, st: Subst): Piece {
    match p
    case Single(x) => Single(SubstInline(x, st))
    case IfBlock(n, body) => IfBlock(n, SubstInlines(body, st))
  }

  function SubstPage(ps: seq<Piece>, st: Subst): seq<Piece> {
    seq(|ps|, i requires 0 <= i < |ps| => SubstPiece(ps[i], st))
  }

  lemma ReplacementChars(st: Subst)
    requires SubstOK(st)
    ensures '{' !in Replacement(st)
    ensures OpensTwice(InlineText(Target(st)))
  {
    if st.Fill? {
      PlaceholderChars(st.name);
    } else {
      AssetTagChars();
      assert '{' !in StyleAssetUrl && '{' !in CustomAssetUrl;
    }
  }

  /** A construct that is not the step's target differs from its pattern at once. */
  lemma MissesTarget(x: Inline, st: Subst)
    requires Lexical(x) && SubstOK(st) && x != Target(st) && (x.Output? || x.StyleTag? || x.CustomTag?)
    ensures MissesAt(InlineText(x), InlineText(Target(st)), 0)
  {
    var a, pat := InlineText(x), InlineText(Target(st));
    AssetTagChars();
    match x
    case Output(n) =>
      PlaceholderChars(n);
      if st.Fill? {
        OutputsDiffer(n, st.name);
      } else {
        assert a[3] != pat[3];
      }
    case Plain(_) =>
    case Tag(_) =>
    case StyleTag =>
      if st.Fill? {
        PlaceholderChars(st.name);
        assert a[3] != pat[3];
      } else {
        assert a[16] != pat[16];
      }
    case CustomTag =>
      if st.Fill? {
        PlaceholderChars(st.name);
        assert a[3] != pat[3];
      } else {
        assert a[16] != pat[16];
      }
  }

  /** Each construct is sealed for a step, which turns its target into the replacement
      and leaves every other construct as it is. */
  lemma SubstInlineText(x: Inline, st: Subst)
    requires Lexical(x) && SubstOK(st)
    ensures Sealed(InlineText(x), InlineText(Target(st)))
    ensures Replace(InlineText(x), InlineText(Target(st)), Replacement(st)) == InlineText(SubstInline(x, st))
  {
    var a, pat, r := InlineText(x), InlineText(Target(st)), Replacement(st);
    ReplacementChars(st);
    if x == Target(st) {
      OpensTwiceSealed(pat);
      ReplaceLeading(pat, [], r);
      assert pat + [] == pat && r + [] == r;
    } else {
      if x.Tag? {
        InlineBraces(x);
        TagsUntouched(a, pat);
      } else if x.Plain? {
        NoBraceUntouched(a, pat);
      } else {
        OpensTwiceInline(x);
        MissesTarget(x, st);
        OpensTwiceUntouched(a, pat);
      }
      UntouchedKept(a, pat, r);
    }
  }

  /** `replace` over a run of sealed texts, each becoming the next run's text. */
  lemma {:induction false} InlinesReplace(xs: seq<Inline>, ys: seq<Inline>, pat: string, repl: string)
    requires pat != [] && |xs| == |ys|
    requires forall i :: 0 <= i < |xs| ==> Sealed(InlineText(xs[i]), pat)
    requires forall i :: 0 <= i < |xs| ==> Replace(InlineText(xs[i]), pat, repl) == InlineText(ys[i])
    ensures Sealed(InlinesText(xs), pat) && Replace(InlinesText(xs), pat, repl) == InlinesText(ys)
    decreases |xs|
  {
    if xs == [] {
      assert Replace([], pat, repl) == [];
    } else {
      InlinesReplace(xs[1..], ys[1..], pat, repl);
      SealedAcross(InlineText(xs[0]), InlinesText(xs[1..]), pat);
      ReplaceConcat(InlineText(xs[0]), InlinesText(xs[1..]), pat, repl);
      SealedAppend(InlineText(xs[0]), InlinesText(xs[1..]), pat);
    }
  }

  /** `replace` over the pieces of a page, each becoming the next page's piece. */
  lemma {:induction false} RenderReplace(ps: seq<Piece>, qs: seq<Piece>, pat: string, repl: string)
    requires pat != [] && |ps| == |qs|
    requires forall i :: 0 <= i < |ps| ==> Sealed(PieceText(ps[i]), pat)
    requires forall i :: 0 <= i < |ps| ==> Replace(PieceText(ps[i]), pat, repl) == PieceText(qs[i])
    ensures Replace(Render(ps), pat, repl) == Render(qs)
    decreases |ps|
  {
    if ps == [] {
      assert Replace([], pat, repl) == [];
    } else {
      RenderReplace(ps[1..], qs[1..], pat, repl);
      SealedAcross(PieceText(ps[0]), Render(ps[1..]), pat);
      ReplaceConcat(PieceText(ps[0]), Render(ps[1..]), pat, repl);
    }
  }

  /** A step acts on a piece construct by construct. */
  lemma SubstPieceText(p: Piece, st: Subst)
    requires PieceOK(p) && SubstOK(st)
    ensures Sealed(PieceText(p), InlineText(Target(st)))
    ensures Replace(PieceText(p), InlineText(Target(st)), Replacement(st)) == PieceText(SubstPiece(p, st))
  {
    match p
    case Single(x) =>
      SubstInlineText(x, st);
    case IfBlock(n, body) =>
      SubstBlockText(n, body, st);
  }

  /** In a block, the step acts on the body; the block's own tags are left alone. */
  lemma SubstBlockText(n: string, body: seq<Inline>, st: Subst)
    requires PieceOK(IfBlock(n, body)) && SubstOK(st)
    ensures Sealed(PieceText(IfBlock(n, body)), InlineText(Target(st)))
    ensures Replace(PieceText(IfBlock(n, body)), InlineText(Target(st)), Replacement(st))
         == PieceText(IfBlock(n, SubstInlines(body, st)))
  {
    var pat, r := InlineText(Target(st)), Replacement(st);
    var mid := InlinesText(body);
    assert Sealed(mid, pat) && Replace(mid, pat, r) == InlinesText(SubstInlines(body, st)) by {
      BodyReplace(body, st);
    }
    var head := IfBlockOpen(n);
    ReplacementChars(st);
    assert Untouched(head, pat) && Untouched(IfBlockClose, pat) by {
      IfBlockOpenIsTag(n);
      IfBlockCloseIsTag();
      InlineBraces(Tag("if " + n));
      InlineBraces(Tag("endif"));
      TagsUntouched(head, pat);
      TagsUntouched(IfBlockClose, pat);
    }
    UntouchedKept(head, pat, r);
    UntouchedKept(IfBlockClose, pat, r);
    ReplaceSealed3(head, mid, IfBlockClose, pat, r);
    SealedAppend(head, mid, pat);
    SealedAppend(head + mid, IfBlockClose, pat);
  }

  /** The step on a block's body, construct by construct. */
  lemma BodyReplace(body: seq<Inline>, st: Subst)
    requires (forall x :: x in body ==> Nested(x)) && SubstOK(st)
    ensures Sealed(InlinesText(body), InlineText(Target(st)))
    ensures Replace(InlinesText(body), InlineText(Target(st)), Replacement(st)) == InlinesText(SubstInlines(body, st))
  {
    var pat, r, ys := InlineText(Target(st)), Replacement(st), SubstInlines(body, st);
    forall i | 0 <= i < |body|
      ensures Sealed(InlineText(body[i]), pat)
      ensures Replace(InlineText(body[i]), pat, r) == InlineText(ys[i])
    {
      assert body[i] in body;
      SubstInlineText(body[i], st);
    }
    ReplacementChars(st);
    InlinesReplace(body, ys, pat, r);
  }

  /** A `replace` step on a whole page is the step on each piece. */
  lemma SubstPageText(ps: seq<Piece>, st: Subst)
    requires PageOK(ps) && SubstOK(st)
    ensures Replace(Render(ps), InlineText(Target(st)), Replacement(st)) == Render(SubstPage(ps, st))
  {
    var qs := SubstPage(ps, st);
    forall i | 0 <= i < |ps|
      ensures Sealed(PieceText(ps[i]), InlineText(Target(st)))
      ensures Replace(PieceText(ps[i]), InlineText(Target(st)), Replacement(st)) == PieceText(qs[i])
    {
      SubstPieceText(ps[i], st);
    }
    ReplacementChars(st);
    RenderReplace(ps, qs, InlineText(Target(st)), Replacement(st));
  }

  // ---------------------------------------------------------------------------------
  // The `re.sub` of a variable's `{% if %}` blocks.

  /** The opener for `v`, in which each `.` of the name matches any character, matches
      the opener of a block on `n` in full. */
  predicate Fills(v: string, n: string) {
    |v| == |n| && forall i :: 0 <= i < |n| ==> CharMatches(n[i], v[i], true)
  }

  /** The opener for `v` either matches a block's opener in full or fails within it. */
  predicate Decided(v: string, n: string) {
    Fills(v, n) || OpenerMissesAt(IfBlockOpen(n), IfBlockOpen(v), true, 0)
  }

  function IfPiece(p: Piece, v: string, value: string): Piece {
    if p.IfBlock? && Fills(v, p.name) then Single(Plain(value)) else p
  }

  function IfPage(ps: seq<Piece>, v: string, value: string): seq<Piece> {
    seq(|ps|, i requires 0 <= i < |ps| => IfPiece(ps[i], v, value))
  }

  lemma IfOpenChars(v: string)
    ensures |IfBlockOpen(v)| == |v| + 9
    ensures IfBlockOpen(v)[0] == '{' && IfBlockOpen(v)[1] == '%' && IfBlockOpen(v)[2] == ' '
    ensures IfBlockOpen(v)[3] == 'i' && IfBlockOpen(v)[4] == 'f' && IfBlockOpen(v)[5] == ' '
    ensures forall i :: 0 <= i < |v| ==> IfBlockOpen(v)[6 + i] == v[i]
    ensures IfBlockOpen(v)[|v| + 6] == ' ' && IfBlockOpen(v)[|v| + 7] == '%' && IfBlockOpen(v)[|v| + 8] == '}'
  {
  }

  /** Text that differs from the pattern only where `Fills` allows matches it. */
  lemma FramedOpener(pre: string, n: string, v: string, post: string)
    requires Fills(v, n)
    ensures OpenerAt(pre + n + post, pre + v + post, true, 0)
  {
    var a, o := pre + n + post, pre + v + post;
    forall k | 0 <= k < |o|
      ensures CharMatches(a[k], o[k], true)
    {
      if k < |pre| {
        assert a[k] == pre[k] == o[k];
      } else if k < |pre| + |n| {
        assert a[k] == n[k - |pre|] && o[k] == v[k - |pre|];
      } else {
        assert a[k] == post[k - |pre| - |n|] == o[k];
      }
    }
  }

  lemma FillsOpener(v: string, n: string)
    requires Fills(v, n)
    ensures OpenerAt(IfBlockOpen(n), IfBlockOpen(v), true, 0) && |IfBlockOpen(n)| == |IfBlockOpen(v)|
  {
    FramedOpener("{% if ", n, v, " %}");
  }

  /** No construct outside a block's tags starts a variable's `{% if %}`. */
  lemma LooseMatchUntouched(x: Inline, v: string)
    requires Loose(x)
    ensures MatchUntouched(InlineText(x), IfBlockOpen(v), true)
  {
    var o := IfBlockOpen(v);
    IfOpenChars(v);
    InlineBraces(x);
    if x.Tag? {
      var a := TagText(x.tag);
      TagChars(x.tag);
      if |x.tag| == 0 || x.tag[0] != 'i' {
        assert !CharMatches(a[0 + 3], o[3], true);
      } else {
        assert !CharMatches(a[0 + 4], o[4], true);
      }
      TagMatchUntouched(x.tag, o, true);
    } else {
      NoTagsMatchUntouched(InlineText(x), o, true);
    }
  }

  /** The `endif` starts no `{% if %}`. */
  lemma CloseMatchUntouched(v: string)
    ensures MatchUntouched(IfBlockClose, IfBlockOpen(v), true)
  {
    var o := IfBlockOpen(v);
    IfOpenChars(v);
    IfBlockCloseIsTag();
    TagChars("endif");
    assert !CharMatches(IfBlockClose[0 + 3], o[3], true);
    TagMatchUntouched("endif", o, true);
  }

  /** Inside a block, no construct holds the start of its `endif`. */
  lemma NestedUntouchedClose(x: Inline)
    requires Nested(x)
    ensures Untouched(InlineText(x), IfBlockClose)
  {
    IfBlockCloseIsTag();
    TagChars("endif");
    InlineBraces(x);
    if x.Tag? {
      TagsDiffer(x.tag, "endif");
      TagUntouched(x.tag, IfBlockClose);
    } else {
      NoTagsUntouched(InlineText(x), IfBlockClose);
    }
  }

  lemma {:induction false} InlinesUntouched(xs: seq<Inline>, pat: string)
    requires forall i :: 0 <= i < |xs| ==> Untouched(InlineText(xs[i]), pat)
    ensures Untouched(InlinesText(xs), pat)
    decreases |xs|
  {
    if xs != [] {
      InlinesUntouched(xs[1..], pat);
      UntouchedAppend(InlineText(xs[0]), InlinesText(xs[1..]), pat);
    }
  }

  lemma {:induction false} InlinesMatchUntouched(xs: seq<Inline>, open: string, dotAll: bool)
    requires forall i :: 0 <= i < |xs| ==> MatchUntouched(InlineText(xs[i]), open, dotAll)
    ensures MatchUntouched(InlinesText(xs), open, dotAll)
    decreases |xs|
  {
    if xs != [] {
      InlinesMatchUntouched(xs[1..], open, dotAll);
      MatchUntouchedAppend(InlineText(xs[0]), InlinesText(xs[1..]), open, dotAll);
    }
  }

  /** No construct of a block's body starts a variable's `{% if %}` or holds the start of
      the `endif`. */
  lemma BodyUntouched(body: seq<Inline>, v: string)
    requires forall x :: x in body ==> Nested(x)
    ensures MatchUntouched(InlinesText(body), IfBlockOpen(v), true)
    ensures Untouched(InlinesText(body), IfBlockClose)
  {
    forall i | 0 <= i < |body|
      ensures MatchUntouched(InlineText(body[i]), IfBlockOpen(v), true)
      ensures Untouched(InlineText(body[i]), IfBlockClose)
    {
      assert body[i] in body;
      LooseMatchUntouched(body[i], v);
      NestedUntouchedClose(body[i]);
    }
    InlinesMatchUntouched(body, IfBlockOpen(v), true);
    InlinesUntouched(body, IfBlockClose);
  }

  /** Past its first character, a block starts no `{% if %}`. */
  lemma BlockTailUntouched(n: string, body: seq<Inline>, v: string)
    requires TagWord(n) && forall x :: x in body ==> Nested(x)
    ensures MatchUntouched(IfBlockOpen(n)[1..] + InlinesText(body) + IfBlockClose, IfBlockOpen(v), true)
  {
    var o, head, mid := IfBlockOpen(v), IfBlockOpen(n), InlinesText(body);
    IfOpenChars(v);
    assert '{' !in head[1..] by {
      IfOpenChars(n);
    }
    BodyUntouched(body, v);
    NoBraceMatchUntouched(head[1..], o, true);
    CloseMatchUntouched(v);
    MatchUntouchedAppend(head[1..], mid, o, true);
    MatchUntouchedAppend(head[1..] + mid, IfBlockClose, o, true);
  }

  /** Text that is one whole match, with no opener after its first character, is sealed
      and becomes the replacement. */
  lemma WholeMatchSealed(a: string, o: string, close: string, value: string)
    requires o != [] && a != [] && MatchEnd(a, o, close, true, 0) == Some(|a|)
    requires MatchUntouched(a[1..], o, true)
    ensures MatchSealed(a, o, close, true)
    ensures ReplaceMatches(a, o, close, value, true) == value
  {
    assert a == [a[0]] + a[1..];
    forall j | 0 <= j < |a|
      ensures OpenerMissesAt(a, o, true, j) || MatchEnd(a, o, close, true, j).Some?
    {
      if j > 0 {
        OpenerMissesRight([a[0]], a[1..], o, true, j - 1);
      }
    }
    MatchStep(a, o, close, value, true, 0, |a|);
    assert value + [] == value;
  }

  /** A block whose opener the variable's opener matches is one match, and sealed. */
  lemma FilledBlock(n: string, body: seq<Inline>, v: string, value: string)
    requires TagWord(n) && Fills(v, n) && forall x :: x in body ==> Nested(x)
    ensures MatchSealed(PieceText(IfBlock(n, body)), IfBlockOpen(v), IfBlockClose, true)
    ensures ReplaceMatches(PieceText(IfBlock(n, body)), IfBlockOpen(v), IfBlockClose, value, true) == value
  {
    var o, head, mid := IfBlockOpen(v), IfBlockOpen(n), InlinesText(body);
    var a := head + mid + IfBlockClose;
    assert MatchEnd(a, o, IfBlockClose, true, 0) == Some(|a|) by {
      BodyUntouched(body, v);
      UntouchedNotContained(mid, IfBlockClose);
      FillsOpener(v, n);
      WholeBlockMatch(head, mid, o, IfBlockClose, true);
    }
    assert MatchUntouched(a[1..], o, true) by {
      assert a[1..] == head[1..] + mid + IfBlockClose;
      BlockTailUntouched(n, body, v);
    }
    assert o != [] by {
      IfOpenChars(v);
    }
    WholeMatchSealed(a, o, IfBlockClose, value);
  }

  /** A variable's `{% if %}` step on a piece: a block it fills becomes the value, and
      every other piece is left as it is. */
  lemma IfPieceText(p: Piece, v: string, value: string)
    requires PieceOK(p) && (p.IfBlock? ==> Decided(v, p.name))
    ensures MatchSealed(PieceText(p), IfBlockOpen(v), IfBlockClose, true)
    ensures ReplaceMatches(PieceText(p), IfBlockOpen(v), IfBlockClose, value, true) == PieceText(IfPiece(p, v, value))
  {
    var o := IfBlockOpen(v);
    IfOpenChars(v);
    match p
    case Single(x) =>
      LooseMatchUntouched(x, v);
      MatchUntouchedKept(InlineText(x), o, IfBlockClose, value, true);
    case IfBlock(n, body) =>
      if Fills(v, n) {
        FilledBlock(n, body, v, value);
      } else {
        var head, mid := IfBlockOpen(n), InlinesText(body);
        BodyUntouched(body, v);
        IfBlockOpenIsTag(n);
        TagMatchUntouched("if " + n, o, true);
        CloseMatchUntouched(v);
        MatchUntouchedAppend(head, mid, o, true);
        MatchUntouchedAppend(head + mid, IfBlockClose, o, true);
        MatchUntouchedKept(head + mid + IfBlockClose, o, IfBlockClose, value, true);
      }
  }

  /** `re.sub` over the pieces of a page, each becoming the next page's piece. */
  lemma {:induction false} RenderReplaceMatches(ps: seq<Piece>, qs: seq<Piece>, open: string, close: string, repl: string, dotAll: bool)
    requires open != [] && |ps| == |qs|
    requires forall i :: 0 <= i < |ps| ==> MatchSealed(PieceText(ps[i]), open, close, dotAll)
    requires forall i :: 0 <= i < |ps| ==> ReplaceMatches(PieceText(ps[i]), open, close, repl, dotAll) == PieceText(qs[i])
    ensures ReplaceMatches(Render(ps), open, close, repl, dotAll) == Render(qs)
    decreases |ps|
  {
    if ps != [] {
      RenderReplaceMatches(ps[1..], qs[1..], open, close, repl, dotAll);
      MatchSealedAcross(PieceText(ps[0]), Render(ps[1..]), open, close, dotAll);
      ReplaceMatchesConcat(PieceText(ps[0]), Render(ps[1..]), open, close, repl, dotAll);
    }
  }

  /** A variable's `{% if %}` step on a whole page is the step on each piece. */
  lemma IfPageText(ps: seq<Piece>, v: string, value: string)
    requires PageOK(ps) && forall i :: 0 <= i < |ps| && ps[i].IfBlock? ==> Decided(v, ps[i].name)
    ensures ReplaceMatches(Render(ps), IfBlockOpen(v), IfBlockClose, value, true) == Render(IfPage(ps, v, value))
  {
    var qs := IfPage(ps, v, value);
    forall i | 0 <= i < |ps|
      ensures MatchSealed(PieceText(ps[i]), IfBlockOpen(v), IfBlockClose, true)
      ensures ReplaceMatches(PieceText(ps[i]), IfBlockOpen(v), IfBlockClose, value, true) == PieceText(qs[i])
    {
      IfPieceText(ps[i], v, value);
    }
    IfOpenChars(v);
    RenderReplaceMatches(ps, qs, IfBlockOpen(v), IfBlockClose, value, true);
  }

  // ---------------------------------------------------------------------------------
  // The clean-up, on the constructs of the page in order.

  function FlatPiece(p: Piece): seq<Inline> {
    match p
    case Single(x) => [x]
    case IfBlock(n, body) => [Tag("if " + n)] + body + [Tag("endif")]
  }

  /** The constructs of a page, a block's tags as two tags around its body. */
  function Flatten(ps: seq<Piece>): seq<Inline> {
    if ps == [] then [] else FlatPiece(ps[0]) + Flatten(ps[1..])
  }

  lemma {:induction false} InlinesTextAppend(xs: seq<Inline>, ys: seq<Inline>)
    ensures InlinesText(xs + ys) == InlinesText(xs) + InlinesText(ys)
    decreases |xs|
  {
    if xs == [] {
      assert xs + ys == ys;
    } else {
      var t := xs + ys;
      assert t[0] == xs[0] && t[1..] == xs[1..] + ys;
      InlinesTextAppend(xs[1..], ys);
      calc {
        InlinesText(t);
        InlineText(xs[0]) + InlinesText(xs[1..] + ys);
        InlineText(xs[0]) + (InlinesText(xs[1..]) + InlinesText(ys));
        { AppendAssoc(InlineText(xs[0]), InlinesText(xs[1..]), InlinesText(ys)); }
        InlinesText(xs) + InlinesText(ys);
      }
    }
  }

  lemma FlatPieceText(p: Piece)
    ensures InlinesText(FlatPiece(p)) == PieceText(p)
  {
    if p.IfBlock? {
      var n, body := p.name, p.body;
      InlinesTextAppend([Tag("if " + n)] + body, [Tag("endif")]);
      InlinesTextAppend([Tag("if " + n)], body);
      IfBlockOpenIsTag(n);
      IfBlockCloseIsTag();
    }
  }

  lemma {:induction false} RenderFlatten(ps: seq<Piece>)
    ensures Render(ps) == InlinesText(Flatten(ps))
    decreases |ps|
  {
    if ps != [] {
      RenderFlatten(ps[1..]);
      FlatPieceText(ps[0]);
      InlinesTextAppend(FlatPiece(ps[0]), Flatten(ps[1..]));
    }
  }

  function DropTags(xs: seq<Inline>): seq<Inline> {
    seq(|xs|, i requires 0 <= i < |xs| => if xs[i].Tag? then Plain([]) else xs[i])
  }

  function DropOutputs(xs: seq<Inline>): seq<Inline> {
    seq(|xs|, i requires 0 <= i < |xs| => if xs[i].Output? then Plain([]) else xs[i])
  }

  /** A tag is one match of `{%.*?%}`, and sealed. */
  lemma TagDeleted(t: string)
    requires TagWord(t)
    ensures MatchSealed(TagText(t), "{%", "%}", false)
    ensures ReplaceMatches(TagText(t), "{%", "%}", [], false) == []
  {
    var a, mid := TagText(t), " " + t + " ";
    assert a == "{%" + mid + "%}";
    CloseAbsentFromMid(mid, "%}");
    WholeBlockMatch("{%", mid, "{%", "%}", false);
    TagChars(t);
    forall j | 0 <= j < |a|
      ensures OpenerMissesAt(a, "{%", false, j) || MatchEnd(a, "{%", "%}", false, j).Some?
    {
      if j > 0 {
        assert !CharMatches(a[j + 0], "{%"[0], false);
      }
    }
    MatchStep(a, "{%", "%}", [], false, 0, |a|);
  }

  /** An output is one match of `{{.*?}}`, and sealed. */
  lemma OutputDeleted(n: string)
    requires Lexical(Output(n))
    ensures MatchSealed(Placeholder(n), "{{", "}}", false)
    ensures ReplaceMatches(Placeholder(n), "{{", "}}", [], false) == []
  {
    var a, mid := Placeholder(n), " " + n + " ";
    assert a == "{{" + mid + "}}";
    CloseAbsentFromMid(mid, "}}");
    WholeBlockMatch("{{", mid, "{{", "}}", false);
    PlaceholderChars(n);
    forall j | 0 <= j < |a|
      ensures OpenerMissesAt(a, "{{", false, j) || MatchEnd(a, "{{", "}}", false, j).Some?
    {
      if j == 1 {
        assert !CharMatches(a[j + 1], "{{"[1], false);
      } else if j > 1 {
        assert !CharMatches(a[j + 0], "{{"[0], false);
      }
    }
    MatchStep(a, "{{", "}}", [], false, 0, |a|);
  }

  lemma DropTagsInline(x: Inline)
    requires Lexical(x)
    ensures MatchSealed(InlineText(x), "{%", "%}", false)
    ensures ReplaceMatches(InlineText(x), "{%", "%}", [], false) == InlineText(if x.Tag? then Plain([]) else x)
  {
    if x.Tag? {
      TagDeleted(x.tag);
    } else {
      InlineBraces(x);
      NoTagsMatchUntouched(InlineText(x), "{%", false);
      MatchUntouchedKept(InlineText(x), "{%", "%}", [], false);
    }
  }

  lemma DropOutputsInline(x: Inline)
    requires Lexical(x) && !x.StyleTag? && !x.CustomTag?
    ensures MatchSealed(InlineText(x), "{{", "}}", false)
    ensures ReplaceMatches(InlineText(x), "{{", "}}", [], false) == InlineText(if x.Output? then Plain([]) else x)
  {
    if x.Output? {
      OutputDeleted(x.name);
    } else {
      if x.Tag? {
        InlineBraces(x);
        TagsMatchUntouched(InlineText(x), "{{", false);
      } else {
        NoBraceMatchUntouched(InlineText(x), "{{", false);
      }
      MatchUntouchedKept(InlineText(x), "{{", "}}", [], false);
    }
  }

  /** `re.sub` over a run of sealed texts, each becoming the next run's text. */
  lemma {:induction false} InlinesReplaceMatches(xs: seq<Inline>, ys: seq<Inline>, open: string, close: string, repl: string, dotAll: bool)
    requires open != [] && |xs| == |ys|
    requires forall i :: 0 <= i < |xs| ==> MatchSealed(InlineText(xs[i]), open, close, dotAll)
    requires forall i :: 0 <= i < |xs| ==> ReplaceMatches(InlineText(xs[i]), open, close, repl, dotAll) == InlineText(ys[i])
    ensures ReplaceMatches(InlinesText(xs), open, close, repl, dotAll) == InlinesText(ys)
    decreases |xs|
  {
    if xs != [] {
      InlinesReplaceMatches(xs[1..], ys[1..], open, close, repl, dotAll);
      MatchSealedAcross(InlineText(xs[0]), InlinesText(xs[1..]), open, close, dotAll);
      ReplaceMatchesConcat(InlineText(xs[0]), InlinesText(xs[1..]), open, close, repl, dotAll);
    }
  }

  lemma TagsSwept(xs: seq<Inline>)
    requires forall i :: 0 <= i < |xs| ==> Lexical(xs[i])
    ensures ReplaceMatches(InlinesText(xs), "{%", "%}", [], false) == InlinesText(DropTags(xs))
  {
    var ys := DropTags(xs);
    forall i | 0 <= i < |xs|
      ensures MatchSealed(InlineText(xs[i]), "{%", "%}", false)
      ensures ReplaceMatches(InlineText(xs[i]), "{%", "%}", [], false) == InlineText(ys[i])
    {
      DropTagsInline(xs[i]);
    }
    InlinesReplaceMatches(xs, ys, "{%", "%}", [], false);
  }

  lemma OutputsSwept(xs: seq<Inline>)
    requires forall i :: 0 <= i < |xs| ==> Lexical(xs[i]) && !xs[i].StyleTag? && !xs[i].CustomTag?
    ensures ReplaceMatches(InlinesText(xs), "{{", "}}", [], false) == InlinesText(DropOutputs(xs))
  {
    var ys := DropOutputs(xs);
    forall i | 0 <= i < |xs|
      ensures MatchSealed(InlineText(xs[i]), "{{", "}}", false)
      ensures ReplaceMatches(InlineText(xs[i]), "{{", "}}", [], false) == InlineText(ys[i])
    {
      DropOutputsInline(xs[i]);
    }
    InlinesReplaceMatches(xs, ys, "{{", "}}", [], false);
  }

  /** Construct by construct, the two deletions of the clean-up remove every tag and then
      every output. */
  lemma SweptSteps(xs: seq<Inline>)
    requires Sweepable(xs)
    ensures ReplaceMatches(InlinesText(xs), "{%", "%}", [], false) == InlinesText(DropTags(xs))
    ensures ReplaceMatches(InlinesText(DropTags(xs)), "{{", "}}", [], false) == InlinesText(DropOutputs(DropTags(xs)))
  {
    TagsSwept(xs);
    DropTagsKeeps(xs);
    OutputsSwept(DropTags(xs));
  }

  lemma DropTagsKeeps(xs: seq<Inline>)
    requires forall i :: 0 <= i < |xs| ==> Lexical(xs[i]) && !xs[i].StyleTag? && !xs[i].CustomTag?
    ensures forall i :: 0 <= i < |DropTags(xs)| ==> Lexical(DropTags(xs)[i]) && !DropTags(xs)[i].StyleTag? && !DropTags(xs)[i].CustomTag?
  {
  }

  /** The clean-up is its two deletions one after the other. */
  lemma StripSteps(c: string, d: string, e: string)
    requires ReplaceMatches(c, "{%", "%}", [], false) == d
    requires ReplaceMatches(d, "{{", "}}", [], false) == e
    ensures StripLiquidSyntax(c) == e
  {
  }

  lemma StripSwept(xs: seq<Inline>)
    requires Sweepable(xs)
    ensures StripLiquidSyntax(InlinesText(xs)) == InlinesText(DropOutputs(DropTags(xs)))
  {
    SweptSteps(xs);
    StripSteps(InlinesText(xs), InlinesText(DropTags(xs)), InlinesText(DropOutputs(DropTags(xs))));
  }

  // ---------------------------------------------------------------------------------
  // The loop over the variables.

  /** A variable the pass can be stated for: see `SubstOK`. */
  predicate VarsOK(vars: seq<(string, string)>) {
    forall i :: 0 <= i < |vars| ==> SubstOK(Fill(vars[i].0, vars[i].1))
  }

  /** Each variable's `{% if %}` opener matches each block's opener in full or fails
      within it. */
  predicate BlocksDecided(vars: seq<(string, string)>, ps: seq<Piece>) {
    forall i, j :: 0 <= i < |vars| && 0 <= j < |ps| && ps[j].IfBlock? ==> Decided(vars[i].0, ps[j].name)
  }

  /** An opener is decided on every block when its name holds no space and no `%`, and no
      `.` in it is followed by another: where the block's name ends early or runs on, the
      space or `%` that follows it is not matched. */
  lemma OpenerDecided(v: string, n: string)
    requires TagWord(n) && ' ' !in v && '%' !in v
    requires forall i :: 0 <= i < |v| - 1 && v[i] == '.' ==> v[i + 1] != '.'
    ensures Decided(v, n)
  {
    var a, o := IfBlockOpen(n), IfBlockOpen(v);
    IfOpenChars(v);
    IfOpenChars(n);
    if !Fills(v, n) {
      if |n| == |v| {
        var i :| 0 <= i < |n| && !CharMatches(n[i], v[i], true);
        assert !CharMatches(a[0 + (6 + i)], o[6 + i], true);
      } else if |n| < |v| {
        if v[|n|] != '.' {
          assert !CharMatches(a[0 + (6 + |n|)], o[6 + |n|], true);
        } else {
          assert !CharMatches(a[0 + (7 + |n|)], o[7 + |n|], true);
        }
      } else {
        if n[|v|] != ' ' {
          assert !CharMatches(a[0 + (6 + |v|)], o[6 + |v|], true);
        } else {
          assert !CharMatches(a[0 + (7 + |v|)], o[7 + |v|], true);
        }
      }
    }
  }

  /** One turn of the loop on a piece: its blocks, then its placeholder. */
  function VarPiece(p: Piece, v: string, value: string): Piece {
    SubstPiece(IfPiece(p, v, value), Fill(v, value))
  }

  function VarsPiece(p: Piece, vars: seq<(string, string)>): Piece
    decreases |vars|
  {
    if vars == [] then p
    else
      var n := |vars| - 1;
      VarPiece(VarsPiece(p, vars[..n]), vars[n].0, vars[n].1)
  }

  function VarsPage(ps: seq<Piece>, vars: seq<(string, string)>): seq<Piece> {
    seq(|ps|, i requires 0 <= i < |ps| => VarsPiece(ps[i], vars))
  }

  /** The value of the first variable named `n`. */
  function Lookup(vars: seq<(string, string)>, n: string): Option<string> {
    if vars == [] then None
    else if vars[0].0 == n then Some(vars[0].1)
    else Lookup(vars[1..], n)
  }

  /** The value of the first variable whose opener matches that of a block on `n`. */
  function FirstFill(vars: seq<(string, string)>, n: string): Option<string> {
    if vars == [] then None
    else if Fills(vars[0].0, n) then Some(vars[0].1)
    else FirstFill(vars[1..], n)
  }

  lemma {:induction false} LookupSnoc(vars: seq<(string, string)>, v: string, value: string, n: string)
    ensures Lookup(vars + [(v, value)], n)
         == if Lookup(vars, n).Some? then Lookup(vars, n) else if v == n then Some(value) else None
    decreases |vars|
  {
    if vars != [] {
      assert (vars + [(v, value)])[1..] == vars[1..] + [(v, value)];
      LookupSnoc(vars[1..], v, value, n);
    }
  }

  lemma {:induction false} FirstFillSnoc(vars: seq<(string, string)>, v: string, value: string, n: string)
    ensures FirstFill(vars + [(v, value)], n)
         == if FirstFill(vars, n).Some? then FirstFill(vars, n) else if Fills(v, n) then Some(value) else None
    decreases |vars|
  {
    if vars != [] {
      assert (vars + [(v, value)])[1..] == vars[1..] + [(v, value)];
      FirstFillSnoc(vars[1..], v, value, n);
    }
  }

  lemma {:induction false} LookupValue(vars: seq<(string, string)>, n: string)
    requires VarsOK(vars)
    ensures Lookup(vars, n).Some? ==> '{' !in Lookup(vars, n).value
    decreases |vars|
  {
    if vars != [] && vars[0].0 != n {
      LookupValue(vars[1..], n);
    }
  }

  lemma {:induction false} FirstFillValue(vars: seq<(string, string)>, n: string)
    requires VarsOK(vars)
    ensures FirstFill(vars, n).Some? ==> '{' !in FirstFill(vars, n).value
    decreases |vars|
  {
    if vars != [] && !Fills(vars[0].0, n) {
      FirstFillValue(vars[1..], n);
    }
  }

  /** An output of a variable becomes the value of the first variable of its name. */
  function FillInline(x: Inline, vars: seq<(string, string)>): Inline {
    if x.Output? && Lookup(vars, x.name).Some? then Plain(Lookup(vars, x.name).value) else x
  }

  /** A piece after the loop: a block that some variable's opener fills is that first
      variable's value; in every other piece each output of a variable is filled. */
  function Substituted(p: Piece, vars: seq<(string, string)>): Piece {
    match p
    case Single(x) => Single(FillInline(x, vars))
    case IfBlock(n, body) =>
      if FirstFill(vars, n).Some? then Single(Plain(FirstFill(vars, n).value))
      else IfBlock(n, seq(|body|, i requires 0 <= i < |body| => FillInline(body[i], vars)))
  }

  lemma FillInlineSnoc(x: Inline, vars: seq<(string, string)>, v: string, value: string)
    ensures SubstInline(FillInline(x, vars), Fill(v, value)) == FillInline(x, vars + [(v, value)])
  {
    if x.Output? {
      LookupSnoc(vars, v, value, x.name);
    }
  }

  /** The loop, turn by turn, leaves each piece as `Substituted` says. */
  lemma {:induction false} VarsPieceIs(p: Piece, vars: seq<(string, string)>)
    ensures VarsPiece(p, vars) == Substituted(p, vars)
    decreases |vars|
  {
    if vars == [] {
      if p.IfBlock? {
        assert Substituted(p, vars).body == p.body;
      }
    } else {
      var n := |vars| - 1;
      var init, v, value := vars[..n], vars[n].0, vars[n].1;
      assert vars == init + [(v, value)];
      VarsPieceIs(p, init);
      match p
      case Single(x) =>
        FillInlineSnoc(x, init, v, value);
      case IfBlock(nm, body) =>
        FirstFillSnoc(init, v, value, nm);
        if FirstFill(init, nm).None? && !Fills(v, nm) {
          var before := seq(|body|, i requires 0 <= i < |body| => FillInline(body[i], init));
          var after := seq(|body|, i requires 0 <= i < |body| => FillInline(body[i], vars));
          forall i | 0 <= i < |body|
            ensures SubstInline(before[i], Fill(v, value)) == after[i]
          {
            FillInlineSnoc(body[i], init, v, value);
          }
          assert SubstInlines(before, Fill(v, value)) == after;
        }
    }
  }

  /** The loop keeps a piece well formed, and a block it keeps keeps its name. */
  lemma SubstitutedOK(p: Piece, vars: seq<(string, string)>)
    requires PieceOK(p) && VarsOK(vars)
    ensures PieceOK(Substituted(p, vars))
    ensures Substituted(p, vars).IfBlock? ==> p.IfBlock? && Substituted(p, vars).name == p.name
  {
    match p
    case Single(x) =>
      if x.Output? {
        LookupValue(vars, x.name);
      }
    case IfBlock(n, body) =>
      FirstFillValue(vars, n);
      if FirstFill(vars, n).None? {
        var after := seq(|body|, i requires 0 <= i < |body| => FillInline(body[i], vars));
        forall x | x in after
          ensures Nested(x)
        {
          var i :| 0 <= i < |after| && after[i] == x;
          assert body[i] in body;
          if body[i].Output? {
            LookupValue(vars, body[i].name);
          }
        }
      }
  }

  /** One turn of the loop on a whole page is the turn on each piece. */
  lemma VarTurn(qs: seq<Piece>, v: string, value: string)
    requires PageOK(qs) && SubstOK(Fill(v, value))
    requires forall j :: 0 <= j < |qs| && qs[j].IfBlock? ==> Decided(v, qs[j].name)
    ensures SubstituteVar(Render(qs), v, value) == Render(SubstPage(IfPage(qs, v, value), Fill(v, value)))
  {
    var rs := IfPage(qs, v, value);
    IfPageText(qs, v, value);
    IfPageOK(qs, v, value);
    FillPageText(rs, v, value);
    VarSteps(Render(qs), Render(rs), Render(SubstPage(rs, Fill(v, value))), v, value);
  }

  lemma IfPageOK(qs: seq<Piece>, v: string, value: string)
    requires PageOK(qs) && SubstOK(Fill(v, value))
    ensures PageOK(IfPage(qs, v, value))
  {
  }

  lemma FillPageText(rs: seq<Piece>, v: string, value: string)
    requires PageOK(rs) && SubstOK(Fill(v, value))
    ensures Replace(Render(rs), Placeholder(v), value) == Render(SubstPage(rs, Fill(v, value)))
  {
    SubstPageText(rs, Fill(v, value));
  }

  /** A turn of the loop is its `{% if %}` step and then its placeholder step. */
  lemma VarSteps(c: string, d: string, e: string, v: string, value: string)
    requires ReplaceMatches(c, IfBlockOpen(v), IfBlockClose, value, true) == d
    requires Replace(d, Placeholder(v), value) == e
    ensures SubstituteVar(c, v, value) == e
  {
  }

  /** The turns before the last keep the page well formed and its blocks decided. */
  lemma TurnsKeepPage(ps: seq<Piece>, init: seq<(string, string)>, v: string)
    requires PageOK(ps) && VarsOK(init)
    requires forall j :: 0 <= j < |ps| && ps[j].IfBlock? ==> Decided(v, ps[j].name)
    ensures PageOK(VarsPage(ps, init))
    ensures forall j :: 0 <= j < |ps| && VarsPage(ps, init)[j].IfBlock? ==> Decided(v, VarsPage(ps, init)[j].name)
  {
    forall j | 0 <= j < |ps|
      ensures PieceOK(VarsPage(ps, init)[j])
      ensures VarsPage(ps, init)[j].IfBlock? ==> Decided(v, VarsPage(ps, init)[j].name)
    {
      VarsPieceIs(ps[j], init);
      SubstitutedOK(ps[j], init);
    }
  }

  /** The loop over the variables on a whole page is the loop on each piece. */
  lemma {:induction false} VarsText(ps: seq<Piece>, vars: seq<(string, string)>)
    requires PageOK(ps) && VarsOK(vars) && BlocksDecided(vars, ps)
    ensures SubstituteVars(Render(ps), vars) == Render(VarsPage(ps, vars))
    decreases |vars|
  {
    if vars == [] {
      assert VarsPage(ps, vars) == ps;
    } else {
      var n := |vars| - 1;
      var init, v, value := vars[..n], vars[n].0, vars[n].1;
      var qs := VarsPage(ps, init);
      assert SubstituteVars(Render(ps), init) == Render(qs) by {
        assert VarsOK(init) && BlocksDecided(init, ps);
        VarsText(ps, init);
      }
      assert SubstituteVar(Render(qs), v, value) == Render(SubstPage(IfPage(qs, v, value), Fill(v, value))) by {
        assert VarsOK(init);
        TurnsKeepPage(ps, init, v);
        VarTurn(qs, v, value);
      }
      LastTurn(ps, vars);
    }
  }

  /** The page after all the turns is the last turn applied to the page before it. */
  lemma LastTurn(ps: seq<Piece>, vars: seq<(string, string)>)
    requires vars != []
    ensures VarsPage(ps, vars)
         == SubstPage(IfPage(VarsPage(ps, vars[..|vars| - 1]), vars[|vars| - 1].0, vars[|vars| - 1].1),
                      Fill(vars[|vars| - 1].0, vars[|vars| - 1].1))
  {
  }

  // ---------------------------------------------------------------------------------
  // What the pass makes of a page.

  /** What a construct becomes: text stays, an output is the value of the first variable
      of its name (nothing if there is none), a tag is deleted, and the asset tags are
      their URLs. */
  function ExpectedInline(x: Inline, vars: seq<(string, string)>): string {
    match x
    case Plain(t) => t
    case Output(n) => if Lookup(vars, n).Some? then Lookup(vars, n).value else []
    case Tag(_) => []
    case StyleTag => StyleAssetUrl
    case CustomTag => CustomAssetUrl
  }

  function ExpectedInlines(xs: seq<Inline>, vars: seq<(string, string)>): string {
    if xs == [] then [] else ExpectedInline(xs[0], vars) + ExpectedInlines(xs[1..], vars)
  }

  /** A block is the value of the first variable whose opener matches its own, and
      otherwise what its body becomes; its tags are deleted. */
  function ExpectedPiece(p: Piece, vars: seq<(string, string)>): string {
    match p
    case Single(x) => ExpectedInline(x, vars)
    case IfBlock(n, body) =>
      if FirstFill(vars, n).Some? then FirstFill(vars, n).value else ExpectedInlines(body, vars)
  }

  function Expected(ps: seq<Piece>, vars: seq<(string, string)>): string {
    if ps == [] then [] else ExpectedPiece(ps[0], vars) + Expected(ps[1..], vars)
  }

  predicate AssetFree(x: Inline) {
    !x.StyleTag? && !x.CustomTag?
  }

  /** Constructs the clean-up can sweep one by one: well formed and no asset tag. */
  predicate Sweepable(xs: seq<Inline>) {
    forall k :: 0 <= k < |xs| ==> Lexical(xs[k]) && AssetFree(xs[k])
  }

  predicate PieceAssetFree(p: Piece) {
    match p
    case Single(x) => AssetFree(x)
    case IfBlock(_, body) => forall x :: x in body ==> AssetFree(x)
  }

  predicate NoAssetTags(ps: seq<Piece>) {
    forall i :: 0 <= i < |ps| ==> PieceAssetFree(ps[i])
  }

  function AssetInline(x: Inline): Inline {
    SubstInline(SubstInline(x, StyleUrl), CustomUrl)
  }

  function AssetPiece(p: Piece): Piece {
    SubstPiece(SubstPiece(p, StyleUrl), CustomUrl)
  }

  function AssetPage(ps: seq<Piece>): seq<Piece> {
    SubstPage(SubstPage(ps, StyleUrl), CustomUrl)
  }

  lemma SubstPageOK(ps: seq<Piece>, st: Subst)
    requires PageOK(ps) && SubstOK(st)
    ensures PageOK(SubstPage(ps, st))
  {
    ReplacementChars(st);
  }

  /** The asset rewrites on a whole page: every asset tag becomes its URL, and nothing
      else changes. */
  lemma AssetsText(ps: seq<Piece>)
    requires PageOK(ps)
    ensures RewriteAssetUrls(Render(ps)) == Render(AssetPage(ps))
    ensures PageOK(AssetPage(ps))
  {
    SubstPageText(ps, StyleUrl);
    SubstPageOK(ps, StyleUrl);
    SubstPageText(SubstPage(ps, StyleUrl), CustomUrl);
    SubstPageOK(SubstPage(ps, StyleUrl), CustomUrl);
  }

  lemma AssetPieceShape(p: Piece)
    ensures AssetPiece(p) == match p
      case Single(x) => Single(AssetInline(x))
      case IfBlock(n, body) => IfBlock(n, seq(|body|, k requires 0 <= k < |body| => AssetInline(body[k])))
  {
    if p.IfBlock? {
      assert SubstInlines(SubstInlines(p.body, StyleUrl), CustomUrl)
          == seq(|p.body|, k requires 0 <= k < |p.body| => AssetInline(p.body[k]));
    }
  }

  /** The text a run of constructs keeps once every tag and output is deleted. */
  function PlainText(x: Inline): string {
    if x.Plain? then x.text else []
  }

  function CleanText(xs: seq<Inline>): string {
    if xs == [] then [] else PlainText(xs[0]) + CleanText(xs[1..])
  }

  lemma {:induction false} CleanTextAppend(xs: seq<Inline>, ys: seq<Inline>)
    ensures CleanText(xs + ys) == CleanText(xs) + CleanText(ys)
    decreases |xs|
  {
    if xs == [] {
      assert xs + ys == ys;
    } else {
      var t := xs + ys;
      assert t[0] == xs[0] && t[1..] == xs[1..] + ys;
      CleanTextAppend(xs[1..], ys);
      calc {
        CleanText(t);
        PlainText(xs[0]) + CleanText(xs[1..] + ys);
        PlainText(xs[0]) + (CleanText(xs[1..]) + CleanText(ys));
        { AppendAssoc(PlainText(xs[0]), CleanText(xs[1..]), CleanText(ys)); }
        CleanText(xs) + CleanText(ys);
      }
    }
  }

  lemma {:induction false} DroppedText(xs: seq<Inline>)
    requires forall i :: 0 <= i < |xs| ==> AssetFree(xs[i])
    ensures InlinesText(DropOutputs(DropTags(xs))) == CleanText(xs)
    decreases |xs|
  {
    if xs != [] {
      DroppedText(xs[1..]);
      assert DropOutputs(DropTags(xs))[1..] == DropOutputs(DropTags(xs[1..]));
    }
  }

  lemma {:induction false} CleanTextPointwise(xs: seq<Inline>, body: seq<Inline>, vars: seq<(string, string)>)
    requires |xs| == |body| && forall i :: 0 <= i < |xs| ==> PlainText(xs[i]) == ExpectedInline(body[i], vars)
    ensures CleanText(xs) == ExpectedInlines(body, vars)
    decreases |xs|
  {
    if xs != [] {
      CleanTextPointwise(xs[1..], body[1..], vars);
    }
  }

  lemma InlineOutcome(x: Inline, vars: seq<(string, string)>)
    ensures PlainText(FillInline(AssetInline(x), vars)) == ExpectedInline(x, vars)
  {
  }

  /** Piece by piece, the pass yields `ExpectedPiece`. */
  lemma PieceOutcome(p: Piece, vars: seq<(string, string)>)
    ensures CleanText(FlatPiece(VarsPiece(AssetPiece(p), vars))) == ExpectedPiece(p, vars)
  {
    VarsPieceIs(AssetPiece(p), vars);
    match p
    case Single(x) =>
      AssetPieceShape(p);
      InlineOutcome(x, vars);
    case IfBlock(n, body) =>
      if FirstFill(vars, n).None? {
        BlockOutcome(n, body, vars);
      } else {
        AssetPieceShape(p);
      }
  }

  /** A block no variable fills keeps only what its body becomes. */
  lemma BlockOutcome(n: string, body: seq<Inline>, vars: seq<(string, string)>)
    requires FirstFill(vars, n).None?
    ensures CleanText(FlatPiece(Substituted(AssetPiece(IfBlock(n, body)), vars))) == ExpectedInlines(body, vars)
  {
    var fb := LoopedBody(body, vars);
    assert Substituted(AssetPiece(IfBlock(n, body)), vars) == IfBlock(n, fb) by {
      AssetPieceShape(IfBlock(n, body));
    }
    assert CleanText(FlatPiece(IfBlock(n, fb))) == CleanText(fb) by {
      TagsClean(n, fb);
    }
    BodyOutcome(body, vars);
  }

  /** The body of a block after the asset rewrites and the loop. */
  function LoopedBody(body: seq<Inline>, vars: seq<(string, string)>): seq<Inline> {
    seq(|body|, i requires 0 <= i < |body| => FillInline(AssetInline(body[i]), vars))
  }

  lemma BodyOutcome(body: seq<Inline>, vars: seq<(string, string)>)
    ensures CleanText(LoopedBody(body, vars)) == ExpectedInlines(body, vars)
  {
    var fb := LoopedBody(body, vars);
    forall i | 0 <= i < |body|
      ensures PlainText(fb[i]) == ExpectedInline(body[i], vars)
    {
      InlineOutcome(body[i], vars);
    }
    CleanTextPointwise(fb, body, vars);
  }

  /** A block's tags leave nothing after the clean-up. */
  lemma TagsClean(n: string, xs: seq<Inline>)
    ensures CleanText(FlatPiece(IfBlock(n, xs))) == CleanText(xs)
  {
    CleanTextAppend([Tag("if " + n)] + xs, [Tag("endif")]);
    CleanTextAppend([Tag("if " + n)], xs);
  }

  /** The asset rewrites keep blocks and their names, and leave no asset tag. */
  lemma AssetPieceKeeps(p: Piece, vars: seq<(string, string)>)
    requires PieceOK(p) && VarsOK(vars)
    ensures AssetPiece(p).IfBlock? ==> p.IfBlock? && AssetPiece(p).name == p.name
    ensures PieceAssetFree(Substituted(AssetPiece(p), vars))
  {
    AssetPieceShape(p);
    if p.IfBlock? && FirstFill(vars, p.name).None? {
      var fb := seq(|p.body|, i requires 0 <= i < |p.body| => FillInline(AssetInline(p.body[i]), vars));
      assert Substituted(AssetPiece(p), vars) == IfBlock(p.name, fb);
      forall x | x in fb
        ensures AssetFree(x)
      {
        var i :| 0 <= i < |fb| && fb[i] == x;
      }
    }
  }

  /** After the asset rewrites and the loop, the page is still well formed and holds no
      asset tag. */
  lemma LoopedPage(ps: seq<Piece>, vars: seq<(string, string)>)
    requires PageOK(ps) && VarsOK(vars) && BlocksDecided(vars, ps)
    ensures PageOK(AssetPage(ps)) && BlocksDecided(vars, AssetPage(ps))
    ensures PageOK(VarsPage(AssetPage(ps), vars))
    ensures NoAssetTags(VarsPage(AssetPage(ps), vars))
  {
    var ps1 := AssetPage(ps);
    AssetsText(ps);
    forall i | 0 <= i < |ps|
      ensures ps1[i] == AssetPiece(ps[i])
      ensures ps1[i].IfBlock? ==> ps[i].IfBlock? && ps1[i].name == ps[i].name
      ensures PieceOK(VarsPage(ps1, vars)[i]) && PieceAssetFree(VarsPage(ps1, vars)[i])
    {
      AssetPieceKeeps(ps[i], vars);
      VarsPieceIs(ps1[i], vars);
      SubstitutedOK(ps1[i], vars);
    }
  }

  /** The constructs of a well formed page without asset tags are all well formed and
      none is an asset tag. */
  lemma {:induction false} FlattenOK(rs: seq<Piece>)
    requires PageOK(rs) && NoAssetTags(rs)
    ensures Sweepable(Flatten(rs))
    decreases |rs|
  {
    if rs != [] {
      FlattenOK(rs[1..]);
      var head := FlatPiece(rs[0]);
      assert PieceOK(rs[0]) && PieceAssetFree(rs[0]);
      forall k | 0 <= k < |head|
        ensures Lexical(head[k]) && AssetFree(head[k])
      {
        if rs[0].IfBlock? && 0 < k < |head| - 1 {
          assert head[k] == rs[0].body[k - 1];
          assert rs[0].body[k - 1] in rs[0].body;
        }
      }
    }
  }

  /** The clean-up of such a page keeps exactly its plain text. */
  lemma CleanStage(rs: seq<Piece>)
    requires PageOK(rs) && NoAssetTags(rs)
    ensures StripLiquidSyntax(Render(rs)) == CleanText(Flatten(rs))
  {
    RenderFlatten(rs);
    FlattenOK(rs);
    StripClean(Render(rs), Flatten(rs));
  }

  /** What the clean-up leaves of the text of a run of constructs is their plain text. */
  lemma StripClean(c: string, xs: seq<Inline>)
    requires c == InlinesText(xs) && Sweepable(xs)
    ensures StripLiquidSyntax(c) == CleanText(xs)
  {
    StripSwept(xs);
    DroppedText(xs);
  }

  lemma {:induction false} FlattenOutcome(rs: seq<Piece>, ps: seq<Piece>, vars: seq<(string, string)>)
    requires |rs| == |ps| && forall i :: 0 <= i < |rs| ==> CleanText(FlatPiece(rs[i])) == ExpectedPiece(ps[i], vars)
    ensures CleanText(Flatten(rs)) == Expected(ps, vars)
    decreases |rs|
  {
    if rs != [] {
      FlattenOutcome(rs[1..], ps[1..], vars);
      CleanTextAppend(FlatPiece(rs[0]), Flatten(rs[1..]));
    }
  }

  /** The pass is its three stages one after the other. */
  lemma PassSteps(c: string, vars: seq<(string, string)>, d: string, e: string, f: string)
    requires RewriteAssetUrls(c) == d && SubstituteVars(d, vars) == e && StripLiquidSyntax(e) == f
    ensures TemplateVars(c, vars) == f
  {
  }

  /** The template pass on a whole page: every piece becomes what `ExpectedPiece` says,
      whatever the pieces around it. */
  lemma TemplatePass(ps: seq<Piece>, vars: seq<(string, string)>)
    requires PageOK(ps) && VarsOK(vars) && BlocksDecided(vars, ps)
    ensures TemplateVars(Render(ps), vars) == Expected(ps, vars)
  {
    var ps1 := AssetPage(ps);
    var rs := VarsPage(ps1, vars);
    AssetsText(ps);
    LoopedPage(ps, vars);
    VarsText(ps1, vars);
    CleanStage(rs);
    forall i | 0 <= i < |rs|
      ensures CleanText(FlatPiece(rs[i])) == ExpectedPiece(ps[i], vars)
    {
      assert rs[i] == VarsPiece(AssetPiece(ps[i]), vars);
      PieceOutcome(ps[i], vars);
    }
    FlattenOutcome(rs, ps, vars);
    PassSteps(Render(ps), vars, Render(ps1), Render(rs), Expected(ps, vars));
  }
}
