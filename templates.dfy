/** The template pass over a composed page (serve_static.py, `process_template_vars`,
    lines 96-114): two asset tags become plain URLs, each variable fills its `{% if %}`
    blocks and `{{ }}` placeholders, and every other Liquid tag and output is deleted. */
module Templates {
  import opened Text
  import opened Patterns

  /** The sixteen characters the two asset tags begin with. */
  const AssetTagPrefix: string := "{{ '/assets/css/"

  /** The stylesheet tag of the theme layout, and the URL it is rewritten to. */
  const StyleAssetTag: string :=
    AssetTagPrefix + "style.css?v=' | append: " + "site.github.build_revision" + " | relative_url }}"
  const StyleAssetUrl: string := "/assets/css/style.css"

  /** The custom stylesheet tag, and the URL it is rewritten to. */
  const CustomAssetTag: string := AssetTagPrefix + "custom.css' | relative_url }}"
  const CustomAssetUrl: string := "/assets/css/custom.css"

  /** The opener `{% if name %}` of a conditional block on a variable. */
  function IfBlockOpen(name: string): string {
    "{% if " + name + " %}"
  }

  const IfBlockClose: string := "{% endif %}"

  /** The output tag `{{ name }}` of a variable. */
  function Placeholder(name: string): string {
    "{{ " + name + " }}"
  }

  /** The characters of the two asset tags that tell them apart from the rest of a page
      and from each other: only their first two characters are `{`, and they first differ
      at index 16. */
  lemma AssetTagChars()
    ensures StyleAssetTag[0] == '{' && StyleAssetTag[1] == '{' && StyleAssetTag[2] == ' '
    ensures StyleAssetTag[3] == '\'' && CustomAssetTag[3] == '\'' && StyleAssetTag[16] == 's'
    ensures forall k :: 2 <= k < |StyleAssetTag| ==> StyleAssetTag[k] != '{'
    ensures CustomAssetTag[0] == '{' && CustomAssetTag[1] == '{' && CustomAssetTag[2] == ' '
    ensures CustomAssetTag[16] == 'c'
    ensures forall k :: 2 <= k < |CustomAssetTag| ==> CustomAssetTag[k] != '{'
  {
  }

  function RewriteAssetUrls(content: string): string {
    Replace(Replace(content, StyleAssetTag, StyleAssetUrl), CustomAssetTag, CustomAssetUrl)
  }

  /** One turn of the loop over the variables: every `{% if name %} ... {% endif %}` block,
      across lines, becomes the value, then every `{{ name }}` becomes the value. */
  function SubstituteVar(content: string, name: string, value: string): string {
    Replace(ReplaceMatches(content, IfBlockOpen(name), IfBlockClose, value, true), Placeholder(name), value)
  }

  /** The whole loop, over the variables in order. */
  function SubstituteVars(content: string, vars: seq<(string, string)>): string
    decreases |vars|
  {
    if vars == [] then content
    else
      var n := |vars| - 1;
      SubstituteVar(SubstituteVars(content, vars[..n]), vars[n].0, vars[n].1)
  }

  /** The final clean-up: every tag `{% ... %}`, then every output `{{ ... }}`, each on one line,
      is deleted. */
  function StripLiquidSyntax(content: string): string {
    ReplaceMatches(ReplaceMatches(content, "{%", "%}", "", false), "{{", "}}", "", false)
  }

  function TemplateVars(content: string, vars: seq<(string, string)>): string {
    StripLiquidSyntax(SubstituteVars(RewriteAssetUrls(content), vars))
  }

  /** Text without `{` is left as it is by every step. */
  lemma SubstituteVarNoBrace(content: string, name: string, value: string)
    requires '{' !in content
    ensures SubstituteVar(content, name, value) == content
  {
    NoOpener(content, IfBlockOpen(name), IfBlockClose, value, true);
    FirstCharAbsent(content, Placeholder(name));
    ReplaceAbsent(content, Placeholder(name), value);
  }

  lemma {:induction false} SubstituteVarsNoBrace(content: string, vars: seq<(string, string)>)
    requires '{' !in content
    ensures SubstituteVars(content, vars) == content
    decreases |vars|
  {
    if vars != [] {
      var n := |vars| - 1;
      SubstituteVarsNoBrace(content, vars[..n]);
      SubstituteVarNoBrace(content, vars[n].0, vars[n].1);
    }
  }

  /** A page without `{` comes out of the template pass unchanged, whatever the variables. */
  lemma NoBraceUnchanged(content: string, vars: seq<(string, string)>)
    requires '{' !in content
    ensures TemplateVars(content, vars) == content
  {
    NoBraceNoAssetTag(content);
    SubstituteVarsNoBrace(content, vars);
    NoOpener(content, "{%", "%}", "", false);
    NoOpener(content, "{{", "}}", "", false);
  }

  /** The clean-up only deletes characters: its result is a subsequence of its input. */
  lemma CleanupIsSubsequence(content: string)
    ensures IsSubsequence(StripLiquidSyntax(content), content)
  {
    var tagsGone := ReplaceMatches(content, "{%", "%}", "", false);
    DeletionIsSubsequence(content, "{%", "%}", false);
    DeletionIsSubsequence(tagsGone, "{{", "}}", false);
    SubsequenceTrans(StripLiquidSyntax(content), tagsGone, content);
  }

  /** The clean-up deletes single-line matches only, so the page keeps its line count. */
  lemma CleanupKeepsLines(content: string)
    ensures Count(StripLiquidSyntax(content), '\n') == Count(content, '\n')
  {
    var tagsGone := ReplaceMatches(content, "{%", "%}", "", false);
    SingleLineDeletionKeepsNewlines(content, "{%", "%}");
    SingleLineDeletionKeepsNewlines(tagsGone, "{{", "}}");
  }

  /** Text without `{` holds neither asset tag, so the asset rewrite leaves it alone. */
  lemma NoBraceNoAssetTag(s: string)
    requires '{' !in s
    ensures Replace(s, StyleAssetTag, StyleAssetUrl) == s
    ensures Replace(s, CustomAssetTag, CustomAssetUrl) == s
  {
    assert StyleAssetTag[0] == '{' && CustomAssetTag[0] == '{';
    FirstCharAbsent(s, StyleAssetTag);
    ReplaceAbsent(s, StyleAssetTag, StyleAssetUrl);
    FirstCharAbsent(s, CustomAssetTag);
    ReplaceAbsent(s, CustomAssetTag, CustomAssetUrl);
  }

  /** The stylesheet tag is rewritten to its plain URL. */
  lemma StyleAssetRewritten(pre: string, post: string)
    requires '{' !in pre && '{' !in post
    ensures RewriteAssetUrls(pre + StyleAssetTag + post) == pre + StyleAssetUrl + post
  {
    assert StyleAssetTag[0] == '{';
    ReplaceSingle(pre, StyleAssetTag, post, StyleAssetUrl);
    var r := pre + StyleAssetUrl + post;
    assert '{' !in r;
    NoBraceNoAssetTag(r);
  }

  /** The custom stylesheet tag is rewritten to its plain URL (the stylesheet tag, which
      shares its first sixteen characters, does not match it). */
  lemma CustomAssetRewritten(pre: string, post: string)
    requires '{' !in pre && '{' !in post
    ensures RewriteAssetUrls(pre + CustomAssetTag + post) == pre + CustomAssetUrl + post
  {
    AssetTagChars();
    var s := pre + CustomAssetTag + post;
    var e := |pre| + |CustomAssetTag|;
    forall j | 0 <= j
      ensures !OccursAt(s, StyleAssetTag, j)
    {
      if j + |StyleAssetTag| <= |s| {
        if j < |pre| {
          assert s[j] == pre[j] != StyleAssetTag[0];
        } else if j == |pre| {
          assert s[j + 16] == CustomAssetTag[16] != StyleAssetTag[16];
        } else if j == |pre| + 1 {
          assert s[j + 1] == CustomAssetTag[2] != StyleAssetTag[1];
        } else if j < e {
          assert s[j] == CustomAssetTag[j - |pre|] != StyleAssetTag[0];
        } else {
          assert s[j] == post[j - e] != StyleAssetTag[0];
        }
      }
    }
    IndexFromNone(s, StyleAssetTag, 0);
    ReplaceAbsent(s, StyleAssetTag, StyleAssetUrl);
    ReplaceSingle(pre, CustomAssetTag, post, CustomAssetUrl);
  }

  /** In a page whose only `{` are those of one placeholder, no `{% if %}` opener matches,
      whatever the variable. */
  lemma NoIfBlockOpener(pre: string, name: string, post: string, other: string)
    requires '{' !in pre && '{' !in name && '{' !in post
    ensures forall j :: 0 <= j ==> !OpenerAt(pre + Placeholder(name) + post, IfBlockOpen(other), true, j)
  {
    var s := pre + Placeholder(name) + post;
    var open := IfBlockOpen(other);
    var e := |pre| + |Placeholder(name)|;
    forall j | 0 <= j
      ensures !OpenerAt(s, open, true, j)
    {
      if j + |open| <= |s| {
        if j < |pre| {
          assert s[j] == pre[j];
          assert !CharMatches(s[j], open[0], true);
        } else if j == |pre| || j == |pre| + 1 {
          assert s[j + 1] == Placeholder(name)[j + 1 - |pre|];
          assert !CharMatches(s[j + 1], open[1], true);
        } else if j < e {
          assert s[j] == Placeholder(name)[j - |pre|];
          assert !CharMatches(s[j], open[0], true);
        } else {
          assert s[j] == post[j - e];
          assert !CharMatches(s[j], open[0], true);
        }
      }
    }
  }

  /** A `{{ name }}` placeholder becomes the value of the variable. */
  lemma PlaceholderSubstituted(pre: string, name: string, value: string, post: string)
    requires '{' !in pre && '{' !in name && '{' !in post
    ensures SubstituteVar(pre + Placeholder(name) + post, name, value) == pre + value + post
  {
    var s := pre + Placeholder(name) + post;
    NoIfBlockOpener(pre, name, post, name);
    NoOpenerFrom(s, IfBlockOpen(name), IfBlockClose, value, true, 0);
    ReplaceSingle(pre, Placeholder(name), post, Placeholder(name));
    ReplaceSingle(pre, Placeholder(name), post, value);
  }

  /** The placeholder of one variable is not the placeholder of another, when names hold
      no space: one name would have to run on into the ` }}` that ends the other. */
  lemma OtherPlaceholderAbsent(pre: string, name: string, post: string, other: string)
    requires '{' !in pre && '{' !in name && '{' !in post
    requires ' ' !in name && ' ' !in other && name != other
    ensures !Contains(pre + Placeholder(name) + post, Placeholder(other))
  {
    var s := pre + Placeholder(name) + post;
    var p := Placeholder(other);
    var e := |pre| + |Placeholder(name)|;
    forall j | 0 <= j
      ensures !OccursAt(s, p, j)
    {
      if j + |p| <= |s| {
        if j < |pre| {
          assert s[j] == pre[j];
        } else if j == |pre| {
          if |other| < |name| {
            assert s[j + 3 + |other|] == name[|other|] != p[3 + |other|];
          } else if |other| > |name| {
            assert s[j + 3 + |name|] == ' ' != other[|name|] == p[3 + |name|];
          } else {
            var k :| 0 <= k < |name| && name[k] != other[k];
            assert s[j + 3 + k] == name[k] != p[3 + k];
          }
        } else if j == |pre| + 1 {
          assert s[j + 1] == ' ' != p[1];
        } else if j < e {
          assert s[j] == Placeholder(name)[j - |pre|];
        } else {
          assert s[j] == post[j - e];
        }
      }
    }
    IndexFromNone(s, p, 0);
  }

  /** The turn of another variable leaves a placeholder alone. */
  lemma OtherVariableKeepsPlaceholder(pre: string, name: string, post: string, other: string, value: string)
    requires '{' !in pre && '{' !in name && '{' !in post
    requires ' ' !in name && ' ' !in other && name != other
    ensures SubstituteVar(pre + Placeholder(name) + post, other, value) == pre + Placeholder(name) + post
  {
    var s := pre + Placeholder(name) + post;
    NoIfBlockOpener(pre, name, post, other);
    NoOpenerFrom(s, IfBlockOpen(other), IfBlockClose, value, true, 0);
    OtherPlaceholderAbsent(pre, name, post, other);
    ReplaceAbsent(s, Placeholder(other), value);
  }

  /** The turns of variables other than `name` leave its placeholder alone. */
  lemma {:induction false} OtherVariablesKeepPlaceholder(pre: string, name: string, post: string, vars: seq<(string, string)>)
    requires '{' !in pre && '{' !in name && '{' !in post && ' ' !in name
    requires forall j :: 0 <= j < |vars| ==> vars[j].0 != name && ' ' !in vars[j].0
    ensures SubstituteVars(pre + Placeholder(name) + post, vars) == pre + Placeholder(name) + post
    decreases |vars|
  {
    if vars != [] {
      var n := |vars| - 1;
      OtherVariablesKeepPlaceholder(pre, name, post, vars[..n]);
      OtherVariableKeepsPlaceholder(pre, name, post, vars[n].0, vars[n].1);
    }
  }

  /** A `{% if name %} ... {% endif %}` block, whatever lines it spans and whatever Liquid
      syntax it holds before its first `{% endif %}`, becomes the value of the variable. */
  lemma IfBlockSubstituted(pre: string, name: string, mid: string, value: string, post: string)
    requires '{' !in pre && '{' !in value && '{' !in post
    requires !Contains(mid + IfBlockClose[..|IfBlockClose| - 1], IfBlockClose)
    ensures SubstituteVar(pre + IfBlockOpen(name) + mid + IfBlockClose + post, name, value)
         == pre + value + post
  {
    ReplaceBlock(pre, IfBlockOpen(name), mid, IfBlockClose, post, value, true);
    var r := pre + value + post;
    assert '{' !in r;
    FirstCharAbsent(r, Placeholder(name));
    ReplaceAbsent(r, Placeholder(name), value);
  }

  /** The variable name goes into the expression unescaped, so the `.` of `page.title` matches
      any character: a block on `page` + any character + `title` is filled in as well. */
  lemma LookalikeIfBlockSubstituted(c: char, mid: string, value: string)
    requires !Contains(mid + IfBlockClose[..|IfBlockClose| - 1], IfBlockClose) && '{' !in value
    ensures SubstituteVar(IfBlockOpen("page" + [c] + "title") + mid + IfBlockClose, "page.title", value)
         == value
  {
    LookalikeBlockReplaced(c, mid, value);
    FirstCharAbsent(value, Placeholder("page.title"));
    ReplaceAbsent(value, Placeholder("page.title"), value);
  }

  /** The whole lookalike block is one match of the expression on `page.title`. */
  lemma LookalikeBlockReplaced(c: char, mid: string, value: string)
    requires !Contains(mid + IfBlockClose[..|IfBlockClose| - 1], IfBlockClose)
    ensures ReplaceMatches(IfBlockOpen("page" + [c] + "title") + mid + IfBlockClose,
                           IfBlockOpen("page.title"), IfBlockClose, value, true) == value
  {
    LookalikeOpener(c);
    assert IfBlockOpen("page.title")[0] == '{' && IfBlockClose[0] == '{';
    WholeBlockReplaced(IfBlockOpen("page" + [c] + "title"), mid, IfBlockOpen("page.title"), IfBlockClose, value, true);
  }

  /** The opener on `page.title` matches the opener on `page` + any character + `title`. */
  lemma LookalikeOpener(c: char)
    ensures OpenerAt(IfBlockOpen("page" + [c] + "title"), IfBlockOpen("page.title"), true, 0)
    ensures |IfBlockOpen("page" + [c] + "title")| == |IfBlockOpen("page.title")|
  {
    var open := IfBlockOpen("page.title");
    var lookalike := IfBlockOpen("page" + [c] + "title");
    forall k | 0 <= k < |open|
      ensures CharMatches(lookalike[k], open[k], true)
    {
    }
  }

  /** The asset rewrite leaves a `{{ name }}` placeholder alone: the asset tags continue
      `{{ '` where it continues `{{ ` and a name. */
  lemma RewriteKeepsPlaceholder(pre: string, name: string, post: string)
    requires '{' !in pre && '{' !in name && '{' !in post
    requires name != [] && name[0] != '\''
    ensures RewriteAssetUrls(pre + Placeholder(name) + post) == pre + Placeholder(name) + post
  {
    AssetTagChars();
    var s := pre + Placeholder(name) + post;
    var e := |pre| + |Placeholder(name)|;
    assert StyleAssetTag[3] == '\'' && CustomAssetTag[3] == '\'';
    forall j | 0 <= j
      ensures !OccursAt(s, StyleAssetTag, j) && !OccursAt(s, CustomAssetTag, j)
    {
      if j < |pre| {
        assert j < |s| && s[j] == pre[j];
      } else if j == |pre| {
        if j + 3 < |s| {
          assert s[j + 3] == name[0];
        }
      } else if j == |pre| + 1 {
        if j + 1 < |s| {
          assert s[j + 1] == ' ';
        }
      } else if j < e {
        assert s[j] == Placeholder(name)[j - |pre|];
      } else if j < |s| {
        assert s[j] == post[j - e];
      }
    }
    IndexFromNone(s, StyleAssetTag, 0);
    ReplaceAbsent(s, StyleAssetTag, StyleAssetUrl);
    IndexFromNone(s, CustomAssetTag, 0);
    ReplaceAbsent(s, CustomAssetTag, CustomAssetUrl);
  }

  /** Once the first `k` variables have left no `{` in the page, the others change nothing. */
  lemma {:induction false} LaterVariablesIdle(content: string, vars: seq<(string, string)>, k: nat)
    requires k <= |vars| && '{' !in SubstituteVars(content, vars[..k])
    ensures SubstituteVars(content, vars) == SubstituteVars(content, vars[..k])
    decreases |vars|
  {
    if k < |vars| {
      var n := |vars| - 1;
      assert vars[..n][..k] == vars[..k];
      LaterVariablesIdle(content, vars[..n], k);
      SubstituteVarNoBrace(SubstituteVars(content, vars[..k]), vars[n].0, vars[n].1);
    } else {
      assert vars[..k] == vars;
    }
  }

  /** A page whose only Liquid syntax is the placeholder of a variable comes out of the whole
      pass with that placeholder filled in by the value of the variable, whatever variables
      come before or after it (names hold no space, and the earlier ones differ from it). */
  lemma VariableFilled(pre: string, post: string, vars: seq<(string, string)>, i: nat)
    requires i < |vars| && vars[i].0 != [] && vars[i].0[0] != '\''
    requires '{' !in pre && '{' !in vars[i].0 && ' ' !in vars[i].0 && '{' !in vars[i].1 && '{' !in post
    requires forall j :: 0 <= j < i ==> vars[j].0 != vars[i].0 && ' ' !in vars[j].0
    ensures TemplateVars(pre + Placeholder(vars[i].0) + post, vars) == pre + vars[i].1 + post
  {
    var (name, value) := vars[i];
    var s := pre + Placeholder(name) + post;
    var r := pre + value + post;
    RewriteKeepsPlaceholder(pre, name, post);
    OtherVariablesKeepPlaceholder(pre, name, post, vars[..i]);
    PlaceholderSubstituted(pre, name, value, post);
    assert vars[..i + 1][..i] == vars[..i];
    assert SubstituteVars(s, vars[..i + 1]) == r;
    assert '{' !in r;
    LaterVariablesIdle(s, vars, i + 1);
    NoOpener(r, "{%", "%}", "", false);
    NoOpener(r, "{{", "}}", "", false);
  }

  /** The output `{{ name }}` of a name that is not a variable is deleted by the clean-up. */
  lemma UnknownOutputDeleted(pre: string, name: string, post: string, vars: seq<(string, string)>)
    requires name != [] && name[0] != '\''
    requires '{' !in pre && '{' !in post
    requires '{' !in name && '}' !in name && ' ' !in name && '\n' !in name
    requires forall j :: 0 <= j < |vars| ==> vars[j].0 != name && ' ' !in vars[j].0
    ensures TemplateVars(pre + Placeholder(name) + post, vars) == pre + post
  {
    var s := pre + Placeholder(name) + post;
    RewriteKeepsPlaceholder(pre, name, post);
    OtherVariablesKeepPlaceholder(pre, name, post, vars);
    OutputHoldsNoTag(pre, name, post);
    assert ReplaceMatches(s, "{{", "}}", "", false) == pre + post by {
      var mid := " " + name + " ";
      assert s == pre + "{{" + mid + "}}" + post;
      CloseAbsentFromMid(mid, "}}");
      ReplaceBlock(pre, "{{", mid, "}}", post, "", false);
    }
  }

  /** Text whose only `{` are those of an output holds no tag, so the first deletion of the
      clean-up leaves it as it is. */
  lemma OutputHoldsNoTag(pre: string, name: string, post: string)
    requires '{' !in pre && '{' !in post && '{' !in name
    ensures ReplaceMatches(pre + Placeholder(name) + post, "{%", "%}", "", false) == pre + Placeholder(name) + post
  {
    var s := pre + Placeholder(name) + post;
    var e := |pre| + |Placeholder(name)|;
    forall j | 0 <= j
      ensures !OpenerAt(s, "{%", false, j)
    {
      if j + 2 <= |s| {
        assert "{%"[0] == '{' && "{%"[1] == '%';
        if j < |pre| {
          assert s[j] == pre[j];
        } else if j == |pre| || j == |pre| + 1 {
          assert s[j + 1] == Placeholder(name)[j + 1 - |pre|] != '%';
        } else if j < e {
          assert s[j] == Placeholder(name)[j - |pre|];
        } else {
          assert s[j] == post[j - e];
        }
      }
    }
    NoOpenerFrom(s, "{%", "%}", "", false, 0);
    assert s[0..] == s;
  }
}
