/** The request handler (serve_static.py, class `JekyllStaticHandler`, lines 15-114): the
    request path is normalised, and an HTML page is read for front matter, wrapped in its
    layout and passed through the template variables. */
module Handler {
  import opened Text
  import opened RequestPath
  import opened FrontMatter
  import opened Patterns
  import opened Templates
  import opened Pieces
  import opened PagePass

  /** Python's `d.get(key, default)`. */
  function Get(d: map<string, string>, key: string, default: string): string {
    if key in d then d[key] else default
  }

  const DefaultPageTitle: string := "Delano Johnson"
  const DefaultSiteTitle: string := "Delano Johnson - Salesforce Technical Architect"
  const DefaultSiteDescription: string := "Salesforce Technical Architect & Data Strategist"

  /** Where a layout takes the page body. */
  const ContentPlaceholder: string := "{{ content }}"

  /** The page title: the page's own, else the site's, else the author's name. */
  function PageTitle(frontMatter: map<string, string>, site: map<string, string>): string {
    Get(frontMatter, "title", Get(site, "title", DefaultPageTitle))
  }

  /** The variables of the template pass, in the order the dictionary literal lists them. */
  function PageVariables(frontMatter: map<string, string>, site: map<string, string>): seq<(string, string)> {
    [ ("page.title", PageTitle(frontMatter, site)),
      ("site.title", Get(site, "title", DefaultSiteTitle)),
      ("site.description", Get(site, "description", DefaultSiteDescription)) ]
  }

  /** What the handler makes of a page: the body without its front matter, or, when the
      front matter names a layout that exists, the layout with the body in its content
      placeholder, through the template pass. `layouts` maps a layout name to the text
      of its file in `_layouts`, for the layouts that exist. */
  function JekyllContent(content: string, layouts: map<string, string>, site: map<string, string>): string {
    var page := ExtractFrontMatter(content);
    if "layout" in page.frontMatter && page.frontMatter["layout"] in layouts then
      var composed := Replace(layouts[page.frontMatter["layout"]], ContentPlaceholder, page.body);
      TemplateVars(composed, PageVariables(page.frontMatter, site))
    else page.body
  }

  class JekyllStaticHandler {
    /** The request path, rewritten in place before the file is looked up. */
    var path: string
    const siteConfig: map<string, string>

    /** A missing (or empty) site configuration is the empty one. */
    constructor(requestPath: string, config: Option<map<string, string>>)
      ensures path == requestPath
      ensures siteConfig == if config.Some? then config.value else map[]
    {
      path := requestPath;
      siteConfig := if config.Some? then config.value else map[];
    }

    /** The path rewriting at the start of `do_GET`. */
    method NormalizeRequestPath()
      modifies this
      ensures path == NormalizePath(old(path))
    {
      if path == "/" {
        path := "/index.html";
      }
      if !EndsWith(path, ".html") && !EndsWith(path, ".css") && '.' !in Basename(path) {
        path := path + ".html";
      }
    }

    /** `process_jekyll_content`, given the layouts that exist. */
    method ProcessJekyllContent(content: string, layouts: map<string, string>) returns (r: string)
      ensures r == JekyllContent(content, layouts, siteConfig)
    {
      var frontMatter: map<string, string> := map[];
      r := content;
      if StartsWith(content, "---") {
        var parts := Split(content, "---", 2);
        if |parts| == 3 {
          frontMatter := ParseFrontMatter(Split(Strip(parts[1]), "\n", -1));
          r := Strip(parts[2]);
        }
      }
      if "layout" in frontMatter && frontMatter["layout"] in layouts {
        var layout := Replace(layouts[frontMatter["layout"]], ContentPlaceholder, r);
        r := ProcessTemplateVars(layout, PageVariables(frontMatter, siteConfig));
      }
    }

    /** The loop of `process_jekyll_content` over the front-matter lines. */
    method ParseFrontMatter(lines: seq<string>) returns (frontMatter: map<string, string>)
      ensures frontMatter == Entries(lines)
    {
      frontMatter := map[];
      for i := 0 to |lines|
        invariant frontMatter == Entries(lines[..i])
      {
        var line := lines[i];
        if Contains(line, ":") {
          SplitOnce(line, ":");
          var kv := Split(line, ":", 1);
          frontMatter := frontMatter[Strip(kv[0]) := Strip(kv[1])];
        }
        EntriesStep(lines, i);
      }
      assert lines[..|lines|] == lines;
    }

    /** `process_template_vars`. */
    method ProcessTemplateVars(content: string, variables: seq<(string, string)>) returns (r: string)
      ensures r == TemplateVars(content, variables)
    {
      r := Replace(content, StyleAssetTag, StyleAssetUrl);
      r := Replace(r, CustomAssetTag, CustomAssetUrl);
      for i := 0 to |variables|
        invariant r == SubstituteVars(RewriteAssetUrls(content), variables[..i])
      {
        var (name, value) := variables[i];
        r := ReplaceMatches(r, IfBlockOpen(name), IfBlockClose, value, true);
        r := Replace(r, Placeholder(name), value);
        assert variables[..i + 1][..i] == variables[..i];
      }
      assert variables[..|variables|] == variables;
      r := ReplaceMatches(r, "{%", "%}", "", false);
      r := ReplaceMatches(r, "{{", "}}", "", false);
    }
  }

  /** A page that does not start with `---`, or has no second `---`, is served as it is. */
  lemma UnmarkedPageServedAsIs(content: string, layouts: map<string, string>, site: map<string, string>)
    requires !StartsWith(content, "---") || forall j :: 3 <= j ==> !OccursAt(content, "---", j)
    ensures JekyllContent(content, layouts, site) == content
  {
    NoFrontMatter(content);
  }

  /** A page whose front matter names no layout, or one that does not exist, is served as
      its stripped body. */
  lemma NoLayoutServesBody(fm: string, body: string, layouts: map<string, string>, site: map<string, string>)
    requires !Contains(fm + "--", "---")
    requires var m := Entries(Split(Strip(fm), "\n", -1));
      "layout" !in m || m["layout"] !in layouts
    ensures JekyllContent("---" + fm + "---" + body, layouts, site) == Strip(body)
  {
    FrontMatterBlock(fm, body);
  }

  /** A page is wrapped in the layout its front matter names: the body takes the place of
      every content placeholder of the layout, however many there are, and the composed page
      goes through the template pass with the page's variables. */
  lemma LayoutFilled(fm: string, body: string, layouts: map<string, string>, site: map<string, string>)
    requires !Contains(fm + "--", "---")
    requires var m := Entries(Split(Strip(fm), "\n", -1));
      "layout" in m && m["layout"] in layouts
    ensures var m := Entries(Split(Strip(fm), "\n", -1));
      JekyllContent("---" + fm + "---" + body, layouts, site)
        == TemplateVars(Join(Split(layouts[m["layout"]], ContentPlaceholder, -1), Strip(body)), PageVariables(m, site))
  {
    FrontMatterBlock(fm, body);
    var m := Entries(Split(Strip(fm), "\n", -1));
    ReplaceIsJoinOfSplit(layouts[m["layout"]], ContentPlaceholder, Strip(body));
  }

  /** The case of a layout with one content placeholder: the body takes its place. */
  lemma LayoutComposes(fm: string, body: string, layouts: map<string, string>, site: map<string, string>,
                       pre: string, post: string)
    requires !Contains(fm + "--", "---")
    requires var m := Entries(Split(Strip(fm), "\n", -1));
      "layout" in m && m["layout"] in layouts && layouts[m["layout"]] == pre + ContentPlaceholder + post
    requires IndexFrom(pre + ContentPlaceholder + post, ContentPlaceholder, 0) == Some(|pre|)
    requires !Contains(post, ContentPlaceholder)
    ensures JekyllContent("---" + fm + "---" + body, layouts, site)
         == TemplateVars(pre + Strip(body) + post, PageVariables(Entries(Split(Strip(fm), "\n", -1)), site))
  {
    FrontMatterBlock(fm, body);
    ReplaceFirstOnly(pre, ContentPlaceholder, post, Strip(body));
  }

  /** Each of the page's variables decides every block of a well formed page: its opener
      matches the block's opener in full or fails within it. */
  lemma PageVariablesDecided(frontMatter: map<string, string>, site: map<string, string>, ps: seq<Piece>)
    requires PageOK(ps)
    ensures BlocksDecided(PageVariables(frontMatter, site), ps)
  {
    var vars := PageVariables(frontMatter, site);
    forall i, j | 0 <= i < |vars| && 0 <= j < |ps| && ps[j].IfBlock?
      ensures Decided(vars[i].0, ps[j].name)
    {
      assert PieceOK(ps[j]);
      OpenerDecided(vars[i].0, ps[j].name);
    }
  }

  /** A layout and a body that together make a page of pieces: the served page is, piece
      by piece, what the template pass makes of each piece with the page's variables. */
  lemma LayoutPageServed(fm: string, body: string, layouts: map<string, string>, site: map<string, string>,
                         ps: seq<Piece>)
    requires !Contains(fm + "--", "---")
    requires var m := Entries(Split(Strip(fm), "\n", -1));
      "layout" in m && m["layout"] in layouts
      && Render(ps) == Join(Split(layouts[m["layout"]], ContentPlaceholder, -1), Strip(body))
    requires PageOK(ps) && VarsOK(PageVariables(Entries(Split(Strip(fm), "\n", -1)), site))
    ensures JekyllContent("---" + fm + "---" + body, layouts, site)
         == Expected(ps, PageVariables(Entries(Split(Strip(fm), "\n", -1)), site))
  {
    var m := Entries(Split(Strip(fm), "\n", -1));
    LayoutFilled(fm, body, layouts, site);
    PageVariablesDecided(m, site, ps);
    TemplatePass(ps, PageVariables(m, site));
  }

  /** A layout whose only `{` is that of its content placeholder: the content placeholder
      is the first one, and there is no other. */
  lemma PlainLayoutPlaceholder(pre: string, post: string)
    requires '{' !in pre && '{' !in post
    ensures IndexFrom(pre + ContentPlaceholder + post, ContentPlaceholder, 0) == Some(|pre|)
    ensures !Contains(post, ContentPlaceholder)
  {
    assert ContentPlaceholder[0] == '{';
    SingleFound(pre, ContentPlaceholder, post);
    FirstCharAbsent(post, ContentPlaceholder);
  }

  /** With a layout and a body free of other Liquid syntax, the served page is the layout
      with the stripped body in place of its content placeholder. */
  lemma LayoutWrapsBody(fm: string, body: string, layouts: map<string, string>, site: map<string, string>,
                        pre: string, post: string)
    requires !Contains(fm + "--", "---")
    requires var m := Entries(Split(Strip(fm), "\n", -1));
      "layout" in m && m["layout"] in layouts && layouts[m["layout"]] == pre + ContentPlaceholder + post
    requires '{' !in pre && '{' !in Strip(body) && '{' !in post
    ensures JekyllContent("---" + fm + "---" + body, layouts, site) == pre + Strip(body) + post
  {
    PlainLayoutPlaceholder(pre, post);
    LayoutComposes(fm, body, layouts, site, pre, post);
    var m := Entries(Split(Strip(fm), "\n", -1));
    NoBraceUnchanged(pre + Strip(body) + post, PageVariables(m, site));
  }

  /** Liquid in the page body goes through the template pass too: a body that is the output
      tag of a name that is not one of the three variables is deleted from the served page. */
  lemma BodyOutputDeleted(fm: string, name: string, layouts: map<string, string>, site: map<string, string>,
                          pre: string, post: string)
    requires !Contains(fm + "--", "---")
    requires var m := Entries(Split(Strip(fm), "\n", -1));
      "layout" in m && m["layout"] in layouts && layouts[m["layout"]] == pre + ContentPlaceholder + post
    requires '{' !in pre && '{' !in post
    requires name != [] && name[0] != '\''
    requires '{' !in name && '}' !in name && ' ' !in name && '\n' !in name
    requires name != "page.title" && name != "site.title" && name != "site.description"
    ensures JekyllContent("---" + fm + "---" + Placeholder(name), layouts, site) == pre + post
  {
    var m := Entries(Split(Strip(fm), "\n", -1));
    PlaceholderUnpadded(name);
    PlainLayoutPlaceholder(pre, post);
    LayoutComposes(fm, Placeholder(name), layouts, site, pre, post);
    OtherThanVariables(name, m, site);
    UnknownOutputDeleted(pre, name, post, PageVariables(m, site));
  }

  /** A placeholder neither starts nor ends with whitespace. */
  lemma PlaceholderUnpadded(name: string)
    ensures Strip(Placeholder(name)) == Placeholder(name)
  {
    var page := Placeholder(name);
    assert page[0] == '{' && page[|page| - 1] == '}';
    StripUnpadded(page);
  }

  /** A name other than the three variable names differs from each, and those hold no space. */
  lemma OtherThanVariables(name: string, frontMatter: map<string, string>, site: map<string, string>)
    requires name != "page.title" && name != "site.title" && name != "site.description"
    ensures var vars := PageVariables(frontMatter, site);
      forall j :: 0 <= j < |vars| ==> vars[j].0 != name && ' ' !in vars[j].0
  {
    var vars := PageVariables(frontMatter, site);
    forall j | 0 <= j < |vars|
      ensures vars[j].0 != name && ' ' !in vars[j].0
    {
      assert j == 0 || j == 1 || j == 2;
    }
  }

  /** The three variable names differ from each other, hold no space and no `{`, and do
      not start with a quote. */
  lemma VariableNames(frontMatter: map<string, string>, site: map<string, string>)
    ensures var vars := PageVariables(frontMatter, site);
      && (forall j :: 0 <= j < |vars| ==>
            vars[j].0 != [] && vars[j].0[0] != '\'' && ' ' !in vars[j].0 && '{' !in vars[j].0)
      && vars[0].0 != vars[1].0 && vars[0].0 != vars[2].0 && vars[1].0 != vars[2].0
  {
    var vars := PageVariables(frontMatter, site);
    assert vars[0].0[0] != vars[1].0[0] && vars[0].0[0] != vars[2].0[0];
    assert |vars[1].0| != |vars[2].0|;
  }

  /** The `{{ page.title }}` placeholder of a page is filled with the page title. */
  lemma PageTitleFilled(pre: string, post: string, frontMatter: map<string, string>, site: map<string, string>)
    requires '{' !in pre && '{' !in post && '{' !in PageTitle(frontMatter, site)
    ensures TemplateVars(pre + Placeholder("page.title") + post, PageVariables(frontMatter, site))
         == pre + PageTitle(frontMatter, site) + post
  {
    VariableNames(frontMatter, site);
    VariableFilled(pre, post, PageVariables(frontMatter, site), 0);
  }

  /** The `{{ site.title }}` placeholder is filled with the site's title, else the default. */
  lemma SiteTitleFilled(pre: string, post: string, frontMatter: map<string, string>, site: map<string, string>)
    requires '{' !in pre && '{' !in post && '{' !in Get(site, "title", DefaultSiteTitle)
    ensures TemplateVars(pre + Placeholder("site.title") + post, PageVariables(frontMatter, site))
         == pre + Get(site, "title", DefaultSiteTitle) + post
  {
    VariableNames(frontMatter, site);
    VariableFilled(pre, post, PageVariables(frontMatter, site), 1);
  }

  /** The `{{ site.description }}` placeholder is filled with the site's description, else
      the default. */
  lemma SiteDescriptionFilled(pre: string, post: string, frontMatter: map<string, string>, site: map<string, string>)
    requires '{' !in pre && '{' !in post && '{' !in Get(site, "description", DefaultSiteDescription)
    ensures TemplateVars(pre + Placeholder("site.description") + post, PageVariables(frontMatter, site))
         == pre + Get(site, "description", DefaultSiteDescription) + post
  {
    VariableNames(frontMatter, site);
    VariableFilled(pre, post, PageVariables(frontMatter, site), 2);
  }
}
