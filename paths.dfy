/** How the handler rewrites a request path before looking for the file
    (serve_static.py, `do_GET`, lines 22-27). */
module RequestPath {
  import opened Text

  /** `os.path.basename(p)`: the text after the last `/` (all of `p` when it has none). */
  function Basename(p: string): (r: string)
    ensures |r| <= |p| && r == p[|p| - |r|..]
    ensures '/' !in r
    ensures |r| < |p| ==> p[|p| - |r| - 1] == '/'
  {
    if p == [] || p[|p| - 1] == '/' then []
    else Basename(p[..|p| - 1]) + [p[|p| - 1]]
  }

  /** The path already names something to serve: an `.html` or `.css` file, or a
      last segment with an extension. */
  predicate HasExtension(p: string) {
    EndsWith(p, ".html") || EndsWith(p, ".css") || '.' in Basename(p)
  }

  /** The two rewrites of `do_GET`: `/` becomes `/index.html`, then a path without an
      extension gets `.html` appended. */
  function NormalizePath(p: string): string
  {
    var p1 := if p == "/" then "/index.html" else p;
    if !HasExtension(p1) then p1 + ".html" else p1
  }

  /** `/` is served as `/index.html`, the same page as an explicit request for it. */
  lemma RootIsIndex()
    ensures NormalizePath("/") == "/index.html" == NormalizePath("/index.html")
  {
    assert EndsWith("/index.html", ".html");
  }

  /** Any other path is kept exactly when it has an extension, and otherwise gets
      exactly `.html` appended. */
  lemma NormalizeOther(p: string)
    requires p != "/"
    ensures HasExtension(p) ==> NormalizePath(p) == p
    ensures !HasExtension(p) ==> NormalizePath(p) == p + ".html"
  {
  }

  /** Appending `.html` gives a path that ends in `.html`. */
  lemma AppendedHtml(p: string)
    ensures EndsWith(p + ".html", ".html")
  {
    var r := p + ".html";
    assert r[|r| - 5..] == ".html";
  }

  /** Every normalised path has an extension. */
  lemma NormalizedHasExtension(p: string)
    ensures HasExtension(NormalizePath(p))
  {
    var p1 := if p == "/" then "/index.html" else p;
    if p == "/" {
      RootIsIndex();
    } else if !HasExtension(p1) {
      AppendedHtml(p1);
    }
  }

  /** Normalising twice is normalising once. */
  lemma NormalizeIdempotent(p: string)
    ensures NormalizePath(NormalizePath(p)) == NormalizePath(p)
  {
    var r := NormalizePath(p);
    NormalizedHasExtension(p);
    assert r != "/" by {
      if p == "/" {
        assert r == "/index.html";
      } else if HasExtension(p) {
        assert r == p;
      } else {
        assert |r| == |p| + 5;
      }
    }
  }
}
