/** The front matter of a page (serve_static.py, `process_jekyll_content`, lines 61-72):
    a block between `---` markers at the very start of the file, read as `key: value`
    lines, followed by the body of the page. */
module FrontMatter {
  import opened Text

  /** One front-matter line: with a colon, the text before the first colon is the key and
      the text after it the value, each stripped of surrounding whitespace; a line without
      a colon is no entry. */
  function LineEntry(line: string): Option<(string, string)>
  {
    if Contains(line, ":") then
      SplitOnce(line, ":");
      var kv := Split(line, ":", 1);
      Some((Strip(kv[0]), Strip(kv[1])))
    else None
  }

  /** One more line: the dictionary after it is the one before it, with that line's entry
      assigned. */
  lemma EntriesStep(lines: seq<string>, i: nat)
    requires i < |lines|
    ensures Entries(lines[..i + 1]) ==
      match LineEntry(lines[i])
      case None => Entries(lines[..i])
      case Some(kv) => Entries(lines[..i])[kv.0 := kv.1]
  {
    var prefix := lines[..i + 1];
    assert prefix[..i] == lines[..i];
    var e := MapSeq(LineEntry, prefix);
    assert e == MapSeq(LineEntry, lines[..i]) + [LineEntry(lines[i])];
    assert e[..i] == MapSeq(LineEntry, lines[..i]);
  }

  /** A line with a colon gives the entry of the stripped text on either side of its
      first colon. */
  lemma LineEntryAtFirstColon(line: string, i: nat)
    requires i < |line| && line[i] == ':' && ':' !in line[..i]
    ensures LineEntry(line) == Some((Strip(line[..i]), Strip(line[i + 1..])))
  {
    FirstCharAt(line, ':', i);
    SplitOnce(line, ":");
  }

  /** A line without a colon gives no entry. */
  lemma LineEntryNoColon(line: string)
    requires ':' !in line
    ensures LineEntry(line) == None
  {
    ContainsChar(line, ':');
  }

  /** The dictionary built by performing the assignments in order (`None` is no assignment). */
  function Assign(entries: seq<Option<(string, string)>>): map<string, string>
    decreases |entries|
  {
    if entries == [] then map[]
    else
      var m := Assign(entries[..|entries| - 1]);
      match entries[|entries| - 1]
      case None => m
      case Some(kv) => m[kv.0 := kv.1]
  }

  /** Entry `i` assigns key `k`. */
  predicate Assigns(entries: seq<Option<(string, string)>>, i: int, k: string) {
    0 <= i < |entries| && entries[i].Some? && entries[i].value.0 == k
  }

  /** A key is in the dictionary exactly when some entry assigns it. */
  lemma {:induction false} AssignKeys(entries: seq<Option<(string, string)>>, k: string)
    ensures k in Assign(entries) <==> exists i :: Assigns(entries, i, k)
    decreases |entries|
  {
    if entries != [] {
      var n := |entries| - 1;
      var init := entries[..n];
      AssignKeys(init, k);
      // The keys are those of `init`, plus the one the last entry assigns.
      assert k in Assign(entries) <==> k in Assign(init) || Assigns(entries, n, k) by {
        match entries[n]
        case None =>
          assert Assign(entries) == Assign(init);
        case Some(kv) =>
          assert Assign(entries) == Assign(init)[kv.0 := kv.1];
      }
      if exists i :: Assigns(init, i, k) {
        var i :| Assigns(init, i, k);
        assert Assigns(entries, i, k);
      }
      if exists i :: Assigns(entries, i, k) {
        var i :| Assigns(entries, i, k);
        if i < n {
          assert Assigns(init, i, k);
        }
      }
    }
  }

  /** The value of a key is the one given by the last entry that assigns it. */
  lemma {:induction false} AssignLastWins(entries: seq<Option<(string, string)>>, i: nat, k: string)
    requires Assigns(entries, i, k)
    requires forall j :: i < j < |entries| ==> !Assigns(entries, j, k)
    ensures k in Assign(entries) && Assign(entries)[k] == entries[i].value.1
    decreases |entries|
  {
    var n := |entries| - 1;
    if i < n {
      var init := entries[..n];
      assert init[i] == entries[i];
      forall j | i < j < |init|
        ensures !Assigns(init, j, k)
      {
        assert init[j] == entries[j] && !Assigns(entries, j, k);
      }
      AssignLastWins(init, i, k);
      assert !Assigns(entries, n, k);
    }
  }

  /** An entry that assigns nothing changes nothing, wherever it stands. */
  lemma {:induction false} AssignSkipsNone(before: seq<Option<(string, string)>>, after: seq<Option<(string, string)>>)
    ensures Assign(before + [None] + after) == Assign(before + after)
    decreases |after|
  {
    var with := before + [None] + after;
    var without := before + after;
    if after == [] {
      assert with[..|with| - 1] == before;
      assert without == before;
    } else {
      var n := |after| - 1;
      AssignSkipsNone(before, after[..n]);
      assert with[..|with| - 1] == before + [None] + after[..n];
      assert without[..|without| - 1] == before + after[..n];
      assert with[|with| - 1] == after[n] == without[|without| - 1];
    }
  }

  /** `f` applied to every element of `xs`, in order. */
  function MapSeq<A, B>(f: A -> B, xs: seq<A>): (ys: seq<B>)
    ensures |ys| == |xs|
    decreases |xs|
  {
    if xs == [] then []
    else MapSeq(f, xs[..|xs| - 1]) + [f(xs[|xs| - 1])]
  }

  lemma {:induction false} MapSeqAt<A, B>(f: A -> B, xs: seq<A>, i: nat)
    requires i < |xs|
    ensures MapSeq(f, xs)[i] == f(xs[i])
    decreases |xs|
  {
    var n := |xs| - 1;
    if i < n {
      MapSeqAt(f, xs[..n], i);
    }
  }

  lemma MapSeqConcat<A, B>(f: A -> B, a: seq<A>, b: seq<A>)
    ensures MapSeq(f, a + b) == MapSeq(f, a) + MapSeq(f, b)
  {
    var ab := a + b;
    forall i | 0 <= i < |ab|
      ensures MapSeq(f, ab)[i] == (MapSeq(f, a) + MapSeq(f, b))[i]
    {
      MapSeqAt(f, ab, i);
      if i < |a| {
        MapSeqAt(f, a, i);
        assert ab[i] == a[i];
      } else {
        MapSeqAt(f, b, i - |a|);
        assert ab[i] == b[i - |a|];
      }
    }
  }

  /** The dictionary the loop over the front-matter lines builds. */
  function Entries(lines: seq<string>): map<string, string>
  {
    Assign(MapSeq(LineEntry, lines))
  }

  /** Line `i` gives an entry for key `k`. */
  predicate HasKey(lines: seq<string>, i: int, k: string) {
    0 <= i < |lines| && LineEntry(lines[i]).Some? && LineEntry(lines[i]).value.0 == k
  }

  /** A key is in the front matter exactly when some line gives an entry for it. */
  lemma EntriesKeys(lines: seq<string>, k: string)
    ensures k in Entries(lines) <==> exists i :: HasKey(lines, i, k)
  {
    var entries := MapSeq(LineEntry, lines);
    AssignKeys(entries, k);
    if exists i :: Assigns(entries, i, k) {
      var i :| Assigns(entries, i, k);
      MapSeqAt(LineEntry, lines, i);
      assert HasKey(lines, i, k);
    }
    if exists i :: HasKey(lines, i, k) {
      var i :| HasKey(lines, i, k);
      MapSeqAt(LineEntry, lines, i);
      assert Assigns(entries, i, k);
    }
  }

  /** The value of a key is the one on the last line with that key. */
  lemma EntriesLastWins(lines: seq<string>, i: nat, k: string)
    requires HasKey(lines, i, k)
    requires forall j :: i < j < |lines| ==> !HasKey(lines, j, k)
    ensures k in Entries(lines) && Entries(lines)[k] == LineEntry(lines[i]).value.1
  {
    var entries := MapSeq(LineEntry, lines);
    MapSeqAt(LineEntry, lines, i);
    forall j | i < j < |lines|
      ensures !Assigns(entries, j, k)
    {
      MapSeqAt(LineEntry, lines, j);
      assert !HasKey(lines, j, k);
    }
    AssignLastWins(entries, i, k);
  }

  /** A line without a colon changes nothing, wherever it stands. */
  lemma ColonFreeLineIgnored(before: seq<string>, line: string, after: seq<string>)
    requires ':' !in line
    ensures Entries(before + [line] + after) == Entries(before + after)
  {
    LineEntryNoColon(line);
    MapSeqConcat(LineEntry, before + [line], after);
    MapSeqConcat(LineEntry, before, [line]);
    MapSeqConcat(LineEntry, before, after);
    MapSeqAt(LineEntry, [line], 0);
    AssignSkipsNone(MapSeq(LineEntry, before), MapSeq(LineEntry, after));
  }

  /** A page split into its front matter and its body. */
  datatype Page = Page(frontMatter: map<string, string>, body: string)

  /** A file that starts with `---` and has a second `---` is cut at the first two markers:
      the front matter is read from the stripped text between them, line by line, and the
      body is the stripped rest. Any other file has no front matter and is kept as it is
      (the unpacking of fewer than three parts fails, and the failure is ignored). */
  function ExtractFrontMatter(content: string): Page
  {
    if !StartsWith(content, "---") then Page(map[], content)
    else
      var parts := Split(content, "---", 2);
      if |parts| != 3 then Page(map[], content)
      else Page(Entries(Split(Strip(parts[1]), "\n", -1)), Strip(parts[2]))
  }

  /** A file that does not start with `---`, or has no second `---`, is all body. */
  lemma NoFrontMatter(content: string)
    requires !StartsWith(content, "---") || forall j :: 3 <= j ==> !OccursAt(content, "---", j)
    ensures ExtractFrontMatter(content) == Page(map[], content)
  {
    if StartsWith(content, "---") {
      IndexFromIs(content, "---", 0, 0);
      IndexFromNone(content, "---", 3);
      assert Split(content, "---", 2) == [content[0..0]] + SplitFrom(content, "---", 1, 3);
    }
  }

  /** The text between the first two `---` markers, and the rest. */
  lemma SplitAtMarkers(fm: string, body: string)
    requires !Contains(fm + "--", "---")
    ensures Split("---" + fm + "---" + body, "---", 2) == ["", fm, body]
  {
    var c := "---" + fm + "---" + body;
    var t := fm + "--";
    var q := 3 + |fm|;
    assert OccursAt(c, "---", 0);
    assert OccursAt(c, "---", q);
    IndexFromLeftmost(t, "---", 0);
    forall j | 3 <= j < q
      ensures !OccursAt(c, "---", j)
    {
      assert c == "---" + t + ("-" + body);
      OccursShift("---", t, "-" + body, "---", j - 3);
    }
    IndexFromIs(c, "---", 0, 0);
    IndexFromIs(c, "---", 3, q);
    assert Split(c, "---", 2) == [c[0..0]] + SplitFrom(c, "---", 1, 3);
    assert SplitFrom(c, "---", 1, 3) == [c[3..q]] + SplitFrom(c, "---", 0, q + 3);
    assert c[3..q] == fm && c[q + 3..] == body;
  }

  /** A front-matter block closed by the first `---` after the opening one: the front matter
      comes from its lines and the body is the stripped rest, whatever further `---` the
      body holds. */
  lemma FrontMatterBlock(fm: string, body: string)
    requires !Contains(fm + "--", "---")
    ensures ExtractFrontMatter("---" + fm + "---" + body)
         == Page(Entries(Split(Strip(fm), "\n", -1)), Strip(body))
  {
    SplitAtMarkers(fm, body);
    assert StartsWith("---" + fm + "---" + body, "---");
  }
}
