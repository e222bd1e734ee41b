/** The handful of Python `str` operations the handler is built from:
    `in`, `startswith`, `endswith`, `find`, `split`, `join`, `replace` and `strip`,
    each on strings as sequences of characters. */
module Text {

  datatype Option<T> = None | Some(value: T)

  /** `pat` occurs in `s` starting at index `i`. */
  predicate OccursAt(s: string, pat: string, i: nat) {
    i + |pat| <= |s| && forall k :: i <= k < i + |pat| ==> s[k] == pat[k - i]
  }

  predicate StartsWith(s: string, prefix: string) {
    OccursAt(s, prefix, 0)
  }

  predicate EndsWith(s: string, suffix: string) {
    |suffix| <= |s| && s[|s| - |suffix|..] == suffix
  }

  /** Python's `s.find(pat, from)`: the leftmost occurrence of `pat` in `s` at or after `from`. */
  function IndexFrom(s: string, pat: string, from: nat): (r: Option<nat>)
    requires from <= |s|
    ensures r.Some? ==> from <= r.value && OccursAt(s, pat, r.value)
    decreases |s| - from
  {
    if OccursAt(s, pat, from) then Some(from)
    else if from + |pat| >= |s| then None
    else IndexFrom(s, pat, from + 1)
  }

  /** `IndexFrom` finds the leftmost occurrence, and finds none only when there is none. */
  lemma {:induction false} IndexFromLeftmost(s: string, pat: string, from: nat)
    requires from <= |s|
    ensures IndexFrom(s, pat, from).Some? ==>
      forall j :: from <= j < IndexFrom(s, pat, from).value ==> !OccursAt(s, pat, j)
    ensures IndexFrom(s, pat, from).None? ==> forall j :: from <= j ==> !OccursAt(s, pat, j)
    decreases |s| - from
  {
    if !OccursAt(s, pat, from) && from + |pat| < |s| {
      IndexFromLeftmost(s, pat, from + 1);
    }
  }

  /** Python's `pat in s` for a string `pat`. */
  predicate Contains(s: string, pat: string) {
    IndexFrom(s, pat, 0).Some?
  }

  /** The first occurrence at or after `from` is the only one with none before it. */
  lemma IndexFromIs(s: string, pat: string, from: nat, p: nat)
    requires from <= p && OccursAt(s, pat, p)
    requires forall j :: from <= j < p ==> !OccursAt(s, pat, j)
    ensures from <= |s| && IndexFrom(s, pat, from) == Some(p)
  {
    IndexFromLeftmost(s, pat, from);
  }

  lemma IndexFromNone(s: string, pat: string, from: nat)
    requires from <= |s|
    requires forall j :: from <= j ==> !OccursAt(s, pat, j)
    ensures IndexFrom(s, pat, from).None?
  {
  }

  /** A character at which `pat` must match in `s`. */
  lemma OccursAtChar(s: string, pat: string, j: nat, k: nat)
    requires OccursAt(s, pat, j) && k < |pat|
    ensures s[j + k] == pat[k]
  {
  }

  /** No occurrence of `pat` can start at a position of `s` that does not hold `pat[0]`. */
  lemma NoOccurrenceFrom(s: string, pat: string, from: nat)
    requires pat != [] && forall j :: from <= j < |s| ==> s[j] != pat[0]
    ensures forall j :: from <= j ==> !OccursAt(s, pat, j)
  {
    forall j | from <= j
      ensures !OccursAt(s, pat, j)
    {
      if j < |s| {
        assert s[j] != pat[0];
      }
    }
  }

  /** An occurrence that lies within the middle part of a concatenation is an occurrence
      in that part. */
  lemma OccursShift(pre: string, t: string, post: string, pat: string, j: nat)
    requires j + |pat| <= |t|
    ensures OccursAt(pre + t + post, pat, |pre| + j) ==> OccursAt(t, pat, j)
  {
    var s := pre + t + post;
    if OccursAt(s, pat, |pre| + j) {
      forall k | 0 <= k < |pat|
        ensures t[j + k] == pat[k]
      {
        assert s[|pre| + j + k] == t[j + k];
      }
    }
  }

  /** A pattern whose first character is absent from `s` does not occur in `s`. */
  lemma FirstCharAbsent(s: string, pat: string)
    requires pat != [] && pat[0] !in s
    ensures !Contains(s, pat)
  {
    NoOccurrenceFrom(s, pat, 0);
  }

  /** Python's `s[from:].split(sep, maxsplit)`: at most `maxsplit` splits, at the leftmost
      non-overlapping occurrences of `sep`; a negative `maxsplit` means no limit. */
  function SplitFrom(s: string, sep: string, maxsplit: int, from: nat): seq<string>
    requires sep != [] && from <= |s|
    decreases |s| - from
  {
    if maxsplit == 0 then [s[from..]]
    else
      match IndexFrom(s, sep, from)
      case None => [s[from..]]
      case Some(p) =>
        [s[from..p]] + SplitFrom(s, sep, if maxsplit > 0 then maxsplit - 1 else maxsplit, p + |sep|)
  }

  /** A split gives at least one part, and at most `maxsplit + 1` when `maxsplit` is not
      negative. */
  lemma {:induction false} SplitFromParts(s: string, sep: string, maxsplit: int, from: nat)
    requires sep != [] && from <= |s|
    ensures 1 <= |SplitFrom(s, sep, maxsplit, from)|
    ensures maxsplit >= 0 ==> |SplitFrom(s, sep, maxsplit, from)| <= maxsplit + 1
    decreases |s| - from
  {
    if maxsplit != 0 && IndexFrom(s, sep, from).Some? {
      var p := IndexFrom(s, sep, from).value;
      SplitFromParts(s, sep, if maxsplit > 0 then maxsplit - 1 else maxsplit, p + |sep|);
    }
  }

  /** Python's `s.split(sep, maxsplit)`. */
  function Split(s: string, sep: string, maxsplit: int): (parts: seq<string>)
    requires sep != []
  {
    SplitFrom(s, sep, maxsplit, 0)
  }

  /** Python's `sep.join(parts)`. */
  function Join(parts: seq<string>, sep: string): string
    decreases |parts|
  {
    if parts == [] then []
    else if |parts| == 1 then parts[0]
    else parts[0] + sep + Join(parts[1..], sep)
  }

  lemma JoinCons(x: string, tail: seq<string>, sep: string)
    requires tail != []
    ensures Join([x] + tail, sep) == x + sep + Join(tail, sep)
  {
    assert ([x] + tail)[1..] == tail;
  }

  lemma AppendAssoc(x: string, y: string, z: string)
    ensures x + (y + z) == (x + y) + z
  {
  }

  /** One step of a split: the part before the first occurrence, then the split of the
      text after it with one split fewer. */
  lemma SplitFromStep(s: string, sep: string, maxsplit: int, from: nat, p: nat)
    requires sep != [] && from <= |s| && maxsplit != 0 && IndexFrom(s, sep, from) == Some(p)
    ensures p + |sep| <= |s|
    ensures SplitFrom(s, sep, maxsplit, from)
         == [s[from..p]] + SplitFrom(s, sep, if maxsplit > 0 then maxsplit - 1 else maxsplit, p + |sep|)
  {
  }

  /** Joining the parts of one step of a split. */
  lemma JoinSplitStep(s: string, sep: string, maxsplit: int, from: nat)
    requires sep != [] && from <= |s| && maxsplit != 0 && IndexFrom(s, sep, from).Some?
    ensures var p := IndexFrom(s, sep, from).value;
      Join(SplitFrom(s, sep, maxsplit, from), sep)
        == s[from..p] + sep + Join(SplitFrom(s, sep, if maxsplit > 0 then maxsplit - 1 else maxsplit, p + |sep|), sep)
  {
    var p := IndexFrom(s, sep, from).value;
    SplitFromStep(s, sep, maxsplit, from, p);
    JoinCons(s[from..p], SplitFrom(s, sep, if maxsplit > 0 then maxsplit - 1 else maxsplit, p + |sep|), sep);
  }

  /** One step of a split, joined: once the rest of the text comes back from its own parts,
      so does the text from `from` on. */
  lemma JoinSplitCombine(s: string, sep: string, maxsplit: int, from: nat)
    requires sep != [] && from <= |s| && maxsplit != 0 && IndexFrom(s, sep, from).Some?
    requires var p := IndexFrom(s, sep, from).value;
      Join(SplitFrom(s, sep, if maxsplit > 0 then maxsplit - 1 else maxsplit, p + |sep|), sep) == s[p + |sep|..]
    ensures Join(SplitFrom(s, sep, maxsplit, from), sep) == s[from..]
  {
    var p := IndexFrom(s, sep, from).value;
    JoinSplitStep(s, sep, maxsplit, from);
    AroundOccurrence(s, sep, from, p);
  }

  /** Splitting and joining again with the same separator gives back the text. */
  lemma {:induction false} JoinSplitFrom(s: string, sep: string, maxsplit: int, from: nat)
    requires sep != [] && from <= |s|
    ensures Join(SplitFrom(s, sep, maxsplit, from), sep) == s[from..]
    decreases |s| - from
  {
    if maxsplit != 0 && IndexFrom(s, sep, from).Some? {
      var p := IndexFrom(s, sep, from).value;
      JoinSplitFrom(s, sep, if maxsplit > 0 then maxsplit - 1 else maxsplit, p + |sep|);
      JoinSplitCombine(s, sep, maxsplit, from);
    } else {
      SplitFromLast(s, sep, maxsplit, from);
    }
  }

  /** The last part of a split is the rest of the text, joined as it is. */
  lemma SplitFromLast(s: string, sep: string, maxsplit: int, from: nat)
    requires sep != [] && from <= |s| && (maxsplit == 0 || IndexFrom(s, sep, from).None?)
    ensures SplitFrom(s, sep, maxsplit, from) == [s[from..]]
    ensures Join(SplitFrom(s, sep, maxsplit, from), sep) == s[from..]
  {
  }

  /** The text from `from` on, cut around an occurrence of `pat` at `p`. */
  lemma AroundOccurrence(s: string, pat: string, from: nat, p: nat)
    requires from <= p && OccursAt(s, pat, p)
    ensures s[from..] == s[from..p] + pat + s[p + |pat|..]
  {
    assert s[p..p + |pat|] == pat;
    assert s[from..] == s[from..p] + s[p..p + |pat|] + s[p + |pat|..];
  }

  lemma JoinSplit(s: string, sep: string, maxsplit: int)
    requires sep != []
    ensures Join(Split(s, sep, maxsplit), sep) == s
  {
    JoinSplitFrom(s, sep, maxsplit, 0);
  }

  /** `s.split(sep, 1)` cuts at the first occurrence of `sep`, and leaves `s` whole when
      there is none. */
  lemma SplitOnce(s: string, sep: string)
    requires sep != []
    ensures Contains(s, sep) ==>
      var p := IndexFrom(s, sep, 0).value;
      Split(s, sep, 1) == [s[..p], s[p + |sep|..]]
    ensures !Contains(s, sep) ==> Split(s, sep, 1) == [s]
  {
    if Contains(s, sep) {
      var p := IndexFrom(s, sep, 0).value;
      SplitFromStep(s, sep, 1, 0, p);
      SplitFromLast(s, sep, 0, p + |sep|);
      assert s[0..p] == s[..p];
    }
  }

  /** For a one-character pattern, Python's substring test is membership, and the first
      occurrence is the first index holding that character. */
  lemma ContainsChar(s: string, c: char)
    ensures Contains(s, [c]) <==> c in s
    ensures Contains(s, [c]) ==>
      var p := IndexFrom(s, [c], 0).value;
      p < |s| && s[p] == c && c !in s[..p]
  {
    if c in s {
      var j :| 0 <= j < |s| && s[j] == c;
      assert OccursAt(s, [c], j);
      IndexFromLeftmost(s, [c], 0);
    }
    if Contains(s, [c]) {
      FirstCharFound(s, c, IndexFrom(s, [c], 0).value);
    }
  }

  lemma FirstCharFound(s: string, c: char, p: nat)
    requires IndexFrom(s, [c], 0) == Some(p)
    ensures p < |s| && s[p] == c && c !in s[..p]
  {
    IndexFromLeftmost(s, [c], 0);
    OccursAtChar(s, [c], p, 0);
    forall j | 0 <= j < p
      ensures s[..p][j] != c
    {
      assert !OccursAt(s, [c], j);
      assert s[j] != [c][0];
    }
  }

  /** The first index holding `c` is where `s.find(c)` finds it. */
  lemma FirstCharAt(s: string, c: char, i: nat)
    requires i < |s| && s[i] == c && c !in s[..i]
    ensures IndexFrom(s, [c], 0) == Some(i)
  {
    forall j | 0 <= j < i
      ensures !OccursAt(s, [c], j)
    {
      assert s[j] == s[..i][j] != c;
      if OccursAt(s, [c], j) {
        OccursAtChar(s, [c], j, 0);
      }
    }
    assert OccursAt(s, [c], i);
    IndexFromIs(s, [c], 0, i);
  }

  /** Python's `s[from:].replace(pat, repl)` for a non-empty `pat`: scanning from the left,
      each occurrence is replaced and the scan resumes after it, so the occurrences replaced
      are the leftmost non-overlapping ones. */
  function ReplaceFrom(s: string, pat: string, repl: string, from: nat): string
    requires pat != [] && from <= |s|
    decreases |s| - from
  {
    if from == |s| then []
    else if OccursAt(s, pat, from) then repl + ReplaceFrom(s, pat, repl, from + |pat|)
    else [s[from]] + ReplaceFrom(s, pat, repl, from + 1)
  }

  /** Python's `s.replace(pat, repl)`. */
  function Replace(s: string, pat: string, repl: string): string
    requires pat != []
  {
    ReplaceFrom(s, pat, repl, 0)
  }

  /** Where `pat` does not occur from `i` up to `k`, that stretch is copied as it is. */
  lemma {:induction false} ReplaceFromSkip(s: string, pat: string, repl: string, i: nat, k: nat)
    requires pat != [] && i <= k <= |s|
    requires forall j :: i <= j < k ==> !OccursAt(s, pat, j)
    ensures ReplaceFrom(s, pat, repl, i) == s[i..k] + ReplaceFrom(s, pat, repl, k)
    decreases k - i
  {
    if i < k {
      var rest := ReplaceFrom(s, pat, repl, k);
      assert !OccursAt(s, pat, i);
      ReplaceFromSkip(s, pat, repl, i + 1, k);
      assert [s[i]] + (s[i + 1..k] + rest) == ([s[i]] + s[i + 1..k]) + rest;
      assert s[i..k] == [s[i]] + s[i + 1..k];
    }
  }

  /** The scan agrees with `find`: the text up to the first occurrence is copied, that
      occurrence is replaced, and the scan goes on after it. */
  lemma ReplaceFromStep(s: string, pat: string, repl: string, from: nat, p: nat)
    requires pat != [] && from <= |s| && IndexFrom(s, pat, from) == Some(p)
    ensures p + |pat| <= |s|
    ensures ReplaceFrom(s, pat, repl, from) == s[from..p] + repl + ReplaceFrom(s, pat, repl, p + |pat|)
  {
    IndexFromLeftmost(s, pat, from);
    ReplaceFromSkip(s, pat, repl, from, p);
    assert OccursAt(s, pat, p);
  }

  /** With no occurrence left, the rest of the text is copied as it is. */
  lemma ReplaceFromNone(s: string, pat: string, repl: string, from: nat)
    requires pat != [] && from <= |s| && IndexFrom(s, pat, from).None?
    ensures ReplaceFrom(s, pat, repl, from) == s[from..]
  {
    IndexFromLeftmost(s, pat, from);
    ReplaceFromSkip(s, pat, repl, from, |s|);
    assert s[from..|s|] == s[from..];
  }

  /** `s.replace(pat, repl) == repl.join(s.split(pat))`. */
  lemma {:induction false} ReplaceIsJoinOfSplitFrom(s: string, pat: string, repl: string, from: nat)
    requires pat != [] && from <= |s|
    ensures ReplaceFrom(s, pat, repl, from) == Join(SplitFrom(s, pat, -1, from), repl)
    decreases |s| - from
  {
    match IndexFrom(s, pat, from)
    case None =>
      ReplaceFromNone(s, pat, repl, from);
      SplitFromLast(s, pat, -1, from);
    case Some(p) =>
      assert p + |pat| <= |s|;
      ReplaceIsJoinOfSplitFrom(s, pat, repl, p + |pat|);
      ReplaceJoinStep(s, pat, repl, from, p);
  }

  /** The inductive step of `ReplaceIsJoinOfSplitFrom`, given the claim after the occurrence at `p`. */
  lemma ReplaceJoinStep(s: string, pat: string, repl: string, from: nat, p: nat)
    requires pat != [] && from <= |s| && IndexFrom(s, pat, from) == Some(p) && p + |pat| <= |s|
    requires ReplaceFrom(s, pat, repl, p + |pat|) == Join(SplitFrom(s, pat, -1, p + |pat|), repl)
    ensures ReplaceFrom(s, pat, repl, from) == Join(SplitFrom(s, pat, -1, from), repl)
  {
    ReplaceFromStep(s, pat, repl, from, p);
    SplitFromStep(s, pat, -1, from, p);
    JoinCons(s[from..p], SplitFrom(s, pat, -1, p + |pat|), repl);
  }

  lemma ReplaceIsJoinOfSplit(s: string, pat: string, repl: string)
    requires pat != []
    ensures Replace(s, pat, repl) == Join(Split(s, pat, -1), repl)
  {
    ReplaceIsJoinOfSplitFrom(s, pat, repl, 0);
  }

  /** Text where the pattern does not occur is left as it is. */
  lemma ReplaceAbsent(s: string, pat: string, repl: string)
    requires pat != [] && !Contains(s, pat)
    ensures Replace(s, pat, repl) == s
  {
    ReplaceFromNone(s, pat, repl, 0);
  }

  /** An optional position moved right by `d`. */
  function Offset(o: Option<nat>, d: nat): Option<nat> {
    match o
    case None => None
    case Some(p) => Some(p + d)
  }

  /** An occurrence in `a + b` at an index of `b` is an occurrence in `b`, and back. */
  lemma OccursRight(a: string, b: string, pat: string, k: nat)
    ensures OccursAt(a + b, pat, |a| + k) <==> OccursAt(b, pat, k)
  {
    var s := a + b;
    forall p | 0 <= p < |b|
      ensures b[p] == s[|a| + p]
    {
    }
  }

  /** An occurrence that ends within `a` is the same in `a` and in `a + b`. */
  lemma OccursLeft(a: string, b: string, pat: string, j: nat)
    requires j + |pat| <= |a|
    ensures OccursAt(a + b, pat, j) <==> OccursAt(a, pat, j)
  {
    var s := a + b;
    forall p | 0 <= p < |a|
      ensures s[p] == a[p]
    {
    }
  }

  /** A slice of `a + b` that lies within `a`. */
  lemma SliceLeft(a: string, b: string, x: nat, y: nat)
    requires x <= y <= |a|
    ensures (a + b)[x..y] == a[x..y]
  {
  }

  /** Searching `a + b` from an index of `b` finds what searching `b` finds, moved by `|a|`. */
  lemma {:induction false} IndexFromRight(a: string, b: string, pat: string, k: nat)
    requires k <= |b|
    ensures IndexFrom(a + b, pat, |a| + k) == Offset(IndexFrom(b, pat, k), |a|)
    decreases |b| - k
  {
    OccursRight(a, b, pat, k);
    if !OccursAt(b, pat, k) && k + |pat| < |b| {
      IndexFromRight(a, b, pat, k + 1);
    }
  }

  /** One step of the scan over `a + b` at an index of `b` is the same step over `b`. */
  lemma ReplaceFromRightStep(a: string, b: string, pat: string, repl: string, k: nat)
    requires pat != [] && k < |b|
    ensures OccursAt(a + b, pat, |a| + k) ==>
      OccursAt(b, pat, k) && k + |pat| <= |b| &&
      ReplaceFrom(a + b, pat, repl, |a| + k) == repl + ReplaceFrom(a + b, pat, repl, |a| + (k + |pat|)) &&
      ReplaceFrom(b, pat, repl, k) == repl + ReplaceFrom(b, pat, repl, k + |pat|)
    ensures !OccursAt(a + b, pat, |a| + k) ==>
      !OccursAt(b, pat, k) &&
      ReplaceFrom(a + b, pat, repl, |a| + k) == [b[k]] + ReplaceFrom(a + b, pat, repl, |a| + (k + 1)) &&
      ReplaceFrom(b, pat, repl, k) == [b[k]] + ReplaceFrom(b, pat, repl, k + 1)
  {
    OccursRight(a, b, pat, k);
    assert (a + b)[|a| + k] == b[k];
  }

  /** Replacing in `a + b` from an index of `b` is replacing in `b`. */
  lemma {:induction false} ReplaceFromRight(a: string, b: string, pat: string, repl: string, k: nat)
    requires pat != [] && k <= |b|
    ensures ReplaceFrom(a + b, pat, repl, |a| + k) == ReplaceFrom(b, pat, repl, k)
    decreases |b| - k
  {
    if k < |b| {
      ReplaceFromRightStep(a, b, pat, repl, k);
      if OccursAt(b, pat, k) {
        ReplaceFromRight(a, b, pat, repl, k + |pat|);
      } else {
        ReplaceFromRight(a, b, pat, repl, k + 1);
      }
    }
  }

  /** No occurrence of `pat` in `a + b` starts in `a` and ends in `b`. */
  predicate NoneAcross(a: string, b: string, pat: string) {
    forall j: nat :: j < |a| < j + |pat| ==> !OccursAt(a + b, pat, j)
  }

  /** Within `a`, the scan over `a + b` sees the occurrences the scan over `a` sees. */
  lemma ReplaceConcatStep(a: string, b: string, pat: string, i: nat)
    requires pat != [] && i < |a| && NoneAcross(a, b, pat)
    ensures (a + b)[i] == a[i]
    ensures OccursAt(a + b, pat, i) <==> OccursAt(a, pat, i)
  {
    if i + |pat| <= |a| {
      OccursLeft(a, b, pat, i);
    }
  }

  lemma {:induction false} ReplaceConcatFrom(a: string, b: string, pat: string, repl: string, i: nat)
    requires pat != [] && i <= |a| && NoneAcross(a, b, pat)
    ensures ReplaceFrom(a + b, pat, repl, i) == ReplaceFrom(a, pat, repl, i) + Replace(b, pat, repl)
    decreases |a| - i
  {
    if i == |a| {
      ReplaceFromRight(a, b, pat, repl, 0);
    } else {
      ReplaceConcatStep(a, b, pat, i);
      var next := if OccursAt(a, pat, i) then i + |pat| else i + 1;
      var head := if OccursAt(a, pat, i) then repl else [a[i]];
      ReplaceConcatFrom(a, b, pat, repl, next);
      AppendAssoc(head, ReplaceFrom(a, pat, repl, next), Replace(b, pat, repl));
    }
  }

  /** `replace` works on the two parts of a text separately when no occurrence of the
      pattern straddles the cut. */
  lemma ReplaceConcat(a: string, b: string, pat: string, repl: string)
    requires pat != [] && NoneAcross(a, b, pat)
    ensures Replace(a + b, pat, repl) == Replace(a, pat, repl) + Replace(b, pat, repl)
  {
    ReplaceConcatFrom(a, b, pat, repl, 0);
  }

  /** An occurrence of `pat` tried at `j` fails on a character of `a`, whatever follows `a`. */
  predicate MissesAt(a: string, pat: string, j: nat) {
    exists k :: 0 <= k < |pat| && j + k < |a| && a[j + k] != pat[k]
  }

  /** No occurrence of `pat` starting in `a` runs past its end, whatever follows `a`. */
  predicate Sealed(a: string, pat: string) {
    forall j :: 0 <= j < |a| ==> j + |pat| <= |a| || MissesAt(a, pat, j)
  }

  /** No occurrence of `pat` starts in `a`, whatever follows `a`. */
  predicate Untouched(a: string, pat: string) {
    forall j :: 0 <= j < |a| ==> MissesAt(a, pat, j)
  }

  lemma MissesAtLeft(a: string, b: string, pat: string, j: nat)
    requires MissesAt(a, pat, j)
    ensures MissesAt(a + b, pat, j) && !OccursAt(a + b, pat, j)
  {
    var k :| 0 <= k < |pat| && j + k < |a| && a[j + k] != pat[k];
    assert (a + b)[j + k] == a[j + k];
  }

  lemma MissesAtRight(a: string, b: string, pat: string, j: nat)
    requires MissesAt(b, pat, j)
    ensures MissesAt(a + b, pat, |a| + j)
  {
    var k :| 0 <= k < |pat| && j + k < |b| && b[j + k] != pat[k];
    assert (a + b)[|a| + j + k] == b[j + k];
  }

  /** A sealed text leaves no occurrence straddling its end. */
  lemma SealedAcross(a: string, b: string, pat: string)
    requires Sealed(a, pat)
    ensures NoneAcross(a, b, pat)
  {
    forall j: nat | j < |a| < j + |pat|
      ensures !OccursAt(a + b, pat, j)
    {
      MissesAtLeft(a, b, pat, j);
    }
  }

  lemma SealedAppend(a: string, b: string, pat: string)
    requires Sealed(a, pat) && Sealed(b, pat)
    ensures Sealed(a + b, pat)
  {
    forall j | 0 <= j < |a + b|
      ensures j + |pat| <= |a + b| || MissesAt(a + b, pat, j)
    {
      if j < |a| {
        if j + |pat| > |a| {
          MissesAtLeft(a, b, pat, j);
        }
      } else if j + |pat| > |a + b| {
        MissesAtRight(a, b, pat, j - |a|);
      }
    }
  }

  lemma UntouchedAppend(a: string, b: string, pat: string)
    requires Untouched(a, pat) && Untouched(b, pat)
    ensures Untouched(a + b, pat)
  {
    forall j | 0 <= j < |a + b|
      ensures MissesAt(a + b, pat, j)
    {
      if j < |a| {
        MissesAtLeft(a, b, pat, j);
      } else {
        MissesAtRight(a, b, pat, j - |a|);
      }
    }
  }

  /** Text in which no occurrence of `pat` starts is sealed, and `replace` leaves it alone. */
  lemma UntouchedKept(a: string, pat: string, repl: string)
    requires pat != [] && Untouched(a, pat)
    ensures Sealed(a, pat) && Replace(a, pat, repl) == a
  {
    forall j | 0 <= j
      ensures !OccursAt(a, pat, j)
    {
      if j < |a| {
        MissesAtLeft(a, [], pat, j);
        assert a + [] == a;
      }
    }
    IndexFromNone(a, pat, 0);
    ReplaceAbsent(a, pat, repl);
  }

  /** Where no occurrence starts in `a`, none lies within `a` and a partial copy of `pat`. */
  lemma UntouchedNotContained(a: string, pat: string)
    requires pat != [] && Untouched(a, pat)
    ensures !Contains(a + pat[..|pat| - 1], pat)
  {
    var t := a + pat[..|pat| - 1];
    forall j | 0 <= j
      ensures !OccursAt(t, pat, j)
    {
      if j < |a| {
        MissesAtLeft(a, pat[..|pat| - 1], pat, j);
      }
    }
    IndexFromNone(t, pat, 0);
  }

  /** `replace` works on three sealed parts separately. */
  lemma ReplaceSealed3(a: string, b: string, c: string, pat: string, repl: string)
    requires pat != [] && Sealed(a, pat) && Sealed(b, pat)
    ensures Replace(a + b + c, pat, repl) == Replace(a, pat, repl) + Replace(b, pat, repl) + Replace(c, pat, repl)
  {
    SealedAcross(b, c, pat);
    ReplaceConcat(b, c, pat, repl);
    SealedAcross(a, b + c, pat);
    ReplaceConcat(a, b + c, pat, repl);
    assert a + b + c == a + (b + c);
  }

  /** A step of the scan that copies the first character. */
  lemma ReplaceCons(c: char, t: string, pat: string, repl: string)
    requires pat != [] && !OccursAt([c] + t, pat, 0)
    ensures Replace([c] + t, pat, repl) == [c] + Replace(t, pat, repl)
  {
    ReplaceFromRight([c], t, pat, repl, 0);
  }

  /** Text before the first occurrence is copied as it is. */
  lemma {:induction false} ReplaceKeepsPrefix(a: string, b: string, pat: string, repl: string)
    requires pat != [] && forall j :: 0 <= j < |a| ==> !OccursAt(a + b, pat, j)
    ensures Replace(a + b, pat, repl) == a + Replace(b, pat, repl)
    decreases |a|
  {
    if a != [] {
      var t := a[1..] + b;
      assert a + b == [a[0]] + t;
      forall j | 0 <= j < |a[1..]|
        ensures !OccursAt(t, pat, j)
      {
        OccursRight([a[0]], t, pat, j);
        assert !OccursAt(a + b, pat, 1 + j);
      }
      ReplaceCons(a[0], t, pat, repl);
      ReplaceKeepsPrefix(a[1..], b, pat, repl);
      AppendAssoc([a[0]], a[1..], Replace(b, pat, repl));
      assert [a[0]] + a[1..] == a;
    } else {
      assert a + b == b;
    }
  }

  /** An occurrence at the very start is replaced, and the scan goes on after it. */
  lemma ReplaceLeading(pat: string, post: string, repl: string)
    requires pat != []
    ensures Replace(pat + post, pat, repl) == repl + Replace(post, pat, repl)
  {
    assert OccursAt(pat + post, pat, 0);
    ReplaceFromRight(pat, post, pat, repl, 0);
  }

  /** When the first occurrence is the one after `pre` and `post` holds none, only that
      occurrence is replaced. */
  lemma ReplaceFirstOnly(pre: string, pat: string, post: string, repl: string)
    requires pat != [] && IndexFrom(pre + pat + post, pat, 0) == Some(|pre|) && !Contains(post, pat)
    ensures Replace(pre + pat + post, pat, repl) == pre + repl + post
  {
    AppendAssoc(pre, pat, post);
    IndexFromLeftmost(pre + pat + post, pat, 0);
    ReplaceKeepsPrefix(pre, pat + post, pat, repl);
    ReplaceLeading(pat, post, repl);
    ReplaceAbsent(post, pat, repl);
    AppendAssoc(pre, repl, post);
  }

  /** A single occurrence between text free of the pattern's first character is replaced by `repl`. */
  lemma ReplaceSingle(pre: string, pat: string, post: string, repl: string)
    requires pat != [] && pat[0] !in pre && pat[0] !in post
    ensures Replace(pre + pat + post, pat, repl) == pre + repl + post
  {
    SingleFound(pre, pat, post);
    NoOccurrenceFrom(post, pat, 0);
    IndexFromNone(post, pat, 0);
    ReplaceFirstOnly(pre, pat, post, repl);
  }

  /** The occurrence between `pre` and `post` is the first one. */
  lemma SingleFound(pre: string, pat: string, post: string)
    requires pat != [] && pat[0] !in pre
    ensures IndexFrom(pre + pat + post, pat, 0) == Some(|pre|)
  {
    var s := pre + pat + post;
    assert OccursAt(s, pat, |pre|);
    forall j | 0 <= j < |pre|
      ensures !OccursAt(s, pat, j)
    {
      assert s[j] == pre[j];
    }
    IndexFromIs(s, pat, 0, |pre|);
  }

  /** Python's `str.isspace()`: the characters `strip()` removes. */
  predicate IsSpace(c: char) {
    c == ' ' || c == '\t' || c == '\n' || c == '\r' || c == '\U{0B}' || c == '\U{0C}'
    || ('\U{1C}' <= c <= '\U{1F}') || c == '\U{85}' || c == '\U{A0}' || c == '\U{1680}'
    || ('\U{2000}' <= c <= '\U{200A}') || c == '\U{2028}' || c == '\U{2029}'
    || c == '\U{202F}' || c == '\U{205F}' || c == '\U{3000}'
  }

  function StripLeft(s: string): (r: string)
    ensures |r| <= |s| && r == s[|s| - |r|..]
    ensures r == [] || !IsSpace(r[0])
    ensures forall i :: 0 <= i < |s| - |r| ==> IsSpace(s[i])
  {
    if s != [] && IsSpace(s[0]) then
      var r := StripLeft(s[1..]);
      assert forall i :: 1 <= i < |s| - |r| ==> s[i] == s[1..][i - 1];
      r
    else s
  }

  function StripRight(s: string): (r: string)
    ensures |r| <= |s| && r == s[..|r|]
    ensures r == [] || !IsSpace(r[|r| - 1])
    ensures forall i :: |r| <= i < |s| ==> IsSpace(s[i])
  {
    if s != [] && IsSpace(s[|s| - 1]) then
      var r := StripRight(s[..|s| - 1]);
      assert forall i :: |r| <= i < |s| - 1 ==> s[i] == s[..|s| - 1][i];
      r
    else s
  }

  /** `s` with leading and trailing whitespace removed (`s.strip()`): a slice of `s`
      cut only at whitespace, with no whitespace left at either end. */
  function Strip(s: string): (r: string)
    ensures r == [] || (!IsSpace(r[0]) && !IsSpace(r[|r| - 1]))
    ensures exists lo, hi :: (0 <= lo <= hi <= |s| && r == s[lo..hi]
      && (forall i :: 0 <= i < lo ==> IsSpace(s[i]))
      && (forall i :: hi <= i < |s| ==> IsSpace(s[i])))
  {
    var t := StripRight(s);
    var r := StripLeft(t);
    assert r == s[|t| - |r|..|t|];
    r
  }

  /** Text that neither starts nor ends with whitespace is its own strip. */
  lemma StripUnpadded(s: string)
    requires s != [] && !IsSpace(s[0]) && !IsSpace(s[|s| - 1])
    ensures Strip(s) == s
  {
    var lo, hi :| 0 <= lo <= hi <= |s| && Strip(s) == s[lo..hi]
      && (forall i :: 0 <= i < lo ==> IsSpace(s[i]))
      && (forall i :: hi <= i < |s| ==> IsSpace(s[i]));
    assert lo == 0 && hi == |s|;
    assert s[0..|s|] == s;
  }

  /** Python's `s.count(c)` for a character. */
  function Count(s: string, c: char): nat
  {
    if s == [] then 0 else (if s[0] == c then 1 else 0) + Count(s[1..], c)
  }

  lemma {:induction false} CountConcat(a: string, b: string, c: char)
    ensures Count(a + b, c) == Count(a, c) + Count(b, c)
    decreases |a|
  {
    if a == [] {
      assert a + b == b;
    } else {
      assert (a + b)[0] == a[0];
      assert (a + b)[1..] == a[1..] + b;
      CountConcat(a[1..], b, c);
    }
  }

  lemma {:induction false} CountAbsent(s: string, c: char)
    requires c !in s
    ensures Count(s, c) == 0
    decreases |s|
  {
    if s != [] {
      CountAbsent(s[1..], c);
    }
  }

  /** `a` is `b` with some characters deleted. */
  predicate IsSubsequence(a: string, b: string)
    decreases |b|
  {
    a == [] || (b != [] && ((a[0] == b[0] && IsSubsequence(a[1..], b[1..])) || IsSubsequence(a, b[1..])))
  }

  lemma {:induction false} SubsequenceOfSuffix(a: string, b: string, k: nat)
    requires k <= |b| && IsSubsequence(a, b[k..])
    ensures IsSubsequence(a, b)
    decreases k
  {
    if k > 0 {
      assert b[k - 1..][1..] == b[k..];
      SubsequenceOfSuffix(a, b, k - 1);
    }
  }

  lemma {:induction false} SubsequenceTrans(a: string, b: string, c: string)
    requires IsSubsequence(a, b) && IsSubsequence(b, c)
    ensures IsSubsequence(a, c)
    decreases |c|
  {
    if a != [] {
      if IsSubsequence(b, c[1..]) {
        SubsequenceTrans(a, b, c[1..]);
      } else if a[0] == b[0] && IsSubsequence(a[1..], b[1..]) {
        SubsequenceTrans(a[1..], b[1..], c[1..]);
      } else {
        SubsequenceTrans(a, b[1..], c[1..]);
      }
    }
  }
}
