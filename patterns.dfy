/** The regular expressions of the template pass, all of the shape `open.*?close` with
    literal `open` and `close`, substituted left to right as Python's `re.sub` does. */
module Patterns {
  import opened Text

  /** A character of the text against a character of the opener: the opener is built by
      pasting a variable name into the expression unescaped, so a `.` in it matches any
      character (any but a newline without DOTALL); every other character is literal. */
  predicate CharMatches(c: char, p: char, dotAll: bool) {
    if p == '.' then dotAll || c != '\n' else c == p
  }

  /** The opener matches `s` at index `i`. */
  predicate OpenerAt(s: string, open: string, dotAll: bool, i: nat) {
    i + |open| <= |s| && forall k :: i <= k < i + |open| ==> CharMatches(s[k], open[k - i], dotAll)
  }

  /** A literal occurrence of the opener is a match of it. */
  lemma LiteralOpener(s: string, open: string, dotAll: bool, i: nat)
    requires OccursAt(s, open, i)
    ensures OpenerAt(s, open, dotAll, i)
  {
  }

  /** The lazy `.*?close` from index `j`: the end of the first `close` at or after `j`, unless
      a newline comes first and `.` cannot span it (without DOTALL). */
  function CloseEnd(s: string, close: string, dotAll: bool, j: nat): (r: Option<nat>)
    requires j <= |s|
    ensures r.Some? ==> j + |close| <= r.value <= |s|
    decreases |s| - j
  {
    if OccursAt(s, close, j) then Some(j + |close|)
    else if j == |s| || (!dotAll && s[j] == '\n') then None
    else CloseEnd(s, close, dotAll, j + 1)
  }

  /** The match of `open.*?close` at `i`, once `open[..k]` has matched: the rest of the
      opener character by character, then the lazy `.*?close`. */
  function OpenerScan(s: string, open: string, close: string, dotAll: bool, i: nat, k: nat): (r: Option<nat>)
    requires i + k <= |s| && k <= |open|
    ensures r.Some? ==> i + |open| + |close| <= r.value <= |s|
    decreases |open| - k
  {
    if k == |open| then CloseEnd(s, close, dotAll, i + k)
    else if i + k < |s| && CharMatches(s[i + k], open[k], dotAll) then OpenerScan(s, open, close, dotAll, i, k + 1)
    else None
  }

  /** Where a match of `open.*?close` that starts at `i` ends, if there is one. */
  function MatchEnd(s: string, open: string, close: string, dotAll: bool, i: nat): (r: Option<nat>)
    requires i <= |s|
    ensures r.Some? ==> i + |open| + |close| <= r.value <= |s|
  {
    OpenerScan(s, open, close, dotAll, i, 0)
  }

  /** The lazy scan ends at the first `close` found by `find`, unless a newline comes
      before that `close` and `.` cannot span it; any later `close` has the same newline
      before it. */
  lemma {:induction false} CloseEndFind(s: string, close: string, dotAll: bool, j: nat)
    requires j <= |s|
    ensures CloseEnd(s, close, dotAll, j) ==
      match IndexFrom(s, close, j)
      case None => None
      case Some(q) => if dotAll || '\n' !in s[j..q] then Some(q + |close|) else None
    decreases |s| - j
  {
    if !OccursAt(s, close, j) && j < |s| {
      IndexFromLeftmost(s, close, j);
      IndexFromLeftmost(s, close, j + 1);
      if j + |close| < |s| {
        assert IndexFrom(s, close, j) == IndexFrom(s, close, j + 1);
      } else {
        assert IndexFrom(s, close, j).None? && IndexFrom(s, close, j + 1).None?;
      }
      if dotAll || s[j] != '\n' {
        CloseEndFind(s, close, dotAll, j + 1);
        match IndexFrom(s, close, j)
        case None =>
        case Some(q) =>
          assert s[j..q] == [s[j]] + s[j + 1..q];
      } else {
        match IndexFrom(s, close, j)
        case None =>
        case Some(q) =>
          assert s[j..q][0] == '\n';
      }
    }
  }

  /** The character-by-character opener check is `OpenerAt`. */
  lemma {:induction false} OpenerScanChars(s: string, open: string, close: string, dotAll: bool, i: nat, k: nat)
    requires i + k <= |s| && k <= |open|
    ensures OpenerScan(s, open, close, dotAll, i, k) ==
      if i + |open| <= |s| && forall j :: i + k <= j < i + |open| ==> CharMatches(s[j], open[j - i], dotAll)
      then CloseEnd(s, close, dotAll, i + |open|) else None
    decreases |open| - k
  {
    if k < |open| && i + k < |s| && CharMatches(s[i + k], open[k], dotAll) {
      OpenerScanChars(s, open, close, dotAll, i, k + 1);
    }
  }

  /** `MatchEnd` is the opener at `i`, then the first `close` found by `find` after it,
      with nothing `.` cannot span in between. */
  lemma MatchEndFind(s: string, open: string, close: string, dotAll: bool, i: nat)
    requires i <= |s|
    ensures MatchEnd(s, open, close, dotAll, i) ==
      if !OpenerAt(s, open, dotAll, i) then None
      else
        match IndexFrom(s, close, i + |open|)
        case None => None
        case Some(q) => if dotAll || '\n' !in s[i + |open|..q] then Some(q + |close|) else None
  {
    OpenerScanChars(s, open, close, dotAll, i, 0);
    if OpenerAt(s, open, dotAll, i) {
      CloseEndFind(s, close, dotAll, i + |open|);
    }
  }

  /** The text between positions `lo` and `hi` can be spanned by `.`. */
  predicate Spannable(s: string, lo: nat, hi: nat, dotAll: bool)
    requires lo <= hi <= |s|
  {
    dotAll || '\n' !in s[lo..hi]
  }

  /** `MatchEnd` is the regular-expression match: `open` at `i`, then the shortest run of
      spannable text, then `close`; and there is no match exactly when no `close` follows
      the opener across spannable text. */
  lemma MatchEndIsShortestMatch(s: string, open: string, close: string, dotAll: bool, i: nat)
    requires i <= |s|
    ensures MatchEnd(s, open, close, dotAll, i).Some? ==>
      var q := MatchEnd(s, open, close, dotAll, i).value - |close|;
      && OpenerAt(s, open, dotAll, i) && OccursAt(s, close, q) && i + |open| <= q
      && Spannable(s, i + |open|, q, dotAll)
      && forall j :: i + |open| <= j < q ==> !OccursAt(s, close, j)
    ensures MatchEnd(s, open, close, dotAll, i).None? ==>
      forall q :: OpenerAt(s, open, dotAll, i) && i + |open| <= q <= |s| && OccursAt(s, close, q)
        ==> !Spannable(s, i + |open|, q, dotAll)
  {
    MatchEndFind(s, open, close, dotAll, i);
    if OpenerAt(s, open, dotAll, i) {
      var lo := i + |open|;
      IndexFromLeftmost(s, close, lo);
      match IndexFrom(s, close, lo)
      case None =>
      case Some(q0) =>
        forall q | lo <= q <= |s| && OccursAt(s, close, q) && MatchEnd(s, open, close, dotAll, i).None?
          ensures !Spannable(s, lo, q, dotAll)
        {
          assert !dotAll && '\n' in s[lo..q0];
          assert q0 <= q;
          assert s[lo..q0] == s[lo..q][..q0 - lo];
        }
    }
  }

  /** `re.sub(open + '.*?' + close, repl, s[i:])` (with `re.DOTALL` when `dotAll`), where
      `repl` holds no backslash: scan from the left, replace each match, resume after it. */
  function ReplaceMatchesFrom(s: string, open: string, close: string, repl: string, dotAll: bool, i: nat): string
    requires open != [] && i <= |s|
    decreases |s| - i
  {
    if i == |s| then []
    else
      match MatchEnd(s, open, close, dotAll, i)
      case Some(e) => repl + ReplaceMatchesFrom(s, open, close, repl, dotAll, e)
      case None => [s[i]] + ReplaceMatchesFrom(s, open, close, repl, dotAll, i + 1)
  }

  function ReplaceMatches(s: string, open: string, close: string, repl: string, dotAll: bool): string
    requires open != []
  {
    ReplaceMatchesFrom(s, open, close, repl, dotAll, 0)
  }

  /** Text in which `open` does not occur is left as it is. */
  lemma {:induction false} NoOpenerFrom(s: string, open: string, close: string, repl: string, dotAll: bool, i: nat)
    requires open != [] && i <= |s|
    requires forall j :: i <= j ==> !OpenerAt(s, open, dotAll, j)
    ensures ReplaceMatchesFrom(s, open, close, repl, dotAll, i) == s[i..]
    decreases |s| - i
  {
    if i < |s| {
      MatchEndFind(s, open, close, dotAll, i);
      NoOpenerFrom(s, open, close, repl, dotAll, i + 1);
      assert s[i..] == [s[i]] + s[i + 1..];
    }
  }

  /** An opener that starts with a literal character cannot match where that character is absent. */
  lemma NoOpenerPast(s: string, open: string, dotAll: bool, from: nat)
    requires open != [] && open[0] != '.'
    requires forall j :: from <= j < |s| ==> s[j] != open[0]
    ensures forall j :: from <= j ==> !OpenerAt(s, open, dotAll, j)
  {
    forall j | from <= j
      ensures !OpenerAt(s, open, dotAll, j)
    {
      if j < |s| {
        assert s[j] != open[0];
      }
    }
  }

  /** Text without the opener's first, literal, character is left as it is. */
  lemma NoOpener(s: string, open: string, close: string, repl: string, dotAll: bool)
    requires open != [] && open[0] != '.' && open[0] !in s
    ensures ReplaceMatches(s, open, close, repl, dotAll) == s
  {
    NoOpenerPast(s, open, dotAll, 0);
    NoOpenerFrom(s, open, close, repl, dotAll, 0);
  }

  /** A character other than the opener's first, literal, one is copied through. */
  lemma SkipOne(s: string, open: string, close: string, repl: string, dotAll: bool, i: nat)
    requires open != [] && open[0] != '.' && i < |s| && s[i] != open[0]
    ensures ReplaceMatchesFrom(s, open, close, repl, dotAll, i)
         == [s[i]] + ReplaceMatchesFrom(s, open, close, repl, dotAll, i + 1)
  {
    assert !CharMatches(s[i], open[0], dotAll);
    assert !OpenerAt(s, open, dotAll, i);
  }

  /** Text holding no first character of `open` is copied through unchanged. */
  lemma {:induction false} SkipTo(s: string, open: string, close: string, repl: string, dotAll: bool, i: nat, k: nat)
    requires open != [] && open[0] != '.' && i <= k <= |s|
    requires forall j :: i <= j < k ==> s[j] != open[0]
    ensures ReplaceMatchesFrom(s, open, close, repl, dotAll, i)
         == s[i..k] + ReplaceMatchesFrom(s, open, close, repl, dotAll, k)
    decreases k - i
  {
    if i < k {
      var rest := ReplaceMatchesFrom(s, open, close, repl, dotAll, k);
      SkipOne(s, open, close, repl, dotAll, i);
      SkipTo(s, open, close, repl, dotAll, i + 1, k);
      assert [s[i]] + (s[i + 1..k] + rest) == ([s[i]] + s[i + 1..k]) + rest;
      assert s[i..k] == [s[i]] + s[i + 1..k];
    }
  }

  /** The match at `i` when `close` occurs at `q` and its first character does not
      occur between the opener and `q`. */
  lemma MatchAt(s: string, open: string, close: string, dotAll: bool, i: nat, q: nat)
    requires close != [] && OpenerAt(s, open, dotAll, i) && i + |open| <= q && OccursAt(s, close, q)
    requires forall j :: i + |open| <= j < q ==> !OccursAt(s, close, j)
    requires Spannable(s, i + |open|, q, dotAll)
    ensures MatchEnd(s, open, close, dotAll, i) == Some(q + |close|)
  {
    MatchEndFind(s, open, close, dotAll, i);
    IndexFromIs(s, close, i + |open|, q);
  }

  /** Where no match starts, the character is copied and the scan moves on by one. */
  lemma SkipStep(s: string, open: string, close: string, repl: string, dotAll: bool, i: nat)
    requires open != [] && i < |s| && MatchEnd(s, open, close, dotAll, i).None?
    ensures ReplaceMatchesFrom(s, open, close, repl, dotAll, i)
         == [s[i]] + ReplaceMatchesFrom(s, open, close, repl, dotAll, i + 1)
  {
  }

  /** A match is replaced, and the scan resumes after it. */
  lemma MatchStep(s: string, open: string, close: string, repl: string, dotAll: bool, i: nat, e: nat)
    requires open != [] && i < |s| && MatchEnd(s, open, close, dotAll, i) == Some(e)
    ensures ReplaceMatchesFrom(s, open, close, repl, dotAll, i)
         == repl + ReplaceMatchesFrom(s, open, close, repl, dotAll, e)
  {
  }

  /** No match in `a + b` that starts in `a` runs on into `b`. */
  predicate NoMatchAcross(a: string, b: string, open: string, close: string, dotAll: bool) {
    forall i :: 0 <= i < |a| && MatchEnd(a + b, open, close, dotAll, i).Some? ==>
      MatchEnd(a + b, open, close, dotAll, i).value <= |a|
  }

  /** The opener matches `a + b` within `a` exactly where it matches `a`. */
  lemma OpenerLeft(a: string, b: string, open: string, dotAll: bool, i: nat)
    requires i + |open| <= |a|
    ensures OpenerAt(a + b, open, dotAll, i) <==> OpenerAt(a, open, dotAll, i)
  {
    var s := a + b;
    forall p | 0 <= p < |a|
      ensures s[p] == a[p]
    {
    }
  }

  /** The lazy scan for `close` in `a + b` from an index of `b` is the scan in `b`. */
  lemma {:induction false} CloseEndRight(a: string, b: string, close: string, dotAll: bool, k: nat)
    requires k <= |b|
    ensures CloseEnd(a + b, close, dotAll, |a| + k) == Offset(CloseEnd(b, close, dotAll, k), |a|)
    decreases |b| - k
  {
    OccursRight(a, b, close, k);
    if k < |b| {
      assert (a + b)[|a| + k] == b[k];
      CloseEndRight(a, b, close, dotAll, k + 1);
    }
  }

  /** The opener scan in `a + b` from an index of `b` is the scan in `b`. */
  lemma {:induction false} OpenerScanRight(a: string, b: string, open: string, close: string, dotAll: bool, i: nat, k: nat)
    requires i + k <= |b| && k <= |open|
    ensures OpenerScan(a + b, open, close, dotAll, |a| + i, k) == Offset(OpenerScan(b, open, close, dotAll, i, k), |a|)
    decreases |open| - k
  {
    if k == |open| {
      CloseEndRight(a, b, close, dotAll, i + k);
    } else if i + k < |b| {
      assert (a + b)[|a| + i + k] == b[i + k];
      OpenerScanRight(a, b, open, close, dotAll, i, k + 1);
    }
  }

  /** Matching in `a + b` at an index of `b` is matching in `b`. */
  lemma MatchEndRight(a: string, b: string, open: string, close: string, dotAll: bool, k: nat)
    requires k <= |b|
    ensures MatchEnd(a + b, open, close, dotAll, |a| + k) == Offset(MatchEnd(b, open, close, dotAll, k), |a|)
  {
    OpenerScanRight(a, b, open, close, dotAll, k, 0);
  }

  /** Matching in `a + b` within `a`, when the match (if any) ends within `a`, is matching in `a`. */
  lemma MatchEndLeft(a: string, b: string, open: string, close: string, dotAll: bool, i: nat)
    requires i < |a|
    requires MatchEnd(a + b, open, close, dotAll, i).Some? ==> MatchEnd(a + b, open, close, dotAll, i).value <= |a|
    ensures MatchEnd(a + b, open, close, dotAll, i) == MatchEnd(a, open, close, dotAll, i)
  {
    MatchEndFind(a + b, open, close, dotAll, i);
    MatchEndFind(a, open, close, dotAll, i);
    if i + |open| <= |a| {
      OpenerLeft(a, b, open, dotAll, i);
      if OpenerAt(a, open, dotAll, i) {
        CloseLeft(a, b, close, i + |open|);
        match IndexFrom(a + b, close, i + |open|)
        case None =>
        case Some(q) =>
          if q + |close| <= |a| {
            SliceLeft(a, b, i + |open|, q);
          }
      }
    }
  }

  /** The first `close` in `a + b` from `lo` within `a`: if it ends within `a` it is the first
      in `a`; otherwise `a` holds none from `lo` on. */
  lemma CloseLeft(a: string, b: string, close: string, lo: nat)
    requires lo <= |a|
    ensures match IndexFrom(a + b, close, lo)
      case None => IndexFrom(a, close, lo).None?
      case Some(q) => if q + |close| <= |a| then IndexFrom(a, close, lo) == Some(q) else IndexFrom(a, close, lo).None?
  {
    var s := a + b;
    IndexFromLeftmost(s, close, lo);
    IndexFromLeftmost(a, close, lo);
    if IndexFrom(a, close, lo).Some? {
      OccursLeft(a, b, close, IndexFrom(a, close, lo).value);
    }
    if IndexFrom(s, close, lo).Some? && IndexFrom(s, close, lo).value + |close| <= |a| {
      OccursLeft(a, b, close, IndexFrom(s, close, lo).value);
    }
  }

  /** A match in `b` at `k` is a match in `a + b` at `i`, `|a|` further on. */
  lemma MatchRight(a: string, b: string, open: string, close: string, dotAll: bool, i: nat, k: nat, e: nat)
    requires i == |a| + k && k < |b| && MatchEnd(b, open, close, dotAll, k) == Some(e)
    ensures MatchEnd(a + b, open, close, dotAll, i) == Some(|a| + e)
  {
    MatchEndRight(a, b, open, close, dotAll, k);
  }

  /** A character of `b` where no match starts is copied in both scans. */
  lemma ReplaceMatchesRightMiss(a: string, b: string, open: string, close: string, repl: string, dotAll: bool, i: nat, k: nat)
    requires open != [] && i == |a| + k && k < |b| && MatchEnd(b, open, close, dotAll, k).None?
    ensures ReplaceMatchesFrom(a + b, open, close, repl, dotAll, i)
         == [b[k]] + ReplaceMatchesFrom(a + b, open, close, repl, dotAll, i + 1)
  {
    MatchEndRight(a, b, open, close, dotAll, k);
    assert (a + b)[i] == b[k];
  }

  /** One step of the scans over `a + b` at `|a| + k` and over `b` at `k` emits the same text. */
  lemma ReplaceMatchesRightStep(a: string, b: string, open: string, close: string, repl: string, dotAll: bool, i: nat, k: nat)
    requires open != [] && i == |a| + k && k < |b|
    ensures var m := MatchEnd(b, open, close, dotAll, k);
            var next := if m.Some? then m.value else k + 1;
            var head := if m.Some? then repl else [b[k]];
            next <= |b| &&
            ReplaceMatchesFrom(a + b, open, close, repl, dotAll, i) == head + ReplaceMatchesFrom(a + b, open, close, repl, dotAll, |a| + next) &&
            ReplaceMatchesFrom(b, open, close, repl, dotAll, k) == head + ReplaceMatchesFrom(b, open, close, repl, dotAll, next)
  {
    match MatchEnd(b, open, close, dotAll, k)
    case Some(e) =>
      MatchRight(a, b, open, close, dotAll, i, k, e);
      MatchStep(a + b, open, close, repl, dotAll, i, |a| + e);
      MatchStep(b, open, close, repl, dotAll, k, e);
    case None =>
      ReplaceMatchesRightMiss(a, b, open, close, repl, dotAll, i, k);
      SkipStep(b, open, close, repl, dotAll, k);
  }

  /** Substituting in `a + b` from index `i`, `k` into `b`, is substituting in `b` from `k`. */
  lemma {:induction false} ReplaceMatchesFromRight(a: string, b: string, open: string, close: string, repl: string, dotAll: bool, i: nat, k: nat)
    requires open != [] && i == |a| + k && k <= |b|
    ensures ReplaceMatchesFrom(a + b, open, close, repl, dotAll, i) == ReplaceMatchesFrom(b, open, close, repl, dotAll, k)
    decreases |b| - k
  {
    if k < |b| {
      ReplaceMatchesRightStep(a, b, open, close, repl, dotAll, i, k);
      var m := MatchEnd(b, open, close, dotAll, k);
      var next := if m.Some? then m.value else k + 1;
      ReplaceMatchesFromRight(a, b, open, close, repl, dotAll, |a| + next, next);
    }
  }

  /** Within `a`, the scan over `a + b` finds the matches the scan over `a` finds. */
  lemma ReplaceMatchesConcatStep(a: string, b: string, open: string, close: string, dotAll: bool, i: nat)
    requires i < |a| && NoMatchAcross(a, b, open, close, dotAll)
    ensures (a + b)[i] == a[i]
    ensures MatchEnd(a + b, open, close, dotAll, i) == MatchEnd(a, open, close, dotAll, i)
  {
    MatchEndFind(a + b, open, close, dotAll, i);
    MatchEndFind(a, open, close, dotAll, i);
    MatchEndLeft(a, b, open, close, dotAll, i);
  }

  lemma {:induction false} ReplaceMatchesConcatFrom(a: string, b: string, open: string, close: string, repl: string, dotAll: bool, i: nat)
    requires open != [] && i <= |a| && NoMatchAcross(a, b, open, close, dotAll)
    ensures ReplaceMatchesFrom(a + b, open, close, repl, dotAll, i)
         == ReplaceMatchesFrom(a, open, close, repl, dotAll, i) + ReplaceMatches(b, open, close, repl, dotAll)
    decreases |a| - i
  {
    if i == |a| {
      ReplaceMatchesFromRight(a, b, open, close, repl, dotAll, |a|, 0);
    } else {
      ReplaceMatchesConcatStep(a, b, open, close, dotAll, i);
      var m := MatchEnd(a, open, close, dotAll, i);
      var next := if m.Some? then m.value else i + 1;
      var head := if m.Some? then repl else [a[i]];
      ReplaceMatchesConcatFrom(a, b, open, close, repl, dotAll, next);
      AppendAssoc(head, ReplaceMatchesFrom(a, open, close, repl, dotAll, next), ReplaceMatches(b, open, close, repl, dotAll));
    }
  }

  /** `re.sub` works on the two parts of a text separately when no match starting in the
      first part runs on into the second. */
  lemma ReplaceMatchesConcat(a: string, b: string, open: string, close: string, repl: string, dotAll: bool)
    requires open != [] && NoMatchAcross(a, b, open, close, dotAll)
    ensures ReplaceMatches(a + b, open, close, repl, dotAll)
         == ReplaceMatches(a, open, close, repl, dotAll) + ReplaceMatches(b, open, close, repl, dotAll)
  {
    ReplaceMatchesConcatFrom(a, b, open, close, repl, dotAll, 0);
  }

  /** The opener tried at `j` fails on a character of `a`, whatever follows `a`. */
  predicate OpenerMissesAt(a: string, open: string, dotAll: bool, j: nat) {
    exists k :: 0 <= k < |open| && j + k < |a| && !CharMatches(a[j + k], open[k], dotAll)
  }

  /** Every match starting in `a` ends within `a`, whatever follows `a`: at each index the
      opener fails within `a`, or a whole match is found within `a`. */
  predicate MatchSealed(a: string, open: string, close: string, dotAll: bool) {
    forall j :: 0 <= j < |a| ==> OpenerMissesAt(a, open, dotAll, j) || MatchEnd(a, open, close, dotAll, j).Some?
  }

  /** No match starts in `a`, whatever follows `a`. */
  predicate MatchUntouched(a: string, open: string, dotAll: bool) {
    forall j :: 0 <= j < |a| ==> OpenerMissesAt(a, open, dotAll, j)
  }

  lemma OpenerMissesLeft(a: string, b: string, open: string, close: string, dotAll: bool, j: nat)
    requires OpenerMissesAt(a, open, dotAll, j)
    ensures OpenerMissesAt(a + b, open, dotAll, j) && j <= |a|
    ensures MatchEnd(a + b, open, close, dotAll, j).None?
  {
    var k :| 0 <= k < |open| && j + k < |a| && !CharMatches(a[j + k], open[k], dotAll);
    assert (a + b)[j + k] == a[j + k];
    MatchEndFind(a + b, open, close, dotAll, j);
  }

  lemma OpenerMissesRight(a: string, b: string, open: string, dotAll: bool, j: nat)
    requires OpenerMissesAt(b, open, dotAll, j)
    ensures OpenerMissesAt(a + b, open, dotAll, |a| + j)
  {
    var k :| 0 <= k < |open| && j + k < |b| && !CharMatches(b[j + k], open[k], dotAll);
    assert (a + b)[|a| + j + k] == b[j + k];
  }

  /** A match found within `a` is the match in `a + b`. */
  lemma MatchEndExtend(a: string, b: string, open: string, close: string, dotAll: bool, j: nat)
    requires j <= |a| && MatchEnd(a, open, close, dotAll, j).Some?
    ensures MatchEnd(a + b, open, close, dotAll, j) == MatchEnd(a, open, close, dotAll, j)
  {
    var lo := j + |open|;
    MatchEndFind(a, open, close, dotAll, j);
    MatchEndFind(a + b, open, close, dotAll, j);
    OpenerLeft(a, b, open, dotAll, j);
    CloseLeft(a, b, close, lo);
    var q := IndexFrom(a, close, lo).value;
    SliceLeft(a, b, lo, q);
  }

  /** A sealed text leaves no match running on past its end. */
  lemma MatchSealedAcross(a: string, b: string, open: string, close: string, dotAll: bool)
    requires MatchSealed(a, open, close, dotAll)
    ensures NoMatchAcross(a, b, open, close, dotAll)
  {
    forall i | 0 <= i < |a| && MatchEnd(a + b, open, close, dotAll, i).Some?
      ensures MatchEnd(a + b, open, close, dotAll, i).value <= |a|
    {
      if OpenerMissesAt(a, open, dotAll, i) {
        OpenerMissesLeft(a, b, open, close, dotAll, i);
      } else {
        MatchEndExtend(a, b, open, close, dotAll, i);
      }
    }
  }

  lemma MatchSealedAppend(a: string, b: string, open: string, close: string, dotAll: bool)
    requires MatchSealed(a, open, close, dotAll) && MatchSealed(b, open, close, dotAll)
    ensures MatchSealed(a + b, open, close, dotAll)
  {
    forall j | 0 <= j < |a + b|
      ensures OpenerMissesAt(a + b, open, dotAll, j) || MatchEnd(a + b, open, close, dotAll, j).Some?
    {
      if j < |a| {
        if OpenerMissesAt(a, open, dotAll, j) {
          OpenerMissesLeft(a, b, open, close, dotAll, j);
        } else {
          MatchEndExtend(a, b, open, close, dotAll, j);
        }
      } else if OpenerMissesAt(b, open, dotAll, j - |a|) {
        OpenerMissesRight(a, b, open, dotAll, j - |a|);
      } else {
        MatchEndRight(a, b, open, close, dotAll, j - |a|);
      }
    }
  }

  lemma MatchUntouchedAppend(a: string, b: string, open: string, dotAll: bool)
    requires MatchUntouched(a, open, dotAll) && MatchUntouched(b, open, dotAll)
    ensures MatchUntouched(a + b, open, dotAll)
  {
    forall j | 0 <= j < |a + b|
      ensures OpenerMissesAt(a + b, open, dotAll, j)
    {
      if j < |a| {
        OpenerMissesLeft(a, b, open, [], dotAll, j);
      } else {
        OpenerMissesRight(a, b, open, dotAll, j - |a|);
      }
    }
  }

  /** Text in which no match starts is sealed, and `re.sub` leaves it alone. */
  lemma MatchUntouchedKept(a: string, open: string, close: string, repl: string, dotAll: bool)
    requires open != [] && MatchUntouched(a, open, dotAll)
    ensures MatchSealed(a, open, close, dotAll) && ReplaceMatches(a, open, close, repl, dotAll) == a
  {
    forall j | 0 <= j
      ensures !OpenerAt(a, open, dotAll, j)
    {
      if j < |a| {
        assert OpenerMissesAt(a, open, dotAll, j);
        var k :| 0 <= k < |open| && j + k < |a| && !CharMatches(a[j + k], open[k], dotAll);
        assert !CharMatches(a[j + k], open[(j + k) - j], dotAll);
      }
    }
    NoOpenerFrom(a, open, close, repl, dotAll, 0);
    assert a[0..] == a;
  }

  /** `re.sub` works on three sealed parts separately. */
  lemma ReplaceMatchesSealed3(a: string, b: string, c: string, open: string, close: string, repl: string, dotAll: bool)
    requires open != [] && MatchSealed(a, open, close, dotAll) && MatchSealed(b, open, close, dotAll)
    ensures ReplaceMatches(a + b + c, open, close, repl, dotAll)
         == ReplaceMatches(a, open, close, repl, dotAll) + ReplaceMatches(b, open, close, repl, dotAll)
          + ReplaceMatches(c, open, close, repl, dotAll)
  {
    MatchSealedAcross(b, c, open, close, dotAll);
    ReplaceMatchesConcat(b, c, open, close, repl, dotAll);
    MatchSealedAcross(a, b + c, open, close, dotAll);
    ReplaceMatchesConcat(a, b + c, open, close, repl, dotAll);
    assert a + b + c == a + (b + c);
  }

  /** One block, opened at `p` and closed at `q`, in text that holds no other opener. */
  lemma ReplaceBlockAt(s: string, open: string, close: string, repl: string, dotAll: bool, p: nat, q: nat)
    requires open != [] && open[0] != '.' && close != []
    requires OpenerAt(s, open, dotAll, p) && p + |open| <= q && OccursAt(s, close, q)
    requires forall j :: 0 <= j < p ==> s[j] != open[0]
    requires forall j :: p + |open| <= j < q ==> !OccursAt(s, close, j)
    requires forall j :: q + |close| <= j < |s| ==> s[j] != open[0]
    requires Spannable(s, p + |open|, q, dotAll)
    ensures ReplaceMatches(s, open, close, repl, dotAll) == s[..p] + repl + s[q + |close|..]
  {
    var e := q + |close|;
    SkipTo(s, open, close, repl, dotAll, 0, p);
    MatchAt(s, open, close, dotAll, p, q);
    MatchStep(s, open, close, repl, dotAll, p, e);
    NoOpenerPast(s, open, dotAll, e);
    NoOpenerFrom(s, open, close, repl, dotAll, e);
    assert s[..p] == s[0..p];
  }

  /** When `close` does not occur in `mid` followed by all but the last character of
      `close`, the first `close` after `head + mid` is the one right after `mid`. */
  lemma CloseFirstAfter(head: string, mid: string, close: string, post: string)
    requires close != [] && !Contains(mid + close[..|close| - 1], close)
    ensures forall j :: |head| <= j < |head| + |mid| ==> !OccursAt(head + mid + close + post, close, j)
  {
    var t := mid + close[..|close| - 1];
    var tail := [close[|close| - 1]] + post;
    assert close == close[..|close| - 1] + [close[|close| - 1]];
    assert head + mid + close + post == head + t + tail;
    IndexFromLeftmost(t, close, 0);
    forall j | |head| <= j < |head| + |mid|
      ensures !OccursAt(head + mid + close + post, close, j)
    {
      if j + |close| <= |head| + |t| {
        OccursShift(head, t, tail, close, j - |head|);
      }
    }
  }

  /** Text free of the first character of `close` holds no `close` that ends inside it. */
  lemma CloseAbsentFromMid(mid: string, close: string)
    requires close != [] && close[0] !in mid
    ensures !Contains(mid + close[..|close| - 1], close)
  {
    var t := mid + close[..|close| - 1];
    forall j | 0 <= j
      ensures !OccursAt(t, close, j)
    {
      if j < |mid| {
        assert t[j] == mid[j];
      } else if j + |close| <= |t| {
        assert false;
      }
    }
    IndexFromNone(t, close, 0);
  }

  /** One block `open mid close` between text free of the first character of `open` is
      replaced by `repl`, when the block ends at the first `close` after the opener (and
      `mid` spans no newline unless `dotAll`). */
  lemma ReplaceBlock(pre: string, open: string, mid: string, close: string, post: string, repl: string, dotAll: bool)
    requires open != [] && open[0] != '.' && close != []
    requires open[0] !in pre && open[0] !in post && !Contains(mid + close[..|close| - 1], close)
    requires dotAll || '\n' !in mid
    ensures ReplaceMatches(pre + open + mid + close + post, open, close, repl, dotAll) == pre + repl + post
  {
    var s := pre + open + mid + close + post;
    var lo := |pre| + |open|;
    var q := lo + |mid|;
    var e := q + |close|;
    assert s[..|pre|] == pre && s[|pre|..lo] == open && s[lo..q] == mid && s[q..e] == close && s[e..] == post;
    assert OccursAt(s, open, |pre|) && OccursAt(s, close, q);
    LiteralOpener(s, open, dotAll, |pre|);
    forall j | 0 <= j < |pre|
      ensures s[j] != open[0]
    {
      assert s[j] == s[..|pre|][j];
    }
    CloseFirstAfter(pre + open, mid, close, post);
    forall j | e <= j < |s|
      ensures s[j] != open[0]
    {
      assert s[j] == s[e..][j - e];
    }
    ReplaceBlockAt(s, open, close, repl, dotAll, |pre|, q);
  }

  /** A whole text that is one block, opened by a head the opener matches (literally or
      through its wildcards), is one match from its first character to its last. */
  lemma WholeBlockMatch(head: string, mid: string, open: string, close: string, dotAll: bool)
    requires close != [] && OpenerAt(head, open, dotAll, 0) && |head| == |open|
    requires !Contains(mid + close[..|close| - 1], close) && (dotAll || '\n' !in mid)
    ensures MatchEnd(head + mid + close, open, close, dotAll, 0) == Some(|head + mid + close|)
  {
    var s := head + mid + close;
    var q := |head| + |mid|;
    forall k | 0 <= k < |open|
      ensures CharMatches(s[k], open[k], dotAll)
    {
      assert s[k] == head[k];
    }
    assert OpenerAt(s, open, dotAll, 0);
    assert s[q..] == close;
    assert OccursAt(s, close, q);
    CloseFirstAfter(head, mid, close, []);
    assert s + [] == s;
    assert s[|open|..q] == mid;
    MatchAt(s, open, close, dotAll, 0, q);
  }

  /** Such a block, as the whole text, becomes the replacement. */
  lemma WholeBlockReplaced(head: string, mid: string, open: string, close: string, repl: string, dotAll: bool)
    requires open != [] && close != []
    requires OpenerAt(head, open, dotAll, 0) && |head| == |open|
    requires !Contains(mid + close[..|close| - 1], close) && (dotAll || '\n' !in mid)
    ensures ReplaceMatches(head + mid + close, open, close, repl, dotAll) == repl
  {
    var s := head + mid + close;
    WholeBlockMatch(head, mid, open, close, dotAll);
    MatchStep(s, open, close, repl, dotAll, 0, |s|);
    assert repl + [] == repl;
  }

  /** Deleting the matches only deletes characters. */
  lemma {:induction false} DeletionIsSubsequenceFrom(s: string, open: string, close: string, dotAll: bool, i: nat)
    requires open != [] && i <= |s|
    ensures IsSubsequence(ReplaceMatchesFrom(s, open, close, "", dotAll, i), s[i..])
    decreases |s| - i
  {
    if i < |s| {
      match MatchEnd(s, open, close, dotAll, i)
      case Some(e) =>
        var r := ReplaceMatchesFrom(s, open, close, "", dotAll, e);
        DeletionIsSubsequenceFrom(s, open, close, dotAll, e);
        assert ReplaceMatchesFrom(s, open, close, "", dotAll, i) == r;
        assert s[i..][e - i..] == s[e..];
        SubsequenceOfSuffix(r, s[i..], e - i);
      case None =>
        var r := ReplaceMatchesFrom(s, open, close, "", dotAll, i + 1);
        DeletionIsSubsequenceFrom(s, open, close, dotAll, i + 1);
        assert ([s[i]] + r)[1..] == r;
        assert s[i..][1..] == s[i + 1..];
    }
  }

  lemma DeletionIsSubsequence(s: string, open: string, close: string, dotAll: bool)
    requires open != []
    ensures IsSubsequence(ReplaceMatches(s, open, close, "", dotAll), s)
  {
    DeletionIsSubsequenceFrom(s, open, close, dotAll, 0);
  }

  /** A single-line match holds no newline. */
  lemma MatchHasNoNewline(s: string, open: string, close: string, i: nat, e: nat)
    requires i <= |s| && '\n' !in open && '\n' !in close
    requires MatchEnd(s, open, close, false, i) == Some(e)
    ensures '\n' !in s[i..e]
  {
    var lo := i + |open|;
    var q := e - |close|;
    MatchEndFind(s, open, close, false, i);
    assert OpenerAt(s, open, false, i) && OccursAt(s, close, q);
    assert '\n' !in s[lo..q];
    forall k | i <= k < e
      ensures s[k] != '\n'
    {
      if k < lo {
        assert CharMatches(s[k], open[k - i], false);
        assert open[k - i] != '\n';
      } else if k < q {
        assert s[k] == s[lo..q][k - lo];
      } else {
        assert s[k] == close[k - q];
      }
    }
  }

  /** Deleting single-line matches of patterns without newlines keeps every newline. */
  lemma {:induction false} SingleLineDeletionKeepsNewlinesFrom(s: string, open: string, close: string, i: nat)
    requires open != [] && i <= |s| && '\n' !in open && '\n' !in close
    ensures Count(ReplaceMatchesFrom(s, open, close, "", false, i), '\n') == Count(s[i..], '\n')
    decreases |s| - i
  {
    if i < |s| {
      match MatchEnd(s, open, close, false, i)
      case Some(e) =>
        SingleLineDeletionKeepsNewlinesFrom(s, open, close, e);
        assert ReplaceMatchesFrom(s, open, close, "", false, i) == ReplaceMatchesFrom(s, open, close, "", false, e);
        MatchHasNoNewline(s, open, close, i, e);
        CountAbsent(s[i..e], '\n');
        assert s[i..] == s[i..e] + s[e..];
        CountConcat(s[i..e], s[e..], '\n');
      case None =>
        SingleLineDeletionKeepsNewlinesFrom(s, open, close, i + 1);
        var r := ReplaceMatchesFrom(s, open, close, "", false, i + 1);
        assert ([s[i]] + r)[1..] == r;
        assert s[i..][1..] == s[i + 1..];
    }
  }

  lemma SingleLineDeletionKeepsNewlines(s: string, open: string, close: string)
    requires open != [] && '\n' !in open && '\n' !in close
    ensures Count(ReplaceMatches(s, open, close, "", false), '\n') == Count(s, '\n')
  {
    SingleLineDeletionKeepsNewlinesFrom(s, open, close, 0);
  }
}
