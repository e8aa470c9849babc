/**
 * The two checks of test_sql_fix.py: the classification of a database error text into
 * the message shown to the user (`validate_error_handling`), and the check that every
 * `STRING_AGG(DISTINCT x, … ORDER BY y)` orders by its own argument, which runs
 * `re.findall` with a case-insensitive pattern; that search is modelled exactly,
 * backtracking included, and related to a declarative reading of the pattern.
 */
module SqlCheck {
  import opened Wrappers
  import opened Text
  import Chat


  // ------------------------------------------------------- error classification

  /** The four kinds of database error the messages distinguish. */
  datatype ErrorKind = DistinctOrderBy | Syntax | MissingColumn | OtherQueryError

  const INVALID_COLUMN_REFERENCE := "invalidcolumnreference"
  const ORDER_BY_MUST_APPEAR := "order by expressions must appear"
  const SYNTAX_ERROR := "syntax error"
  const COLUMN := "column"
  const DOES_NOT_EXIST := "does not exist"

  const DISTINCT_ORDER_HEAD := "Error de sintaxis SQL: "
  const DISTINCT_ORDER_TAIL := "Las expresiones ORDER BY en agregaciones "
    + "con DISTINCT deben aparecer en la lista de argumentos"
  const DISTINCT_ORDER_MESSAGE := DISTINCT_ORDER_HEAD + DISTINCT_ORDER_TAIL
  const SYNTAX_PREFIX := "Error de sintaxis en la consulta SQL: "
  const COLUMN_PREFIX := "Error: Columna inexistente en la consulta: "

  /** The kind of an error text: its lower-cased form is tested against the markers in a
      fixed order, so an earlier kind wins when several match. */
  function KindOf(err: string): ErrorKind {
    var e := Lower(err);
    if Contains(e, INVALID_COLUMN_REFERENCE) || Contains(e, ORDER_BY_MUST_APPEAR) then DistinctOrderBy
    else if Contains(e, SYNTAX_ERROR) then Syntax
    else if Contains(e, COLUMN) && Contains(e, DOES_NOT_EXIST) then MissingColumn
    else OtherQueryError
  }

  /** The kind does not depend on letter case: an error and its lower-cased form are
      classified alike. */
  lemma KindIgnoresCase(err: string)
    ensures KindOf(Lower(err)) == KindOf(err)
  {
    assert Lower(Lower(err)) == Lower(err);
  }

  /** The message shown for an error text: fixed for the DISTINCT/ORDER BY kind, the original
      (not lower-cased) text behind a prefix for the others. */
  function Classify(err: string): string {
    match KindOf(err)
    case DistinctOrderBy => DISTINCT_ORDER_MESSAGE
    case Syntax => SYNTAX_PREFIX + err
    case MissingColumn => COLUMN_PREFIX + err
    case OtherQueryError => Chat.QUERY_ERROR_PREFIX + err
  }

  /** The kind a message was produced for, read back from its prefix. */
  function KindOfMessage(m: string): ErrorKind {
    if StartsWith(m, DISTINCT_ORDER_MESSAGE) then DistinctOrderBy
    else if StartsWith(m, SYNTAX_PREFIX) then Syntax
    else if StartsWith(m, COLUMN_PREFIX) then MissingColumn
    else OtherQueryError
  }

  /** The prefix of a message of kind `k`, and what follows it. */
  function PrefixOf(k: ErrorKind): string {
    match k
    case DistinctOrderBy => DISTINCT_ORDER_MESSAGE
    case Syntax => SYNTAX_PREFIX
    case MissingColumn => COLUMN_PREFIX
    case OtherQueryError => Chat.QUERY_ERROR_PREFIX
  }

  lemma ReadBackSyntax(err: string)
    ensures KindOfMessage(SYNTAX_PREFIX + err) == Syntax
  {
    var m := SYNTAX_PREFIX + err;
    assert m[..|SYNTAX_PREFIX|] == SYNTAX_PREFIX;
    assert m[18] != DISTINCT_ORDER_MESSAGE[18];
  }

  lemma ReadBackColumn(err: string)
    ensures KindOfMessage(COLUMN_PREFIX + err) == MissingColumn
  {
    var m := COLUMN_PREFIX + err;
    assert m[..|COLUMN_PREFIX|] == COLUMN_PREFIX;
    assert m[5] != DISTINCT_ORDER_MESSAGE[5];
    assert m[5] != SYNTAX_PREFIX[5];
  }

  lemma ReadBackOther(err: string)
    ensures KindOfMessage(Chat.QUERY_ERROR_PREFIX + err) == OtherQueryError
  {
    var m := Chat.QUERY_ERROR_PREFIX + err;
    assert m[6] != DISTINCT_ORDER_MESSAGE[6];
    assert m[6] != SYNTAX_PREFIX[6];
    assert m[5] != COLUMN_PREFIX[5];
  }

  /** The classification loses nothing: the kind can be read back from every message, and
      every kind but the first keeps the original error text whole after its prefix. */
  lemma ClassifyRoundTrip(err: string)
    ensures KindOfMessage(Classify(err)) == KindOf(err)
    ensures StartsWith(Classify(err), PrefixOf(KindOf(err)))
    ensures KindOf(err) != DistinctOrderBy ==> Classify(err)[|PrefixOf(KindOf(err))|..] == err
  {
    var m := Classify(err);
    match KindOf(err)
    case DistinctOrderBy =>
    case Syntax =>
      ReadBackSyntax(err);
      assert m[..|SYNTAX_PREFIX|] == SYNTAX_PREFIX;
    case MissingColumn =>
      ReadBackColumn(err);
      assert m[..|COLUMN_PREFIX|] == COLUMN_PREFIX;
    case OtherQueryError =>
      ReadBackOther(err);
      assert m[..|Chat.QUERY_ERROR_PREFIX|] == Chat.QUERY_ERROR_PREFIX;
  }

  /** The DISTINCT/ORDER BY markers win over every other marker, in any letter case. */
  lemma DistinctMarkerWins(err: string)
    requires Contains(Lower(err), INVALID_COLUMN_REFERENCE) || Contains(Lower(err), ORDER_BY_MUST_APPEAR)
    ensures Classify(err) == DISTINCT_ORDER_MESSAGE
  {
  }

  // ---------------------------------------------------------- pattern pieces

  /** The literal parts of `STRING_AGG\(DISTINCT\s+([^,]+),\s*[^)]+ORDER BY\s+([^)]+)\)`. */
  const AGGREGATE := "STRING_AGG(DISTINCT"
  const ORDER_BY := "ORDER BY"

  /** Equal up to letter case, as the case-insensitive pattern compares characters. */
  predicate SameIgnoringCase(a: char, b: char) {
    LowerChar(a) == LowerChar(b)
  }

  /** `t` occurs in `s` at `i` up to letter case. */
  predicate OccursIgnoringCase(s: string, t: string, i: int) {
    0 <= i && i + |t| <= |s| && forall k :: 0 <= k < |t| ==> SameIgnoringCase(s[i + k], t[k])
  }

  /** Every character of `s[lo..hi]` is whitespace. */
  predicate Blank(s: string, lo: int, hi: int)
    requires 0 <= lo <= hi <= |s|
  {
    forall k :: lo <= k < hi ==> IsSpace(s[k])
  }

  /** No character of `s[lo..hi]` is `ch`. */
  predicate Free(s: string, lo: int, hi: int, ch: char)
    requires 0 <= lo <= hi <= |s|
  {
    forall k :: lo <= k < hi ==> s[k] != ch
  }

  /** No character of `t` is `ch`. */
  predicate Lacks(t: string, ch: char) {
    forall k :: 0 <= k < |t| ==> t[k] != ch
  }

  /** The length of the run of whitespace starting at `j`: what a greedy `\s*` takes. */
  function SpaceRun(s: string, j: nat): (n: nat)
    requires j <= |s|
    ensures j + n <= |s|
    decreases |s| - j
  {
    if j < |s| && IsSpace(s[j]) then 1 + SpaceRun(s, j + 1) else 0
  }

  /** `SpaceRun` takes only whitespace, and all of it. */
  lemma {:induction false} SpaceRunSpec(s: string, j: nat)
    requires j <= |s|
    ensures Blank(s, j, j + SpaceRun(s, j))
    ensures j + SpaceRun(s, j) < |s| ==> !IsSpace(s[j + SpaceRun(s, j)])
    decreases |s| - j
  {
    if j < |s| && IsSpace(s[j]) {
      SpaceRunSpec(s, j + 1);
    }
  }

  /** A whitespace run starting at `j` is covered by `SpaceRun(s, j)`. */
  lemma {:induction false} SpaceRunCovers(s: string, j: nat, k: nat)
    requires j + k <= |s| && Blank(s, j, j + k)
    ensures SpaceRun(s, j) >= k
    decreases k
  {
    if k > 0 {
      SpaceRunCovers(s, j + 1, k - 1);
    }
  }

  /** The first position at or after `j` holding `ch`. */
  function NextChar(s: string, ch: char, j: nat): (r: Option<nat>)
    requires j <= |s|
    ensures r.Some? ==> j <= r.value < |s| && s[r.value] == ch
    decreases |s| - j
  {
    if j == |s| then None
    else if s[j] == ch then Some(j)
    else NextChar(s, ch, j + 1)
  }

  /** `NextChar` skips only other characters, and finds nothing only when there is none. */
  lemma {:induction false} NextCharSpec(s: string, ch: char, j: nat)
    requires j <= |s|
    ensures NextChar(s, ch, j).Some? ==> Free(s, j, NextChar(s, ch, j).value, ch)
    ensures NextChar(s, ch, j).None? ==> Free(s, j, |s|, ch)
    decreases |s| - j
  {
    if j < |s| && s[j] != ch {
      NextCharSpec(s, ch, j + 1);
    }
  }

  /** `NextChar` stops at the first `ch`, wherever it is. */
  lemma NextCharFinds(s: string, ch: char, j: nat, c: nat)
    requires j <= c < |s| && s[c] == ch && Free(s, j, c, ch)
    ensures NextChar(s, ch, j) == Some(c)
  {
    NextCharSpec(s, ch, j);
  }

  // ------------------------------------------------------ the pattern, declaratively

  /** The pattern matches `s` at `i` with this choice of token boundaries: the aggregate
      literal, `k1` blanks, the first group up to the comma at `c`, `v` blanks, a non-empty
      run free of ')' up to `o`, the ORDER BY literal, `k2` blanks, and the second group up
      to the ')' at `p`. */
  predicate PatternAt(s: string, i: int, k1: int, c: int, v: int, o: int, k2: int, p: int) {
    HeadAt(s, i, k1, c) && TailAt(s, c, v, o, k2, p)
  }

  /** `STRING_AGG\(DISTINCT\s+([^,]+),` at `i`, the comma at `c`. */
  predicate HeadAt(s: string, i: int, k1: int, c: int) {
    var a := i + |AGGREGATE|;
    && OccursIgnoringCase(s, AGGREGATE, i)
    && 1 <= k1 && a + k1 < c < |s| && Blank(s, a, a + k1) && Free(s, a + k1, c, ',') && s[c] == ','
  }

  /** `\s*[^)]+ORDER BY\s+([^)]+)\)` after the comma at `c`, ORDER BY at `o`, ')' at `p`. */
  predicate TailAt(s: string, c: int, v: int, o: int, k2: int, p: int) {
    var b := c + 1;
    var d := o + |ORDER_BY|;
    && 0 <= b && 0 <= v && b + v < o && o <= |s| && Blank(s, b, b + v) && Free(s, b + v, o, ')')
    && OccursIgnoringCase(s, ORDER_BY, o)
    && 1 <= k2 && d + k2 < p < |s| && Blank(s, d, d + k2) && Free(s, d + k2, p, ')') && s[p] == ')'
  }

  // ----------------------------------------------------- the pattern, as searched

  /** One element of `findall`: both groups, and where the match starts and ends. */
  datatype Match = Match(start: nat, distinctExpr: string, orderExpr: string, end: nat)

  /** ORDER BY at `o`, followed by blanks and a non-empty second group closing at `p`. */
  predicate OrderFits(s: string, o: nat, p: nat)
    requires p < |s|
  {
    o + |ORDER_BY| < p && OccursIgnoringCase(s, ORDER_BY, o)
    && var r := SpaceRun(s, o + |ORDER_BY|);
       r >= 1 && (o + |ORDER_BY| + r < p || r >= 2)
  }

  /** The last position in [lo, hi) where ORDER BY fits: the greedy `[^)]+` before the
      literal gives back characters one at a time until the rest matches. */
  function LastOrderFit(s: string, lo: nat, hi: nat, p: nat): (r: Option<nat>)
    requires p < |s|
    ensures r.Some? ==> lo <= r.value < hi && OrderFits(s, r.value, p)
    decreases hi - lo
  {
    if hi <= lo then None
    else if OrderFits(s, hi - 1, p) then Some(hi - 1)
    else LastOrderFit(s, lo, hi - 1, p)
  }

  /** No position after the one `LastOrderFit` picks fits, and it picks none only when no
      position in the range fits. */
  lemma {:induction false} LastOrderFitSpec(s: string, lo: nat, hi: nat, p: nat)
    requires p < |s|
    ensures forall o :: LastOrderFit(s, lo, hi, p).Some? && LastOrderFit(s, lo, hi, p).value < o < hi
                        ==> !OrderFits(s, o, p)
    ensures forall o :: LastOrderFit(s, lo, hi, p).None? && lo <= o < hi ==> !OrderFits(s, o, p)
    decreases hi - lo
  {
    if lo < hi && !OrderFits(s, hi - 1, p) {
      LastOrderFitSpec(s, lo, hi - 1, p);
    }
  }

  /** The blanks a greedy `\s+` keeps of a run when the group after it needs at least one
      of the `room` characters before its delimiter. */
  function Blanks(run: nat, room: nat): nat
    requires room >= 1
  {
    Min(run, room - 1)
  }

  /** The comma ending the first group: the first one after the aggregate, provided the
      blanks and a non-empty group fit before it. */
  function FirstComma(s: string, a: nat): (r: Option<nat>)
    requires a <= |s|
    ensures r.Some? ==> a + 2 <= r.value < |s| && s[r.value] == ','
    ensures r.Some? ==> SpaceRun(s, a) >= 1 && NextChar(s, ',', a) == Some(r.value)
  {
    if SpaceRun(s, a) == 0 then None
    else
      var c :- NextChar(s, ',', a);
      if c < a + 2 then None else Some(c)
  }

  /** Where the engine's match at `i` has its comma, its ORDER BY and its closing ')'. */
  datatype Bounds = Bounds(comma: nat, order: nat, close: nat)

  /** The token boundaries of the match the backtracking engine finds at `i`, if any. The
      first group is forced to end at the first comma and the closing ')' is the first one
      after it; among the ORDER BY positions the last that fits wins. */
  function FindBounds(s: string, i: nat): (r: Option<Bounds>)
    requires i <= |s|
    ensures r.Some? ==> OccursIgnoringCase(s, AGGREGATE, i)
    ensures r.Some? ==> FirstComma(s, i + |AGGREGATE|) == Some(r.value.comma)
    ensures r.Some? ==> NextChar(s, ')', r.value.comma + 1) == Some(r.value.close)
    ensures r.Some? ==> LastOrderFit(s, r.value.comma + 2, r.value.close, r.value.close) == Some(r.value.order)
  {
    if !OccursIgnoringCase(s, AGGREGATE, i) then None
    else
      var c :- FirstComma(s, i + |AGGREGATE|);
      var p :- NextChar(s, ')', c + 1);
      var o :- LastOrderFit(s, c + 2, p, p);
      Some(Bounds(c, o, p))
  }

  /** The match with the first group from `k1` characters after the aggregate literal to
      the comma at `c`, and the second from `k2` characters after the ORDER BY at `o` to
      the ')' at `p`. */
  function GroupsAt(s: string, i: nat, k1: nat, c: nat, o: nat, k2: nat, p: nat): Match
    requires i + |AGGREGATE| + k1 <= c < |s| && o + |ORDER_BY| + k2 <= p < |s|
  {
    Match(i, s[i + |AGGREGATE| + k1..c], s[o + |ORDER_BY| + k2..p], p + 1)
  }

  /** The groups between the boundaries, each without the blanks its `\s+` takes. */
  function MatchOf(s: string, i: nat, b: Bounds): Match
    requires i + |AGGREGATE| + 2 <= b.comma < b.close < |s| && OrderFits(s, b.order, b.close)
  {
    var a := i + |AGGREGATE|;
    var d := b.order + |ORDER_BY|;
    GroupsAt(s, i, Blanks(SpaceRun(s, a), b.comma - a), b.comma, b.order,
             Blanks(SpaceRun(s, d), b.close - d), b.close)
  }

  /** The match the backtracking engine finds at `i`, if any. */
  function MatchAt(s: string, i: nat): (r: Option<Match>)
    requires i <= |s|
    ensures r.Some? ==> r.value.start == i < r.value.end <= |s|
  {
    match FindBounds(s, i)
    case None => None
    case Some(b) => Some(MatchOf(s, i, b))
  }

  /** `re.findall` from position `i`: matches do not overlap, and the search resumes where
      the last match ended. */
  function FindAll(s: string, i: nat): (ms: seq<Match>)
    requires i <= |s|
    decreases |s| - i
  {
    if i == |s| then []
    else
      match MatchAt(s, i)
      case Some(m) => [m] + FindAll(s, m.end)
      case None => FindAll(s, i + 1)
  }

  /** The validation of one SQL text: only texts containing both literals (exactly, in
      upper case) are searched, and they pass when every found pair agrees once trimmed. */
  predicate Valid(sql: string) {
    !(Contains(sql, AGGREGATE) && Contains(sql, ORDER_BY))
    || forall m :: m in FindAll(sql, 0) ==> Strip(m.distinctExpr) == Strip(m.orderExpr)
  }

  // ----------------------------------------------------------------- properties

  /** What the engine finds is a match of the pattern, with its groups where the pattern
      puts them. */
  lemma MatchAtSound(s: string, i: nat) returns (k1: int, c: int, v: int, o: int, k2: int, p: int)
    requires i <= |s| && MatchAt(s, i).Some?
    ensures PatternAt(s, i, k1, c, v, o, k2, p)
    ensures 0 <= k1 && 0 <= c && 0 <= o && 0 <= k2 && 0 <= p
    ensures i + |AGGREGATE| + k1 <= c && o + |ORDER_BY| + k2 <= p < |s|
    ensures MatchAt(s, i).value == GroupsAt(s, i, k1, c, o, k2, p)
  {
    var bounds := FindBounds(s, i).value;
    c, o, p := bounds.comma, bounds.order, bounds.close;
    k1 := HeadSound(s, i, c);
    k2 := TailSound(s, c, o, p);
    v := 0;
    assert MatchAt(s, i) == Some(MatchOf(s, i, bounds));
  }

  /** The first group of the engine's match is where the pattern puts it. */
  lemma HeadSound(s: string, i: nat, c: nat) returns (k1: int)
    requires i + |AGGREGATE| <= |s| && OccursIgnoringCase(s, AGGREGATE, i)
    requires FirstComma(s, i + |AGGREGATE|) == Some(c)
    ensures HeadAt(s, i, k1, c)
    ensures k1 == Blanks(SpaceRun(s, i + |AGGREGATE|), c - (i + |AGGREGATE|))
  {
    var a := i + |AGGREGATE|;
    SpaceRunSpec(s, a);
    NextCharSpec(s, ',', a);
    k1 := Blanks(SpaceRun(s, a), c - a);
  }

  /** The second group of the engine's match is where the pattern puts it. */
  lemma TailSound(s: string, c: nat, o: nat, p: nat) returns (k2: int)
    requires c < p < |s| && NextChar(s, ')', c + 1) == Some(p)
    requires LastOrderFit(s, c + 2, p, p) == Some(o)
    ensures TailAt(s, c, 0, o, k2, p)
    ensures k2 == Blanks(SpaceRun(s, o + |ORDER_BY|), p - (o + |ORDER_BY|))
  {
    var d := o + |ORDER_BY|;
    var r := SpaceRun(s, d);
    SpaceRunSpec(s, d);
    NextCharSpec(s, ')', c + 1);
    assert !IsSpace(s[p]);
    k2 := Blanks(r, p - d);
  }

  /** Between the ORDER BY literal's characters there is no ')'. */
  lemma OrderByFree(s: string, o: nat)
    requires OccursIgnoringCase(s, ORDER_BY, o)
    ensures Free(s, o, o + |ORDER_BY|, ')')
  {
    forall k | o <= k < o + |ORDER_BY| ensures s[k] != ')' {
      assert SameIgnoringCase(s[o + (k - o)], ORDER_BY[k - o]);
    }
  }

  /** Wherever the pattern can match, the engine finds a match ending at the same closing
      parenthesis. */
  lemma MatchAtComplete(s: string, i: nat, k1: int, c: int, v: int, o: int, k2: int, p: int)
    requires i <= |s| && PatternAt(s, i, k1, c, v, o, k2, p)
    ensures MatchAt(s, i).Some? && MatchAt(s, i).value.end == p + 1
  {
    HeadFound(s, i, k1, c);
    TailFound(s, c, v, o, k2, p);
    assert FindBounds(s, i).Some?;
  }

  /** Where the head of the pattern matches, the engine's first group ends at its comma. */
  lemma HeadFound(s: string, i: nat, k1: int, c: int)
    requires i <= |s| && HeadAt(s, i, k1, c)
    ensures FirstComma(s, i + |AGGREGATE|) == Some(c)
  {
    var a := i + |AGGREGATE|;
    assert SpaceRun(s, a) >= 1 by {
      assert IsSpace(s[a]);
    }
    NextCharFinds(s, ',', a, c);
  }

  /** Where the tail of the pattern matches after the comma at `c`, the engine closes at
      its ')' and finds an ORDER BY that fits. */
  lemma TailFound(s: string, c: int, v: int, o: int, k2: int, p: int)
    requires 0 <= c && TailAt(s, c, v, o, k2, p)
    ensures NextChar(s, ')', c + 1) == Some(p)
    ensures LastOrderFit(s, c + 2, p, p).Some?
  {
    var b := c + 1;
    var d := o + |ORDER_BY|;
    OrderByFree(s, o);
    NextCharFinds(s, ')', b, p);
    SpaceRunCovers(s, d, k2);
    assert OrderFits(s, o, p);
    LastOrderFitSpec(s, c + 2, p, p);
  }

  /** The matches `findall` reports lie in order and do not overlap. */
  lemma {:induction false} FindAllOrdered(s: string, i: nat)
    requires i <= |s|
    ensures forall k :: 0 <= k < |FindAll(s, i)| ==> i <= FindAll(s, i)[k].start < FindAll(s, i)[k].end <= |s|
    ensures forall k :: 0 <= k < |FindAll(s, i)| - 1 ==> FindAll(s, i)[k].end <= FindAll(s, i)[k + 1].start
    decreases |s| - i
  {
    if i < |s| {
      match MatchAt(s, i)
      case Some(m) =>
        var rest := FindAll(s, m.end);
        assert FindAll(s, i) == [m] + rest;
        FindAllOrdered(s, m.end);
      case None =>
        assert FindAll(s, i) == FindAll(s, i + 1);
        FindAllOrdered(s, i + 1);
    }
  }

  /** Every pair `findall` reports comes from a match of the pattern: its first group holds
      no comma and its second no ')', so an aggregate whose DISTINCT argument contains a
      comma (a `CONCAT(year, ' - ', city)`, say) is never compared as a whole. */
  lemma {:induction false} FoundGroupsShape(s: string, i: nat)
    requires i <= |s|
    ensures forall m :: m in FindAll(s, i) ==> Lacks(m.distinctExpr, ',') && Lacks(m.orderExpr, ')')
    decreases |s| - i
  {
    if i < |s| {
      match MatchAt(s, i)
      case Some(m) =>
        assert FindAll(s, i) == [m] + FindAll(s, m.end);
        MatchGroupsShape(s, i);
        FoundGroupsShape(s, m.end);
      case None =>
        assert FindAll(s, i) == FindAll(s, i + 1);
        FoundGroupsShape(s, i + 1);
    }
  }

  /** The groups of one match hold no comma and no ')' respectively. */
  lemma MatchGroupsShape(s: string, i: nat)
    requires i <= |s| && MatchAt(s, i).Some?
    ensures Lacks(MatchAt(s, i).value.distinctExpr, ',') && Lacks(MatchAt(s, i).value.orderExpr, ')')
  {
    var k1, c, v, o, k2, p := MatchAtSound(s, i);
    var m := MatchAt(s, i).value;
    assert m.distinctExpr == s[i + |AGGREGATE| + k1..c];
    assert m.orderExpr == s[o + |ORDER_BY| + k2..p];
  }

  /** A text without the upper-case aggregate literal passes whatever its aggregates look
      like, since the guard is case-sensitive while the search is not. */
  lemma LowerCaseSqlPasses(sql: string)
    requires !Contains(sql, AGGREGATE)
    ensures Valid(sql)
  {
  }
}
