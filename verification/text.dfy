/**
 * The string routines of Python that the backend leans on, stated over `seq<char>`:
 * `str.isspace`, `strip`, `split()` (on whitespace), `split(sep)`, `sep.join`,
 * `replace(t, "")`, `in`, `lower`, `title` and `str(int)` / `int(str)`.
 */
module Text {
  import opened Wrappers

  // ---------------------------------------------------------------- whitespace

  /** Python's `str.isspace()` for one character. */
  predicate IsSpace(c: char) {
    || c == ' '
    || ('\t' <= c <= '\r')
    || ('\U{1c}' <= c <= '\U{1f}')
    || c == '\U{85}' || c == '\U{a0}' || c == '\U{1680}'
    || ('\U{2000}' <= c <= '\U{200a}')
    || c == '\U{2028}' || c == '\U{2029}' || c == '\U{202f}' || c == '\U{205f}' || c == '\U{3000}'
  }

  predicate NoSpace(s: string) {
    forall i :: 0 <= i < |s| ==> !IsSpace(s[i])
  }

  predicate AllSpace(s: string) {
    forall i :: 0 <= i < |s| ==> IsSpace(s[i])
  }

  /** Neither end of `s` is whitespace, i.e. `s.strip() == s`. */
  predicate Trimmed(s: string) {
    s == [] || (!IsSpace(s[0]) && !IsSpace(s[|s| - 1]))
  }

  /** A non-empty run of non-whitespace characters: one item of `str.split()`. */
  predicate IsWord(w: string) {
    |w| > 0 && NoSpace(w)
  }

  /** The shape `" ".join(s.split())` produces: trimmed, and every whitespace
      character is a single ' ' between two non-whitespace characters. */
  predicate SingleSpaced(s: string) {
    forall i :: 0 <= i < |s| && IsSpace(s[i]) ==>
      s[i] == ' ' && 0 < i && i + 1 < |s| && !IsSpace(s[i - 1]) && !IsSpace(s[i + 1])
  }

  /** Python's `str.lstrip()`. */
  function LStrip(s: string): (r: string)
    ensures |r| <= |s| && r == s[|s| - |r|..]
    ensures AllSpace(s[..|s| - |r|])
    ensures r == [] || !IsSpace(r[0])
  {
    if |s| > 0 && IsSpace(s[0]) then
      var r := LStrip(s[1..]);
      assert s[..|s| - |r|] == [s[0]] + s[1..][..|s| - 1 - |r|];
      r
    else s
  }

  /** Python's `str.rstrip()`. */
  function RStrip(s: string): (r: string)
    ensures |r| <= |s| && r == s[..|r|]
    ensures AllSpace(s[|r|..])
    ensures r == [] || !IsSpace(r[|r| - 1])
  {
    if |s| > 0 && IsSpace(s[|s| - 1]) then
      var r := RStrip(s[..|s| - 1]);
      assert s[|r|..] == s[..|s| - 1][|r|..] + [s[|s| - 1]];
      r
    else s
  }

  /** Python's `str.strip()`: the text between the leading and the trailing whitespace. */
  function Strip(s: string): (r: string)
    ensures Trimmed(r)
    ensures |r| <= |LStrip(s)| <= |s|
    ensures r == LStrip(s)[..|r|]
    ensures r == [] <==> AllSpace(s)
  {
    var l := LStrip(s);
    var r := RStrip(l);
    assert r == [] ==> AllSpace(s) by {
      if r == [] {
        assert s == s[..|s| - |l|] + l;
        assert l == l[|r|..];
      }
    }
    r
  }

  lemma StripOfTrimmed(s: string)
    requires Trimmed(s)
    ensures Strip(s) == s
  {
  }

  // ------------------------------------------------------ split() on whitespace

  /** Length of the leading run of non-whitespace characters. */
  function WordEnd(s: string): (n: nat)
    ensures n <= |s|
    ensures NoSpace(s[..n])
    ensures n == |s| || IsSpace(s[n])
  {
    if |s| == 0 || IsSpace(s[0]) then 0
    else
      var n := 1 + WordEnd(s[1..]);
      assert s[..n] == [s[0]] + s[1..][..n - 1];
      n
  }

  /** Python's `str.split()` with no argument: the maximal runs of non-whitespace, in order. */
  function Words(s: string): (ws: seq<string>)
    ensures forall w :: w in ws ==> IsWord(w)
    decreases |s|
  {
    var t := LStrip(s);
    if t == [] then []
    else
      var n := WordEnd(t);
      WordEndPositive(t);
      [t[..n]] + Words(t[n..])
  }

  lemma WordEndPositive(t: string)
    requires t != [] && !IsSpace(t[0])
    ensures WordEnd(t) > 0
  {
  }

  /** Python's `sep.join(parts)`. */
  function Join(sep: string, parts: seq<string>): string {
    if |parts| == 0 then []
    else if |parts| == 1 then parts[0]
    else parts[0] + sep + Join(sep, parts[1..])
  }

  /** `" ".join(s.split())`: whitespace runs collapsed to one space, ends trimmed. */
  function Normalize(s: string): string {
    Join(" ", Words(s))
  }

  lemma JoinCons(sep: string, a: string, rest: seq<string>)
    requires |rest| > 0
    ensures Join(sep, [a] + rest) == a + sep + Join(sep, rest)
  {
    assert ([a] + rest)[1..] == rest;
  }

  lemma WordEndOfWord(w: string, rest: string)
    requires NoSpace(w)
    requires rest == [] || IsSpace(rest[0])
    ensures WordEnd(w + rest) == |w|
    decreases |w|
  {
    if |w| > 0 {
      var s := w + rest;
      assert s[0] == w[0] && !IsSpace(s[0]);
      assert s[1..] == w[1..] + rest;
      WordEndOfWord(w[1..], rest);
      assert WordEnd(s) == 1 + WordEnd(s[1..]);
    }
  }

  lemma WordsSkipsSpace(s: string)
    requires |s| > 0 && IsSpace(s[0])
    ensures Words(s) == Words(s[1..])
  {
  }

  /** A word followed by a space splits off as the first word. */
  lemma WordsOfWordThen(w: string, rest: string)
    requires IsWord(w)
    ensures Words(w + " " + rest) == [w] + Words(rest)
  {
    var s := w + " " + rest;
    assert s == w + ([' '] + rest);
    WordEndOfWord(w, [' '] + rest);
    assert LStrip(s) == s;
    assert s[..|w|] == w;
    assert s[|w|..] == [' '] + rest;
    WordsSkipsSpace([' '] + rest);
    assert ([' '] + rest)[1..] == rest;
  }

  /** A single word splits into itself. */
  lemma WordsOfWord(w: string)
    requires IsWord(w)
    ensures Words(w) == [w]
  {
    WordEndOfWord(w, []);
    assert w + [] == w;
    assert w[|w|..] == [];
  }

  /** Words separated by single spaces split back into the same words. */
  lemma {:induction false} WordsOfJoin(ws: seq<string>)
    requires forall w :: w in ws ==> IsWord(w)
    ensures Words(Join(" ", ws)) == ws
  {
    if |ws| == 1 {
      assert ws[0] in ws;
      WordsOfWord(ws[0]);
    } else if |ws| >= 2 {
      assert forall v :: v in ws[1..] ==> v in ws;
      WordsOfJoin(ws[1..]);
      WordsOfJoinStep(ws);
    }
  }

  lemma WordsOfJoinStep(ws: seq<string>)
    requires |ws| >= 2 && IsWord(ws[0])
    requires Words(Join(" ", ws[1..])) == ws[1..]
    ensures Words(Join(" ", ws)) == ws
  {
    var w, tail := ws[0], ws[1..];
    var j := Join(" ", tail);
    assert Join(" ", ws) == w + " " + j;
    WordsOfWordThen(w, j);
    assert ws == [w] + tail;
  }

  /** Normalising twice is normalising once. */
  lemma NormalizeIdempotent(s: string)
    ensures Normalize(Normalize(s)) == Normalize(s)
  {
    WordsOfJoin(Words(s));
  }

  /** After the first word, the rest of the normalised text is the normalised remainder. */
  lemma NormalizeStep(s: string)
    requires LStrip(s) != []
    ensures var t := LStrip(s); var n := WordEnd(t);
      && 0 < n
      && (Words(t[n..]) == [] ==> Normalize(s) == t[..n])
      && (Words(t[n..]) != [] ==> Normalize(s) == t[..n] + " " + Normalize(t[n..]))
  {
    var t := LStrip(s);
    var n := WordEnd(t);
    WordEndPositive(t);
    assert Words(s) == [t[..n]] + Words(t[n..]);
    if Words(t[n..]) != [] {
      JoinCons(" ", t[..n], Words(t[n..]));
    }
  }

  /** The normalised text is never longer than the stripped input. */
  lemma {:induction false} NormalizeShorter(s: string)
    ensures |Normalize(s)| <= |LStrip(s)|
    decreases |s|
  {
    var t := LStrip(s);
    if t != [] {
      NormalizeStep(s);
      var n := WordEnd(t);
      var rest := t[n..];
      if Words(rest) != [] {
        WordsSkipsSpace(rest);
        NormalizeShorter(rest[1..]);
      }
    }
  }

  lemma {:induction false} JoinSingleSpaced(ws: seq<string>)
    requires forall w :: w in ws ==> IsWord(w)
    ensures SingleSpaced(Join(" ", ws))
    ensures |ws| > 0 ==> Join(" ", ws) != [] && !IsSpace(Join(" ", ws)[0])
  {
    if |ws| > 0 {
      assert ws[0] in ws;
    }
    if |ws| >= 2 {
      var w := ws[0];
      var j := Join(" ", ws[1..]);
      JoinSingleSpaced(ws[1..]);
      var s := w + " " + j;
      assert Join(" ", ws) == s;
      assert forall i :: 0 <= i < |w| ==> s[i] == w[i];
      assert forall k :: 0 <= k < |j| ==> s[|w| + 1 + k] == j[k];
      forall i | 0 <= i < |s| && IsSpace(s[i])
        ensures s[i] == ' ' && 0 < i && i + 1 < |s| && !IsSpace(s[i - 1]) && !IsSpace(s[i + 1])
      {
        if i == |w| {
          assert s[i + 1] == j[0];
          assert s[i - 1] == w[|w| - 1];
        } else if i > |w| + 1 {
          var k := i - |w| - 1;
          assert s[i] == j[k] && s[i - 1] == j[k - 1];
        }
      }
    }
  }

  /** What `" ".join(s.split())` produces is single-spaced. */
  lemma NormalizeSingleSpaced(s: string)
    ensures SingleSpaced(Normalize(s))
  {
    JoinSingleSpaced(Words(s));
  }

  // ------------------------------------------------------------ substring search

  /** Taking a slice of a slice is taking one slice. */
  lemma SliceOfSlice(s: string, a: nat, b: nat, c: nat, d: nat)
    requires a <= b <= |s| && c <= d <= b - a
    ensures s[a..b][c..d] == s[a + c..a + d]
  {
    assert forall k :: 0 <= k < d - c ==> s[a..b][c..d][k] == s[a + c..a + d][k];
  }

  /** `s[a..]` is the part before `b`, the part from `b` to `c`, and the rest. */
  lemma SplitAround(s: string, a: nat, b: nat, c: nat)
    requires a <= b <= c <= |s|
    ensures s[a..] == s[a..b] + s[b..c] + s[c..]
  {
    assert forall k :: 0 <= k < |s| - a ==> s[a..][k] == (s[a..b] + s[b..c] + s[c..])[k];
  }

  /** `t` occurs in `s` starting at index `i`. */
  predicate OccursAt(s: string, t: string, i: int) {
    0 <= i && i + |t| <= |s| && s[i..i + |t|] == t
  }

  /** The first index at or after `i` where `t` occurs in `s`; `IndexFromSpec` states it. */
  function IndexFrom(s: string, t: string, i: nat): (r: Option<nat>)
    requires i <= |s|
    ensures r.Some? ==> i <= r.value && r.value + |t| <= |s|
    decreases |s| - i
  {
    if i + |t| > |s| then None
    else if s[i..i + |t|] == t then Some(i)
    else IndexFrom(s, t, i + 1)
  }

  /** `IndexFrom` finds an occurrence, the first one at or after `i`, and finds none only
      when there is none. */
  lemma {:induction false} IndexFromSpec(s: string, t: string, i: nat)
    requires i <= |s|
    ensures IndexFrom(s, t, i).Some? ==> OccursAt(s, t, IndexFrom(s, t, i).value)
    ensures IndexFrom(s, t, i).Some? ==> forall j :: i <= j < IndexFrom(s, t, i).value ==> !OccursAt(s, t, j)
    ensures IndexFrom(s, t, i).None? ==> forall j :: i <= j ==> !OccursAt(s, t, j)
    decreases |s| - i
  {
    if i + |t| <= |s| && s[i..i + |t|] != t {
      IndexFromSpec(s, t, i + 1);
    }
  }

  /** Python's `s.find(t)`, with `None` for -1. */
  function IndexOf(s: string, t: string): (r: Option<nat>)
    ensures r.Some? ==> r.value + |t| <= |s|
  {
    IndexFrom(s, t, 0)
  }

  /** Searching the suffix `s[a..]` from `i` is searching `s` from `a + i`, shifted. */
  lemma {:induction false} IndexFromShift(s: string, t: string, a: nat, i: nat)
    requires a + i <= |s|
    ensures IndexFrom(s[a..], t, i) == match IndexFrom(s, t, a + i) case None => None case Some(m) => Some(m - a)
    decreases |s| - a - i
  {
    if a + i + |t| <= |s| {
      SliceOfSlice(s, a, |s|, i, i + |t|);
      assert s[a..] == s[a..|s|];
      if s[a + i..a + i + |t|] != t {
        IndexFromShift(s, t, a, i + 1);
      }
    }
  }

  /** `IndexOf` finds the first occurrence, and finds none only when there is none. */
  lemma IndexOfSpec(s: string, t: string)
    ensures IndexOf(s, t).Some? ==> OccursAt(s, t, IndexOf(s, t).value)
    ensures IndexOf(s, t).Some? ==> forall j :: 0 <= j < IndexOf(s, t).value ==> !OccursAt(s, t, j)
    ensures IndexOf(s, t).None? ==> forall j :: !OccursAt(s, t, j)
  {
    IndexFromSpec(s, t, 0);
  }

  /** Python's `t in s`. */
  predicate Contains(s: string, t: string) {
    IndexOf(s, t).Some?
  }

  lemma ContainsAt(s: string, t: string, i: int)
    requires OccursAt(s, t, i)
    ensures Contains(s, t)
  {
    IndexOfSpec(s, t);
  }

  /** Python's `s.startswith(t)`. */
  predicate StartsWith(s: string, t: string) {
    |t| <= |s| && s[..|t|] == t
  }

  /** Python's `s.endswith(t)`. */
  predicate EndsWith(s: string, t: string) {
    |t| <= |s| && s[|s| - |t|..] == t
  }

  /** Anything written between two pieces occurs in the whole. */
  lemma ContainsMiddle(a: string, b: string, c: string)
    ensures Contains(a + b + c, b)
  {
    assert (a + b + c)[|a|..|a| + |b|] == b;
    ContainsAt(a + b + c, b, |a|);
  }

  lemma Regroup(p: string, x: string, e: string, y: string, q: string)
    ensures p + (x + e + y) + q == (p + x) + e + (y + q)
  {
  }

  /** Both halves of a concatenation occur in it. */
  lemma ContainsEnds(a: string, b: string)
    ensures Contains(a + b, a) && Contains(a + b, b)
  {
    assert (a + b)[0..|a|] == a;
    assert (a + b)[|a|..|a| + |b|] == b;
    ContainsAt(a + b, a, 0);
    ContainsAt(a + b, b, |a|);
  }

  /** Containment is transitive. */
  lemma ContainsTrans(s: string, t: string, u: string)
    requires Contains(s, t) && Contains(t, u)
    ensures Contains(s, u)
  {
    IndexOfSpec(s, t);
    IndexOfSpec(t, u);
    var i := IndexOf(s, t).value;
    var j := IndexOf(t, u).value;
    SliceOfSlice(s, i, i + |t|, j, j + |u|);
    assert s[i..i + |t|] == t;
    ContainsAt(s, u, i + j);
  }

  /** An occurrence inside the slice `s[a..b]` is an occurrence in `s` that ends by `b`. */
  lemma OccursInSlice(s: string, a: nat, b: nat, t: string, j: nat)
    requires a <= b <= |s|
    ensures OccursAt(s[a..b], t, j) <==> (OccursAt(s, t, a + j) && a + j + |t| <= b)
  {
    if a + j + |t| <= b {
      SliceOfSlice(s, a, b, j, j + |t|);
    }
  }

  /** A slice in which no occurrence of `t` fits lacks `t`. */
  lemma SliceLacks(s: string, a: nat, b: nat, t: string)
    requires a <= b <= |s|
    requires forall j :: a <= j && j + |t| <= b ==> !OccursAt(s, t, j)
    ensures !Contains(s[a..b], t)
  {
    forall j: nat
      ensures !OccursAt(s[a..b], t, j)
    {
      OccursInSlice(s, a, b, t, j);
    }
    IndexOfSpec(s[a..b], t);
  }

  /** A slice of a text that lacks `t` lacks `t` too. */
  lemma SliceKeepsAbsence(s: string, a: nat, b: nat, t: string)
    requires a <= b <= |s|
    requires !Contains(s, t)
    ensures !Contains(s[a..b], t)
  {
    IndexOfSpec(s, t);
    SliceLacks(s, a, b, t);
  }

  /** The stripped text is the slice of the input that starts at the returned index. */
  lemma StripIsSlice(x: string) returns (k: nat)
    ensures k + |Strip(x)| <= |x| && Strip(x) == x[k..k + |Strip(x)|]
  {
    var l := LStrip(x);
    var r := Strip(x);
    k := |x| - |l|;
    assert l == x[k..|x|];
    assert r == l[..|r|];
    SliceOfSlice(x, k, |x|, 0, |r|);
    assert l[..|r|] == x[k..|x|][0..|r|];
  }

  /** Whatever `x` lacks, its stripped form lacks too. */
  lemma StripKeepsAbsence(x: string, t: string)
    requires !Contains(x, t)
    ensures !Contains(Strip(x), t)
  {
    var k := StripIsSlice(x);
    var y := Strip(x);
    SliceKeepsAbsence(x, k, k + |y|, t);
    assert !Contains(x[k..k + |y|], t);
    assert x[k..k + |y|] == y;
  }

  /** The pieces of `s[i..].split(sep)`. */
  function SplitFrom(s: string, sep: string, i: nat): (parts: seq<string>)
    requires |sep| > 0 && i <= |s|
    ensures |parts| >= 1
    ensures IndexFrom(s, sep, i).Some? ==> |parts| >= 2
    decreases |s| - i
  {
    match IndexFrom(s, sep, i)
    case None => [s[i..]]
    case Some(k) => [s[i..k]] + SplitFrom(s, sep, k + |sep|)
  }

  /** Python's `s.split(sep)` for a non-empty separator. */
  function Split(s: string, sep: string): (parts: seq<string>)
    requires |sep| > 0
    ensures |parts| >= 1
    ensures Contains(s, sep) ==> |parts| >= 2
  {
    SplitFrom(s, sep, 0)
  }

  /** The first piece runs up to the first separator (or to the end). */
  lemma SplitFirst(s: string, sep: string)
    requires |sep| > 0
    ensures Split(s, sep)[0] == s[..match IndexOf(s, sep) case None => |s| case Some(k) => k]
  {
  }

  /** When the separator occurs at `k`, the second piece starts right after it and runs up
      to the next separator (or to the end). */
  lemma SplitSecond(s: string, sep: string, k: nat)
    requires |sep| > 0
    requires IndexOf(s, sep) == Some(k)
    ensures |Split(s, sep)| >= 2
    ensures Split(s, sep)[1] == s[k + |sep|..match IndexFrom(s, sep, k + |sep|) case None => |s| case Some(m) => m]
  {
    assert Split(s, sep) == [s[0..k]] + SplitFrom(s, sep, k + |sep|);
  }

  /** `s.split(a)[1].split(b)[0]`: the text after the first `a`, cut at the next `a` (or the
      end) and then at the first `b` of what remains. */
  lemma SecondThenFirst(s: string, a: string, b: string, k: nat)
    requires |a| > 0 && |b| > 0
    requires IndexOf(s, a) == Some(k)
    ensures |Split(s, a)| >= 2
    ensures var piece := s[k + |a|..match IndexFrom(s, a, k + |a|) case None => |s| case Some(m) => m];
      Split(Split(s, a)[1], b)[0] == piece[..match IndexOf(piece, b) case None => |piece| case Some(j) => j]
  {
    SplitSecond(s, a, k);
    SplitFirst(Split(s, a)[1], b);
  }

  /** With no second `a`, `s.split(a)[1].split(b)[0]` is the text after the first `a` up to
      the next `b` (or the end). */
  lemma LastThenFirst(s: string, a: string, b: string, k: nat)
    requires |a| > 0 && |b| > 0
    requires IndexOf(s, a) == Some(k) && IndexFrom(s, a, k + |a|).None?
    ensures |Split(s, a)| >= 2
    ensures Split(Split(s, a)[1], b)[0] == s[k + |a|..match IndexFrom(s, b, k + |a|) case None => |s| case Some(m) => m]
  {
    SplitSecond(s, a, k);
    assert Split(s, a)[1] == s[k + |a|..];
    SuffixFirst(s, b, k + |a|);
  }

  /** `s[i..].split(b)[0]` runs from `i` to the next `b` of `s` (or the end). */
  lemma SuffixFirst(s: string, b: string, i: nat)
    requires |b| > 0 && i <= |s|
    ensures Split(s[i..], b)[0] == s[i..match IndexFrom(s, b, i) case None => |s| case Some(m) => m]
  {
    SplitFirst(s[i..], b);
    IndexFromShift(s, b, i, 0);
    if IndexFrom(s, b, i).Some? {
      var m := IndexFrom(s, b, i).value;
      SliceOfSlice(s, i, |s|, 0, m - i);
      assert s[i..] == s[i..|s|];
    }
  }

  /** No piece of `s[i..].split(sep)` contains `sep`. */
  lemma {:induction false} SplitPiecesLack(s: string, sep: string, i: nat)
    requires |sep| > 0 && i <= |s|
    ensures forall p :: p in SplitFrom(s, sep, i) ==> !Contains(p, sep)
    decreases |s| - i
  {
    var parts := SplitFrom(s, sep, i);
    IndexFromSpec(s, sep, i);
    match IndexFrom(s, sep, i)
    case None =>
      SliceLacks(s, i, |s|, sep);
      assert s[i..|s|] == s[i..];
    case Some(k) =>
      SplitPiecesLack(s, sep, k + |sep|);
      SliceLacks(s, i, k, sep);
      assert parts == [s[i..k]] + SplitFrom(s, sep, k + |sep|);
  }

  /** `sep.join(s[i..].split(sep)) == s[i..]`. */
  lemma {:induction false} SplitJoin(s: string, sep: string, i: nat)
    requires |sep| > 0 && i <= |s|
    ensures Join(sep, SplitFrom(s, sep, i)) == s[i..]
    decreases |s| - i
  {
    match IndexFrom(s, sep, i)
    case None =>
    case Some(k) =>
      var rest := SplitFrom(s, sep, k + |sep|);
      IndexFromSpec(s, sep, i);
      SplitJoin(s, sep, k + |sep|);
      assert SplitFrom(s, sep, i) == [s[i..k]] + rest;
      JoinCons(sep, s[i..k], rest);
      assert Join(sep, rest) == s[k + |sep|..];
      assert s[k..k + |sep|] == sep;
      SplitAround(s, i, k, k + |sep|);
  }

  /** `s[i..].replace(t, "")`: finds the leftmost occurrence of `t`, deletes it and carries
      on after it, so occurrences are deleted left to right without overlapping; an empty
      `t` deletes nothing. */
  function RemoveFrom(s: string, t: string, i: nat): (r: string)
    requires i <= |s|
    ensures |r| <= |s| - i
    decreases |s| - i
  {
    if |t| == 0 then s[i..]
    else
      match IndexFrom(s, t, i)
      case None => s[i..]
      case Some(k) => s[i..k] + RemoveFrom(s, t, k + |t|)
  }

  /** Python's `s.replace(t, "")`. */
  function RemoveAll(s: string, t: string): (r: string)
    ensures |r| <= |s|
  {
    RemoveFrom(s, t, 0)
  }

  /** `s.replace(t, "") == "".join(s.split(t))`: deleting a pattern is gluing back the
      pieces that splitting on it leaves. */
  lemma {:induction false} RemoveIsSplitConcat(s: string, t: string, i: nat)
    requires |t| > 0 && i <= |s|
    ensures RemoveFrom(s, t, i) == Join("", SplitFrom(s, t, i))
    decreases |s| - i
  {
    match IndexFrom(s, t, i)
    case None =>
    case Some(k) =>
      var rest := SplitFrom(s, t, k + |t|);
      RemoveIsSplitConcat(s, t, k + |t|);
      JoinCons("", s[i..k], rest);
      assert s[i..k] + "" == s[i..k];
  }

  /** Deleting a pattern that does not occur changes nothing. */
  lemma RemoveAllAbsent(s: string, t: string)
    requires !Contains(s, t)
    ensures RemoveAll(s, t) == s
  {
  }

  // -------------------------------------------------------------------- casing

  /** Upper-case letters with a one-character lower-case partner: ASCII and Latin-1. */
  predicate IsUpper(c: char) {
    ('A' <= c <= 'Z') || ('\U{c0}' <= c <= '\U{de}' && c != '\U{d7}')
  }

  /** Lower-case letters with a one-character upper-case partner: ASCII and Latin-1. */
  predicate IsLower(c: char) {
    ('a' <= c <= 'z') || ('\U{e0}' <= c <= '\U{fe}' && c != '\U{f7}')
  }

  predicate IsCased(c: char) {
    IsUpper(c) || IsLower(c)
  }

  function LowerChar(c: char): (d: char)
    ensures IsCased(c) <==> IsCased(d)
    ensures !IsLower(c) ==> !IsUpper(d)
  {
    if IsUpper(c) then (c as int + 32) as char else c
  }

  function UpperChar(c: char): (d: char)
    ensures IsCased(c) <==> IsCased(d)
  {
    if IsLower(c) then (c as int - 32) as char else c
  }

  /** Python's `str.lower()`. */
  function Lower(s: string): (r: string)
    ensures |r| == |s|
    ensures forall i :: 0 <= i < |s| ==> r[i] == LowerChar(s[i])
  {
    seq(|s|, i requires 0 <= i < |s| => LowerChar(s[i]))
  }

  /** `Lower` leaves no upper-case letter behind. */
  lemma LowerIsLower(s: string)
    ensures forall i :: 0 <= i < |Lower(s)| ==> !IsUpper(Lower(s)[i])
  {
  }

  function TitleFrom(s: string, prevCased: bool): (r: string)
    ensures |r| == |s|
    ensures forall i :: 0 <= i < |s| ==> (IsCased(r[i]) <==> IsCased(s[i]))
    ensures forall i :: 0 <= i < |s| && !IsCased(s[i]) ==> r[i] == s[i]
  {
    if s == [] then []
    else
      var c := s[0];
      var cased := IsCased(c);
      var d := if !cased then c else if prevCased then LowerChar(c) else UpperChar(c);
      var r := [d] + TitleFrom(s[1..], cased);
      assert forall i :: 0 < i < |s| ==> r[i] == TitleFrom(s[1..], cased)[i - 1] && s[i] == s[1..][i - 1];
      r
  }

  /** Python's `str.title()`: the first cased character of each run of cased characters is
      upper-cased, the others lower-cased; every other character is kept. */
  function Title(s: string): (r: string)
    ensures |r| == |s|
    ensures forall i :: 0 <= i < |s| ==> (IsSpace(r[i]) <==> IsSpace(s[i]))
  {
    var r := TitleFrom(s, false);
    assert forall i :: 0 <= i < |s| && IsSpace(s[i]) ==> !IsCased(s[i]);
    assert forall i :: 0 <= i < |s| && IsCased(s[i]) ==> !IsSpace(r[i]);
    r
  }

  lemma TitleKeepsTrimmed(s: string)
    requires Trimmed(s)
    ensures Trimmed(Title(s))
  {
  }

  lemma TitleKeepsWordShape(s: string)
    requires IsWord(s)
    ensures IsWord(Title(s))
  {
  }

  // ------------------------------------------------------------ decimal numbers

  predicate IsDigit(c: char) {
    '0' <= c <= '9'
  }

  function DigitChar(d: nat): (c: char)
    requires d < 10
    ensures IsDigit(c)
  {
    ('0' as int + d) as char
  }

  /** Python's `str(n)` for a natural number. */
  function NatToString(n: nat): (s: string)
    ensures |s| > 0
    ensures forall i :: 0 <= i < |s| ==> IsDigit(s[i])
    ensures n > 0 ==> s[0] != '0'
  {
    if n < 10 then [DigitChar(n)] else NatToString(n / 10) + [DigitChar(n % 10)]
  }

  /** Python's `str(i)` for an integer. */
  function IntToString(i: int): string {
    if i < 0 then "-" + NatToString(-i) else NatToString(i)
  }

  /** The value of a string of decimal digits. */
  function DigitsValue(s: string): nat
    requires forall i :: 0 <= i < |s| ==> IsDigit(s[i])
  {
    if s == [] then 0
    else
      assert IsDigit(s[|s| - 1]);
      10 * DigitsValue(s[..|s| - 1]) + (s[|s| - 1] as int - '0' as int)
  }

  predicate AllDigits(s: string) {
    |s| > 0 && forall i :: 0 <= i < |s| ==> IsDigit(s[i])
  }

  /** Python's `int(s)` on ASCII decimal text: surrounding whitespace, an optional sign,
      one or more digits; anything else raises, modelled as `None`. */
  function ParseInt(s: string): Option<int> {
    var t := Strip(s);
    if |t| > 0 && (t[0] == '-' || t[0] == '+') then
      match UnsignedValue(t[1..])
      case None => None
      case Some(v) =>
        var n: int := v;
        Some(if t[0] == '-' then -n else n)
    else
      match UnsignedValue(t)
      case None => None
      case Some(v) => Some(v)
  }

  /** The value of one or more decimal digits; `None` for anything else. */
  function UnsignedValue(u: string): (r: Option<nat>)
    ensures r.Some? <==> AllDigits(u)
  {
    if AllDigits(u) then Some(DigitsValue(u)) else None
  }

  lemma {:induction false} NatToStringValue(n: nat)
    ensures DigitsValue(NatToString(n)) == n
  {
    var s := NatToString(n);
    if n >= 10 {
      NatToStringValue(n / 10);
      assert s[..|s| - 1] == NatToString(n / 10);
    }
  }

  /** `int(str(i)) == i`. */
  lemma ParseDigits(d: string)
    requires AllDigits(d)
    ensures ParseInt(d) == Some(DigitsValue(d) as int)
  {
    assert !IsSpace(d[0]) && !IsSpace(d[|d| - 1]);
    StripOfTrimmed(d);
    assert d[0] != '-' && d[0] != '+';
  }

  lemma ParseNegatedDigits(s: string, d: string)
    requires s == "-" + d && AllDigits(d)
    ensures ParseInt(s) == Some(-(DigitsValue(d) as int))
  {
    assert s[1..] == d;
    assert !IsSpace(s[0]) && s[|s| - 1] == d[|d| - 1];
    StripOfTrimmed(s);
    assert UnsignedValue(s[1..]) == Some(DigitsValue(d));
  }

  lemma IntToStringRoundTrip(i: int)
    ensures ParseInt(IntToString(i)) == Some(i)
  {
    var n: nat := if i < 0 then -i else i;
    var d := NatToString(n);
    NatToStringValue(n);
    if i < 0 {
      assert IntToString(i) == "-" + d;
      ParseNegatedDigits(IntToString(i), d);
    } else {
      assert IntToString(i) == d;
      ParseDigits(d);
    }
  }
}
