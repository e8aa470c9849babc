/**
 * The relational store behind the API, with the database abstracted as append-only
 * tables. Rows are never physically deleted in the code modelled here (deletion is a
 * soft `activo = False`) and keys are serial, so a table is a sequence whose row at
 * index `i` has primary key `i + 1`; a fresh key is the table length plus one.
 * Timestamps are abstract naturals: only their order matters.
 */
module Store {
  import opened Wrappers

  type Time = nat

  /** `usuarios` row. `role` is the stored text (`"user"` or `"admin"`). */
  datatype User = User(username: string, email: string, passwordHash: string, role: string,
                       registered: Time, active: bool)

  /** `conversaciones` row. */
  datatype Conversation = Conversation(owner: int, title: Option<string>, started: Time,
                                       lastActivity: Time, active: bool)

  /** `mensajes` row. `role` is `"user"` or `"assistant"`. */
  datatype Message = Message(conversation: int, role: string, content: string,
                             sql: Option<string>, timestamp: Time)

  /** `terminos_excluidos` row. */
  datatype ExcludedTerm = ExcludedTerm(owner: int, term: string, active: bool, created: Time)

  /** `configuraciones_prompt` row. */
  datatype PromptConfig = PromptConfig(context: string, systemPrompt: string, createdBy: int,
                                       modified: Time, active: bool)

  /** The application's tables. */
  datatype Db = Db(users: seq<User>, conversations: seq<Conversation>, messages: seq<Message>,
                   terms: seq<ExcludedTerm>, configs: seq<PromptConfig>)

  /** A row together with its primary key, as a query returns it. */
  datatype Keyed<T> = Keyed(id: int, row: T)

  // ------------------------------------------------------------ key access

  predicate HasKey<T>(t: seq<T>, id: int) {
    1 <= id <= |t|
  }

  /** `db.query(...).filter(X.id == id).first()` without further conditions. */
  function Get<T>(t: seq<T>, id: int): (r: Option<T>)
    ensures r.Some? <==> HasKey(t, id)
  {
    if HasKey(t, id) then Some(t[id - 1]) else None
  }

  /** `db.add(row); db.commit()`: the new row receives the next serial key. */
  function Insert<T>(t: seq<T>, row: T): (r: seq<T>)
    ensures |r| == |t| + 1
  {
    t + [row]
  }

  /** Overwriting the row stored under an existing key. */
  function Put<T>(t: seq<T>, id: int, row: T): (r: seq<T>)
    requires HasKey(t, id)
    ensures |r| == |t|
  {
    t[id - 1 := row]
  }

  /** An inserted row is found under the fresh key, and every other key keeps its row. */
  lemma GetInsert<T>(t: seq<T>, row: T, id: int)
    ensures Get(Insert(t, row), |t| + 1) == Some(row)
    ensures id != |t| + 1 ==> Get(Insert(t, row), id) == Get(t, id)
  {
  }

  /** An overwritten row is found under its key, and every other key keeps its row. */
  lemma GetPut<T>(t: seq<T>, id: int, row: T, other: int)
    requires HasKey(t, id)
    ensures Get(Put(t, id, row), id) == Some(row)
    ensures other != id ==> Get(Put(t, id, row), other) == Get(t, other)
  {
  }

  /** Every row of a table together with its key, in key order. */
  function Entries<T>(t: seq<T>): (r: seq<Keyed<T>>)
    ensures |r| == |t|
    ensures forall i :: 0 <= i < |r| ==> r[i].id == i + 1 && r[i].row == t[i]
  {
    seq(|t|, i requires 0 <= i < |t| => Keyed(i + 1, t[i]))
  }

  /** The keyed entries are exactly the rows `Get` finds. */
  lemma EntriesAreRows<T>(t: seq<T>, e: Keyed<T>)
    ensures e in Entries(t) <==> Get(t, e.id) == Some(e.row)
  {
    if Get(t, e.id) == Some(e.row) {
      assert Entries(t)[e.id - 1] == e;
    }
  }

  // ------------------------------------------------------------ selection

  /** `.filter(p).all()`: the rows satisfying `p`, in their original order. */
  function Filter<T>(s: seq<T>, p: T -> bool): (r: seq<T>)
    ensures |r| <= |s|
  {
    if |s| == 0 then []
    else if p(s[0]) then [s[0]] + Filter(s[1..], p)
    else Filter(s[1..], p)
  }

  /** The selected rows are exactly the rows of `s` that satisfy `p`. */
  lemma {:induction false} FilterMembers<T>(s: seq<T>, p: T -> bool, x: T)
    ensures x in Filter(s, p) <==> x in s && p(x)
  {
    if |s| > 0 {
      FilterMembers(s[1..], p, x);
      assert s == [s[0]] + s[1..];
    }
  }

  /** Selections by conditions that agree on every row are the same. */
  lemma {:induction false} FilterSame<T>(s: seq<T>, p: T -> bool, q: T -> bool)
    requires forall i :: 0 <= i < |s| ==> p(s[i]) == q(s[i])
    ensures Filter(s, p) == Filter(s, q)
  {
    if |s| > 0 {
      assert forall i :: 0 <= i < |s[1..]| ==> s[1..][i] == s[i + 1];
      FilterSame(s[1..], p, q);
    }
  }

  /** Selection distributes over concatenation. */
  lemma {:induction false} FilterAppend<T>(a: seq<T>, b: seq<T>, p: T -> bool)
    ensures Filter(a + b, p) == Filter(a, p) + Filter(b, p)
  {
    if |a| == 0 {
      assert a + b == b;
    } else {
      assert (a + b)[1..] == a[1..] + b;
      FilterAppend(a[1..], b, p);
    }
  }

  /** `r` can be obtained from `s` by deleting elements: its elements occur in `s`, in the
      same order. */
  predicate Subsequence<T(==)>(r: seq<T>, s: seq<T>)
    decreases |s|
  {
    |r| == 0 || (|s| > 0 && ((r[0] == s[0] && Subsequence(r[1..], s[1..])) || Subsequence(r, s[1..])))
  }

  /** Selection keeps the order of the rows it keeps. */
  lemma {:induction false} FilterSubsequence<T>(s: seq<T>, p: T -> bool)
    ensures Subsequence(Filter(s, p), s)
  {
    if |s| > 0 {
      FilterSubsequence(s[1..], p);
    }
  }

  /** `.filter(p).first()` in key order: the earliest row satisfying `p`. */
  function First<T>(s: seq<T>, p: T -> bool): (r: Option<T>)
  {
    if |s| == 0 then None
    else if p(s[0]) then Some(s[0])
    else First(s[1..], p)
  }

  /** `First` finds a row exactly when one satisfies the condition, and it is the earliest. */
  lemma {:induction false} FirstSpec<T>(s: seq<T>, p: T -> bool)
    ensures First(s, p).None? <==> forall i :: 0 <= i < |s| ==> !p(s[i])
    ensures First(s, p).Some? ==> exists i :: 0 <= i < |s| && s[i] == First(s, p).value && p(s[i])
                                    && forall j :: 0 <= j < i ==> !p(s[j])
  {
    if |s| > 0 && !p(s[0]) {
      FirstSpec(s[1..], p);
      if First(s, p).Some? {
        var i :| 0 <= i < |s[1..]| && s[1..][i] == First(s[1..], p).value && p(s[1..][i])
                 && forall j :: 0 <= j < i ==> !p(s[1..][j]);
        assert s[i + 1] == First(s, p).value;
        assert forall j :: 0 <= j < i + 1 ==> !p(s[j]) by {
          forall j | 0 <= j < i + 1 ensures !p(s[j]) {
            if j > 0 {
              assert s[j] == s[1..][j - 1];
            }
          }
        }
      } else {
        forall i | 0 <= i < |s| ensures !p(s[i]) {
          if i > 0 {
            assert s[i] == s[1..][i - 1];
          }
        }
      }
    }
  }

  // ------------------------------------------------------------ ordering

  predicate SortedBy<T>(s: seq<T>, key: T -> int) {
    forall i, j :: 0 <= i < j < |s| ==> key(s[i]) <= key(s[j])
  }

  function InsertBy<T>(x: T, s: seq<T>, key: T -> int): (r: seq<T>)
    ensures |r| == |s| + 1
  {
    if |s| == 0 || key(x) <= key(s[0]) then [x] + s
    else [s[0]] + InsertBy(x, s[1..], key)
  }

  /** `.order_by(key)`: the rows in ascending order of `key` (the database's tie order is
      unspecified, and so is this one's). */
  function SortBy<T>(s: seq<T>, key: T -> int): (r: seq<T>)
    ensures |r| == |s|
  {
    if |s| == 0 then [] else InsertBy(s[0], SortBy(s[1..], key), key)
  }

  /** Every key in `s` is at least `lo`. */
  predicate Bounded<T>(lo: int, s: seq<T>, key: T -> int) {
    forall i :: 0 <= i < |s| ==> lo <= key(s[i])
  }

  lemma SortedCons<T>(a: T, s: seq<T>, key: T -> int)
    requires SortedBy(s, key) && Bounded(key(a), s, key)
    ensures SortedBy([a] + s, key)
  {
    forall i, j | 0 <= i < j < |[a] + s| ensures key(([a] + s)[i]) <= key(([a] + s)[j]) {
      assert ([a] + s)[j] == s[j - 1];
      if i > 0 {
        assert ([a] + s)[i] == s[i - 1];
      }
    }
  }

  lemma {:induction false} InsertByBounded<T>(lo: int, x: T, s: seq<T>, key: T -> int)
    requires lo <= key(x) && Bounded(lo, s, key)
    ensures Bounded(lo, InsertBy(x, s, key), key)
  {
    if |s| > 0 && key(x) > key(s[0]) {
      InsertByBounded(lo, x, s[1..], key);
      var r := InsertBy(x, s[1..], key);
      assert InsertBy(x, s, key) == [s[0]] + r;
      assert forall i :: 1 <= i < |r| + 1 ==> ([s[0]] + r)[i] == r[i - 1];
    }
  }

  lemma {:induction false} InsertBySorted<T>(x: T, s: seq<T>, key: T -> int)
    requires SortedBy(s, key)
    ensures SortedBy(InsertBy(x, s, key), key)
  {
    if |s| > 0 && key(x) > key(s[0]) {
      assert SortedBy(s[1..], key) && Bounded(key(s[0]), s[1..], key) by {
        assert forall i :: 0 <= i < |s| - 1 ==> s[1..][i] == s[i + 1];
      }
      InsertBySorted(x, s[1..], key);
      InsertByBounded(key(s[0]), x, s[1..], key);
      SortedCons(s[0], InsertBy(x, s[1..], key), key);
    } else {
      SortedCons(x, s, key);
    }
  }

  lemma {:induction false} InsertByPermutes<T>(x: T, s: seq<T>, key: T -> int)
    ensures multiset(InsertBy(x, s, key)) == multiset(s) + multiset{x}
  {
    if |s| > 0 && key(x) > key(s[0]) {
      InsertByPermutes(x, s[1..], key);
      assert s == [s[0]] + s[1..];
    }
  }

  /** Inserting into an ordered sequence keeps it ordered and adds exactly the new row. */
  lemma InsertBySpec<T>(x: T, s: seq<T>, key: T -> int)
    requires SortedBy(s, key)
    ensures SortedBy(InsertBy(x, s, key), key)
    ensures multiset(InsertBy(x, s, key)) == multiset(s) + multiset{x}
  {
    InsertBySorted(x, s, key);
    InsertByPermutes(x, s, key);
  }

  /** Sorting yields an ordered permutation of its input. */
  lemma SortBySpec<T>(s: seq<T>, key: T -> int)
    ensures SortedBy(SortBy(s, key), key)
    ensures multiset(SortBy(s, key)) == multiset(s)
  {
    SortBySorted(s, key);
    SortByPermutes(s, key);
  }

  lemma {:induction false} SortBySorted<T>(s: seq<T>, key: T -> int)
    ensures SortedBy(SortBy(s, key), key)
  {
    if |s| > 0 {
      SortBySorted(s[1..], key);
      InsertBySorted(s[0], SortBy(s[1..], key), key);
    }
  }

  lemma {:induction false} SortByPermutes<T>(s: seq<T>, key: T -> int)
    ensures multiset(SortBy(s, key)) == multiset(s)
  {
    if |s| > 0 {
      SortByPermutes(s[1..], key);
      InsertByPermutes(s[0], SortBy(s[1..], key), key);
      assert s == [s[0]] + s[1..];
    }
  }

  /** The first row of a sorted non-empty sequence is one of its rows, with the least key. */
  lemma SortByFirst<T>(s: seq<T>, key: T -> int)
    requires |s| > 0
    ensures SortBy(s, key)[0] in s
    ensures forall x :: x in s ==> key(SortBy(s, key)[0]) <= key(x)
  {
    SortBySpec(s, key);
    var r := SortBy(s, key);
    assert r[0] in multiset(s);
    forall x | x in s ensures key(r[0]) <= key(x) {
      assert x in multiset(r);
      var j :| 0 <= j < |r| && r[j] == x;
      assert j == 0 || key(r[0]) <= key(r[j]);
    }
  }

  /** `.offset(skip).limit(limit)`: at most `limit` rows starting at position `skip`. */
  function Page<T>(s: seq<T>, skip: nat, limit: nat): (r: seq<T>)
    ensures |r| == Min(limit, if skip <= |s| then |s| - skip else 0)
    ensures forall i :: 0 <= i < |r| ==> r[i] == s[skip + i]
  {
    if skip >= |s| then []
    else s[skip..skip + Min(limit, |s| - skip)]
  }
}
