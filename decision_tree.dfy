/** The decision cache of decision_tree.py: a table of rows
    (id, feedback label, guess, parent id) and the id of the current node.
    `get_node` looks up the child of the current node under the feedback
    label (or the row with id 1 when there is no feedback), moves to it and
    returns its guess; on a miss it asks the solver for a guess once,
    appends a row for it and moves to the new row.

    The SQLite table is a sequence of rows in insertion order; a `SELECT`
    answers with the first matching row. The solver's `make_guess` is an
    oracle: its k-th call returns `oracle(k)`, and `calls` counts the calls. */
module DecisionTree {
  import opened Common
  import opened Feedback

  /** One row of the table; `feedback` is `None` for the SQL NULL stored when
      there was no feedback. */
  datatype Row = Row(id: nat, feedback: Option<string>, guess: Word, pid: nat)

  /** The table, the current node id and the number of oracle calls. */
  datatype Tree = Tree(rows: seq<Row>, id: nat, calls: nat)

  /* ---------------------------------------------------------------------
     The feedback label `''.join(map(str, feedback))`.
     --------------------------------------------------------------------- */

  function DigitChar(d: nat): char
    requires d < 10
  {
    ('0' as int + d) as char
  }

  /** Decimal digits of a natural number, as `str` writes them. */
  function Digits(n: nat): (s: string)
    ensures |s| > 0
    decreases n
  {
    if n < 10 then [DigitChar(n)] else Digits(n / 10) + [DigitChar(n % 10)]
  }

  /** `str(n)` for an integer. */
  function Str(n: int): string
  {
    if n < 0 then "-" + Digits(-n) else Digits(n)
  }

  /** `''.join(map(str, feedback))` */
  function Label(f: seq<int>): string
  {
    if f == [] then "" else Str(f[0]) + Label(f[1..])
  }

  /** Over the codes -1, 0 and 1 the label spends one character per code and
      one more per -1. */
  lemma {:induction false} LabelLength(f: seq<int>)
    requires ValidCodes(f)
    ensures |Label(f)| == |f| + Occ(f, -1)
  {
    if f != [] {
      LabelLength(f[1..]);
      assert f == [f[0]] + f[1..];
      OccAppend([f[0]], f[1..], -1);
      assert Occ([f[0]], -1) == CountIn([f[0]], -1, 0) + (if f[0] == -1 then 1 else 0);
    }
  }

  /** The strings "-1", "0" and "1" form a prefix code, so the label of
      a sequence of codes determines the sequence. */
  lemma {:induction false} LabelInjective(f: seq<int>, g: seq<int>)
    requires ValidCodes(f) && ValidCodes(g) && Label(f) == Label(g)
    ensures f == g
  {
    if f != [] && g != [] {
      var a, b := Str(f[0]), Str(g[0]);
      assert Label(f) == a + Label(f[1..]) && Label(g) == b + Label(g[1..]);
      assert Label(f)[0] == a[0] && Label(g)[0] == b[0];
      assert f[0] == g[0];
      assert Label(f[1..]) == Label(f)[|a|..];
      LabelInjective(f[1..], g[1..]);
      assert f == [f[0]] + f[1..] && g == [g[0]] + g[1..];
    }
  }

  /* ---------------------------------------------------------------------
     Lookup and one call of `get_node`.
     --------------------------------------------------------------------- */

  /** Ids as AUTOINCREMENT hands them out to a table whose rows are never
      deleted: 1, 2, 3, ... in insertion order. */
  predicate IdsInOrder(rows: seq<Row>)
  {
    forall k :: 0 <= k < |rows| ==> rows[k].id == k + 1
  }

  /** For every non-empty label, a parent has at most one child with it. */
  predicate UniqueChildren(rows: seq<Row>)
  {
    forall i, j :: 0 <= i < j < |rows| && rows[i].feedback.Some? && rows[i].feedback == rows[j].feedback ==> rows[i].pid != rows[j].pid
  }

  predicate ValidTable(rows: seq<Row>)
  {
    IdsInOrder(rows) && UniqueChildren(rows)
  }

  /** Index of the first row satisfying the `WHERE` clause of the query: the
      row with id 1 when the feedback is empty (Python treats it as false),
      otherwise the row with parent `id` and the label of the feedback. */
  function Lookup(rows: seq<Row>, id: nat, feedback: seq<int>): (r: Option<nat>)
    ensures r.Some? ==> r.value < |rows|
    ensures r.Some? ==> Matches(rows[r.value], id, feedback) && forall k :: 0 <= k < r.value ==> !Matches(rows[k], id, feedback)
    ensures r.None? ==> forall k :: 0 <= k < |rows| ==> !Matches(rows[k], id, feedback)
  {
    if rows == [] then None
    else if Matches(rows[0], id, feedback) then Some(0)
    else match Lookup(rows[1..], id, feedback)
      case None => None
      case Some(k) => Some(k + 1)
  }

  predicate Matches(row: Row, id: nat, feedback: seq<int>)
  {
    if feedback == [] then row.id == 1 else row.pid == id && row.feedback == Some(Label(feedback))
  }

  /** The id AUTOINCREMENT gives the next row: one more than the last. */
  function NextId(rows: seq<Row>): nat
  {
    if rows == [] then 1 else rows[|rows| - 1].id + 1
  }

  /** One call `get_node(make_guess, feedback)`: the new state and the guess
      returned. A hit moves to the row found; a miss calls the oracle, stores
      the feedback label (NULL when there is none) under the current node
      and moves to the new row. */
  function Step(t: Tree, feedback: seq<int>, oracle: nat -> Word): (Tree, Word)
  {
    match Lookup(t.rows, t.id, feedback)
    case Some(k) => (Tree(t.rows, t.rows[k].id, t.calls), t.rows[k].guess)
    case None =>
      var guess := oracle(t.calls);
      var stored := if feedback == [] then None else Some(Label(feedback));
      var id := NextId(t.rows);
      (Tree(t.rows + [Row(id, stored, guess, t.id)], id, t.calls + 1), guess)
  }

  /** A hit leaves the table and the oracle alone and returns the stored
      guess; a miss calls the oracle exactly once and appends exactly one row
      whose id is larger than every id before it. Existing rows are never
      changed. */
  lemma StepFacts(t: Tree, feedback: seq<int>, oracle: nat -> Word)
    requires ValidTable(t.rows)
    ensures var (t', guess) := Step(t, feedback, oracle);
      t.rows <= t'.rows && |t'.rows| <= |t.rows| + 1 &&
      (Lookup(t.rows, t.id, feedback).Some? <==> t'.calls == t.calls) &&
      (Lookup(t.rows, t.id, feedback).Some? ==> t'.rows == t.rows && guess == t.rows[Lookup(t.rows, t.id, feedback).value].guess) &&
      (Lookup(t.rows, t.id, feedback).None? ==>
        (t'.calls == t.calls + 1 && guess == oracle(t.calls) &&
         |t'.rows| == |t.rows| + 1 && t'.id == t'.rows[|t.rows|].id && t'.rows[|t.rows|].pid == t.id &&
         forall k :: 0 <= k < |t.rows| ==> t.rows[k].id < t'.id))
  {
  }

  /** Every call keeps ids in insertion order and children unique. */
  lemma StepValid(t: Tree, feedback: seq<int>, oracle: nat -> Word)
    requires ValidTable(t.rows)
    ensures ValidTable(Step(t, feedback, oracle).0.rows)
  {
    var rows := Step(t, feedback, oracle).0.rows;
    if Lookup(t.rows, t.id, feedback).None? {
      forall i, j | 0 <= i < j < |rows| && rows[i].feedback.Some? && rows[i].feedback == rows[j].feedback
        ensures rows[i].pid != rows[j].pid
      {
        if j == |t.rows| {
          assert !Matches(t.rows[i], t.id, feedback);
        }
      }
    }
  }

  /** A lookup that succeeds on a table keeps its answer on every longer
      table with those rows first. */
  lemma LookupExtend(rows: seq<Row>, more: seq<Row>, id: nat, feedback: seq<int>)
    requires rows <= more && Lookup(rows, id, feedback).Some?
    ensures Lookup(more, id, feedback) == Lookup(rows, id, feedback)
  {
    var k := Lookup(rows, id, feedback).value;
    var m := Lookup(more, id, feedback);
    assert more[k] == rows[k];
  }

  /* ---------------------------------------------------------------------
     Traversals.
     --------------------------------------------------------------------- */

  /** A traversal: one `get_node` call per feedback, in order. */
  function Run(t: Tree, fs: seq<seq<int>>, oracle: nat -> Word): (Tree, seq<Word>)
    decreases |fs|
  {
    if fs == [] then (t, [])
    else
      var (t1, guess) := Step(t, fs[0], oracle);
      var (t2, guesses) := Run(t1, fs[1..], oracle);
      (t2, [guess] + guesses)
  }

  /** A traversal keeps the table valid, only appends rows, and returns one
      guess per call. */
  lemma {:induction false} RunFacts(t: Tree, fs: seq<seq<int>>, oracle: nat -> Word)
    requires ValidTable(t.rows)
    ensures ValidTable(Run(t, fs, oracle).0.rows) && t.rows <= Run(t, fs, oracle).0.rows
    ensures |Run(t, fs, oracle).1| == |fs|
    decreases |fs|
  {
    if fs != [] {
      StepValid(t, fs[0], oracle);
      StepFacts(t, fs[0], oracle);
      RunFacts(Step(t, fs[0], oracle).0, fs[1..], oracle);
    }
  }

  /** Starting from the same node over any table that extends the one a
      traversal left, the same feedback sequence finds every node the
      traversal visited or created: same guesses, same final node, no new
      rows and no oracle calls. */
  lemma {:induction false} ReplayOver(t: Tree, fs: seq<seq<int>>, oracle: nat -> Word, rows: seq<Row>, calls: nat)
    requires ValidTable(t.rows) && Run(t, fs, oracle).0.rows <= rows
    ensures Run(Tree(rows, t.id, calls), fs, oracle) == (Tree(rows, Run(t, fs, oracle).0.id, calls), Run(t, fs, oracle).1)
    decreases |fs|
  {
    if fs != [] {
      var (t1, guess) := Step(t, fs[0], oracle);
      StepValid(t, fs[0], oracle);
      StepFacts(t, fs[0], oracle);
      RunFacts(t1, fs[1..], oracle);
      if Lookup(t.rows, t.id, fs[0]).None? {
        assert Lookup(t1.rows, t.id, fs[0]) == Some(|t.rows|) by {
          assert Matches(t1.rows[|t.rows|], t.id, fs[0]);
        }
      }
      LookupExtend(t1.rows, rows, t.id, fs[0]);
      assert Step(Tree(rows, t.id, calls), fs[0], oracle) == (Tree(rows, t1.id, calls), guess);
      ReplayOver(t1, fs[1..], oracle, rows, calls);
    }
  }

  /** Replay: a second traversal from the same node with the same feedback
      sequence returns the same guesses and calls the oracle zero times. */
  lemma Replay(t: Tree, fs: seq<seq<int>>, oracle: nat -> Word)
    requires ValidTable(t.rows)
    ensures var (first, guesses) := Run(t, fs, oracle);
      Run(Tree(first.rows, t.id, first.calls), fs, oracle) == (first, guesses)
  {
    RunFacts(t, fs, oracle);
    ReplayOver(t, fs, oracle, Run(t, fs, oracle).0.rows, Run(t, fs, oracle).0.calls);
  }

  /* ---------------------------------------------------------------------
     The object.
     --------------------------------------------------------------------- */

  class TreeDB {
    const name: string
    var rows: seq<Row>
    var id: nat
    var calls: nat

    ghost predicate Valid()
      reads this
    {
      ValidTable(rows)
    }

    /** `TreeDB.__init__` on a table that already holds `rows` (empty when
        the table is new): the current node is 0, above the root. */
    constructor (name: string, rows: seq<Row>)
      requires ValidTable(rows)
      ensures Valid() && this.name == name && this.rows == rows && id == 0 && calls == 0
    {
      this.name := name;
      this.rows := rows;
      id := 0;
      calls := 0;
    }

    /** `TreeDB.get_node(make_guess, feedback)`. */
    method GetNode(oracle: nat -> Word, feedback: seq<int>) returns (guess: Word)
      requires Valid()
      modifies this
      ensures Valid()
      ensures (Tree(rows, id, calls), guess) == Step(Tree(old(rows), old(id), old(calls)), feedback, oracle)
    {
      StepValid(Tree(rows, id, calls), feedback, oracle);
      var found := Lookup(rows, id, feedback);
      if found.Some? {
        id := rows[found.value].id;
        return rows[found.value].guess;
      }
      guess := oracle(calls);
      calls := calls + 1;
      var stored := if feedback == [] then None else Some(Label(feedback));
      var newId := NextId(rows);
      rows := rows + [Row(newId, stored, guess, id)];
      id := newId;
    }
  }
}
