/**
 The count-merge operator (CountMergeOperator.java): it pulls one block from
 each child operator and reduces the partial counts into one result block.
 The mode is chosen by the kind of the first child: a node-time-series-count
 child means grouped-by-level, any other child means a flat sum.

 The folds are given twice: as reference functions (`Readings`, `AllEntries`,
 `Accumulate`, with the exact sums `Sum` and `KeyTotal` as their meaning) and
 as methods that follow the Java loops and are proved to agree with them.
 */
module CountMerge {
  import opened JavaInt
  import opened TsBlocks

  /** What mode selection can see of a child: whether it is a NodeTimeSeriesCountOperator. */
  datatype ChildKind = NodeTimeSeriesCount | OtherOperator

  /** A child operator: its kind and what its one `next()` call yields (a block or a failure). */
  datatype Child = Child(kind: ChildKind, output: Result<TsBlock>)

  /** The operator's own state; plan-node id and operator context are opaque and left out. */
  datatype CountMergeOperator = CountMergeOperator(children: seq<Child>, isFinished: bool)

  /** A freshly constructed operator: Java's `isFinished` field starts out false. */
  function Create(children: seq<Child>): (op: CountMergeOperator)
    ensures op.children == children
    ensures HasNext(op) && !IsFinished(op)
  {
    CountMergeOperator(children, false)
  }

  predicate HasNext(op: CountMergeOperator)
  {
    !op.isFinished
  }

  predicate IsFinished(op: CountMergeOperator)
  {
    op.isFinished
  }

  /**
   Children were pulled once each, in list order, starting from the first;
   all of them when the merge completed, and up to the failing one otherwise.
   */
  predicate PulledInOrder(pulled: seq<nat>, n: nat, completed: bool)
  {
    && (forall k :: 0 <= k < |pulled| ==> pulled[k] == k)
    && |pulled| <= n
    && (completed ==> |pulled| == n)
    && (!completed ==> |pulled| > 0)
  }

  // ---------------------------------------------------------------------------
  // Flat-sum mode (nextWithoutGroupByLevel)
  // ---------------------------------------------------------------------------

  /** The single-column INT32 schema of the flat result. */
  const FlatTypes: seq<DataType> := [INT32]

  /** The scalar count a child contributes: column 0, position 0 of its block. */
  function ReadScalar(c: Child): Result<int32>
  {
    var b :- c.output;
    GetInt(b, 0, 0)
  }

  /** The exact (unbounded) sum of a sequence of counts. */
  function Sum(xs: seq<int32>): int
  {
    if |xs| == 0 then 0 else Sum(xs[..|xs| - 1]) + xs[|xs| - 1] as int
  }

  /**
   The scalar counts of all children in list order, or the failure of the
   first child whose pull or read fails.
   */
  function Readings(cs: seq<Child>): Result<seq<int32>>
  {
    if |cs| == 0 then Ok([])
    else
      var rs :- Readings(cs[..|cs| - 1]);
      var x :- ReadScalar(cs[|cs| - 1]);
      Ok(rs + [x])
  }

  /** The readings succeed exactly when every child's read does, and then list those counts in order. */
  lemma {:induction false} ReadingsMeaning(cs: seq<Child>)
    ensures Readings(cs).Ok? <==> forall i :: 0 <= i < |cs| ==> ReadScalar(cs[i]).Ok?
    ensures Readings(cs).Ok? ==>
              && |Readings(cs).value| == |cs|
              && forall i :: 0 <= i < |cs| ==> ReadScalar(cs[i]) == Ok(Readings(cs).value[i])
  {
    if |cs| > 0 {
      var front := cs[..|cs| - 1];
      ReadingsMeaning(front);
      assert forall i :: 0 <= i < |front| ==> front[i] == cs[i];
    }
  }

  /** The one-row flat result: time 0, a single INT32 value. */
  function FlatBlock(total: int32): (b: TsBlock)
    ensures WellFormed(b) && b.types == FlatTypes && PositionCount(b) == 1
    ensures GetInt(b, 0, 0) == Ok(total) && b.rows[0].time == 0
  {
    TsBlock(FlatTypes, [Row(0, [Int32V(total)])])
  }

  /** What flat-sum mode yields: the wrapped sum of the children's counts, or the first failure. */
  function FlatResult(cs: seq<Child>): Result<TsBlock>
  {
    var rs :- Readings(cs);
    Ok(FlatBlock(Wrap(Sum(rs))))
  }

  /**
   When child i yields count xs[i] for every i, flat mode yields one row
   holding the Java `int` wrap of their exact sum.
   */
  lemma FlatResultOfCounts(cs: seq<Child>, xs: seq<int32>)
    requires |xs| == |cs| && forall i :: 0 <= i < |cs| ==> ReadScalar(cs[i]) == Ok(xs[i])
    ensures FlatResult(cs) == Ok(FlatBlock(Wrap(Sum(xs))))
  {
    ReadingsMeaning(cs);
    assert Readings(cs).value == xs;
  }

  /**
   When child f is the first whose pull or read fails, flat mode fails with
   that child's failure, whatever the children after it hold.
   */
  lemma FlatResultOfFirstFailure(cs: seq<Child>, f: nat)
    requires f < |cs| && ReadScalar(cs[f]).Err?
    requires forall i :: 0 <= i < f ==> ReadScalar(cs[i]).Ok?
    ensures FlatResult(cs) == Err(ReadScalar(cs[f]).error)
  {
    ReadingsMeaning(cs[..f]);
    ReadingsStep(cs, f);
    ReadingsPrefixFails(cs, f + 1);
  }

  /** A flat sum over no children is a single row holding 0. */
  lemma FlatResultOfNoChildren()
    ensures FlatResult([]) == Ok(FlatBlock(0))
  {
  }

  /** Three children yielding 5, 7 and 2 give one row holding 14. */
  lemma FlatResultExample(a: TsBlock, b: TsBlock, c: TsBlock)
    requires a == FlatBlock(5) && b == FlatBlock(7) && c == FlatBlock(2)
    ensures FlatResult([Child(OtherOperator, Ok(a)), Child(OtherOperator, Ok(b)), Child(OtherOperator, Ok(c))])
            == Ok(FlatBlock(14))
  {
    var cs := [Child(OtherOperator, Ok(a)), Child(OtherOperator, Ok(b)), Child(OtherOperator, Ok(c))];
    assert ReadScalar(cs[0]) == Ok(5) && ReadScalar(cs[1]) == Ok(7) && ReadScalar(cs[2]) == Ok(2);
    ReadingsMeaning(cs);
    var rs := Readings(cs).value;
    assert rs == [5, 7, 2];
    assert rs[..2] == [5, 7] && rs[..2][..1] == [5] && rs[..2][..1][..0] == [];
    assert Sum([5]) == 5;
    assert Sum([5, 7]) == 12;
    assert Sum(rs) == 14;
  }

  /**
   The flat-sum loop of nextWithoutGroupByLevel: pull each child in order, read
   its scalar, and add it to a Java `int` total.
   */
  method NextWithoutGroupByLevel(cs: seq<Child>) returns (out: Result<TsBlock>, pulled: seq<nat>)
    ensures out == FlatResult(cs)
    ensures PulledInOrder(pulled, |cs|, out.Ok?)
    ensures out.Err? ==> ReadScalar(cs[|pulled| - 1]) == Err(out.error)
    ensures out.Err? ==> Readings(cs[..|pulled| - 1]).Ok?
  {
    var totalCount: int32 := 0;
    pulled := [];
    var i := 0;
    while i < |cs|
      invariant 0 <= i <= |cs|
      invariant |pulled| == i && forall k :: 0 <= k < i ==> pulled[k] == k
      invariant Readings(cs[..i]).Ok?
      invariant totalCount == Wrap(Sum(Readings(cs[..i]).value))
    {
      pulled := pulled + [i];
      var count := ReadScalar(cs[i]);
      ReadingsStep(cs, i);
      if count.Err? {
        ReadingsPrefixFails(cs, i + 1);
        return Err(count.error), pulled;
      }
      SumStep(Readings(cs[..i]).value, count.value);
      totalCount := Add(totalCount, count.value);
      i := i + 1;
    }
    assert cs[..i] == cs;
    out := Ok(FlatBlock(totalCount));
  }

  /** Reading one more child extends the readings by its count, or fails with its failure. */
  lemma ReadingsStep(cs: seq<Child>, i: nat)
    requires i < |cs| && Readings(cs[..i]).Ok?
    ensures ReadScalar(cs[i]).Err? ==> Readings(cs[..i + 1]) == Err(ReadScalar(cs[i]).error)
    ensures ReadScalar(cs[i]).Ok? ==>
              Readings(cs[..i + 1]) == Ok(Readings(cs[..i]).value + [ReadScalar(cs[i]).value])
  {
    assert cs[..i + 1][..i] == cs[..i];
  }

  /** Adding one more count to a wrapped running total wraps the extended exact sum. */
  lemma SumStep(rs: seq<int32>, x: int32)
    ensures Add(Wrap(Sum(rs)), x) == Wrap(Sum(rs + [x]))
  {
    assert (rs + [x])[..|rs|] == rs;
    AddOfWrap(Sum(rs), x as int);
  }

  /** A failure among the first k children is the failure of the whole list. */
  lemma {:induction false} ReadingsPrefixFails(cs: seq<Child>, k: nat)
    requires k <= |cs| && Readings(cs[..k]).Err?
    ensures Readings(cs) == Readings(cs[..k])
    decreases |cs| - k
  {
    if k < |cs| {
      assert cs[..k + 1][..k] == cs[..k];
      assert Readings(cs[..k + 1]) == Readings(cs[..k]);
      ReadingsPrefixFails(cs, k + 1);
    } else {
      assert cs[..k] == cs;
    }
  }

  // ---------------------------------------------------------------------------
  // Grouped-by-level mode (nextWithGroupByLevel)
  // ---------------------------------------------------------------------------

  /** The TEXT-then-INT32 schema of the grouped result. */
  const GroupedTypes: seq<DataType> := [TEXT, INT32]

  /** One input row of grouped mode: a level key and its partial count. */
  datatype Entry = Entry(key: string, count: int32)

  /** Row `j` of a block read as (key from column 0, count from column 1), key first. */
  function ReadEntry(b: TsBlock, j: nat): Result<Entry>
  {
    var key :- GetText(b, 0, j);
    var count :- GetInt(b, 1, j);
    Ok(Entry(key, count))
  }

  /** The entries of the first n rows of a block, or the first row read that fails. */
  function BlockEntries(b: TsBlock, n: nat): Result<seq<Entry>>
    requires n <= PositionCount(b)
  {
    if n == 0 then Ok([])
    else
      var es :- BlockEntries(b, n - 1);
      var e :- ReadEntry(b, n - 1);
      Ok(es + [e])
  }

  /** The first n rows are read in position order; the entries succeed exactly when every read does. */
  lemma {:induction false} BlockEntriesMeaning(b: TsBlock, n: nat)
    requires n <= PositionCount(b)
    ensures BlockEntries(b, n).Ok? <==> forall j :: 0 <= j < n ==> ReadEntry(b, j).Ok?
    ensures BlockEntries(b, n).Ok? ==>
              && |BlockEntries(b, n).value| == n
              && forall j :: 0 <= j < n ==> ReadEntry(b, j) == Ok(BlockEntries(b, n).value[j])
  {
    if n > 0 {
      BlockEntriesMeaning(b, n - 1);
    }
  }

  /** Every entry a child contributes: all rows of the one block it yields. */
  function ChildEntries(c: Child): Result<seq<Entry>>
  {
    var b :- c.output;
    BlockEntries(b, PositionCount(b))
  }

  /** The entries of all children, child after child, or the first failure. */
  function AllEntries(cs: seq<Child>): Result<seq<Entry>>
  {
    if |cs| == 0 then Ok([])
    else
      var es :- AllEntries(cs[..|cs| - 1]);
      var e :- ChildEntries(cs[|cs| - 1]);
      Ok(es + e)
  }

  /** The grouped merge fails exactly when some child's pull or row read fails. */
  lemma {:induction false} AllEntriesMeaning(cs: seq<Child>)
    ensures AllEntries(cs).Ok? <==> forall i :: 0 <= i < |cs| ==> ChildEntries(cs[i]).Ok?
  {
    if |cs| > 0 {
      var front := cs[..|cs| - 1];
      AllEntriesMeaning(front);
      assert forall i :: 0 <= i < |front| ==> front[i] == cs[i];
    }
  }

  function GetOrDefault(m: map<string, int32>, k: string, d: int32): int32
  {
    if k in m then m[k] else d
  }

  /** One step of the accumulation: `countMap.put(key, countMap.getOrDefault(key, 0) + count)`. */
  function Put(m: map<string, int32>, e: Entry): map<string, int32>
  {
    m[e.key := Add(GetOrDefault(m, e.key, 0), e.count)]
  }

  /** The count map after putting every entry, in order, into an empty map. */
  function Accumulate(es: seq<Entry>): map<string, int32>
  {
    if |es| == 0 then map[] else Put(Accumulate(es[..|es| - 1]), es[|es| - 1])
  }

  /** The keys that occur in some entry. */
  function KeysOf(es: seq<Entry>): set<string>
  {
    set i | 0 <= i < |es| :: es[i].key
  }

  /** The exact (unbounded) total of the counts of every entry whose key is k. */
  function KeyTotal(es: seq<Entry>, k: string): int
  {
    if |es| == 0 then 0
    else KeyTotal(es[..|es| - 1], k) + (if es[|es| - 1].key == k then es[|es| - 1].count as int else 0)
  }

  /**
   The accumulated map holds exactly the keys of the input rows, and each key's
   count is the Java `int` wrap of the sum of that key's counts over all rows.
   */
  lemma {:induction false} AccumulateCounts(es: seq<Entry>)
    ensures Accumulate(es).Keys == KeysOf(es)
    ensures forall k :: k in Accumulate(es) ==> Accumulate(es)[k] == Wrap(KeyTotal(es, k))
  {
    if |es| > 0 {
      var front, last := es[..|es| - 1], es[|es| - 1];
      AccumulateCounts(front);
      assert KeysOf(es) == KeysOf(front) + {last.key} by {
        forall k | k in KeysOf(es) ensures k in KeysOf(front) + {last.key} {
          var i :| 0 <= i < |es| && es[i].key == k;
          if i < |front| {
            assert front[i].key == k;
          }
        }
        forall k | k in KeysOf(front) ensures k in KeysOf(es) {
          var i :| 0 <= i < |front| && front[i].key == k;
          assert es[i].key == k;
        }
      }
      var m := Accumulate(front);
      forall k | k in Accumulate(es)
        ensures Accumulate(es)[k] == Wrap(KeyTotal(es, k))
      {
        if k == last.key {
          var prior := GetOrDefault(m, k, 0);
          assert prior == Wrap(KeyTotal(front, k)) by {
            if k !in m {
              assert k !in KeysOf(front);
              KeyTotalAbsent(front, k);
            }
          }
          AddOfWrap(KeyTotal(front, k), last.count as int);
        }
      }
    }
  }

  /** A key no entry carries totals to zero. */
  lemma {:induction false} KeyTotalAbsent(es: seq<Entry>, k: string)
    requires k !in KeysOf(es)
    ensures KeyTotal(es, k) == 0
  {
    if |es| > 0 {
      var front := es[..|es| - 1];
      assert KeysOf(front) <= KeysOf(es) by {
        forall key | key in KeysOf(front) ensures key in KeysOf(es) {
          var i :| 0 <= i < |front| && front[i].key == key;
          assert es[i].key == key;
        }
      }
      assert es[|es| - 1].key in KeysOf(es);
      KeyTotalAbsent(front, k);
    }
  }

  /** What grouped mode accumulates: the count map over every row of every child, or the first failure. */
  function GroupedCounts(cs: seq<Child>): (r: Result<map<string, int32>>)
    ensures r.Ok? <==> AllEntries(cs).Ok?
    ensures r.Ok? ==> r.value.Keys == KeysOf(AllEntries(cs).value)
    ensures r.Ok? ==> forall k :: k in r.value ==> r.value[k] == Wrap(KeyTotal(AllEntries(cs).value, k))
    ensures r.Err? ==> r.error == AllEntries(cs).error
  {
    var es :- AllEntries(cs);
    AccumulateCounts(es);
    Ok(Accumulate(es))
  }

  /** The entries of two child lists, one after the other, are the entries of their concatenation. */
  lemma {:induction false} AllEntriesConcat(cs1: seq<Child>, cs2: seq<Child>)
    requires AllEntries(cs1).Ok? && AllEntries(cs2).Ok?
    ensures AllEntries(cs1 + cs2) == Ok(AllEntries(cs1).value + AllEntries(cs2).value)
    decreases |cs2|
  {
    if |cs2| == 0 {
      assert cs1 + cs2 == cs1;
      assert AllEntries(cs2) == Ok([]);
      assert AllEntries(cs1).value + [] == AllEntries(cs1).value;
    } else {
      var front := cs2[..|cs2| - 1];
      assert (cs1 + cs2)[..|cs1 + cs2| - 1] == cs1 + front;
      assert (cs1 + cs2)[|cs1 + cs2| - 1] == cs2[|cs2| - 1];
      var e1, ef, el := AllEntries(cs1).value, AllEntries(front).value, ChildEntries(cs2[|cs2| - 1]).value;
      assert AllEntries(cs2) == Ok(ef + el);
      AllEntriesConcat(cs1, front);
      assert AllEntries(cs1 + cs2) == Ok((e1 + ef) + el);
      assert (e1 + ef) + el == e1 + (ef + el);
    }
  }

  lemma {:induction false} KeyTotalConcat(a: seq<Entry>, b: seq<Entry>, k: string)
    ensures KeyTotal(a + b, k) == KeyTotal(a, k) + KeyTotal(b, k)
    decreases |b|
  {
    if |b| == 0 {
      assert a + b == a;
    } else {
      assert (a + b)[..|a + b| - 1] == a + b[..|b| - 1];
      KeyTotalConcat(a, b[..|b| - 1], k);
    }
  }

  lemma KeysOfConcat(a: seq<Entry>, b: seq<Entry>)
    ensures KeysOf(a + b) == KeysOf(a) + KeysOf(b)
  {
    forall k | k in KeysOf(a + b) ensures k in KeysOf(a) + KeysOf(b) {
      var i :| 0 <= i < |a + b| && (a + b)[i].key == k;
      if i >= |a| {
        assert b[i - |a|].key == k;
      }
    }
    forall k | k in KeysOf(a) + KeysOf(b) ensures k in KeysOf(a + b) {
      if k in KeysOf(a) {
        var i :| 0 <= i < |a| && a[i].key == k;
        assert (a + b)[i].key == k;
      } else {
        var i :| 0 <= i < |b| && b[i].key == k;
        assert (a + b)[|a| + i].key == k;
      }
    }
  }

  /** Merging two child lists succeeds exactly when each list succeeds on its own. */
  lemma AllEntriesConcatOk(cs1: seq<Child>, cs2: seq<Child>)
    ensures AllEntries(cs1 + cs2).Ok? <==> AllEntries(cs1).Ok? && AllEntries(cs2).Ok?
  {
    AllEntriesMeaning(cs1);
    AllEntriesMeaning(cs2);
    AllEntriesMeaning(cs1 + cs2);
    assert forall i :: 0 <= i < |cs1| ==> (cs1 + cs2)[i] == cs1[i];
    assert forall i :: 0 <= i < |cs2| ==> (cs1 + cs2)[|cs1| + i] == cs2[i];
  }

  /** Accumulating two entry lists in either order gives the same count map. */
  lemma AccumulateSwap(a: seq<Entry>, b: seq<Entry>)
    ensures Accumulate(a + b) == Accumulate(b + a)
  {
    AccumulateCounts(a + b);
    AccumulateCounts(b + a);
    KeysOfConcat(a, b);
    KeysOfConcat(b, a);
    var m1, m2 := Accumulate(a + b), Accumulate(b + a);
    forall k | k in m1 ensures m1[k] == m2[k] {
      KeyTotalConcat(a, b, k);
      KeyTotalConcat(b, a, k);
    }
  }

  /**
   The order of the children does not matter in grouped mode: merging one
   list of children and then another gives the same count map as the other
   way round, and one fails exactly when the other does.
   */
  lemma GroupedCountsOrderIndependent(cs1: seq<Child>, cs2: seq<Child>)
    ensures GroupedCounts(cs1 + cs2).Ok? <==> GroupedCounts(cs2 + cs1).Ok?
    ensures GroupedCounts(cs1 + cs2).Ok? ==> GroupedCounts(cs1 + cs2) == GroupedCounts(cs2 + cs1)
  {
    AllEntriesConcatOk(cs1, cs2);
    AllEntriesConcatOk(cs2, cs1);
    if AllEntries(cs1).Ok? && AllEntries(cs2).Ok? {
      var a, b := AllEntries(cs1).value, AllEntries(cs2).value;
      AllEntriesConcat(cs1, cs2);
      AllEntriesConcat(cs2, cs1);
      AccumulateSwap(a, b);
      GroupedCountsOfEntries(cs1 + cs2, a + b);
      GroupedCountsOfEntries(cs2 + cs1, b + a);
    }
  }

  /** The output row for one key: time 0, the key, its count. */
  function CountRow(key: string, count: int32): Row
  {
    Row(0, [TextV(key), Int32V(count)])
  }

  /** Row r is the output row of some key of m. */
  predicate IsCountRow(r: Row, m: map<string, int32>)
  {
    && |r.values| == 2
    && r.values[0].TextV?
    && r.values[0].s in m
    && r == CountRow(r.values[0].s, m[r.values[0].s])
  }

  /**
   Block b lists the count map m: TEXT-then-INT32 schema, exactly one row per
   key, each with time 0, in no particular order.
   */
  predicate ListsCounts(b: TsBlock, m: map<string, int32>)
  {
    && b.types == GroupedTypes
    && |b.rows| == |m|
    && (forall p :: 0 <= p < |b.rows| ==> IsCountRow(b.rows[p], m))
    && (forall p, q :: 0 <= p < q < |b.rows| ==> b.rows[p] != b.rows[q])
    && (forall k :: k in m ==> CountRow(k, m[k]) in b.rows)
  }

  /**
   Building the grouped block with `countMap.forEach`: the map's iteration
   order is unspecified, so the next key is chosen arbitrarily.
   */
  method EmitCounts(m: map<string, int32>) returns (b: TsBlock)
    ensures ListsCounts(b, m)
    ensures WellFormed(b)
  {
    var rows: seq<Row> := [];
    var remaining := m.Keys;
    while remaining != {}
      invariant remaining <= m.Keys
      invariant |rows| + |remaining| == |m|
      invariant forall p :: 0 <= p < |rows| ==> IsCountRow(rows[p], m) && rows[p].values[0].s !in remaining
      invariant forall p, q :: 0 <= p < q < |rows| ==> rows[p] != rows[q]
      invariant forall k :: k in m && k !in remaining ==> CountRow(k, m[k]) in rows
      decreases remaining
    {
      var k :| k in remaining;
      var row := CountRow(k, m[k]);
      assert IsCountRow(row, m);
      assert forall p :: 0 <= p < |rows| ==> rows[p] != row by {
        forall p | 0 <= p < |rows| ensures rows[p] != row {
          assert rows[p].values[0].s != k;
        }
      }
      rows := rows + [row];
      remaining := remaining - {k};
    }
    b := TsBlock(GroupedTypes, rows);
    assert forall p :: 0 <= p < |b.rows| ==> RowMatches(b.rows[p], b.types);
  }

  /**
   The inner loop of nextWithGroupByLevel over one child's block: put every
   row, in position order, into the count map.

   The Java loop at line 85 advances `i` where it means `j`; this method
   follows the intended iteration, every row of the block exactly once.
   `LiteralRowLoopNeverExits` records what the loop does as written.
   */
  method AccumulateBlock(countMap: map<string, int32>, ghost done: seq<Entry>, tsBlock: TsBlock)
    returns (r: Result<map<string, int32>>)
    requires countMap == Accumulate(done)
    ensures r.Ok? <==> BlockEntries(tsBlock, PositionCount(tsBlock)).Ok?
    ensures r.Ok? ==> r.value == Accumulate(done + BlockEntries(tsBlock, PositionCount(tsBlock)).value)
    ensures r.Err? ==> r.error == BlockEntries(tsBlock, PositionCount(tsBlock)).error
  {
    var m := countMap;
    ghost var cur: seq<Entry> := [];
    assert done + cur == done;
    var j := 0;
    while j < PositionCount(tsBlock)
      invariant 0 <= j <= PositionCount(tsBlock)
      invariant BlockEntries(tsBlock, j) == Ok(cur)
      invariant m == Accumulate(done + cur)
    {
      var e := ReadEntry(tsBlock, j);
      if e.Err? {
        BlockEntriesPrefixFails(tsBlock, j + 1);
        return Err(e.error);
      }
      assert BlockEntries(tsBlock, j + 1) == Ok(cur + [e.value]);
      ghost var seen := done + cur;
      assert (seen + [e.value])[..|seen|] == seen;
      assert Accumulate(seen + [e.value]) == Put(m, e.value);
      assert seen + [e.value] == done + (cur + [e.value]);
      m := Put(m, e.value);
      cur := cur + [e.value];
      j := j + 1;
    }
    r := Ok(m);
  }

  /**
   The grouped loop of nextWithGroupByLevel: pull each child in order, put
   every row of its block into the count map, then list the map.
   */
  method NextWithGroupByLevel(cs: seq<Child>) returns (out: Result<TsBlock>, pulled: seq<nat>)
    ensures out.Ok? <==> GroupedCounts(cs).Ok?
    ensures out.Ok? ==> ListsCounts(out.value, GroupedCounts(cs).value) && WellFormed(out.value)
    ensures out.Err? ==> out.error == GroupedCounts(cs).error
    ensures PulledInOrder(pulled, |cs|, out.Ok?)
    ensures out.Err? ==> ChildEntries(cs[|pulled| - 1]) == Err(out.error)
    ensures out.Err? ==> AllEntries(cs[..|pulled| - 1]).Ok?
  {
    var countMap: map<string, int32> := map[];
    pulled := [];
    ghost var done: seq<Entry> := [];
    var i := 0;
    while i < |cs|
      invariant 0 <= i <= |cs|
      invariant |pulled| == i && forall k :: 0 <= k < i ==> pulled[k] == k
      invariant AllEntries(cs[..i]) == Ok(done)
      invariant countMap == Accumulate(done)
    {
      pulled := pulled + [i];
      assert cs[..i + 1][..i] == cs[..i];
      if cs[i].output.Err? {
        AllEntriesPrefixFails(cs, i + 1);
        return Err(cs[i].output.error), pulled;
      }
      var tsBlock := cs[i].output.value;
      var r := AccumulateBlock(countMap, done, tsBlock);
      if r.Err? {
        AllEntriesPrefixFails(cs, i + 1);
        return Err(r.error), pulled;
      }
      countMap := r.value;
      done := done + ChildEntries(cs[i]).value;
      i := i + 1;
    }
    assert cs[..i] == cs;
    var b := EmitCounts(countMap);
    out := Ok(b);
  }

  /** A row read that fails among the first n rows fails the whole block. */
  lemma {:induction false} BlockEntriesPrefixFails(b: TsBlock, n: nat)
    requires n <= PositionCount(b) && BlockEntries(b, n).Err?
    ensures BlockEntries(b, PositionCount(b)) == BlockEntries(b, n)
    decreases PositionCount(b) - n
  {
    if n < PositionCount(b) {
      BlockEntriesPrefixFails(b, n + 1);
    }
  }

  /** A child that fails among the first k children fails the whole grouped merge. */
  lemma {:induction false} AllEntriesPrefixFails(cs: seq<Child>, k: nat)
    requires k <= |cs| && AllEntries(cs[..k]).Err?
    ensures AllEntries(cs) == AllEntries(cs[..k])
    decreases |cs| - k
  {
    if k < |cs| {
      assert cs[..k + 1][..k] == cs[..k];
      AllEntriesPrefixFails(cs, k + 1);
    } else {
      assert cs[..k] == cs;
    }
  }

  /** Child A yields ("d1",3),("d2",1) and child B yields ("d1",2): the counts are {d1: 5, d2: 1}. */
  lemma GroupedCountsExample(a: TsBlock, b: TsBlock)
    requires a == TsBlock(GroupedTypes, [CountRow("d1", 3), CountRow("d2", 1)])
    requires b == TsBlock(GroupedTypes, [CountRow("d1", 2)])
    ensures GroupedCounts([Child(NodeTimeSeriesCount, Ok(a)), Child(NodeTimeSeriesCount, Ok(b))])
            == Ok(map["d1" := 5, "d2" := 1])
  {
    var ca, cb := Child(NodeTimeSeriesCount, Ok(a)), Child(NodeTimeSeriesCount, Ok(b));
    var ea, eb := [Entry("d1", 3), Entry("d2", 1)], [Entry("d1", 2)];
    ExampleBlockEntries(a, b);
    ExampleAllEntries(ca, cb, ea, eb);
    ExampleAccumulate();
    assert ea + eb == [Entry("d1", 3), Entry("d2", 1), Entry("d1", 2)];
    GroupedCountsOfEntries([ca, cb], ea + eb);
  }

  lemma GroupedCountsOfEntries(cs: seq<Child>, es: seq<Entry>)
    requires AllEntries(cs) == Ok(es)
    ensures GroupedCounts(cs) == Ok(Accumulate(es))
  {
  }

  lemma ExampleBlockEntries(a: TsBlock, b: TsBlock)
    requires a == TsBlock(GroupedTypes, [CountRow("d1", 3), CountRow("d2", 1)])
    requires b == TsBlock(GroupedTypes, [CountRow("d1", 2)])
    ensures ChildEntries(Child(NodeTimeSeriesCount, Ok(a))) == Ok([Entry("d1", 3), Entry("d2", 1)])
    ensures ChildEntries(Child(NodeTimeSeriesCount, Ok(b))) == Ok([Entry("d1", 2)])
  {
    assert ReadEntry(a, 0) == Ok(Entry("d1", 3));
    assert ReadEntry(a, 1) == Ok(Entry("d2", 1));
    assert ReadEntry(b, 0) == Ok(Entry("d1", 2));
    var ea, eb := BlockEntries(a, 2), BlockEntries(b, 1);
    assert ea.Ok? && ea.value == [Entry("d1", 3), Entry("d2", 1)];
    assert eb.Ok? && eb.value == [Entry("d1", 2)];
  }

  lemma ExampleAllEntries(ca: Child, cb: Child, ea: seq<Entry>, eb: seq<Entry>)
    requires ChildEntries(ca) == Ok(ea) && ChildEntries(cb) == Ok(eb)
    ensures AllEntries([ca, cb]) == Ok(ea + eb)
  {
    var cs := [ca, cb];
    assert cs[..1][..0] == [] && cs[..1] == [ca];
    assert AllEntries(cs[..1]) == Ok([] + ea);
    assert [] + ea == ea;
  }

  lemma ExampleAccumulate()
    ensures Accumulate([Entry("d1", 3), Entry("d2", 1), Entry("d1", 2)]) == map["d1" := 5, "d2" := 1]
  {
    var e1 := [Entry("d1", 3)];
    var e2 := e1 + [Entry("d2", 1)];
    var e3 := e2 + [Entry("d1", 2)];
    assert e1[..0] == [] && e2[..1] == e1 && e3[..2] == e2;
    assert Accumulate(e1) == map["d1" := 3];
    assert Accumulate(e2) == map["d1" := 3, "d2" := 1];
    assert Add(3, 2) == 5;
    assert Accumulate(e3) == map["d1" := 5, "d2" := 1];
    assert e3 == [Entry("d1", 3), Entry("d2", 1), Entry("d1", 2)];
  }

  // ---------------------------------------------------------------------------
  // next(), hasNext(), isFinished()
  // ---------------------------------------------------------------------------

  /** Grouped mode is chosen when the first child is a node-time-series-count operator. */
  predicate GroupsByLevel(cs: seq<Child>)
    requires |cs| > 0
  {
    cs[0].kind == NodeTimeSeriesCount
  }

  /**
   `next()`: mark the operator finished, then merge. The mode is read from
   the first child, so an empty list fails there with an index error instead
   of producing a zero count. A failing child ends the merge: the children
   before it were read successfully and the ones after it are not pulled.
   */
  method Next(op: CountMergeOperator) returns (op': CountMergeOperator, out: Result<TsBlock>, pulled: seq<nat>)
    ensures op' == op.(isFinished := true)
    ensures !HasNext(op') && IsFinished(op')
    ensures |op.children| == 0 ==> out == Err(IndexOutOfBounds) && pulled == []
    ensures |op.children| > 0 && GroupsByLevel(op.children) ==>
              && (out.Ok? <==> GroupedCounts(op.children).Ok?)
              && (out.Ok? ==> ListsCounts(out.value, GroupedCounts(op.children).value) && WellFormed(out.value))
              && (out.Err? ==> out.error == GroupedCounts(op.children).error)
    ensures |op.children| > 0 && !GroupsByLevel(op.children) ==> out == FlatResult(op.children)
    ensures |op.children| > 0 ==> PulledInOrder(pulled, |op.children|, out.Ok?)
    ensures |op.children| > 0 && GroupsByLevel(op.children) && out.Err? ==>
              && ChildEntries(op.children[|pulled| - 1]) == Err(out.error)
              && AllEntries(op.children[..|pulled| - 1]).Ok?
    ensures |op.children| > 0 && !GroupsByLevel(op.children) && out.Err? ==>
              && ReadScalar(op.children[|pulled| - 1]) == Err(out.error)
              && Readings(op.children[..|pulled| - 1]).Ok?
  {
    op' := op.(isFinished := true);
    if |op.children| == 0 {
      return op', Err(IndexOutOfBounds), [];
    }
    if GroupsByLevel(op.children) {
      out, pulled := NextWithGroupByLevel(op.children);
    } else {
      out, pulled := NextWithoutGroupByLevel(op.children);
    }
  }

  /** After one `next()`, whatever it produced, `hasNext()` is false and `isFinished()` is true. */
  method CreateThenNext(children: seq<Child>) returns (before: bool, beforeFinished: bool, after: bool, afterFinished: bool)
    ensures before && !beforeFinished
    ensures !after && afterFinished
  {
    var op := Create(children);
    before, beforeFinished := HasNext(op), IsFinished(op);
    var op', _, _ := Next(op);
    after, afterFinished := HasNext(op'), IsFinished(op');
  }

  // ---------------------------------------------------------------------------
  // The inner loop of line 85 as written
  // ---------------------------------------------------------------------------

  /** The loop variables of nextWithGroupByLevel: child index i, row position j, both Java `int`. */
  datatype LoopVars = LoopVars(i: int32, j: int32)

  /** One iteration's update as written at line 85: `i++`, where `j++` was intended. */
  function LiteralRowUpdate(v: LoopVars): LoopVars
  {
    v.(i := Add(v.i, 1))
  }

  /** The count map and loop variables while the literal inner loop runs. */
  datatype LiteralState = LiteralState(countMap: map<string, int32>, v: LoopVars)

  /**
   The state after n iterations of the inner loop as written at lines 85-88:
   while `j < positionCount`, read row j (key, then count), put it into the
   map, and apply the literal update. Once the guard fails the state stays
   as it is; a failing read ends the loop with its failure.
   */
  function LiteralRowLoop(b: TsBlock, s: LiteralState, n: nat): Result<LiteralState>
  {
    if n == 0 then Ok(s)
    else
      var t :- LiteralRowLoop(b, s, n - 1);
      if t.v.j as int >= PositionCount(b) then Ok(t)
      else if t.v.j < 0 then Err(IndexOutOfBounds)
      else
        var e :- ReadEntry(b, t.v.j as nat);
        Ok(LiteralState(Put(t.countMap, e), LiteralRowUpdate(t.v)))
  }

  /**
   As written, the inner loop never advances j: for a block with at least one
   row whose row-0 reads succeed, every iteration reads and puts row 0 again
   and the guard `j < positionCount` still holds after any number of
   iterations, so the loop does not terminate.
   */
  lemma {:induction false} LiteralRowLoopNeverExits(b: TsBlock, m: map<string, int32>, i: int32, n: nat)
    requires PositionCount(b) >= 1 && ReadEntry(b, 0).Ok?
    ensures LiteralRowLoop(b, LiteralState(m, LoopVars(i, 0)), n).Ok?
    ensures LiteralRowLoop(b, LiteralState(m, LoopVars(i, 0)), n).value.v.j == 0
    ensures (LiteralRowLoop(b, LiteralState(m, LoopVars(i, 0)), n).value.v.j as int) < PositionCount(b)
    ensures n > 0 ==> ReadEntry(b, 0).value.key in LiteralRowLoop(b, LiteralState(m, LoopVars(i, 0)), n).value.countMap
  {
    if n > 0 {
      LiteralRowLoopNeverExits(b, m, i, n - 1);
    }
  }
}
