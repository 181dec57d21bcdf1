/**
 * `predicted_classes`: the histogram of the detected class ids, keyed by class
 * name.  A detection is modelled by its class id alone (`int(box.cls)`), the
 * class table by a map from ids to names (the detector's `names` table is a
 * dictionary).  Looking up an id the table lacks raises `KeyError`; the model
 * returns `Err(id)` for it.
 *
 * The `Counter` the source builds is modelled by two things: the multiset of
 * the ids (its counts) and `FirstOccurrences` (its iteration order, which is
 * the order in which ids are first seen).
 */
module PredictedClasses {
  import opened Wrappers

  type ClassTable = map<int, string>

  /** No two ids share a name. */
  ghost predicate Injective(names: ClassTable)
  {
    forall a, b :: a in names && b in names && names[a] == names[b] ==> a == b
  }

  /** The distinct ids in order of first occurrence: the iteration order of `Counter(ids)`. */
  function FirstOccurrences(ids: seq<int>): (d: seq<int>)
    ensures forall c :: c in d <==> c in ids
    ensures forall i, j :: 0 <= i < j < |d| ==> d[i] != d[j]
  {
    if ids == [] then []
    else
      var p, c := ids[..|ids| - 1], ids[|ids| - 1];
      assert ids == p + [c];
      var d := FirstOccurrences(p);
      if c in d then d else d + [c]
  }

  /** The position of the first id the table lacks, or `|ids|` when it has them all. */
  function FirstUnnamed(ids: seq<int>, names: ClassTable): (i: nat)
    ensures i <= |ids|
    ensures forall j :: 0 <= j < i ==> ids[j] in names
    ensures i < |ids| ==> ids[i] !in names
  {
    if ids == [] || ids[0] !in names then 0 else 1 + FirstUnnamed(ids[1..], names)
  }

  /**
   * The dictionary loop: for each id of `order`, store its count under its
   * name, overwriting what an earlier id of the same name stored there.
   */
  function NameCounts(order: seq<int>, freq: multiset<int>, names: ClassTable, acc: map<string, nat>)
    : Result<map<string, nat>, int>
  {
    if order == [] then Ok(acc)
    else if order[0] !in names then Err(order[0])
    else NameCounts(order[1..], freq, names, acc[names[order[0]] := freq[order[0]]])
  }

  /** What `predicted_classes` returns, or the id whose lookup raises. */
  function Histogram(ids: seq<int>, names: ClassTable): Result<map<string, nat>, int>
  {
    NameCounts(FirstOccurrences(ids), multiset(ids), names, map[])
  }

  /** The sum of a name-to-count mapping's values. */
  ghost function Total(m: map<string, nat>): nat
    decreases |m|
  {
    if m == map[] then 0
    else
      var k :| k in m;
      assert (m - {k}).Keys == m.Keys - {k};
      m[k] + Total(m - {k})
  }

  /** The counts of the ids of `order`, added up. */
  function SumOf(order: seq<int>, freq: multiset<int>): nat
  {
    if order == [] then 0 else freq[order[0]] + SumOf(order[1..], freq)
  }

  /**
   * The source's loops: count the ids into a `Counter` (a map of counts plus
   * the order in which ids were first seen), then re-key the counts by name.
   */
  method PredictedClassNames(ids: seq<int>, names: ClassTable) returns (r: Result<map<string, nat>, int>)
    ensures r == Histogram(ids, names)
  {
    var freq: map<int, nat> := map[];
    var order: seq<int> := [];
    for i := 0 to |ids|
      invariant order == FirstOccurrences(ids[..i])
      invariant forall c :: c in freq <==> c in ids[..i]
      invariant forall c :: c in freq ==> freq[c] == multiset(ids[..i])[c]
    {
      var c := ids[i];
      assert ids[..i + 1] == ids[..i] + [c];
      if c in freq {
        freq := freq[c := freq[c] + 1];
      } else {
        freq := freq[c := 1];
        order := order + [c];
      }
    }
    assert ids[..|ids|] == ids;
    var named: map<string, nat> := map[];
    for j := 0 to |order|
      invariant NameCounts(order[j..], multiset(ids), names, named) == Histogram(ids, names)
    {
      var c := order[j];
      if c !in names {
        return Err(c);
      }
      named := named[names[c] := freq[c]];
    }
    return Ok(named);
  }

  // ---------------------------------------------------------------------------
  // The missing-id error

  /** `FirstUnnamed` is determined by its contract. */
  lemma FirstUnnamedUnique(ids: seq<int>, names: ClassTable, i: nat)
    requires i <= |ids|
    requires forall j :: 0 <= j < i ==> ids[j] in names
    requires i < |ids| ==> ids[i] !in names
    ensures FirstUnnamed(ids, names) == i
  {
  }

  /** The dictionary loop fails exactly when some id of `order` lacks a name, and at the first such id. */
  lemma {:induction false} NameCountsError(order: seq<int>, freq: multiset<int>, names: ClassTable, acc: map<string, nat>)
    ensures NameCounts(order, freq, names, acc).Err? <==> FirstUnnamed(order, names) < |order|
    ensures NameCounts(order, freq, names, acc).Err? ==>
              NameCounts(order, freq, names, acc).error == order[FirstUnnamed(order, names)]
  {
    if order != [] && order[0] in names {
      NameCountsError(order[1..], freq, names, acc[names[order[0]] := freq[order[0]]]);
    }
  }

  /** The first unnamed id in `Counter` order is the first unnamed id among the boxes. */
  lemma {:induction false} FirstOccurrencesUnnamed(ids: seq<int>, names: ClassTable)
    ensures FirstUnnamed(FirstOccurrences(ids), names) < |FirstOccurrences(ids)| <==> FirstUnnamed(ids, names) < |ids|
    ensures FirstUnnamed(ids, names) < |ids| ==>
              FirstOccurrences(ids)[FirstUnnamed(FirstOccurrences(ids), names)] == ids[FirstUnnamed(ids, names)]
  {
    if ids != [] {
      var p, x := ids[..|ids| - 1], ids[|ids| - 1];
      assert ids == p + [x];
      FirstOccurrencesUnnamed(p, names);
      var d := FirstOccurrences(p);
      var e := FirstOccurrences(ids);
      assert e == if x in d then d else d + [x];
      assert forall j :: 0 <= j < |d| ==> e[j] == d[j];
      var u, v := FirstUnnamed(p, names), FirstUnnamed(d, names);
      if u < |p| {
        assert forall j :: 0 <= j < u ==> ids[j] == p[j];
        FirstUnnamedUnique(ids, names, u);
        FirstUnnamedUnique(e, names, v);
      } else if x in names {
        FirstUnnamedUnique(ids, names, |ids|);
        FirstUnnamedUnique(e, names, |e|);
      } else {
        assert x !in p;
        FirstUnnamedUnique(ids, names, |p|);
        FirstUnnamedUnique(e, names, |d|);
      }
    }
  }

  /**
   * `predicted_classes` raises exactly when some box's class id is absent from
   * the table, and the id it raises on is the first such id in box order.
   */
  lemma HistogramMissingClass(ids: seq<int>, names: ClassTable)
    ensures Histogram(ids, names).Err? <==> exists c :: c in ids && c !in names
    ensures Histogram(ids, names).Err? ==>
              Histogram(ids, names).error == ids[FirstUnnamed(ids, names)] &&
              forall j :: 0 <= j < FirstUnnamed(ids, names) ==> ids[j] in names
  {
    NameCountsError(FirstOccurrences(ids), multiset(ids), names, map[]);
    FirstOccurrencesUnnamed(ids, names);
  }

  // ---------------------------------------------------------------------------
  // Keys and counts

  /** With no boxes the result is the empty dictionary. */
  lemma HistogramEmpty(names: ClassTable)
    ensures Histogram([], names) == Ok(map[])
  {
  }

  /** A successful dictionary loop has named every id and added exactly their names as keys. */
  lemma {:induction false} NameCountsKeys(order: seq<int>, freq: multiset<int>, names: ClassTable, acc: map<string, nat>)
    requires NameCounts(order, freq, names, acc).Ok?
    ensures forall c :: c in order ==> c in names
    ensures forall n :: n in NameCounts(order, freq, names, acc).value <==>
              n in acc || exists c :: c in order && c in names && names[c] == n
  {
    if order != [] {
      var c0 := order[0];
      NameCountsKeys(order[1..], freq, names, acc[names[c0] := freq[c0]]);
      assert order == [c0] + order[1..];
    }
  }

  /** Every value of the result is either untouched from `acc` or the count of some id bearing that name. */
  lemma {:induction false} NameCountsValues(order: seq<int>, freq: multiset<int>, names: ClassTable, acc: map<string, nat>)
    requires NameCounts(order, freq, names, acc).Ok?
    ensures var m := NameCounts(order, freq, names, acc).value;
            forall n :: n in m ==>
              (n in acc && m[n] == acc[n]) || exists c :: c in order && c in names && names[c] == n && m[n] == freq[c]
  {
    if order != [] {
      var c0 := order[0];
      NameCountsValues(order[1..], freq, names, acc[names[c0] := freq[c0]]);
      assert order == [c0] + order[1..];
    }
  }

  /** A key that no id of `order` names keeps the value `acc` gave it. */
  lemma {:induction false} NameCountsKeeps(order: seq<int>, freq: multiset<int>, names: ClassTable, acc: map<string, nat>, n: string)
    requires NameCounts(order, freq, names, acc).Ok?
    requires n in acc
    requires forall c :: c in order && c in names ==> names[c] != n
    ensures n in NameCounts(order, freq, names, acc).value
    ensures NameCounts(order, freq, names, acc).value[n] == acc[n]
  {
    if order != [] {
      var c0 := order[0];
      NameCountsKeeps(order[1..], freq, names, acc[names[c0] := freq[c0]], n);
    }
  }

  /** With an injective table each id's name ends up holding that id's count. */
  lemma {:induction false} NameCountsInjective(order: seq<int>, freq: multiset<int>, names: ClassTable, acc: map<string, nat>)
    requires NameCounts(order, freq, names, acc).Ok?
    requires Injective(names)
    ensures forall c :: c in order && c in names ==>
              names[c] in NameCounts(order, freq, names, acc).value &&
              NameCounts(order, freq, names, acc).value[names[c]] == freq[c]
  {
    if order != [] {
      var c0 := order[0];
      var acc' := acc[names[c0] := freq[c0]];
      NameCountsInjective(order[1..], freq, names, acc');
      if c0 !in order[1..] {
        NameCountsKeeps(order[1..], freq, names, acc', names[c0]);
      }
      assert order == [c0] + order[1..];
    }
  }

  /** Every key of the result is the name of a detected class. */
  lemma HistogramKeys(ids: seq<int>, names: ClassTable)
    requires Histogram(ids, names).Ok?
    ensures forall c :: c in ids ==> c in names
    ensures forall n :: n in Histogram(ids, names).value <==> exists c :: c in ids && c in names && names[c] == n
  {
    NameCountsKeys(FirstOccurrences(ids), multiset(ids), names, map[]);
  }

  /**
   * Every value is at least 1: it is the number of boxes of some class bearing
   * that name (the last such class in `Counter` order, when names repeat).
   */
  lemma HistogramCounts(ids: seq<int>, names: ClassTable)
    requires Histogram(ids, names).Ok?
    ensures var m := Histogram(ids, names).value;
            forall n :: n in m ==>
              m[n] >= 1 && exists c :: c in ids && c in names && names[c] == n && m[n] == multiset(ids)[c]
  {
    NameCountsValues(FirstOccurrences(ids), multiset(ids), names, map[]);
  }

  /** With distinct names, each detected class's name maps to the number of boxes of that class. */
  lemma HistogramInjective(ids: seq<int>, names: ClassTable)
    requires Histogram(ids, names).Ok?
    requires Injective(names)
    ensures forall c :: c in ids ==>
              c in names && names[c] in Histogram(ids, names).value &&
              Histogram(ids, names).value[names[c]] == multiset(ids)[c]
  {
    HistogramKeys(ids, names);
    NameCountsInjective(FirstOccurrences(ids), multiset(ids), names, map[]);
  }

  // ---------------------------------------------------------------------------
  // The values add up to the number of boxes

  /** `Total` may take out any key first. */
  lemma {:induction false} TotalRemove(m: map<string, nat>, k: string)
    requires k in m
    ensures Total(m) == m[k] + Total(m - {k})
    decreases |m|
  {
    var j :| j in m && Total(m) == m[j] + Total(m - {j});
    if j != k {
      assert (m - {j}).Keys == m.Keys - {j};
      assert (m - {k}).Keys == m.Keys - {k};
      TotalRemove(m - {j}, k);
      TotalRemove(m - {k}, j);
      assert m - {j} - {k} == m - {k} - {j};
    }
  }

  /** Storing `v` under `k` changes the total by `v` minus what `k` held before. */
  lemma TotalUpdate(m: map<string, nat>, k: string, v: nat)
    ensures Total(m[k := v]) + (if k in m then m[k] else 0) == Total(m) + v
  {
    TotalRemove(m[k := v], k);
    assert m[k := v] - {k} == m - {k};
    if k in m {
      TotalRemove(m, k);
    } else {
      assert m - {k} == m;
    }
  }

  /**
   * The dictionary loop adds at most the counts it stores (earlier entries can
   * be overwritten), and exactly those when no name is stored twice.
   */
  lemma {:induction false} NameCountsTotal(order: seq<int>, freq: multiset<int>, names: ClassTable, acc: map<string, nat>)
    requires NameCounts(order, freq, names, acc).Ok?
    ensures Total(NameCounts(order, freq, names, acc).value) <= Total(acc) + SumOf(order, freq)
    ensures Injective(names) && (forall i, j :: 0 <= i < j < |order| ==> order[i] != order[j]) &&
            (forall c :: c in order && c in names ==> names[c] !in acc) ==>
              Total(NameCounts(order, freq, names, acc).value) == Total(acc) + SumOf(order, freq)
  {
    if order != [] {
      var c0 := order[0];
      var acc' := acc[names[c0] := freq[c0]];
      TotalUpdate(acc, names[c0], freq[c0]);
      NameCountsTotal(order[1..], freq, names, acc');
      if Injective(names) && (forall i, j :: 0 <= i < j < |order| ==> order[i] != order[j]) &&
         (forall c :: c in order && c in names ==> names[c] !in acc) {
        forall c | c in order[1..] && c in names
          ensures names[c] !in acc'
        {
          assert c != c0;
        }
      }
    }
  }

  /** Adding one more id at the end adds its count. */
  lemma {:induction false} SumOfAppend(order: seq<int>, x: int, freq: multiset<int>)
    ensures SumOf(order + [x], freq) == SumOf(order, freq) + freq[x]
  {
    if order != [] {
      assert (order + [x])[1..] == order[1..] + [x];
      SumOfAppend(order[1..], x, freq);
    }
  }

  /** One more occurrence of `x` adds one to the sum when `x` is listed (once). */
  lemma {:induction false} SumOfAddOne(order: seq<int>, freq: multiset<int>, x: int)
    requires forall i, j :: 0 <= i < j < |order| ==> order[i] != order[j]
    ensures SumOf(order, freq + multiset{x}) == SumOf(order, freq) + (if x in order then 1 else 0)
  {
    if order != [] {
      SumOfAddOne(order[1..], freq, x);
      assert order == [order[0]] + order[1..];
    }
  }

  /** The counts of a `Counter` add up to the number of elements counted. */
  lemma {:induction false} CounterTotal(ids: seq<int>)
    ensures SumOf(FirstOccurrences(ids), multiset(ids)) == |ids|
  {
    if ids != [] {
      var p, x := ids[..|ids| - 1], ids[|ids| - 1];
      assert ids == p + [x];
      var d := FirstOccurrences(p);
      CounterTotal(p);
      SumOfAddOne(d, multiset(p), x);
      if x !in p {
        SumOfAppend(d, x, multiset(ids));
      }
    }
  }

  /** The values never add up to more than the number of boxes. */
  lemma HistogramTotalBound(ids: seq<int>, names: ClassTable)
    requires Histogram(ids, names).Ok?
    ensures Total(Histogram(ids, names).value) <= |ids|
  {
    NameCountsTotal(FirstOccurrences(ids), multiset(ids), names, map[]);
    CounterTotal(ids);
  }

  /** With distinct names the values add up to the number of boxes. */
  lemma HistogramTotal(ids: seq<int>, names: ClassTable)
    requires Histogram(ids, names).Ok?
    requires Injective(names)
    ensures Total(Histogram(ids, names).value) == |ids|
  {
    NameCountsTotal(FirstOccurrences(ids), multiset(ids), names, map[]);
    CounterTotal(ids);
  }
}
