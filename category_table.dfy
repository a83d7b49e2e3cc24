/**
 * The category table of `Chatbotai.py`: the primary dataset's rows grouped
 * into one bucket of question/answer records per category, in an ordered
 * dictionary (a Python `dict` keeps its keys in insertion order).
 *
 * The ordered dictionary is modelled as a sequence of keys beside a map from
 * each key to its bucket.
 */
module CategoryTable {
  import opened Wrappers

  /** A question/answer record as stored in a bucket. */
  datatype QA = QA(question: string, answer: string)

  /** A row of the primary dataset; a field is `None` when the row has no such column. */
  datatype SourceRow = SourceRow(category: Option<string>, question: Option<string>, answer: Option<string>)

  const DefaultCategory: string := "General"

  /** The bucket a row goes into: its category, or "General" when it has none. */
  function CategoryOf(r: SourceRow): (c: string)
    ensures r.category.None? ==> c == DefaultCategory
    ensures r.category.Some? ==> c == r.category.value
  {
    r.category.GetOr(DefaultCategory)
  }

  /** The record a row contributes; a missing question or answer reads as "". */
  function RecordOf(r: SourceRow): (rec: QA)
    ensures rec.question == if r.question.Some? then r.question.value else ""
    ensures rec.answer == if r.answer.Some? then r.answer.value else ""
  {
    QA(r.question.GetOr(""), r.answer.GetOr(""))
  }

  /** The category of every row, in row order. */
  function CategoriesOf(rows: seq<SourceRow>): (cs: seq<string>)
    ensures |cs| == |rows|
    ensures forall i :: 0 <= i < |rows| ==> cs[i] == CategoryOf(rows[i])
  {
    seq(|rows|, i requires 0 <= i < |rows| => CategoryOf(rows[i]))
  }

  predicate Distinct<T(==)>(s: seq<T>) {
    forall i, j :: 0 <= i < j < |s| ==> s[i] != s[j]
  }

  /** The distinct elements of `s`, each kept at its first occurrence. */
  function FirstOccurrences(s: seq<string>): seq<string> {
    if s == [] then
      []
    else
      var d := FirstOccurrences(s[..|s| - 1]);
      if s[|s| - 1] in d then d else d + [s[|s| - 1]]
  }

  /** The position of the first occurrence of `x` in `s`. */
  function FirstIndex(s: seq<string>, x: string): (i: nat)
    requires x in s
    ensures i < |s| && s[i] == x
    ensures forall j :: 0 <= j < i ==> s[j] != x
  {
    if s[0] == x then 0 else 1 + FirstIndex(s[1..], x)
  }

  lemma {:induction false} FirstIndexAppend(s: seq<string>, y: string, x: string)
    requires x in s
    ensures FirstIndex(s + [y], x) == FirstIndex(s, x)
  {
    if s[0] != x {
      assert (s + [y])[1..] == s[1..] + [y];
      FirstIndexAppend(s[1..], y, x);
    }
  }

  /**
   * The keys of the grouped table: each element of `s` exactly once (no
   * repeats, nothing lost, nothing added), in the order of first occurrence.
   */
  lemma {:induction false} FirstOccurrencesSpec(s: seq<string>)
    ensures Distinct(FirstOccurrences(s))
    ensures forall x :: x in FirstOccurrences(s) <==> x in s
    ensures forall i, j :: 0 <= i < j < |FirstOccurrences(s)| ==>
              FirstIndex(s, FirstOccurrences(s)[i]) < FirstIndex(s, FirstOccurrences(s)[j])
  {
    if s != [] {
      var init := s[..|s| - 1];
      var last := s[|s| - 1];
      assert s == init + [last];
      FirstOccurrencesSpec(init);
      var d := FirstOccurrences(init);
      forall x | x in init ensures FirstIndex(s, x) == FirstIndex(init, x) {
        FirstIndexAppend(init, last, x);
      }
      if last !in d {
        assert last !in init;
        assert FirstIndex(s, last) == |s| - 1;
        var r := d + [last];
        forall i, j | 0 <= i < j < |r| ensures FirstIndex(s, r[i]) < FirstIndex(s, r[j]) {
          assert r[i] == d[i] && r[i] in init;
          assert FirstIndex(s, r[i]) == FirstIndex(init, r[i]) < |init|;
          if j < |d| {
            assert r[j] == d[j] && r[j] in init;
            assert FirstIndex(init, d[i]) < FirstIndex(init, d[j]);
          } else {
            assert r[j] == last;
          }
        }
      }
    }
  }

  /** The records of the rows whose category is `k`, in row order. */
  function Bucket(rows: seq<SourceRow>, k: string): seq<QA> {
    if rows == [] then
      []
    else
      var b := Bucket(rows[..|rows| - 1], k);
      if CategoryOf(rows[|rows| - 1]) == k then b + [RecordOf(rows[|rows| - 1])] else b
  }

  /** The positions of the rows whose category is `k`: exactly those, in increasing order. */
  ghost function BucketIndices(rows: seq<SourceRow>, k: string): (ix: seq<nat>)
    ensures forall j :: 0 <= j < |ix| ==> ix[j] < |rows| && CategoryOf(rows[ix[j]]) == k
    ensures forall j1, j2 :: 0 <= j1 < j2 < |ix| ==> ix[j1] < ix[j2]
    ensures forall i :: 0 <= i < |rows| && CategoryOf(rows[i]) == k ==> i in ix
  {
    if rows == [] then
      []
    else
      var init := rows[..|rows| - 1];
      var ix := BucketIndices(init, k);
      assert forall i :: 0 <= i < |init| ==> init[i] == rows[i];
      if CategoryOf(rows[|rows| - 1]) == k then ix + [|rows| - 1] else ix
  }

  /**
   * A bucket holds the records of exactly the rows of its category, in the
   * rows' original order.
   */
  lemma {:induction false} BucketInSourceOrder(rows: seq<SourceRow>, k: string)
    ensures var b, ix := Bucket(rows, k), BucketIndices(rows, k);
            |b| == |ix| && forall j :: 0 <= j < |b| ==> b[j] == RecordOf(rows[ix[j]])
  {
    if rows != [] {
      var init := rows[..|rows| - 1];
      BucketInSourceOrder(init, k);
      assert forall i :: 0 <= i < |init| ==> init[i] == rows[i];
    }
  }

  /** Every row lands in exactly one bucket, the one of its own category, and that category is a key. */
  lemma RowInExactlyOneBucket(rows: seq<SourceRow>, i: nat)
    requires i < |rows|
    ensures CategoryOf(rows[i]) in FirstOccurrences(CategoriesOf(rows))
    ensures forall k :: i in BucketIndices(rows, k) <==> k == CategoryOf(rows[i])
  {
    FirstOccurrencesSpec(CategoriesOf(rows));
    assert CategoriesOf(rows)[i] == CategoryOf(rows[i]);
    forall k ensures i in BucketIndices(rows, k) <==> k == CategoryOf(rows[i]) {
      var ix := BucketIndices(rows, k);
      if i in ix {
        var j :| 0 <= j < |ix| && ix[j] == i;
      }
    }
  }

  /** A category that no row carries has an empty bucket. */
  lemma {:induction false} BucketOfAbsentCategory(rows: seq<SourceRow>, k: string)
    requires k !in FirstOccurrences(CategoriesOf(rows))
    ensures Bucket(rows, k) == []
  {
    if rows != [] {
      var init := rows[..|rows| - 1];
      assert CategoriesOf(rows)[|rows| - 1] == CategoryOf(rows[|rows| - 1]);
      assert CategoriesOf(rows)[..|rows| - 1] == CategoriesOf(init);
      BucketOfAbsentCategory(init, k);
    }
  }

  /** Extending the rows by one extends only the bucket of that row's category. */
  lemma BucketSnoc(rows: seq<SourceRow>, i: nat, k: string)
    requires i < |rows|
    ensures Bucket(rows[..i + 1], k) ==
            Bucket(rows[..i], k) + if CategoryOf(rows[i]) == k then [RecordOf(rows[i])] else []
  {
    assert rows[..i + 1][..i] == rows[..i];
  }

  /** Extending the rows by one adds that row's category as a new last key, unless it is a key already. */
  lemma KeysSnoc(rows: seq<SourceRow>, i: nat)
    requires i < |rows|
    ensures var d := FirstOccurrences(CategoriesOf(rows[..i]));
            FirstOccurrences(CategoriesOf(rows[..i + 1])) ==
            if CategoryOf(rows[i]) in d then d else d + [CategoryOf(rows[i])]
  {
    var cs := CategoriesOf(rows[..i + 1]);
    assert cs[..i] == CategoriesOf(rows[..i]);
    assert cs[i] == CategoryOf(rows[i]);
  }

  /**
   * The grouping loop: `qa_data.setdefault(category, []).append(record)` for
   * every row. Returns the keys in insertion order and the bucket of each key.
   */
  method GroupByCategory(rows: seq<SourceRow>) returns (keys: seq<string>, table: map<string, seq<QA>>)
    ensures keys == FirstOccurrences(CategoriesOf(rows))
    ensures forall k :: k in table <==> k in keys
    ensures forall k :: k in table ==> table[k] == Bucket(rows, k) && table[k] != []
  {
    keys, table := [], map[];
    var i := 0;
    while i < |rows|
      invariant 0 <= i <= |rows|
      invariant keys == FirstOccurrences(CategoriesOf(rows[..i]))
      invariant forall k :: k in table <==> k in keys
      invariant forall k :: k in table ==> table[k] == Bucket(rows[..i], k) && table[k] != []
    {
      var row := rows[i];
      var category := CategoryOf(row);
      KeysSnoc(rows, i);
      var bucket := if category in table then table[category] else [];
      if category !in table {
        keys := keys + [category];
      }
      table := table[category := bucket + [RecordOf(row)]];
      if bucket == [] {
        BucketOfAbsentCategory(rows[..i], category);
      }
      forall k | k in table ensures table[k] == Bucket(rows[..i + 1], k) {
        BucketSnoc(rows, i, k);
      }
      i := i + 1;
    }
    assert rows[..i] == rows;
  }

  /** Every record of the buckets of `keys`, bucket after bucket. */
  function Flatten(keys: seq<string>, table: map<string, seq<QA>>): seq<QA>
    requires forall k :: k in keys ==> k in table
  {
    if keys == [] then [] else table[keys[0]] + Flatten(keys[1..], table)
  }

  /** The flattened buckets hold exactly the records of the buckets of `keys`. */
  lemma {:induction false} FlattenMembers(keys: seq<string>, table: map<string, seq<QA>>)
    requires forall k :: k in keys ==> k in table
    ensures forall x :: x in Flatten(keys, table) <==> exists j :: 0 <= j < |keys| && x in table[keys[j]]
  {
    if keys != [] {
      FlattenMembers(keys[1..], table);
      assert forall j :: 1 <= j < |keys| ==> keys[1..][j - 1] == keys[j];
      forall x | x in Flatten(keys, table) ensures exists j :: 0 <= j < |keys| && x in table[keys[j]] {
        if x !in table[keys[0]] {
          var j :| 0 <= j < |keys| - 1 && x in table[keys[1..][j]];
          assert x in table[keys[j + 1]];
        }
      }
    }
  }

  /** The answer of the first record whose question is exactly `q`, if any. */
  function FirstMatch(records: seq<QA>, q: string): Option<string> {
    if records == [] then
      None
    else if records[0].question == q then
      Some(records[0].answer)
    else
      FirstMatch(records[1..], q)
  }

  /**
   * First-match search: nothing is found exactly when no record has the
   * question; otherwise the answer is that of the lowest-placed record that
   * has it.
   */
  lemma {:induction false} FirstMatchSpec(records: seq<QA>, q: string)
    ensures FirstMatch(records, q) == None <==> forall i :: 0 <= i < |records| ==> records[i].question != q
    ensures FirstMatch(records, q) != None ==>
              exists i :: 0 <= i < |records| && records[i].question == q &&
                FirstMatch(records, q).value == records[i].answer &&
                forall j :: 0 <= j < i ==> records[j].question != q
  {
    if records != [] && records[0].question != q {
      FirstMatchSpec(records[1..], q);
      assert forall i :: 1 <= i < |records| ==> records[1..][i - 1] == records[i];
      if FirstMatch(records, q) != None {
        var i :| 0 <= i < |records| - 1 && records[1..][i].question == q &&
                 FirstMatch(records, q).value == records[1..][i].answer &&
                 forall j :: 0 <= j < i ==> records[1..][j].question != q;
        assert records[i + 1].question == q;
        forall j | 0 <= j < i + 1 ensures records[j].question != q {
          if j > 0 { assert records[1..][j - 1] == records[j]; }
        }
      }
    }
  }

  /** The flattened table holds exactly the records of the table's buckets. */
  lemma FlattenHasAll(keys: seq<string>, table: map<string, seq<QA>>)
    requires forall k :: k in table <==> k in keys
    ensures forall x :: x in Flatten(keys, table) <==> exists k :: k in table && x in table[k]
  {
    FlattenMembers(keys, table);
    forall x | x in Flatten(keys, table) ensures exists k :: k in table && x in table[k] {
      var j :| 0 <= j < |keys| && x in table[keys[j]];
    }
    forall x | (exists k :: k in table && x in table[k]) ensures x in Flatten(keys, table) {
      var k :| k in table && x in table[k];
      var j :| 0 <= j < |keys| && keys[j] == k;
    }
  }

  /** The records from the `i`-th key on are its bucket followed by those from the next key on. */
  lemma FlattenStep(keys: seq<string>, table: map<string, seq<QA>>, i: nat)
    requires forall k :: k in keys ==> k in table
    requires i < |keys|
    ensures Flatten(keys[i..], table) == table[keys[i]] + Flatten(keys[i + 1..], table)
  {
  }

  /** Scanning past record `j`: the first match is that record, or else the first match after it. */
  lemma FirstMatchStep(bucket: seq<QA>, j: nat, rest: seq<QA>, q: string)
    requires j < |bucket|
    ensures FirstMatch(bucket[j..] + rest, q) ==
            if bucket[j].question == q then Some(bucket[j].answer) else FirstMatch(bucket[j + 1..] + rest, q)
  {
    assert (bucket[j..] + rest)[0] == bucket[j];
    assert (bucket[j..] + rest)[1..] == bucket[j + 1..] + rest;
  }

  /** No match in the flattened table means no record of any bucket has the question. */
  lemma NoMatchAnywhere(keys: seq<string>, table: map<string, seq<QA>>, q: string)
    requires forall k :: k in table <==> k in keys
    requires FirstMatch(Flatten(keys, table), q) == None
    ensures forall k, x :: k in table && x in table[k] ==> x.question != q
  {
    var all := Flatten(keys, table);
    FlattenHasAll(keys, table);
    FirstMatchSpec(all, q);
    forall k, x | k in table && x in table[k] ensures x.question != q {
      assert x in all;
      var n :| 0 <= n < |all| && all[n] == x;
    }
  }
}
