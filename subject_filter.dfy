/** `remove_subjects`: drop the excluded subjects, drop every row with a missing
    value, and renumber the rows 0..n-1. */
module SubjectFilter {
  import opened Wrappers
  import opened Sequences

  /** One cell of the table; `None` is a missing value (NaN). */
  type Cell = Option<real>

  /** One row of the table: its index label (the subject id, or a row number
      after the index is reset) and its cells. */
  datatype Row<K> = Row(key: K, fields: seq<Cell>)

  /** pandas' `KeyError` from `drop`: the labels that are not in the index. */
  datatype DropError<K> = KeyNotFound(missing: seq<K>)

  /** The elements of `s` that `keep` accepts, in their order. */
  function Filter<T(==,!new)>(s: seq<T>, keep: T -> bool): (r: seq<T>)
    ensures |r| <= |s|
    ensures forall x :: x in r <==> x in s && keep(x)
    ensures forall x :: multiset(r)[x] == if keep(x) then multiset(s)[x] else 0
  {
    if s == [] then []
    else
      assert s == [s[0]] + s[1..];
      (if keep(s[0]) then [s[0]] else []) + Filter(s[1..], keep)
  }

  /** Filtering keeps the relative order of what it keeps and invents nothing. */
  lemma {:induction false} FilterIsSubsequence<T(!new)>(s: seq<T>, keep: T -> bool)
    ensures IsSubsequence(Filter(s, keep), s)
  {
    if s != [] {
      FilterIsSubsequence(s[1..], keep);
      var rest := Filter(s[1..], keep);
      if keep(s[0]) {
        assert Filter(s, keep) == [s[0]] + rest;
        assert ([s[0]] + rest)[1..] == rest;
      } else {
        assert Filter(s, keep) == rest;
        SubsequenceOfTail(rest, s);
      }
    }
  }

  /** Filtering twice is filtering once by both tests. */
  lemma {:induction false} FilterTwice<T(!new)>(s: seq<T>, p: T -> bool, q: T -> bool, both: T -> bool)
    requires forall x :: both(x) == (p(x) && q(x))
    ensures Filter(Filter(s, p), q) == Filter(s, both)
  {
    if s != [] {
      FilterTwice(s[1..], p, q, both);
      var rest := Filter(s[1..], p);
      if p(s[0]) {
        assert Filter(s, p) == [s[0]] + rest;
        assert ([s[0]] + rest)[0] == s[0] && ([s[0]] + rest)[1..] == rest;
        assert Filter([s[0]] + rest, q) == (if q(s[0]) then [s[0]] else []) + Filter(rest, q);
      } else {
        assert Filter(s, p) == rest;
        assert !both(s[0]);
      }
    }
  }

  predicate HasKey<K(==,!new)>(rows: seq<Row<K>>, k: K) {
    exists i :: 0 <= i < |rows| && rows[i].key == k
  }

  /** `df.drop(index=labels)`, whose default `errors='raise'` fails when a
      label is not in the index; every row carrying a listed label goes. */
  function DropIndex<K(==,!new)>(rows: seq<Row<K>>, labels: seq<K>): Result<seq<Row<K>>, DropError<K>> {
    var missing := Filter(labels, (l: K) => !HasKey(rows, l));
    if missing != [] then Failure(KeyNotFound(missing))
    else Success(Filter(rows, (row: Row<K>) => row.key !in labels))
  }

  /** No cell of the row is missing. */
  predicate Complete<K>(row: Row<K>) {
    forall i :: 0 <= i < |row.fields| ==> row.fields[i].Some?
  }

  /** `dropna(0, how='any')`. */
  function DropNa<K(==,!new)>(rows: seq<Row<K>>): seq<Row<K>> {
    Filter(rows, (row: Row<K>) => Complete(row))
  }

  /** `reset_index(drop=True)`: the labels are discarded and row i is labelled i. */
  function ResetIndex<K>(rows: seq<Row<K>>): seq<Row<nat>> {
    seq(|rows|, i requires 0 <= i < |rows| => Row(i, rows[i].fields))
  }

  /** `remove_subjects(df, dict_exclude_subj)`, lines 313-318 (the log line left out). */
  function RemoveSubjects<K(==,!new)>(rows: seq<Row<K>>, exclude: seq<K>): Result<seq<Row<nat>>, DropError<K>> {
    match DropIndex(rows, exclude)
    case Failure(e) => Failure(e)
    case Success(kept) => Success(ResetIndex(DropNa(kept)))
  }

  /** The rows the filter is meant to keep: not excluded and with no missing cell. */
  predicate Survives<K(==,!new)>(row: Row<K>, exclude: seq<K>) {
    row.key !in exclude && Complete(row)
  }

  function Survivors<K(==,!new)>(rows: seq<Row<K>>, exclude: seq<K>): seq<Row<K>> {
    Filter(rows, (row: Row<K>) => Survives(row, exclude))
  }

  /** The surviving rows are exactly the input rows that are not excluded and
      have no missing cell, in their original relative order. */
  lemma SurvivorsSpec<K(!new)>(rows: seq<Row<K>>, exclude: seq<K>)
    ensures IsSubsequence(Survivors(rows, exclude), rows)
    ensures forall row :: row in Survivors(rows, exclude) <==>
              row in rows && row.key !in exclude && Complete(row)
    ensures forall row :: multiset(Survivors(rows, exclude))[row] ==
              if row.key !in exclude && Complete(row) then multiset(rows)[row] else 0
  {
    FilterIsSubsequence(rows, (row: Row<K>) => Survives(row, exclude));
  }

  /** `remove_subjects` fails exactly when an excluded id is not a subject of
      the table, and reports those ids. Otherwise row i of the result is the
      i-th surviving row, renumbered i, and no row of the result has a missing
      cell. */
  lemma RemoveSubjectsSpec<K(!new)>(rows: seq<Row<K>>, exclude: seq<K>)
    ensures RemoveSubjects(rows, exclude).Failure? <==> exists l :: l in exclude && !HasKey(rows, l)
    ensures RemoveSubjects(rows, exclude).Failure? ==>
              var missing := RemoveSubjects(rows, exclude).error.missing;
              forall l :: l in missing <==> l in exclude && !HasKey(rows, l)
    ensures RemoveSubjects(rows, exclude).Success? ==>
              var out := RemoveSubjects(rows, exclude).value;
              var kept := Survivors(rows, exclude);
              && |out| == |kept|
              && (forall i :: 0 <= i < |out| ==> out[i] == Row(i, kept[i].fields))
              && (forall i :: 0 <= i < |out| ==> Complete(out[i]))
  {
    RemoveSubjectsFailure(rows, exclude);
    if RemoveSubjects(rows, exclude).Success? {
      RemoveSubjectsSuccess(rows, exclude);
    }
  }

  lemma RemoveSubjectsFailure<K(!new)>(rows: seq<Row<K>>, exclude: seq<K>)
    ensures RemoveSubjects(rows, exclude).Failure? <==> exists l :: l in exclude && !HasKey(rows, l)
    ensures RemoveSubjects(rows, exclude).Failure? ==>
              var missing := RemoveSubjects(rows, exclude).error.missing;
              forall l :: l in missing <==> l in exclude && !HasKey(rows, l)
  {
    var missing := Filter(exclude, (l: K) => !HasKey(rows, l));
    if missing != [] {
      assert missing[0] in missing;
    }
  }

  lemma RemoveSubjectsSuccess<K(!new)>(rows: seq<Row<K>>, exclude: seq<K>)
    requires RemoveSubjects(rows, exclude).Success?
    ensures var out := RemoveSubjects(rows, exclude).value;
            var kept := Survivors(rows, exclude);
            && |out| == |kept|
            && (forall i :: 0 <= i < |out| ==> out[i] == Row(i, kept[i].fields))
            && (forall i :: 0 <= i < |out| ==> Complete(out[i]))
  {
    RemoveSubjectsRenumbersSurvivors(rows, exclude);
    SurvivorsComplete(rows, exclude);
  }

  /** On success the result is the survivors, renumbered. */
  lemma RemoveSubjectsRenumbersSurvivors<K(!new)>(rows: seq<Row<K>>, exclude: seq<K>)
    requires RemoveSubjects(rows, exclude).Success?
    ensures RemoveSubjects(rows, exclude).value == ResetIndex(Survivors(rows, exclude))
  {
    var notExcluded := (row: Row<K>) => row.key !in exclude;
    var complete := (row: Row<K>) => Complete(row);
    var survives := (row: Row<K>) => Survives(row, exclude);
    FilterTwice(rows, notExcluded, complete, survives);
    assert DropIndex(rows, exclude) == Success(Filter(rows, notExcluded));
  }

  lemma SurvivorsComplete<K(!new)>(rows: seq<Row<K>>, exclude: seq<K>)
    ensures forall i :: 0 <= i < |Survivors(rows, exclude)| ==> Complete(Survivors(rows, exclude)[i])
  {
    var kept := Survivors(rows, exclude);
    forall i | 0 <= i < |kept| ensures Complete(kept[i]) {
      assert kept[i] in kept;
    }
  }

  /** With nothing to exclude and no missing cell, the same rows come back in
      the same order, renumbered 0..n-1. */
  lemma RemoveSubjectsKeepsCompleteTable<K(!new)>(rows: seq<Row<K>>)
    requires forall i :: 0 <= i < |rows| ==> Complete(rows[i])
    ensures RemoveSubjects(rows, []).Success?
    ensures var out := RemoveSubjects(rows, []).value;
            && |out| == |rows|
            && forall i :: 0 <= i < |rows| ==> out[i] == Row(i, rows[i].fields)
  {
    FilterAll(rows, (row: Row<K>) => row.key !in []);
    FilterAll(rows, (row: Row<K>) => Complete(row));
  }

  lemma {:induction false} FilterAll<T(!new)>(s: seq<T>, keep: T -> bool)
    requires forall i :: 0 <= i < |s| ==> keep(s[i])
    ensures Filter(s, keep) == s
  {
    if s != [] {
      FilterAll(s[1..], keep);
      assert keep(s[0]);
      assert [s[0]] + s[1..] == s;
    }
  }

  /** A second pass with an empty exclusion list changes nothing. */
  lemma RemoveSubjectsIdempotent<K(!new)>(rows: seq<Row<K>>, exclude: seq<K>)
    requires RemoveSubjects(rows, exclude).Success?
    ensures RemoveSubjects(RemoveSubjects(rows, exclude).value, []) == Success(RemoveSubjects(rows, exclude).value)
  {
    RemoveSubjectsSpec(rows, exclude);
    var out := RemoveSubjects(rows, exclude).value;
    RemoveSubjectsKeepsCompleteTable(out);
    var again := RemoveSubjects(out, []).value;
    assert |again| == |out|;
    forall i | 0 <= i < |out| ensures again[i] == out[i] {
      assert out[i].key == i;
    }
    assert again == out;
  }
}
