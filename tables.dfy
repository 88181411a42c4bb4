/**
  The table steps both versions of `process_excel` apply after building
  their rows: pandas' `drop_duplicates(column)`, which keeps the first row
  of each value; `sort_values("Citations", ascending=False)`; and, in
  backup.py, `mask(duplicated())` on the Name column.
*/
module Tables {
  import opened Wrappers

  /** One output row: the columns Name, Email, Domain, Country, Citations. */
  datatype Row = Row(name: Option<string>, email: string, domain: string, country: string, citations: int)

  function EmailOf(r: Row): string {
    r.email
  }

  function CitationsOf(r: Row): int {
    r.citations
  }

  /** The values the column `key` takes in `rows`. */
  function KeysOf<T, K(==)>(rows: seq<T>, key: T -> K): set<K> {
    set i | 0 <= i < |rows| :: key(rows[i])
  }

  /** The rows whose key no earlier row has. */
  predicate FirstOfKey<T, K(==)>(rows: seq<T>, key: T -> K, i: nat)
    requires i < |rows|
  {
    forall m :: 0 <= m < i ==> key(rows[m]) != key(rows[i])
  }

  /** `drop_duplicates(key)`: the first row of each key, in their order. */
  function DropDuplicates<T, K(==)>(rows: seq<T>, key: T -> K): (out: seq<T>)
    ensures |out| <= |rows|
    ensures KeysOf(out, key) == KeysOf(rows, key)
    ensures forall i, j :: 0 <= i < j < |out| ==> key(out[i]) != key(out[j])
    ensures forall j :: 0 <= j < |out| ==> out[j] in rows
  {
    if rows == [] then []
    else
      var init := rows[..|rows| - 1];
      var last := rows[|rows| - 1];
      var r := DropDuplicates(init, key);
      assert forall j :: 0 <= j < |r| ==> r[j] in rows by {
        forall j | 0 <= j < |r| ensures r[j] in rows {
          var i :| 0 <= i < |init| && init[i] == r[j];
          assert rows[i] == init[i];
        }
      }
      assert KeysOf(rows, key) == KeysOf(init, key) + {key(last)} by {
        forall k | k in KeysOf(rows, key) ensures k in KeysOf(init, key) + {key(last)} {
          var i :| 0 <= i < |rows| && key(rows[i]) == k;
          if i < |init| {
            assert rows[i] == init[i];
          }
        }
        forall k | k in KeysOf(init, key) ensures k in KeysOf(rows, key) {
          var i :| 0 <= i < |init| && key(init[i]) == k;
          assert rows[i] == init[i];
        }
      }
      if key(last) in KeysOf(init, key) then r
      else
        var out := r + [last];
        assert KeysOf(out, key) == KeysOf(r, key) + {key(last)} by {
          forall k | k in KeysOf(out, key) ensures k in KeysOf(r, key) + {key(last)} {
            var i :| 0 <= i < |out| && key(out[i]) == k;
            if i < |r| {
              assert out[i] == r[i];
            }
          }
          forall k | k in KeysOf(r, key) ensures k in KeysOf(out, key) {
            var i :| 0 <= i < |r| && key(r[i]) == k;
            assert out[i] == r[i];
          }
          assert out[|r|] == last;
        }
        out
  }

  /** Scores that never increase along the sequence: `ascending=False`. */
  predicate SortedDesc<T>(rows: seq<T>, score: T -> int) {
    forall i, j :: 0 <= i < j < |rows| ==> score(rows[i]) >= score(rows[j])
  }

  /** Puts `x` into a sorted sequence before the first row it outscores. */
  function InsertDesc<T(==)>(x: T, rows: seq<T>, score: T -> int): (r: seq<T>)
    requires SortedDesc(rows, score)
    ensures SortedDesc(r, score)
    ensures multiset(r) == multiset(rows) + multiset{x}
  {
    if rows == [] then [x]
    else if score(x) >= score(rows[0]) then
      [x] + rows
    else
      var tail := InsertDesc(x, rows[1..], score);
      assert multiset(tail) == multiset(rows[1..]) + multiset{x};
      assert forall k :: 0 <= k < |tail| ==> score(tail[k]) <= score(rows[0]) by {
        forall k | 0 <= k < |tail| ensures score(tail[k]) <= score(rows[0]) {
          assert tail[k] in multiset(tail);
          if tail[k] != x {
            assert tail[k] in multiset(rows[1..]);
            var m :| 0 <= m < |rows[1..]| && rows[1..][m] == tail[k];
            assert rows[m + 1] == tail[k];
          }
        }
      }
      assert rows == [rows[0]] + rows[1..];
      [rows[0]] + tail
  }

  /**
    `sort_values(score, ascending=False)`. pandas' default sort is not
    stable; this is one order it may produce, and the lemmas about the
    tables rely only on the two properties stated here.
  */
  function SortDesc<T(==)>(rows: seq<T>, score: T -> int): (r: seq<T>)
    ensures SortedDesc(r, score)
    ensures multiset(r) == multiset(rows)
  {
    if rows == [] then []
    else
      assert rows == [rows[0]] + rows[1..];
      InsertDesc(rows[0], SortDesc(rows[1..], score), score)
  }

  // ---------------------------------------------------------------------
  // The survivor of drop_duplicates is the first row of its key
  // ---------------------------------------------------------------------

  lemma KeysOfPrefix<T, K>(rows: seq<T>, key: T -> K, i: nat)
    requires i < |rows|
    ensures key(rows[i]) !in KeysOf(rows[..i], key) <==> FirstOfKey(rows, key, i)
  {
    if key(rows[i]) in KeysOf(rows[..i], key) {
      var m :| 0 <= m < i && key(rows[..i][m]) == key(rows[i]);
      assert rows[m] == rows[..i][m];
    }
    if !FirstOfKey(rows, key, i) {
      var m :| 0 <= m < i && key(rows[m]) == key(rows[i]);
      assert rows[..i][m] == rows[m];
    }
  }

  /** A row whose key no earlier row has survives. */
  lemma {:induction false} FirstSurvives<T, K>(rows: seq<T>, key: T -> K, i: nat)
    requires i < |rows| && FirstOfKey(rows, key, i)
    ensures rows[i] in DropDuplicates(rows, key)
  {
    var init := rows[..|rows| - 1];
    if i == |rows| - 1 {
      KeysOfPrefix(rows, key, i);
      assert init == rows[..i];
    } else {
      assert init[i] == rows[i];
      assert FirstOfKey(init, key, i) by {
        forall m | 0 <= m < i ensures key(init[m]) != key(init[i]) {
          assert init[m] == rows[m];
        }
      }
      FirstSurvives(init, key, i);
    }
  }

  /** Every surviving row is the first row of its key. */
  lemma {:induction false} SurvivorIsFirst<T, K>(rows: seq<T>, key: T -> K, j: nat)
    requires j < |DropDuplicates(rows, key)|
    ensures exists i :: 0 <= i < |rows| && rows[i] == DropDuplicates(rows, key)[j] && FirstOfKey(rows, key, i)
  {
    var init := rows[..|rows| - 1];
    var last := rows[|rows| - 1];
    var r := DropDuplicates(init, key);
    var out := DropDuplicates(rows, key);
    if j < |r| {
      assert out[j] == r[j];
      SurvivorIsFirst(init, key, j);
      var i :| 0 <= i < |init| && init[i] == r[j] && FirstOfKey(init, key, i);
      assert rows[i] == init[i];
      forall m | 0 <= m < i ensures key(rows[m]) != key(rows[i]) {
        assert rows[m] == init[m];
      }
    } else {
      assert out[j] == last && key(last) !in KeysOf(init, key);
      KeysOfPrefix(rows, key, |rows| - 1);
      assert init == rows[..|rows| - 1];
    }
  }

  /** Dropping duplicates keeps the surviving rows in their input order. */
  lemma {:induction false} DropDuplicatesKeepsOrder<T, K>(rows: seq<T>, key: T -> K, i: nat, j: nat)
    requires i < j < |rows| && FirstOfKey(rows, key, i) && FirstOfKey(rows, key, j)
    ensures exists p, q ::
              0 <= p < q < |DropDuplicates(rows, key)| &&
              DropDuplicates(rows, key)[p] == rows[i] && DropDuplicates(rows, key)[q] == rows[j]
  {
    var init := rows[..|rows| - 1];
    var last := rows[|rows| - 1];
    var r := DropDuplicates(init, key);
    var out := DropDuplicates(rows, key);
    assert init[i] == rows[i];
    assert FirstOfKey(init, key, i) by {
      forall m | 0 <= m < i ensures key(init[m]) != key(init[i]) {
        assert init[m] == rows[m];
      }
    }
    if j == |rows| - 1 {
      KeysOfPrefix(rows, key, j);
      assert init == rows[..j];
      assert out == r + [last];
      FirstSurvives(init, key, i);
      var p :| 0 <= p < |r| && r[p] == rows[i];
      assert out[p] == rows[i] && out[|r|] == rows[j];
    } else {
      assert init[j] == rows[j];
      assert FirstOfKey(init, key, j) by {
        forall m | 0 <= m < j ensures key(init[m]) != key(init[j]) {
          assert init[m] == rows[m];
        }
      }
      DropDuplicatesKeepsOrder(init, key, i, j);
      var p, q :| 0 <= p < q < |r| && r[p] == rows[i] && r[q] == rows[j];
      assert out[p] == r[p] && out[q] == r[q];
    }
  }

  /** On rows whose keys are already distinct, dropping duplicates changes nothing. */
  lemma {:induction false} DropDuplicatesOfDistinct<T, K>(rows: seq<T>, key: T -> K)
    requires forall i, j :: 0 <= i < j < |rows| ==> key(rows[i]) != key(rows[j])
    ensures DropDuplicates(rows, key) == rows
  {
    if rows != [] {
      var init := rows[..|rows| - 1];
      DropDuplicatesOfDistinct(init, key);
      KeysOfPrefix(rows, key, |rows| - 1);
      assert init == rows[..|rows| - 1];
    }
  }

  /** Dropping duplicates twice is dropping them once. */
  lemma DropDuplicatesIdempotent<T, K>(rows: seq<T>, key: T -> K)
    ensures DropDuplicates(DropDuplicates(rows, key), key) == DropDuplicates(rows, key)
  {
    DropDuplicatesOfDistinct(DropDuplicates(rows, key), key);
  }

  /**
    Sorting by a score and then dropping duplicates keeps, for each key, a
    row with the highest score among the rows of that key
    (test_similar_logic.py:61-62). This holds for every order the sort may
    produce.
  */
  lemma SortedDedupKeepsMax<T, K>(s: seq<T>, key: T -> K, score: T -> int, j: nat, x: T)
    requires SortedDesc(s, score)
    requires j < |DropDuplicates(s, key)|
    requires x in s && key(x) == key(DropDuplicates(s, key)[j])
    ensures score(x) <= score(DropDuplicates(s, key)[j])
  {
    SurvivorIsFirst(s, key, j);
    var i0 :| 0 <= i0 < |s| && s[i0] == DropDuplicates(s, key)[j] && FirstOfKey(s, key, i0);
    var i :| 0 <= i < |s| && s[i] == x;
    assert key(s[i]) == key(s[i0]);
    assert i0 <= i;
  }

  /** Keys that are pairwise distinct. */
  predicate DistinctKeys<T, K(==)>(rows: seq<T>, key: T -> K) {
    forall i, j :: 0 <= i < j < |rows| ==> key(rows[i]) != key(rows[j])
  }

  /** With distinct keys, no row occurs twice. */
  lemma {:induction false} DistinctKeysAtMostOnce<T, K>(rows: seq<T>, key: T -> K, x: T)
    requires DistinctKeys(rows, key)
    ensures multiset(rows)[x] <= 1
  {
    if rows != [] {
      var init := rows[..|rows| - 1];
      var last := rows[|rows| - 1];
      assert DistinctKeys(init, key) by {
        forall i, j | 0 <= i < j < |init| ensures key(init[i]) != key(init[j]) {
          assert init[i] == rows[i] && init[j] == rows[j];
        }
      }
      DistinctKeysAtMostOnce(init, key, x);
      assert rows == init + [last];
      if last == x {
        forall m | 0 <= m < |init| ensures init[m] != x {
          assert init[m] == rows[m];
        }
        assert x !in multiset(init);
      }
    }
  }

  /** A row that occurs at two positions occurs twice. */
  lemma TwiceCounted<T>(s: seq<T>, i: nat, j: nat)
    requires i < j < |s| && s[i] == s[j]
    ensures multiset(s)[s[i]] >= 2
  {
    assert s == s[..i] + [s[i]] + s[i + 1..j] + [s[j]] + s[j + 1..];
  }

  /** Rearranging rows keeps their keys distinct. */
  lemma PermutationKeepsDistinctKeys<T, K>(a: seq<T>, b: seq<T>, key: T -> K)
    requires multiset(a) == multiset(b) && DistinctKeys(a, key)
    ensures DistinctKeys(b, key)
  {
    forall i, j | 0 <= i < j < |b| ensures key(b[i]) != key(b[j]) {
      if b[i] == b[j] {
        TwiceCounted(b, i, j);
        DistinctKeysAtMostOnce(a, key, b[i]);
      } else {
        assert b[i] in multiset(a) && b[j] in multiset(a);
        var p :| 0 <= p < |a| && a[p] == b[i];
        var q :| 0 <= q < |a| && a[q] == b[j];
        assert p != q;
      }
    }
  }

  /** Rearranging rows keeps the set of their keys. */
  lemma PermutationKeepsKeys<T, K>(a: seq<T>, b: seq<T>, key: T -> K)
    requires multiset(a) == multiset(b)
    ensures KeysOf(a, key) == KeysOf(b, key)
  {
    forall k | k in KeysOf(a, key) ensures k in KeysOf(b, key) {
      var i :| 0 <= i < |a| && key(a[i]) == k;
      assert a[i] in multiset(b);
      var j :| 0 <= j < |b| && b[j] == a[i];
    }
    forall k | k in KeysOf(b, key) ensures k in KeysOf(a, key) {
      var j :| 0 <= j < |b| && key(b[j]) == k;
      assert b[j] in multiset(a);
      var i :| 0 <= i < |a| && a[i] == b[j];
    }
  }

  /** `drop_duplicates(key)` followed by `sort_values(score, ascending=False)`. */
  function DedupThenSort<T(==), K(==)>(rows: seq<T>, key: T -> K, score: T -> int): seq<T> {
    SortDesc(DropDuplicates(rows, key), score)
  }

  /**
    The shape of every output table: sorted by score, one row per key, the
    same keys as the appended rows, and each row the first appended row of
    its key; and every such first row is there.
  */
  lemma DedupThenSortShape<T, K>(rows: seq<T>, key: T -> K, score: T -> int)
    ensures SortedDesc(DedupThenSort(rows, key, score), score)
    ensures DistinctKeys(DedupThenSort(rows, key, score), key)
    ensures KeysOf(DedupThenSort(rows, key, score), key) == KeysOf(rows, key)
    ensures forall x | x in DedupThenSort(rows, key, score) ::
      exists i :: 0 <= i < |rows| && rows[i] == x && FirstOfKey(rows, key, i)
    ensures forall i | 0 <= i < |rows| && FirstOfKey(rows, key, i) :: rows[i] in DedupThenSort(rows, key, score)
  {
    var d := DropDuplicates(rows, key);
    var out := DedupThenSort(rows, key, score);
    PermutationKeepsDistinctKeys(d, out, key);
    PermutationKeepsKeys(d, out, key);
    forall x | x in out ensures exists i :: 0 <= i < |rows| && rows[i] == x && FirstOfKey(rows, key, i) {
      assert x in multiset(d);
      var j :| 0 <= j < |d| && d[j] == x;
      SurvivorIsFirst(rows, key, j);
    }
    forall i | 0 <= i < |rows| && FirstOfKey(rows, key, i) ensures rows[i] in out {
      FirstSurvives(rows, key, i);
      assert rows[i] in multiset(out);
    }
  }

  /**
    Two rows of one Email, the lower-cited appended first: the table keeps
    the first one, because the duplicates are dropped before the sort.
  */
  lemma DuplicateKeepsFirstAppended(first: Row, later: Row)
    requires first.email == later.email && first.citations < later.citations
    ensures DedupThenSort([first, later], EmailOf, CitationsOf) == [first]
  {
    assert [first, later][..1] == [first];
    assert [first][..0] == [];
    assert DropDuplicates([first], EmailOf) == [first];
    assert EmailOf(later) in KeysOf([first], EmailOf);
  }

  // ---------------------------------------------------------------------
  // backup.py:343, all_df["Name"].mask(all_df["Name"].duplicated())
  // ---------------------------------------------------------------------

  function NameOf(r: Row): Option<string> {
    r.name
  }

  /** Every Name that an earlier row already has becomes empty (NaN). */
  function MaskRepeatedNames(rows: seq<Row>): (out: seq<Row>)
    ensures |out| == |rows|
  {
    if rows == [] then []
    else
      var init := rows[..|rows| - 1];
      var last := rows[|rows| - 1];
      var r := MaskRepeatedNames(init);
      if last.name in KeysOf(init, NameOf) then r + [last.(name := None)] else r + [last]
  }

  /** Row by row: only the Name column changes, and it is cleared exactly on repeats. */
  lemma {:induction false} MaskAt(rows: seq<Row>, i: nat)
    requires i < |rows|
    ensures MaskRepeatedNames(rows)[i] == if FirstOfKey(rows, NameOf, i) then rows[i] else rows[i].(name := None)
  {
    var init := rows[..|rows| - 1];
    if i == |rows| - 1 {
      KeysOfPrefix(rows, NameOf, i);
      assert init == rows[..i];
    } else {
      MaskAt(init, i);
      assert init[i] == rows[i];
      assert FirstOfKey(init, NameOf, i) <==> FirstOfKey(rows, NameOf, i) by {
        forall m | 0 <= m < i ensures init[m] == rows[m] {
        }
      }
    }
  }

  /** After masking, no Name that is present appears twice. */
  lemma MaskedNamesDistinct(rows: seq<Row>, i: nat, j: nat)
    requires i < j < |rows|
    requires MaskRepeatedNames(rows)[i].name.Some? && MaskRepeatedNames(rows)[j].name.Some?
    ensures MaskRepeatedNames(rows)[i].name != MaskRepeatedNames(rows)[j].name
  {
    MaskAt(rows, i);
    MaskAt(rows, j);
  }

  /** Every Name of the input is still shown, on the first row that has it. */
  lemma MaskKeepsFirstName(rows: seq<Row>, i: nat)
    requires i < |rows| && FirstOfKey(rows, NameOf, i)
    ensures MaskRepeatedNames(rows)[i] == rows[i]
  {
    MaskAt(rows, i);
  }

  /** Only the Name column changes: every other column of every row stays. */
  lemma MaskKeepsOtherColumns(rows: seq<Row>)
    ensures |MaskRepeatedNames(rows)| == |rows|
    ensures forall i :: 0 <= i < |rows| ==> MaskRepeatedNames(rows)[i].(name := rows[i].name) == rows[i]
  {
    forall i | 0 <= i < |rows| ensures MaskRepeatedNames(rows)[i].(name := rows[i].name) == rows[i] {
      MaskAt(rows, i);
    }
  }

  /** No Name that is present appears on two rows. */
  predicate PresentNamesDistinct(rows: seq<Row>) {
    forall i, j :: 0 <= i < j < |rows| && rows[i].name.Some? ==> rows[i].name != rows[j].name
  }

  /** A row with a Name occurs at most once where present names are distinct. */
  lemma {:induction false} NamedRowAtMostOnce(rows: seq<Row>, x: Row)
    requires PresentNamesDistinct(rows) && x.name.Some?
    ensures multiset(rows)[x] <= 1
  {
    if rows != [] {
      var init := rows[..|rows| - 1];
      var last := rows[|rows| - 1];
      assert PresentNamesDistinct(init) by {
        forall i, j | 0 <= i < j < |init| && init[i].name.Some? ensures init[i].name != init[j].name {
          assert init[i] == rows[i] && init[j] == rows[j];
        }
      }
      NamedRowAtMostOnce(init, x);
      assert rows == init + [last];
      if last == x {
        forall m | 0 <= m < |init| ensures init[m] != x {
          assert init[m] == rows[m];
        }
        assert x !in multiset(init);
      }
    }
  }

  /** Rearranging rows keeps their present names distinct. */
  lemma PermutationKeepsPresentNamesDistinct(a: seq<Row>, b: seq<Row>)
    requires multiset(a) == multiset(b) && PresentNamesDistinct(a)
    ensures PresentNamesDistinct(b)
  {
    forall i, j | 0 <= i < j < |b| && b[i].name.Some? ensures b[i].name != b[j].name {
      if b[i] == b[j] {
        TwiceCounted(b, i, j);
        NamedRowAtMostOnce(a, b[i]);
      } else {
        assert b[i] in multiset(a) && b[j] in multiset(a);
        var p :| 0 <= p < |a| && a[p] == b[i];
        var q :| 0 <= q < |a| && a[q] == b[j];
        if p < q {
          assert a[p].name != a[q].name;
        } else {
          assert q < p;
          if a[q].name.Some? {
            assert a[q].name != a[p].name;
          }
        }
      }
    }
  }

  /** After masking, the present names are distinct. */
  lemma MaskedPresentNamesDistinct(rows: seq<Row>)
    ensures PresentNamesDistinct(MaskRepeatedNames(rows))
  {
    var out := MaskRepeatedNames(rows);
    forall i, j | 0 <= i < j < |out| && out[i].name.Some? ensures out[i].name != out[j].name {
      if out[j].name.Some? {
        MaskedNamesDistinct(rows, i, j);
      }
    }
  }

  /** Masking keeps the set of Emails and their distinctness. */
  lemma MaskKeepsEmails(rows: seq<Row>)
    ensures KeysOf(MaskRepeatedNames(rows), EmailOf) == KeysOf(rows, EmailOf)
    ensures DistinctKeys(rows, EmailOf) ==> DistinctKeys(MaskRepeatedNames(rows), EmailOf)
  {
    var m := MaskRepeatedNames(rows);
    MaskKeepsOtherColumns(rows);
    assert forall i :: 0 <= i < |m| ==> EmailOf(m[i]) == EmailOf(rows[i]);
  }
}
