/** The order of the list of memes, in terms of the counts and keys themselves. */
module ListOrder {
  import opened Text
  import opened SqlLanguage
  import opened StableSort
  import opened MemeHistory
  import opened MemeStore
  import opened MemeListing

  // ----- where the elements with one key stand -----

  lemma {:induction false} PlaceOf<T>(xs: seq<T>, key: T -> int, k: int, a: nat) returns (i: nat)
    requires a < |xs| && key(xs[a]) == k
    ensures i < |WithKey(xs, key, k)| && WithKey(xs, key, k)[i] == xs[a]
    decreases |xs|
  {
    if a == |xs| - 1 {
      i := |WithKey(Front(xs), key, k)|;
    } else {
      i := PlaceOf(Front(xs), key, k, a);
    }
  }

  /** Two elements with one key stand in the same order among all those with that key. */
  lemma {:induction false} PlacesOf<T>(xs: seq<T>, key: T -> int, k: int, a: nat, b: nat) returns (i: nat, j: nat)
    requires a < b < |xs| && key(xs[a]) == k && key(xs[b]) == k
    ensures i < j < |WithKey(xs, key, k)|
    ensures WithKey(xs, key, k)[i] == xs[a] && WithKey(xs, key, k)[j] == xs[b]
    decreases |xs|
  {
    if b == |xs| - 1 {
      i := PlaceOf(Front(xs), key, k, a);
      j := |WithKey(Front(xs), key, k)|;
    } else {
      i, j := PlacesOf(Front(xs), key, k, a, b);
    }
  }

  lemma {:induction false} SourceOf<T>(xs: seq<T>, key: T -> int, k: int, i: nat) returns (a: nat)
    requires i < |WithKey(xs, key, k)|
    ensures a < |xs| && xs[a] == WithKey(xs, key, k)[i]
    decreases |xs|
  {
    if i < |WithKey(Front(xs), key, k)| {
      a := SourceOf(Front(xs), key, k, i);
    } else {
      a := |xs| - 1;
    }
  }

  lemma {:induction false} SourcesOf<T>(xs: seq<T>, key: T -> int, k: int, i: nat, j: nat) returns (a: nat, b: nat)
    requires i < j < |WithKey(xs, key, k)|
    ensures a < b < |xs| && xs[a] == WithKey(xs, key, k)[i] && xs[b] == WithKey(xs, key, k)[j]
    decreases |xs|
  {
    if j < |WithKey(Front(xs), key, k)| {
      a, b := SourcesOf(Front(xs), key, k, i, j);
    } else {
      a := SourceOf(Front(xs), key, k, i);
      b := |xs| - 1;
    }
  }

  lemma {:induction false} FilterSource(keep: Row -> bool, rows: seq<Row>, i: nat) returns (a: nat)
    requires i < |Filter(keep, rows)|
    ensures a < |rows| && rows[a] == Filter(keep, rows)[i]
  {
    var n := if keep(rows[0]) then 1 else 0;
    if i < n {
      a := 0;
    } else {
      a := FilterSource(keep, rows[1..], i - n);
      a := a + 1;
    }
  }

  lemma {:induction false} FilterSources(keep: Row -> bool, rows: seq<Row>, i: nat, j: nat) returns (a: nat, b: nat)
    requires i < j < |Filter(keep, rows)|
    ensures a < b < |rows| && rows[a] == Filter(keep, rows)[i] && rows[b] == Filter(keep, rows)[j]
  {
    var n := if keep(rows[0]) then 1 else 0;
    if i < n {
      a := 0;
      b := FilterSource(keep, rows[1..], j - n);
      b := b + 1;
    } else {
      a, b := FilterSources(keep, rows[1..], i - n, j - n);
      a, b := a + 1, b + 1;
    }
  }

  // ----- the list -----

  /** Sorting throws exactly when there are two rows or more and a count among them is no number. */
  lemma ListedIff(rows: seq<Row>)
    requires Fives(rows)
    ensures Listed(rows).Some? <==> |rows| < 2 || forall i :: 0 <= i < |rows| ==> Stoi(rows[i][4]).Some?
    ensures |rows| < 2 ==> Listed(rows) == Some(rows)
  {
    if |rows| == 1 {
      assert Front(rows) == [] && rows == [Back(rows)];
      assert Reverse(rows) == [Back(rows)] + Reverse([]);
    }
    assert |rows| < 2 ==> Reverse(rows) == rows;
    hide Stoi, Reverse;
    if !Countable(rows) {
      var i :| 0 <= i < |rows| && !(|rows[i]| == 5 && Stoi(rows[i][4]).Some?);
      assert |rows[i]| == 5;
    } else {
      forall i | 0 <= i < |rows|
        ensures Stoi(rows[i][4]).Some?
      {
        assert |rows[i]| == 5;
      }
    }
  }

  lemma ListedIsSorted(rows: seq<Row>)
    requires Listed(rows).Some?
    ensures |Listed(rows).value| == |rows|
    ensures 2 <= |rows| ==> Countable(rows)
  {
  }

  /** Of any two rows of a list, the one that comes first has at least as many views as the other. If
      they have equally many, it was selected after the other. */
  lemma MostViewedFirst(rows: seq<Row>, a: nat, b: nat) returns (i: nat, j: nat)
    requires Listed(rows).Some? && a < b < |Listed(rows).value|
    ensures var listed := Listed(rows).value;
            && i < |rows| && listed[a] == rows[i] && j < |rows| && listed[b] == rows[j]
            && |listed[a]| == 5 && |listed[b]| == 5 && Stoi(listed[a][4]).Some? && Stoi(listed[b][4]).Some?
            && Stoi(listed[a][4]).value >= Stoi(listed[b][4]).value
            && (Stoi(listed[a][4]).value == Stoi(listed[b][4]).value ==> j < i)
  {
    var listed := Listed(rows).value;
    hide Listed, Stoi, WithKey, Reverse;
    ListedIsSorted(rows);
    ListedAreRows(rows);
    assert listed[a] in rows && listed[b] in rows;
    i :| 0 <= i < |rows| && rows[i] == listed[a];
    j :| 0 <= j < |rows| && rows[j] == listed[b];
    ListingOrder(rows, Views(listed[a]));
    assert Views(listed[a]) >= Views(listed[b]);
    if Views(listed[a]) == Views(listed[b]) {
      i, j := TiedRows(rows, listed, Views(listed[a]), a, b);
    }
  }

  lemma TiedRows(rows: seq<Row>, listed: seq<Row>, k: int, a: nat, b: nat) returns (i: nat, j: nat)
    requires WithKey(listed, Views, k) == Reverse(WithKey(rows, Views, k))
    requires a < b < |listed| && Views(listed[a]) == k && Views(listed[b]) == k
    ensures j < i < |rows| && rows[i] == listed[a] && rows[j] == listed[b]
  {
    hide Views, WithKey, Reverse;
    var tied := WithKey(rows, Views, k);
    var p, q := PlacesOf(listed, Views, k, a, b);
    ReverseAt(tied, p);
    ReverseAt(tied, q);
    j, i := SourcesOf(rows, Views, k, |tied| - 1 - q, |tied| - 1 - p);
  }

  /** Of any two memes in the list of those stored ones that some query keeps, at any moment of any run,
      the first has been viewed at least as often as the other according to the log, and has been created
      after it if they have been viewed equally often. */
  lemma MostViewedThenNewest(log: seq<Action>, keep: Row -> bool, a: nat, b: nat) returns (i: nat, j: nat)
    requires Possible(log) && Listed(Filter(keep, Rows(log))).Some?
    requires a < b < |Listed(Filter(keep, Rows(log))).value|
    ensures var listed, keys := Listed(Filter(keep, Rows(log))).value, Keys(log);
            && i < |keys| && j < |keys|
            && Expected(log, keys[i]) == Some(listed[a]) && Expected(log, keys[j]) == Some(listed[b])
            && Counter(log, keys[i]) >= Counter(log, keys[j])
            && (Counter(log, keys[i]) == Counter(log, keys[j]) ==> j < i)
            && |listed[a]| == 5 && listed[a][0] == keys[i] && listed[a][4] == IntText(Counter(log, keys[i]))
            && |listed[b]| == 5 && listed[b][0] == keys[j] && listed[b][4] == IntText(Counter(log, keys[j]))
  {
    hide *;
    var rows := Filter(keep, Rows(log));
    var p, q := MostViewedFirst(rows, a, b);
    if q < p {
      j, i := FilterSources(keep, Rows(log), q, p);
    } else {
      i := FilterSource(keep, Rows(log), p);
      j := FilterSource(keep, Rows(log), q);
    }
    RowsInOrderOfCreation(log);
    ExpectedIs(log, Keys(log)[i]);
    ExpectedIs(log, Keys(log)[j]);
    StoiOfIntText(Counter(log, Keys(log)[i]));
    StoiOfIntText(Counter(log, Keys(log)[j]));
  }

  lemma ExpectedIs(log: seq<Action>, key: string)
    ensures Expected(log, key).Some? ==>
              && |Expected(log, key).value| == 5
              && Expected(log, key).value[0] == key && Expected(log, key).value[4] == IntText(Counter(log, key))
  {
  }
}
