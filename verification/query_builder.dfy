/** `create_query` of `src/clean_data.py`: from the rows of the city list
    (city name, local names, country), build one query per country, the
    country's city names and comma-separated local names, deduplicated,
    sorted and joined with `", "`. Reading and writing the CSV files is left
    out; a cell pandas reads as missing is `None`. */
module QueryBuilder {
  import opened Options
  import opened Text
  import opened Ingestion

  /** One row of the city list, restricted to the three columns used. */
  datatype Row = Row(city: Option<string>, localName: Option<string>, country: Option<string>)

  /** One row of the output table. */
  datatype CountryQuery = CountryQuery(country: string, query: string)

  // ----------------------------------------------- first-appearance order

  predicate Distinct<T(==)>(xs: seq<T>)
  {
    forall i, j :: 0 <= i < j < |xs| ==> xs[i] != xs[j]
  }

  /** Where `x` first occurs in `xs`. */
  function FirstIndex<T(==)>(xs: seq<T>, x: T): (i: nat)
    requires x in xs
    ensures i < |xs| && xs[i] == x && x !in xs[..i]
  {
    if xs[0] == x then 0 else 1 + FirstIndex(xs[1..], x)
  }

  /** The first occurrence of `x` in a prefix that holds it is its first
      occurrence in the whole sequence. */
  lemma FirstIndexPrefix<T>(xs: seq<T>, m: nat, x: T)
    requires m <= |xs| && x in xs[..m]
    ensures FirstIndex(xs, x) == FirstIndex(xs[..m], x)
  {
    var i := FirstIndex(xs[..m], x);
    var j := FirstIndex(xs, x);
    assert xs[..m][..i] == xs[..i];
  }

  /** The distinct elements in order of first appearance: `drop_duplicates()`
      on rows, `Series.unique()` on values. */
  function Unique<T(==, !new)>(xs: seq<T>): (r: seq<T>)
    ensures forall x :: x in r <==> x in xs
    ensures Distinct(r)
    ensures |r| <= |xs|
  {
    if |xs| == 0 then []
    else
      var init := xs[..|xs| - 1];
      var x := xs[|xs| - 1];
      assert xs == init + [x];
      var u := Unique(init);
      if x in u then u else u + [x]
  }

  /** The elements of `r` occur in `xs`, and in `r` they stand in the order of
      their first occurrence in `xs`. */
  predicate InFirstOrder<T(==)>(xs: seq<T>, r: seq<T>)
  {
    && (forall k :: 0 <= k < |r| ==> r[k] in xs)
    && forall i, j :: 0 <= i < j < |r| ==> FirstIndex(xs, r[i]) < FirstIndex(xs, r[j])
  }

  /** `Unique` lists the elements in the order of their first occurrence. */
  lemma {:induction false} UniqueOrder<T(!new)>(xs: seq<T>)
    ensures InFirstOrder(xs, Unique(xs))
  {
    if |xs| > 0 {
      var n := |xs| - 1;
      var init := xs[..n];
      var x := xs[n];
      var u := Unique(init);
      var r := Unique(xs);
      UniqueOrder(init);
      assert xs[..n] == init;
      forall i, j | 0 <= i < j < |r|
        ensures FirstIndex(xs, r[i]) < FirstIndex(xs, r[j])
      {
        assert r[i] == u[i] && r[i] in init;
        FirstIndexPrefix(xs, n, r[i]);
        if j < |u| {
          assert r[j] == u[j] && r[j] in init;
          FirstIndexPrefix(xs, n, r[j]);
          assert FirstIndex(init, u[i]) < FirstIndex(init, u[j]);
        } else {
          assert r == u + [x] && r[j] == x && x !in init;
          assert forall m :: 0 <= m < n ==> xs[m] == init[m];
          assert FirstIndex(xs, x) == n;
        }
      }
    }
  }

  // ------------------------------------------------------ row selection

  /** Country and city both present: the rows `dropna(subset=[...])` keeps. */
  predicate Complete(row: Row)
  {
    row.city.Some? && row.country.Some?
  }

  /** `dropna(subset=["country_name", "city_name"])`, keeping the order. */
  function DropMissing(rows: seq<Row>): (r: seq<Row>)
    ensures forall row :: row in r <==> row in rows && Complete(row)
    ensures forall k :: 0 <= k < |r| ==> Complete(r[k])
  {
    if |rows| == 0 then []
    else
      var rest := DropMissing(rows[1..]);
      assert forall row :: row in rows <==> row == rows[0] || row in rows[1..];
      if Complete(rows[0]) then [rows[0]] + rest else rest
  }

  /** `dropna` keeps the row order: the rows kept from a table are those kept
      from its first part followed by those kept from the rest, and one row is
      kept exactly when it is complete. */
  lemma {:induction false} DropMissingAppend(a: seq<Row>, b: seq<Row>)
    ensures DropMissing(a + b) == DropMissing(a) + DropMissing(b)
    ensures |a| == 1 ==> DropMissing(a) == if Complete(a[0]) then a else []
  {
    if |a| == 0 {
      assert a + b == b;
    } else {
      assert (a + b)[1..] == a[1..] + b;
      DropMissingAppend(a[1..], b);
    }
  }

  /** The rows `create_query` works on: duplicates dropped, then incomplete
      rows. They are the complete rows of the input, each once, in the order
      of their first appearance (`PreparedOrder`). */
  function Prepared(rows: seq<Row>): (r: seq<Row>)
    ensures forall row :: row in r <==> row in rows && Complete(row)
    ensures forall k :: 0 <= k < |r| ==> Complete(r[k])
    ensures Distinct(r)
  {
    var u := Unique(rows);
    var r := DropMissing(u);
    DropMissingDistinct(u);
    r
  }

  /** The prepared rows stand in the order of their first appearance in the
      input. */
  lemma PreparedOrder(rows: seq<Row>)
    ensures InFirstOrder(rows, Prepared(rows))
  {
    UniqueOrder(rows);
    DropMissingKeepsOrder(rows, Unique(rows));
  }

  /** Dropping rows from a listing in first-appearance order leaves one in
      first-appearance order. */
  lemma {:induction false} DropMissingKeepsOrder(xs: seq<Row>, u: seq<Row>)
    requires InFirstOrder(xs, u)
    ensures InFirstOrder(xs, DropMissing(u))
  {
    if |u| > 0 {
      var tail := u[1..];
      TailOrder(xs, u);
      DropMissingKeepsOrder(xs, tail);
      var rest := DropMissing(tail);
      if Complete(u[0]) {
        forall y | y in rest
          ensures y in xs && FirstIndex(xs, u[0]) < FirstIndex(xs, y)
        {
          HeadFirst(xs, u, y);
        }
        ConsOrder(xs, u[0], rest);
      }
    }
  }

  lemma TailOrder<T>(xs: seq<T>, u: seq<T>)
    requires InFirstOrder(xs, u) && |u| > 0
    ensures InFirstOrder(xs, u[1..])
  {
    var tail := u[1..];
    forall i, j | 0 <= i < j < |tail|
      ensures FirstIndex(xs, tail[i]) < FirstIndex(xs, tail[j])
    {
      assert tail[i] == u[i + 1] && tail[j] == u[j + 1];
    }
  }

  lemma HeadFirst<T>(xs: seq<T>, u: seq<T>, y: T)
    requires InFirstOrder(xs, u) && |u| > 0 && y in u[1..]
    ensures y in xs && FirstIndex(xs, u[0]) < FirstIndex(xs, y)
  {
    var m :| 0 <= m < |u| - 1 && u[1..][m] == y;
    assert u[m + 1] == y;
  }

  lemma ConsOrder<T>(xs: seq<T>, x: T, rest: seq<T>)
    requires x in xs && InFirstOrder(xs, rest)
    requires forall y :: y in rest ==> y in xs && FirstIndex(xs, x) < FirstIndex(xs, y)
    ensures InFirstOrder(xs, [x] + rest)
  {
    var r := [x] + rest;
    forall i, j | 0 <= i < j < |r|
      ensures FirstIndex(xs, r[i]) < FirstIndex(xs, r[j])
    {
      assert r[j] == rest[j - 1];
      if i > 0 {
        assert r[i] == rest[i - 1];
      }
    }
  }

  lemma {:induction false} DropMissingDistinct(rows: seq<Row>)
    requires Distinct(rows)
    ensures Distinct(DropMissing(rows))
  {
    if |rows| > 0 {
      DropMissingDistinct(rows[1..]);
      assert rows[0] !in rows[1..];
    }
  }

  /** The country column of complete rows. */
  function CountryColumn(p: seq<Row>): (names: seq<string>)
    requires forall row :: row in p ==> row.country.Some?
    ensures |names| == |p|
    ensures forall c :: c in names <==> exists row :: row in p && row.country == Some(c)
  {
    var names := seq(|p|, k requires 0 <= k < |p| => p[k].country.value);
    assert forall c :: c in names <==> exists row :: row in p && row.country == Some(c) by {
      forall c
        ensures c in names <==> exists row :: row in p && row.country == Some(c)
      {
        if c in names {
          var k :| 0 <= k < |p| && names[k] == c;
          assert p[k] in p;
        }
        if exists row :: row in p && row.country == Some(c) {
          var row :| row in p && row.country == Some(c);
          var k :| 0 <= k < |p| && p[k] == row;
          assert names[k] == c;
        }
      }
    }
    names
  }

  /** `country_city_df["country_name"].unique()`. */
  function Countries(rows: seq<Row>): (cs: seq<string>)
    ensures Distinct(cs)
    ensures forall c :: c in cs <==> exists row :: row in rows && Complete(row) && row.country == Some(c)
  {
    Unique(CountryColumn(Prepared(rows)))
  }

  /** The countries come in the order in which they first appear among the
      complete rows of the input. */
  lemma CountriesInFirstOrder(rows: seq<Row>)
    ensures InFirstOrder(CountryColumn(DropMissing(rows)), Countries(rows))
  {
    CountriesFromInput(rows);
    UniqueOrder(CountryColumn(DropMissing(rows)));
  }

  /** Dropping duplicate rows first does not change the countries: they are
      the distinct countries of the input's complete rows. */
  lemma CountriesFromInput(rows: seq<Row>)
    ensures Countries(rows) == Unique(CountryColumn(DropMissing(rows)))
  {
    DropUniqueCommute(rows);
    UniqueColumn(DropMissing(rows));
  }

  /** `Unique` of a sequence with one more element at its end. */
  lemma UniqueSnoc<T(!new)>(xs: seq<T>, x: T)
    ensures Unique(xs + [x]) == if x in Unique(xs) then Unique(xs) else Unique(xs) + [x]
  {
    assert (xs + [x])[..|xs|] == xs;
  }

  /** Dropping duplicates and dropping incomplete rows commute. */
  lemma {:induction false} DropUniqueCommute(rows: seq<Row>)
    ensures DropMissing(Unique(rows)) == Unique(DropMissing(rows))
  {
    if |rows| > 0 {
      var n := |rows| - 1;
      var init := rows[..n];
      var x := rows[n];
      assert rows == init + [x];
      DropUniqueCommute(init);
      UniqueSnoc(init, x);
      DropMissingAppend(init, [x]);
      DropMissingAppend([x], []);
      assert [x] + [] == [x];
      DropUniqueStep(init, x);
    }
  }

  lemma DropUniqueStep(init: seq<Row>, x: Row)
    requires DropMissing(Unique(init)) == Unique(DropMissing(init))
    ensures DropMissing(if x in Unique(init) then Unique(init) else Unique(init) + [x])
         == Unique(DropMissing(init) + (if Complete(x) then [x] else []))
  {
    var u := Unique(init);
    var d := DropMissing(init);
    if Complete(x) {
      UniqueSnoc(d, x);
      if x !in u {
        DropMissingAppend(u, [x]);
        DropMissingAppend([x], []);
        assert [x] + [] == [x];
      }
    } else {
      assert d + [] == d;
      if x !in u {
        DropMissingAppend(u, [x]);
        DropMissingAppend([x], []);
        assert [x] + [] == [x];
        assert DropMissing(u) + [] == DropMissing(u);
      }
    }
  }

  lemma ColumnSnoc(p: seq<Row>, x: Row)
    requires forall row :: row in p + [x] ==> row.country.Some?
    ensures CountryColumn(p + [x]) == CountryColumn(p) + [x.country.value]
  {
    var a := CountryColumn(p + [x]);
    var b := CountryColumn(p) + [x.country.value];
    assert |a| == |b|;
    forall k | 0 <= k < |a|
      ensures a[k] == b[k]
    {
      assert (p + [x])[k] in p + [x];
      if k < |p| {
        assert (p + [x])[k] == p[k];
      }
    }
  }

  /** Deduplicating rows before taking the distinct countries changes
      nothing. */
  lemma {:induction false} UniqueColumn(p: seq<Row>)
    requires forall row :: row in p ==> row.country.Some?
    ensures Unique(CountryColumn(Unique(p))) == Unique(CountryColumn(p))
  {
    if |p| > 0 {
      var n := |p| - 1;
      var init := p[..n];
      var x := p[n];
      assert p == init + [x];
      UniqueColumn(init);
      var u := Unique(init);
      var c := x.country.value;
      UniqueSnoc(init, x);
      ColumnSnoc(init, x);
      UniqueSnoc(CountryColumn(init), c);
      if x in u {
        assert x in init && x.country == Some(c);
        assert c in CountryColumn(init);
      } else {
        ColumnSnoc(u, x);
        UniqueSnoc(CountryColumn(u), c);
        assert c in CountryColumn(u) <==> c in CountryColumn(init);
      }
    }
  }

  // ---------------------------------------------------------------- terms

  /** `country_df["city_name"].apply(str).tolist()`: the city names of the
      country's rows, in row order. */
  function Cities(rows: seq<Row>, c: string): (r: seq<string>)
    ensures forall x :: x in r <==> exists row :: row in rows && row.country == Some(c) && row.city == Some(x)
  {
    if |rows| == 0 then []
    else
      var rest := Cities(rows[1..], c);
      assert forall row :: row in rows <==> row == rows[0] || row in rows[1..];
      if rows[0].country == Some(c) && rows[0].city.Some? then [rows[0].city.value] + rest else rest
  }

  /** Names as `create_query` keeps local names: non-empty, stripped, free of
      commas. */
  predicate Clean(xs: seq<string>)
  {
    forall k :: 0 <= k < |xs| ==> xs[k] != "" && IsStripped(xs[k]) && ',' !in xs[k]
  }

  lemma CleanAppend(a: seq<string>, b: seq<string>)
    requires Clean(a) && Clean(b)
    ensures Clean(a + b)
  {
    forall k | 0 <= k < |a + b|
      ensures (a + b)[k] != "" && IsStripped((a + b)[k]) && ',' !in (a + b)[k]
    {
      if k < |a| {
        assert (a + b)[k] == a[k];
      } else {
        assert (a + b)[k] == b[k - |a|];
      }
    }
  }

  /** The local names in one cell: the comma-separated pieces, stripped, the
      empty ones dropped. */
  function Pieces(cell: string): (r: seq<string>)
    ensures Clean(r)
    ensures forall x :: x in r <==> x != "" && exists q :: q in Split(cell, ',') && x == Strip(q)
  {
    StrippedPieces(Split(cell, ','))
  }

  function StrippedPieces(qs: seq<string>): (r: seq<string>)
    requires forall k :: 0 <= k < |qs| ==> ',' !in qs[k]
    ensures Clean(r)
    ensures forall x :: x in r <==> x != "" && exists q :: q in qs && x == Strip(q)
  {
    if |qs| == 0 then []
    else
      var rest := StrippedPieces(qs[1..]);
      var t := Strip(qs[0]);
      StripKeepsAbsent(qs[0], ',');
      assert forall q :: q in qs <==> q == qs[0] || q in qs[1..];
      if t != "" then
        assert Clean([t]);
        CleanAppend([t], rest);
        [t] + rest
      else rest
  }

  /** The local names of the country's rows, in row order. */
  function LocalNames(rows: seq<Row>, c: string): (r: seq<string>)
    ensures Clean(r)
  {
    if |rows| == 0 then []
    else
      var rest := LocalNames(rows[1..], c);
      if rows[0].country == Some(c) && rows[0].localName.Some? then
        var here := Pieces(rows[0].localName.value);
        CleanAppend(here, rest);
        here + rest
      else rest
  }

  /** `x` is one of the local names `row` gives country `c`. */
  predicate LocalNameOf(row: Row, c: string, x: string)
  {
    row.country == Some(c) && row.localName.Some? && x in Pieces(row.localName.value)
  }

  /** A local name of the country is a piece of the local-name cell of one of
      its rows, and every such piece is one. */
  lemma {:induction false} LocalNamesMembers(rows: seq<Row>, c: string, x: string)
    ensures x in LocalNames(rows, c) <==> exists row :: row in rows && LocalNameOf(row, c, x)
  {
    if |rows| > 0 {
      var rest := LocalNames(rows[1..], c);
      LocalNamesMembers(rows[1..], c, x);
      if x in LocalNames(rows, c) {
        if LocalNameOf(rows[0], c, x) {
          assert rows[0] in rows;
        } else {
          assert x in rest;
          var row :| row in rows[1..] && LocalNameOf(row, c, x);
          assert row in rows;
        }
      }
      if exists row :: row in rows && LocalNameOf(row, c, x) {
        var row :| row in rows && LocalNameOf(row, c, x);
        if row != rows[0] {
          assert row in rows[1..];
        }
      }
    }
  }

  // ---------------------------------------------------- sorting the set

  /** Strictly increasing in Python's string order. */
  predicate StrictlySorted(xs: seq<string>)
  {
    forall i, j :: 0 <= i < j < |xs| ==> LexLess(xs[i], xs[j])
  }

  /** Insert `x` into a strictly sorted sequence, unless it is already there. */
  function Insert(s: seq<string>, x: string): (r: seq<string>)
    requires StrictlySorted(s)
    ensures StrictlySorted(r)
    ensures forall y :: y in r <==> y in s || y == x
  {
    if |s| == 0 then [x]
    else if x == s[0] then s
    else if LexLess(x, s[0]) then
      assert forall j :: 0 < j < |s| ==> LexLess(x, s[j]) by {
        forall j | 0 < j < |s|
          ensures LexLess(x, s[j])
        {
          LexTransitive(x, s[0], s[j]);
        }
      }
      [x] + s
    else
      LexTotal(x, s[0]);
      var rest := Insert(s[1..], x);
      assert forall y :: y in s <==> y == s[0] || y in s[1..];
      assert forall j :: 0 <= j < |rest| ==> LexLess(s[0], rest[j]) by {
        forall j | 0 <= j < |rest|
          ensures LexLess(s[0], rest[j])
        {
          assert rest[j] in rest;
          if rest[j] != x {
            var i :| 0 <= i < |s[1..]| && s[1..][i] == rest[j];
          }
        }
      }
      [s[0]] + rest
  }

  /** `sorted(set(xs), key=str)`. */
  function SortedSet(xs: seq<string>): (r: seq<string>)
    ensures StrictlySorted(r)
    ensures forall y :: y in r <==> y in xs
  {
    if |xs| == 0 then []
    else
      var init := xs[..|xs| - 1];
      assert xs == init + [xs[|xs| - 1]];
      Insert(SortedSet(init), xs[|xs| - 1])
  }

  /** A strictly sorted sequence is determined by its elements: `SortedSet`
      is the one sorted listing of the set. */
  lemma {:induction false} SortedListingUnique(a: seq<string>, b: seq<string>)
    requires StrictlySorted(a) && StrictlySorted(b)
    requires forall x :: x in a <==> x in b
    ensures a == b
  {
    SameEmptiness(a, b);
    if |a| > 0 {
      assert a[0] in b && b[0] in a;
      if a[0] != b[0] {
        var j :| 0 <= j < |b| && b[j] == a[0];
        var i :| 0 <= i < |a| && a[i] == b[0];
        assert LexLess(b[0], a[0]) && LexLess(a[0], b[0]);
        LexAsymmetric(a[0], b[0]);
      }
      forall x
        ensures x in a[1..] <==> x in b[1..]
      {
        if x in a[1..] {
          var i :| 0 <= i < |a[1..]| && a[1..][i] == x;
          assert a[i + 1] == x && x in a && x in b;
          assert LexLess(a[0], a[i + 1]);
          LexIrreflexive(x);
          var j :| 0 <= j < |b| && b[j] == x;
          assert j != 0;
          assert b[1..][j - 1] == x;
        }
        if x in b[1..] {
          var i :| 0 <= i < |b[1..]| && b[1..][i] == x;
          assert b[i + 1] == x && x in b && x in a;
          assert LexLess(b[0], b[i + 1]);
          LexIrreflexive(x);
          var j :| 0 <= j < |a| && a[j] == x;
          assert j != 0;
          assert a[1..][j - 1] == x;
        }
      }
      SortedListingUnique(a[1..], b[1..]);
      assert a == [a[0]] + a[1..] && b == [b[0]] + b[1..];
    }
  }

  lemma SameEmptiness(a: seq<string>, b: seq<string>)
    requires forall x :: x in a <==> x in b
    ensures |a| == 0 <==> |b| == 0
  {
    if |a| > 0 {
      assert a[0] in b;
    }
    if |b| > 0 {
      assert b[0] in a;
    }
  }

  /** The query terms of country `c`: its city names and local names, each
      once, sorted. */
  function Terms(rows: seq<Row>, c: string): seq<string>
  {
    SortedSet(Cities(rows, c) + LocalNames(rows, c))
  }

  /** `create_query` on the rows of the city list: one entry per country, in
      order of first appearance among the complete rows, with its terms joined
      by `", "`. */
  function CreateQuery(rows: seq<Row>): (out: seq<CountryQuery>)
    ensures |out| == |Countries(rows)|
  {
    var p := Prepared(rows);
    var cs := Countries(rows);
    seq(|cs|, k requires 0 <= k < |cs| => CountryQuery(cs[k], Join(Terms(p, cs[k]), ", ")))
  }

  // ------------------------------------------------------------- properties

  /** There is exactly one entry per country that has a complete row, and the
      entries follow `Countries`, so first-appearance order. */
  lemma CreateQueryCountries(rows: seq<Row>)
    ensures var out := CreateQuery(rows);
            && (forall k :: 0 <= k < |out| ==> out[k].country == Countries(rows)[k])
            && (forall i, j :: 0 <= i < j < |out| ==> out[i].country != out[j].country)
            && (forall c :: (exists k :: 0 <= k < |out| && out[k].country == c)
                        <==> exists row :: row in rows && Complete(row) && row.country == Some(c))
  {
    var out := CreateQuery(rows);
    var cs := Countries(rows);
    assert forall k :: 0 <= k < |out| ==> out[k].country == cs[k];
    OneEntryEach(out, cs);
  }

  lemma OneEntryEach(out: seq<CountryQuery>, cs: seq<string>)
    requires |out| == |cs| && Distinct(cs)
    requires forall k :: 0 <= k < |out| ==> out[k].country == cs[k]
    ensures forall i, j :: 0 <= i < j < |out| ==> out[i].country != out[j].country
    ensures forall c :: (exists k :: 0 <= k < |out| && out[k].country == c) <==> c in cs
  {
    forall c
      ensures (exists k :: 0 <= k < |out| && out[k].country == c) <==> c in cs
    {
      if c in cs {
        var k :| 0 <= k < |cs| && cs[k] == c;
        assert out[k].country == c;
      }
    }
  }

  /** A term of a country's query is one of its city names, or a non-empty
      stripped piece of one of its local-name cells; every such name is a
      term. */
  lemma TermsAreNames(rows: seq<Row>, c: string, x: string)
    ensures x in Terms(Prepared(rows), c) <==>
              || (exists row :: row in rows && Complete(row) && row.country == Some(c) && row.city == Some(x))
              || (exists row :: row in rows && Complete(row) && LocalNameOf(row, c, x))
  {
    var p := Prepared(rows);
    LocalNamesMembers(p, c, x);
    assert x in Cities(p, c) + LocalNames(p, c) <==> x in Cities(p, c) || x in LocalNames(p, c);
  }

  /** The terms are in strictly increasing order, so none repeats. */
  lemma TermsSorted(rows: seq<Row>, c: string)
    ensures StrictlySorted(Terms(rows, c)) && Distinct(Terms(rows, c))
  {
    var t := Terms(rows, c);
    forall i, j | 0 <= i < j < |t|
      ensures t[i] != t[j]
    {
      LexIrreflexive(t[i]);
    }
  }

  /** What `create_query` writes for its `k`-th country: the query is a
      `", "`-join of strictly increasing terms, and the terms are exactly the
      city names and local-name pieces of that country's complete rows. */
  lemma CreateQueryTerms(rows: seq<Row>, k: nat)
    requires k < |CreateQuery(rows)|
    ensures var e := CreateQuery(rows)[k];
            var ts := Terms(Prepared(rows), e.country);
            && e.country == Countries(rows)[k]
            && e.query == Join(ts, ", ")
            && StrictlySorted(ts)
            && forall x :: x in ts <==>
                 || (exists row :: row in rows && Complete(row) && row.country == Some(e.country) && row.city == Some(x))
                 || (exists row :: row in rows && Complete(row) && LocalNameOf(row, e.country, x))
  {
    var c := Countries(rows)[k];
    TermsSorted(Prepared(rows), c);
    forall x
      ensures x in Terms(Prepared(rows), c) <==>
                || (exists row :: row in rows && Complete(row) && row.country == Some(c) && row.city == Some(x))
                || (exists row :: row in rows && Complete(row) && LocalNameOf(row, c, x))
    {
      TermsAreNames(rows, c, x);
    }
  }

  // ------------------------------------------------------------- round trip

  /** Each term with a space in front. */
  function Padded(ts: seq<string>): (r: seq<string>)
    ensures |r| == |ts|
  {
    seq(|ts|, k requires 0 <= k < |ts| => " " + ts[k])
  }

  /** Joining with `", "` is joining with `","` pieces that after the first
      start with a space. */
  lemma {:induction false} JoinCommaSpace(ts: seq<string>)
    requires |ts| >= 1
    ensures Join(ts, ", ") == Join([ts[0]] + Padded(ts[1..]), ",")
  {
    if |ts| == 1 {
      assert [ts[0]] + Padded(ts[1..]) == [ts[0]];
    } else {
      var tail := ts[1..];
      JoinCommaSpace(tail);
      var p := Padded(tail[1..]);
      assert Padded(tail) == [" " + tail[0]] + p;
      JoinPrefix(" ", tail[0], p, ",");
      assert ([ts[0]] + Padded(tail))[1..] == Padded(tail);
    }
  }

  lemma JoinPrefix(pre: string, x: string, rest: seq<string>, sep: string)
    ensures Join([pre + x] + rest, sep) == pre + Join([x] + rest, sep)
  {
    if |rest| > 0 {
      assert ([pre + x] + rest)[1..] == rest;
      assert ([x] + rest)[1..] == rest;
    }
  }

  /** Parsing a query `create_query` wrote gives back its terms, lower-cased,
      in order, when no term holds a comma or surrounding whitespace (local
      names never do; city names are written as they are). */
  lemma QueryRoundTrip(ts: seq<string>)
    requires |ts| >= 1
    requires forall k :: 0 <= k < |ts| ==> ',' !in ts[k] && IsStripped(ts[k])
    ensures ParseQuery(Join(ts, ", ")) == seq(|ts|, k requires 0 <= k < |ts| => LowerStr(ts[k]))
  {
    var q := Join(ts, ", ");
    var parts := Split(q, ',');
    QuerySplits(ts);
    PaddedPieces(ts, parts);
    TermsLowered(ts, parts, ParseQuery(q));
  }

  /** The pieces `[t0] + Padded(rest)`, one index at a time. */
  lemma PaddedPieces(ts: seq<string>, parts: seq<string>)
    requires |ts| >= 1 && parts == [ts[0]] + Padded(ts[1..])
    ensures |parts| == |ts|
    ensures forall k :: 0 <= k < |ts| ==> parts[k] == if k > 0 then " " + ts[k] else ts[k]
  {
  }

  /** Parsed terms of the pieces the query splits into are the terms,
      lower-cased. */
  lemma TermsLowered(ts: seq<string>, parts: seq<string>, terms: seq<string>)
    requires |parts| == |ts| == |terms|
    requires forall k :: 0 <= k < |ts| ==> parts[k] == if k > 0 then " " + ts[k] else ts[k]
    requires forall k :: 0 <= k < |ts| ==> IsStripped(ts[k])
    requires forall k :: 0 <= k < |parts| ==> terms[k] == Strip(LowerStr(parts[k]))
    ensures terms == seq(|ts|, k requires 0 <= k < |ts| => LowerStr(ts[k]))
  {
    forall k | 0 <= k < |ts|
      ensures terms[k] == LowerStr(ts[k])
    {
      PieceParses(ts[k], parts[k], terms[k], k > 0);
    }
  }

  lemma PieceParses(t: string, piece: string, term: string, padded: bool)
    requires IsStripped(t)
    requires piece == if padded then " " + t else t
    requires term == Strip(LowerStr(piece))
    ensures term == LowerStr(t)
  {
    if padded {
      PaddedTermParses(t);
    } else {
      LowerKeepsStripped(t);
    }
  }

  /** The query splits at commas into the first term and the others, each
      behind its space. */
  lemma QuerySplits(ts: seq<string>)
    requires |ts| >= 1
    requires forall k :: 0 <= k < |ts| ==> ',' !in ts[k]
    ensures Split(Join(ts, ", "), ',') == [ts[0]] + Padded(ts[1..])
  {
    var parts := [ts[0]] + Padded(ts[1..]);
    JoinCommaSpace(ts);
    forall k | 0 <= k < |parts|
      ensures ',' !in parts[k]
    {
      if k > 0 {
        assert parts[k] == " " + ts[k];
      }
    }
    SplitJoin(parts, ',');
  }

  /** A stripped term behind a space parses to the term, lower-cased. */
  lemma PaddedTermParses(t: string)
    requires IsStripped(t)
    ensures Strip(LowerStr(" " + t)) == LowerStr(t)
  {
    assert LowerStr(" " + t) == " " + LowerStr(t);
    LowerKeepsStripped(t);
    StripLeadingSpace(" ", LowerStr(t));
  }

  /** The query of a country whose city names carry no comma and no
      surrounding whitespace parses back to its terms, lower-cased. */
  lemma CreateQueryRoundTrip(rows: seq<Row>, k: nat)
    requires k < |CreateQuery(rows)|
    requires forall row :: row in rows && row.city.Some? ==> ',' !in row.city.value && IsStripped(row.city.value)
    ensures var e := CreateQuery(rows)[k];
            var ts := Terms(Prepared(rows), e.country);
            ParseQuery(e.query) == seq(|ts|, i requires 0 <= i < |ts| => LowerStr(ts[i]))
  {
    var e := CreateQuery(rows)[k];
    var p := Prepared(rows);
    assert e.country in Countries(rows);
    var row :| row in rows && Complete(row) && row.country == Some(e.country);
    TermsClean(p, e.country, row);
    QueryRoundTrip(Terms(p, e.country));
  }

  /** A country with a row has at least one term, and no term carries a comma
      or surrounding whitespace when no city name does. */
  lemma TermsClean(p: seq<Row>, c: string, row: Row)
    requires row in p && row.country == Some(c) && row.city.Some?
    requires forall r :: r in p && r.city.Some? ==> ',' !in r.city.value && IsStripped(r.city.value)
    ensures var ts := Terms(p, c);
            |ts| >= 1 && forall i :: 0 <= i < |ts| ==> ',' !in ts[i] && IsStripped(ts[i])
  {
    var ts := Terms(p, c);
    var cities := Cities(p, c);
    var locals := LocalNames(p, c);
    assert row.city.value in cities;
    assert row.city.value in ts;
    forall i | 0 <= i < |ts|
      ensures ',' !in ts[i] && IsStripped(ts[i])
    {
      assert ts[i] in cities + locals;
      if ts[i] in locals {
        var j :| 0 <= j < |locals| && locals[j] == ts[i];
      }
    }
  }
}
