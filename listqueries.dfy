/**
 * The two read-only list queries: choosing the id of a document found by
 * file name, and building the id-to-title table of a lookup source list.
 * The store's answer to the query is a parameter, in the order the store
 * enumerates it.
 */
module ListQueries {
  import opened Wrappers

  /** The id returned when the query did not give a usable answer. */
  const NoItemId: int := 0

  /**
   * The item id for a file name, from the ids of the items whose leaf name
   * matched, in enumeration order. With no match or more than two, it
   * reports the result as ambiguous and returns 0; with one or two, it
   * keeps the id of the last item enumerated.
   */
  method GetItemId(matches: seq<int>) returns (itemId: int, ambiguous: bool)
    ensures ambiguous <==> |matches| == 0 || |matches| > 2
    ensures ambiguous ==> itemId == NoItemId
    ensures !ambiguous ==> itemId == matches[|matches| - 1]
  {
    itemId := NoItemId;
    ambiguous := |matches| == 0 || |matches| > 2;
    if !ambiguous {
      var i := 0;
      while i < |matches|
        invariant 0 <= i <= |matches|
        invariant i > 0 ==> itemId == matches[i - 1]
      {
        itemId := matches[i];
        i := i + 1;
      }
    }
  }

  /** One item of a lookup source list: its ID and its Title, which may be null. */
  datatype Row = Row(id: int, title: Option<string>)

  /** The ids of `rows`. */
  function Ids(rows: seq<Row>): set<int>
  {
    set i | 0 <= i < |rows| :: rows[i].id
  }

  /**
   * Adding row `i` to the table built from the rows before it throws, in
   * `ToString` or in `Add`: its title is null, or an earlier row has the
   * same id.
   */
  predicate AddFails(rows: seq<Row>, i: nat)
    requires i < |rows|
  {
    rows[i].title.None? || exists j :: 0 <= j < i && rows[j].id == rows[i].id
  }

  /** No row of `rows` makes the table build throw: every title is present and no id repeats. */
  predicate Admissible(rows: seq<Row>)
  {
    && (forall i :: 0 <= i < |rows| ==> rows[i].title.Some?)
    && (forall i, j :: 0 <= i < j < |rows| ==> rows[i].id != rows[j].id)
  }

  /** Index of the first row at or after `from` whose addition throws, or |rows| when none does. */
  function StopIndexFrom(rows: seq<Row>, from: nat): (k: nat)
    requires from <= |rows|
    requires Admissible(rows[..from])
    ensures from <= k <= |rows|
    ensures Admissible(rows[..k])
    ensures k < |rows| ==> AddFails(rows, k)
    decreases |rows| - from
  {
    if from == |rows| || AddFails(rows, from) then from
    else StopIndexFrom(rows, from + 1)
  }

  /** Index of the first row whose addition throws, or |rows| when none does. */
  function StopIndex(rows: seq<Row>): (k: nat)
    ensures k <= |rows|
    ensures Admissible(rows[..k])
    ensures k < |rows| ==> AddFails(rows, k)
  {
    StopIndexFrom(rows, 0)
  }

  /** The table build reads every row exactly when no row makes it throw. */
  lemma ReadsAllIffAdmissible(rows: seq<Row>)
    ensures StopIndex(rows) == |rows| <==> Admissible(rows)
  {
  }

  /** Every prefix of admissible rows is admissible. */
  lemma AdmissiblePrefix(rows: seq<Row>, k: nat)
    requires Admissible(rows) && k <= |rows|
    ensures Admissible(rows[..k])
  {
  }

  /** The ids of rows with one more row at the end. */
  lemma IdsSnoc(rows: seq<Row>)
    requires rows != []
    ensures Ids(rows) == Ids(rows[..|rows| - 1]) + {rows[|rows| - 1].id}
  {
    var init := rows[..|rows| - 1];
    forall x | x in Ids(rows) ensures x in Ids(init) + {rows[|rows| - 1].id} {
      var i :| 0 <= i < |rows| && rows[i].id == x;
      if i < |init| { assert init[i] == rows[i]; }
    }
    forall x | x in Ids(init) ensures x in Ids(rows) {
      var i :| 0 <= i < |init| && init[i].id == x;
      assert rows[i] == init[i];
    }
  }

  /** Adding row `i` throws exactly when its title is null or its id is among the ids before it. */
  lemma AddFailsIffSeen(rows: seq<Row>, i: nat)
    requires i < |rows|
    ensures AddFails(rows, i) <==> rows[i].title.None? || rows[i].id in Ids(rows[..i])
  {
    if rows[i].id in Ids(rows[..i]) {
      var j :| 0 <= j < i && rows[..i][j].id == rows[i].id;
      assert rows[j].id == rows[i].id;
    }
  }

  /** A row whose addition does not throw extends an admissible prefix. */
  lemma AdmissibleExtend(rows: seq<Row>, i: nat)
    requires i < |rows| && Admissible(rows[..i]) && !AddFails(rows, i)
    ensures Admissible(rows[..i + 1])
  {
    var next := rows[..i + 1];
    forall a, b | 0 <= a < b < |next| ensures next[a].id != next[b].id {
      assert rows[..i][a] == rows[a];
      if b < i { assert rows[..i][b] == rows[b]; }
    }
  }

  /** The table of an admissible sequence of rows: each id mapped to its title. */
  function TableOf(rows: seq<Row>): map<int, string>
    requires Admissible(rows)
  {
    if rows == [] then map[]
    else
      AdmissiblePrefix(rows, |rows| - 1);
      TableOf(rows[..|rows| - 1])[rows[|rows| - 1].id := rows[|rows| - 1].title.value]
  }

  /**
   * The table of admissible rows has exactly their ids as keys, one entry
   * per row, and maps every row's id to its title.
   */
  lemma {:induction false} TableOfContents(rows: seq<Row>)
    requires Admissible(rows)
    ensures TableOf(rows).Keys == Ids(rows)
    ensures |TableOf(rows)| == |rows|
    ensures forall i :: 0 <= i < |rows| ==> TableOf(rows)[rows[i].id] == rows[i].title.value
  {
    if rows != [] {
      var n := |rows| - 1;
      var init := rows[..n];
      var last := rows[n];
      AdmissiblePrefix(rows, n);
      TableOfContents(init);
      IdsSnoc(rows);
      var before := TableOf(init);
      AddFailsIffSeen(rows, n);
      assert !AddFails(rows, n);
      assert last.id !in before.Keys;
      var t := before[last.id := last.title.value];
      assert t == TableOf(rows);
      assert |t| == |before| + 1;
      forall i | 0 <= i < |rows| ensures t[rows[i].id] == rows[i].title.value {
        if i < n {
          assert init[i] == rows[i];
        }
      }
    }
  }

  /**
   * The table of a lookup source list. Each row is added in order; the first
   * duplicate id or null title throws, the exception is swallowed, and the
   * entries added so far are returned.
   */
  method GetLookupListItems(rows: seq<Row>) returns (lookupList: map<int, string>)
    ensures Admissible(rows[..StopIndex(rows)])
    ensures lookupList == TableOf(rows[..StopIndex(rows)])
  {
    lookupList := map[];
    var i := 0;
    while i < |rows|
      invariant 0 <= i <= |rows|
      invariant Admissible(rows[..i])
      invariant StopIndex(rows) == StopIndexFrom(rows, i)
      invariant lookupList == TableOf(rows[..i])
    {
      TableOfContents(rows[..i]);
      AddFailsIffSeen(rows, i);
      var row := rows[i];
      if row.title.None? || row.id in lookupList {
        return;
      }
      AdmissibleExtend(rows, i);
      assert rows[..i + 1][..i] == rows[..i];
      lookupList := lookupList[row.id := row.title.value];
      i := i + 1;
    }
    assert rows[..i] == rows;
  }

  /**
   * What the returned table holds: every row before the first failing one
   * is present with its title, nothing else is, and there is one entry per
   * such row; when no row fails, that is every row.
   */
  lemma LookupTablePrefix(rows: seq<Row>)
    ensures var k := StopIndex(rows);
      && Admissible(rows[..k])
      && TableOf(rows[..k]).Keys == Ids(rows[..k])
      && |TableOf(rows[..k])| == k
      && (forall i :: 0 <= i < k ==> rows[i].title.Some? && TableOf(rows[..k])[rows[i].id] == rows[i].title.value)
  {
    var k := StopIndex(rows);
    TableOfContents(rows[..k]);
    forall i | 0 <= i < k ensures rows[..k][i] == rows[i] {
    }
  }
}
