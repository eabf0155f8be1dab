/** The sortable data table (src/components/table/SortableTable.tsx): a header
    click chooses the sort column and direction, and the rows are shown as a
    sorted copy of the data. Cell values are integers, strings, `null` or
    `undefined`; `localeCompare` is a caller-supplied comparison on strings. */
module SortableTable {
  import opened Types
  import Js

  datatype Direction = Asc | Desc

  /** The `sortConfig` state. */
  datatype SortConfig = SortConfig(key: string, direction: Direction)

  /** A column (its `label` is the caption); an absent `disableSort` is false. */
  datatype Column = Column(key: string, caption: string, disableSort: bool)

  /** A cell value of a data row. */
  datatype Value = Num(n: int) | Str(s: string) | Null | Undefined

  /** A data row, `Record<string, any>`. */
  type Row = map<string, Value>

  /** `row[key]`: a missing property reads as `undefined`. */
  function Get(row: Row, key: string): Value
  {
    if key in row then row[key] else Undefined
  }

  /** `String(v)`. */
  function Show(v: Value): string
  {
    match v
    case Num(n) => Js.DecimalString(n)
    case Str(s) => s
    case Null => "null"
    case Undefined => "undefined"
  }

  /** `columns.find(col => col.key === key)`: the first column with that key. */
  function FindColumn(columns: seq<Column>, key: string): (r: Option<Column>)
    ensures r.Some? ==> r.value in columns && r.value.key == key
    ensures r.None? <==> forall i :: 0 <= i < |columns| ==> columns[i].key != key
    ensures r.Some? ==> exists i :: 0 <= i < |columns| && columns[i] == r.value
                                    && forall j :: 0 <= j < i ==> columns[j].key != key
    decreases |columns|
  {
    if columns == [] then None
    else if columns[0].key == key then Some(columns[0])
    else
      var r := FindColumn(columns[1..], key);
      if r.Some? then
        var i :| 0 <= i < |columns[1..]| && columns[1..][i] == r.value
                 && forall j :: 0 <= j < i ==> columns[1..][j].key != key;
        assert columns[i + 1] == r.value;
        r
      else r
  }

  /** Whether the configured key names a column that can be sorted on. */
  predicate Sortable(config: SortConfig, columns: seq<Column>)
  {
    config.key != "" && FindColumn(columns, config.key).Some? && !FindColumn(columns, config.key).value.disableSort
  }

  /** The comparator of `sortedData`: 0 (keep the order) unless the key names a
      sortable column; then the numeric difference when both values are
      numbers, and `localeCompare` of their string forms otherwise, with its
      sign turned round for a descending sort. */
  function Compare(config: SortConfig, columns: seq<Column>, localeCompare: (string, string) -> int, a: Row, b: Row): (c: int)
    ensures !Sortable(config, columns) ==> c == 0
    ensures Sortable(config, columns) && Get(a, config.key).Num? && Get(b, config.key).Num? ==>
              (config.direction == Asc ==> c == Get(a, config.key).n - Get(b, config.key).n)
              && (config.direction == Desc ==> c == Get(b, config.key).n - Get(a, config.key).n)
    ensures Sortable(config, columns) && !(Get(a, config.key).Num? && Get(b, config.key).Num?) ==>
              (config.direction == Asc ==> c == localeCompare(Show(Get(a, config.key)), Show(Get(b, config.key))))
              && (config.direction == Desc ==> c == -localeCompare(Show(Get(a, config.key)), Show(Get(b, config.key))))
  {
    if config.key == "" then 0
    else
      var order := if config.direction == Asc then 1 else -1;
      var column := FindColumn(columns, config.key);
      if column.None? || column.value.disableSort then 0
      else
        var va, vb := Get(a, config.key), Get(b, config.key);
        if va.Num? && vb.Num? then order * (va.n - vb.n)
        else order * localeCompare(Show(va), Show(vb))
  }

  function Comparator(config: SortConfig, columns: seq<Column>, localeCompare: (string, string) -> int): (Row, Row) -> int
  {
    (a: Row, b: Row) => Compare(config, columns, localeCompare, a, b)
  }

  // ---------------------------------------------------------------------------
  // A stable sort by a comparator (`Array.prototype.sort` is stable)

  /** Inserts `x` into `s` after every element that does not compare above it. */
  function Insert<T>(x: T, s: seq<T>, cmp: (T, T) -> int): (r: seq<T>)
    ensures multiset(r) == multiset(s) + multiset{x}
    decreases |s|
  {
    if s == [] then [x]
    else if cmp(s[|s| - 1], x) > 0 then
      assert s == s[..|s| - 1] + [s[|s| - 1]];
      Insert(x, s[..|s| - 1], cmp) + [s[|s| - 1]]
    else s + [x]
  }

  /** Insertion sort: each element in turn is inserted into the sorted prefix. */
  function Sort<T>(s: seq<T>, cmp: (T, T) -> int): seq<T>
    decreases |s|
  {
    if s == [] then [] else Insert(s[|s| - 1], Sort(s[..|s| - 1], cmp), cmp)
  }

  /** The sorted copy holds the same rows as many times as the data does. */
  lemma {:induction false} SortPermutes<T>(s: seq<T>, cmp: (T, T) -> int)
    ensures multiset(Sort(s, cmp)) == multiset(s)
    decreases |s|
  {
    if s != [] {
      SortPermutes(s[..|s| - 1], cmp);
      assert s == s[..|s| - 1] + [s[|s| - 1]];
    }
  }

  /** A comparator that never reports "greater" keeps the input order. */
  lemma {:induction false} SortKeepsOrder<T>(s: seq<T>, cmp: (T, T) -> int)
    requires forall a, b :: cmp(a, b) <= 0
    ensures Sort(s, cmp) == s
    decreases |s|
  {
    if s != [] {
      SortKeepsOrder(s[..|s| - 1], cmp);
      assert s[..|s| - 1] + [s[|s| - 1]] == s;
    }
  }

  /** `s` is in non-decreasing order of `rank`. */
  ghost predicate SortedBy<T>(s: seq<T>, rank: T -> int)
  {
    forall i, j :: 0 <= i < j < |s| ==> rank(s[i]) <= rank(s[j])
  }

  /** On a domain where the comparator reports "greater" exactly when the rank
      is greater, inserting into a sorted sequence keeps it sorted. */
  lemma {:induction false} InsertSorted<T>(x: T, s: seq<T>, cmp: (T, T) -> int, rank: T -> int, inDomain: T -> bool)
    requires forall a, b :: inDomain(a) && inDomain(b) ==> (cmp(a, b) > 0 <==> rank(a) > rank(b))
    requires inDomain(x) && forall i :: 0 <= i < |s| ==> inDomain(s[i])
    requires SortedBy(s, rank)
    ensures SortedBy(Insert(x, s, cmp), rank)
    decreases |s|
  {
    if s != [] {
      var p, last := s[..|s| - 1], s[|s| - 1];
      if cmp(last, x) > 0 {
        InsertSorted(x, p, cmp, rank, inDomain);
        var q := Insert(x, p, cmp);
        forall k | 0 <= k < |q| ensures rank(q[k]) <= rank(last) {
          assert q[k] in multiset(q);
          if q[k] != x {
            assert q[k] in multiset(p);
            var i :| 0 <= i < |p| && p[i] == q[k];
            assert s[i] == p[i];
          }
        }
        var r := q + [last];
        forall i, j | 0 <= i < j < |r| ensures rank(r[i]) <= rank(r[j]) {
          if j < |q| {
            assert r[i] == q[i] && r[j] == q[j];
          }
        }
      }
    }
  }

  /** Under the same condition, the whole sort orders by rank. */
  lemma {:induction false} SortSorted<T>(s: seq<T>, cmp: (T, T) -> int, rank: T -> int, inDomain: T -> bool)
    requires forall a, b :: inDomain(a) && inDomain(b) ==> (cmp(a, b) > 0 <==> rank(a) > rank(b))
    requires forall i :: 0 <= i < |s| ==> inDomain(s[i])
    ensures SortedBy(Sort(s, cmp), rank)
    decreases |s|
  {
    if s != [] {
      var p := s[..|s| - 1];
      SortSorted(p, cmp, rank, inDomain);
      SortPermutes(p, cmp);
      var sp := Sort(p, cmp);
      forall i | 0 <= i < |sp| ensures inDomain(sp[i]) {
        assert sp[i] in multiset(p);
        var k :| 0 <= k < |p| && p[k] == sp[i];
        assert s[k] == p[k];
      }
      InsertSorted(s[|s| - 1], sp, cmp, rank, inDomain);
    }
  }

  // ---------------------------------------------------------------------------
  // The component state

  /** `handleSort(key)` applied to the previous config. A click on a
      sort-disabled column changes nothing; any other click, including one on a
      key no column has, selects that key, descending exactly when it was
      already the ascending key. */
  function NextConfig(prev: SortConfig, columns: seq<Column>, key: string): (next: SortConfig)
    ensures FindColumn(columns, key).Some? && FindColumn(columns, key).value.disableSort ==> next == prev
    ensures !(FindColumn(columns, key).Some? && FindColumn(columns, key).value.disableSort)
            ==> next.key == key && (next.direction == Desc <==> prev.key == key && prev.direction == Asc)
  {
    var column := FindColumn(columns, key);
    if column.Some? && column.value.disableSort then prev
    else SortConfig(key, if prev.key == key && prev.direction == Asc then Desc else Asc)
  }

  /** Repeated clicks on one sortable column alternate the direction. */
  lemma {:induction false} RepeatedClicksAlternate(prev: SortConfig, columns: seq<Column>, key: string)
    requires FindColumn(columns, key).None? || !FindColumn(columns, key).value.disableSort
    ensures var once := NextConfig(prev, columns, key);
            var twice := NextConfig(once, columns, key);
            twice.key == key && once.key == key && twice.direction != once.direction
  {
  }

  class Table {
    const columns: seq<Column>
    var sortConfig: SortConfig

    /** The table starts unsorted: empty key, ascending. */
    constructor (columns: seq<Column>)
      ensures this.columns == columns
      ensures sortConfig == SortConfig("", Asc)
    {
      this.columns := columns;
      sortConfig := SortConfig("", Asc);
    }

    /** `handleSort`. */
    method HandleSort(key: string)
      modifies this
      ensures sortConfig == NextConfig(old(sortConfig), columns, key)
    {
      var column := FindColumn(columns, key);
      if column.Some? && column.value.disableSort {
        return;
      }
      var direction := if sortConfig.key == key && sortConfig.direction == Asc then Desc else Asc;
      sortConfig := SortConfig(key, direction);
    }

    /** `sortedData`: a sorted copy of `data`; `data` is a value and stays as it is. */
    function SortedData(data: seq<Row>, localeCompare: (string, string) -> int): (rows: seq<Row>)
      reads this
      ensures multiset(rows) == multiset(data)
    {
      SortPermutes(data, Comparator(sortConfig, columns, localeCompare));
      Sort(data, Comparator(sortConfig, columns, localeCompare))
    }
  }

  /** With no key, or a key that names no sortable column, every comparison is
      0 and the rows keep the data's order. */
  lemma {:induction false} UnsortedKeepsOrder(config: SortConfig, columns: seq<Column>, localeCompare: (string, string) -> int, data: seq<Row>)
    requires !Sortable(config, columns)
    ensures Sort(data, Comparator(config, columns, localeCompare)) == data
  {
    SortKeepsOrder(data, Comparator(config, columns, localeCompare));
  }

  predicate NumericAt(key: string, row: Row)
  {
    Get(row, key).Num?
  }

  /** The numeric value at `key`, negated when sorting descending. */
  function Rank(config: SortConfig): Row -> int
  {
    (row: Row) => if !Get(row, config.key).Num? then 0
                  else if config.direction == Asc then Get(row, config.key).n else -Get(row, config.key).n
  }

  /** When every row holds a number under a sortable key, the rows come out in
      ascending numeric order for "asc" and in descending order for "desc". */
  lemma {:induction false} NumericColumnSorted(config: SortConfig, columns: seq<Column>, localeCompare: (string, string) -> int, data: seq<Row>)
    requires Sortable(config, columns)
    requires forall i :: 0 <= i < |data| ==> NumericAt(config.key, data[i])
    ensures var rows := Sort(data, Comparator(config, columns, localeCompare));
            forall i, j :: 0 <= i < j < |rows| ==>
              && NumericAt(config.key, rows[i])
              && NumericAt(config.key, rows[j])
              && if config.direction == Asc then Get(rows[i], config.key).n <= Get(rows[j], config.key).n
                 else Get(rows[i], config.key).n >= Get(rows[j], config.key).n
  {
    var cmp := Comparator(config, columns, localeCompare);
    var numeric := (row: Row) => NumericAt(config.key, row);
    SortSorted(data, cmp, Rank(config), numeric);
    var rows := Sort(data, cmp);
    SortPermutes(data, cmp);
    forall i | 0 <= i < |rows| ensures NumericAt(config.key, rows[i]) {
      assert rows[i] in multiset(data);
      var k :| 0 <= k < |data| && data[k] == rows[i];
    }
  }
}
