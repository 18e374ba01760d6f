/** What one scan cycle of the keypad should produce: the events it hands to
    the input core and whether it saw a key down. The driver's scan method
    is proved against these definitions. */
module Scan {
  import opened KeyTable

  /** An event handed to the input core: the raw value read for one key
      code, or the synchronisation marker that closes a cycle. */
  datatype Event = Key(code: int, value: int) | Sync

  /** The sense lines as seen by the driver: the value read on row line
      `num` (1..4) while the three column lines are driven to `levels`
      (C1, C2, C3). It stands for the hardware and the pressed keys. */
  type Sampler = (seq<int>, int) -> int

  /** The strobe state for column `col`: that column driven high, the two
      others low. */
  function OneHot(col: int): (levels: seq<int>)
    requires 0 <= col < Columns
    ensures |levels| == Columns
    ensures forall j :: 0 <= j < Columns ==> (levels[j] == 1 <==> j == col)
    ensures forall j :: 0 <= j < Columns ==> (levels[j] == 0 <==> j != col)
  {
    if col == 0 then [1, 0, 0] else if col == 1 then [0, 1, 0] else [0, 0, 1]
  }

  /** The column levels between scans: all three lines high. */
  const Idle: seq<int> := [1, 1, 1]

  /** The reports for one column: rows R1 to R4 in turn, each under the key
      code of its cell, with the value read while that column is strobed. */
  function ColumnReports(sample: Sampler, col: int): seq<Event>
    requires 0 <= col < Columns
  {
    [ Key(Keymap[KeyIndex(1, col)], sample(OneHot(col), 1)),
      Key(Keymap[KeyIndex(2, col)], sample(OneHot(col), 2)),
      Key(Keymap[KeyIndex(3, col)], sample(OneHot(col), 3)),
      Key(Keymap[KeyIndex(4, col)], sample(OneHot(col), 4)) ]
  }

  /** The key reports of one full cycle: columns C1, C2, C3 in turn. */
  function CycleReports(sample: Sampler): seq<Event>
  {
    ColumnReports(sample, 0) + ColumnReports(sample, 1) + ColumnReports(sample, 2)
  }

  /** Some row line reads nonzero while column `col` is strobed. */
  predicate ColumnPressed(sample: Sampler, col: int)
    requires 0 <= col < Columns
  {
    exists num :: 1 <= num <= Rows && sample(OneHot(col), num) != 0
  }

  /** Some of the twelve samples of a cycle is nonzero. */
  predicate AnyPressed(sample: Sampler)
  {
    exists col :: 0 <= col < Columns && ColumnPressed(sample, col)
  }

  /** The k-th report of a cycle is the k-th keymap entry, carrying the value
      read on its row while its column, and only its column, is driven high:
      twelve reports, column by column, rows 1 to 4 within a column. */
  lemma CycleReportsLayout(sample: Sampler, k: int)
    requires 0 <= k < Cells
    ensures |CycleReports(sample)| == Cells
    ensures CycleReports(sample)[k] == Key(Keymap[k], sample(OneHot(ColumnOf(k)), RowOf(k)))
  {
    var r := CycleReports(sample);
    if k < 4 {
      assert r[k] == ColumnReports(sample, 0)[k];
    } else if k < 8 {
      assert r[k] == ColumnReports(sample, 1)[k - 4];
    } else {
      assert r[k] == ColumnReports(sample, 2)[k - 8];
    }
  }

  /** A cycle reports every key of the keymap exactly once, and nothing
      else: the codes of its reports are pairwise distinct and are exactly
      the declared key set. It holds no sync marker. */
  lemma CycleReportsEachKeyOnce(sample: Sampler)
    ensures |CycleReports(sample)| == Cells
    ensures forall k :: 0 <= k < Cells ==> CycleReports(sample)[k].Key?
    ensures forall i, j :: 0 <= i < j < Cells ==> CycleReports(sample)[i].code != CycleReports(sample)[j].code
    ensures (set k | 0 <= k < Cells :: CycleReports(sample)[k].code) == KeySet()
  {
    var r := CycleReports(sample);
    forall k | 0 <= k < Cells ensures r[k] == Key(Keymap[k], sample(OneHot(ColumnOf(k)), RowOf(k))) {
      CycleReportsLayout(sample, k);
    }
    KeymapDistinct();
    assert (set k | 0 <= k < Cells :: r[k].code) == KeySet();
  }

  /** A cycle sees a key down exactly when one of its twelve reports carries
      a nonzero value. */
  lemma AnyPressedIffNonzeroReport(sample: Sampler)
    ensures |CycleReports(sample)| == Cells
    ensures AnyPressed(sample) <==> exists k :: 0 <= k < Cells && CycleReports(sample)[k].value != 0
  {
    var r := CycleReports(sample);
    forall k | 0 <= k < Cells ensures r[k] == Key(Keymap[k], sample(OneHot(ColumnOf(k)), RowOf(k))) {
      CycleReportsLayout(sample, k);
    }
    if AnyPressed(sample) {
      var col :| 0 <= col < Columns && ColumnPressed(sample, col);
      var num :| 1 <= num <= Rows && sample(OneHot(col), num) != 0;
      var k := KeyIndex(num, col);
      assert r[k].value != 0;
    }
    if k :| 0 <= k < Cells && r[k].value != 0 {
      assert ColumnPressed(sample, ColumnOf(k));
    }
  }
}
