/** The fixed 3x4 keymap of the keypad: which key code each matrix cell
    (row line `num` in 1..4, strobe column `col` in 0..2) reports, and the
    declaration of those key codes to the input device at init. */
module KeyTable {

  /** Linux input key codes used by the keymap (the numeric values of the
      KEY_* constants of linux/input-event-codes.h). */
  const KeyKpAsterisk := 55
  const KeyKp7 := 71
  const KeyKp8 := 72
  const KeyKp9 := 73
  const KeyKp4 := 75
  const KeyKp5 := 76
  const KeyKp6 := 77
  const KeyKp1 := 79
  const KeyKp2 := 80
  const KeyKp3 := 81
  const KeyKp0 := 82
  const KeyKpEnter := 96

  /** Number of sense (row) lines and of strobe (column) lines. */
  const Rows := 4
  const Columns := 3
  const Cells := 12

  /** The keymap table, column-major: entries 0..3 are column C1 from row R1
      down to R4, 4..7 column C2, 8..11 column C3. The '#' key reports Enter. */
  const Keymap: seq<int> :=
    [ KeyKp1, KeyKp4, KeyKp7, KeyKpAsterisk,
      KeyKp2, KeyKp5, KeyKp8, KeyKp0,
      KeyKp3, KeyKp6, KeyKp9, KeyKpEnter ]

  /** Index into Keymap of the cell read on row line `num` while column `col`
      is strobed. The result lies in the table and decodes back to the cell. */
  function KeyIndex(num: int, col: int): (i: int)
    requires 1 <= num <= Rows && 0 <= col < Columns
    ensures 0 <= i < Cells && i < |Keymap|
    ensures i % Rows == num - 1 && i / Rows == col
  {
    num - 1 + 4 * col
  }

  /** The row line (1..4) of table entry `i`. */
  function RowOf(i: int): (num: int)
    requires 0 <= i < Cells
    ensures 1 <= num <= Rows
  {
    i % Rows + 1
  }

  /** The strobe column (0..2) of table entry `i`. */
  function ColumnOf(i: int): (col: int)
    requires 0 <= i < Cells
    ensures 0 <= col < Columns
  {
    i / Rows
  }

  /** The 12 (row, column) cells reach every table index exactly once: every
      index is the image of its own cell, and distinct cells have distinct
      indices. */
  lemma KeyIndexBijective(i: int, num1: int, col1: int, num2: int, col2: int)
    requires 0 <= i < Cells
    requires 1 <= num1 <= Rows && 0 <= col1 < Columns
    requires 1 <= num2 <= Rows && 0 <= col2 < Columns
    ensures KeyIndex(RowOf(i), ColumnOf(i)) == i
    ensures KeyIndex(num1, col1) == KeyIndex(num2, col2) <==> num1 == num2 && col1 == col2
  {
  }

  /** No key code appears twice in the table. */
  lemma KeymapDistinct()
    ensures |Keymap| == Cells
    ensures forall i, j :: 0 <= i < j < Cells ==> Keymap[i] != Keymap[j]
  {
  }

  /** The key codes of the first `n` table entries. */
  function KeysUpTo(n: int): set<int>
    requires 0 <= n <= |Keymap|
  {
    set i | 0 <= i < n :: Keymap[i]
  }

  /** The set of key codes the keymap can report. */
  function KeySet(): set<int>
  {
    KeysUpTo(|Keymap|)
  }

  /** Each table entry adds a new key code: the first `n` entries name `n`
      distinct keys. */
  lemma {:induction false} KeysUpToSize(n: int)
    requires 0 <= n <= Cells
    ensures |KeysUpTo(n)| == n
  {
    if n > 0 {
      KeysUpToSize(n - 1);
      KeymapDistinct();
      assert KeysUpTo(n) == KeysUpTo(n - 1) + {Keymap[n - 1]};
      assert Keymap[n - 1] !in KeysUpTo(n - 1);
    } else {
      assert KeysUpTo(0) == {};
    }
  }

  /** The keymap declares exactly twelve distinct key codes, and a code is
      declared exactly when some table entry holds it. */
  lemma KeySetExact()
    ensures |KeySet()| == Cells
    ensures forall k :: k in KeySet() <==> exists i :: 0 <= i < Cells && Keymap[i] == k
  {
    KeysUpToSize(Cells);
  }

  /** The key-capability loop of the init routine: every keymap entry is set
      in the device's key bitmap `keybit` (modelled as the set of bits that
      are set), one entry per iteration. The bits set afterwards are exactly
      the previous ones plus the keymap's key codes. */
  method DeclareKeys(keybit: set<int>) returns (declared: set<int>)
    ensures declared == keybit + KeySet()
    ensures keybit <= declared
    ensures forall i :: 0 <= i < Cells ==> Keymap[i] in declared
  {
    declared := keybit;
    for i := 0 to Cells
      invariant declared == keybit + KeysUpTo(i)
    {
      assert KeysUpTo(i + 1) == KeysUpTo(i) + {Keymap[i]};
      declared := declared + {Keymap[i]};
    }
  }
}
