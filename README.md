# 3x4 matrix keypad driver — Dafny model

This project models the scanning engine of a Linux kernel driver for a 3x4
matrix keypad (`keypad.c`). The keypad has three column (strobe) output lines
C1, C2 and C3, which idle high, and four row (sense) input lines R1 to R4. A
rising edge on a row line raises an interrupt. If no scan is outstanding, the
handler sets the `working` flag and queues the single work item. The work
routine strobes the columns one at a time and reads the four rows under each
column. It reports every reading to the input core under the key code that
the keymap gives the cell, emits one sync and parks the columns high again.
It then re-queues itself while a key is down and module exit has not set
`should_die`; otherwise it clears `working`.

Layout:

- `keymap.dfy`, module `KeyTable`: the key codes, the 12-entry keymap, the
  cell-to-index arithmetic `num-1 + 4*col` and its inverse, and the
  key-capability loop of init (`DeclareKeys`).
- `scan.dfy`, module `Scan`: the value-level description of a scan cycle.
  `Sampler` stands for the hardware. It gives the value read on a row line
  as a function of the levels the three columns are driven to at that
  moment. `OneHot(col)` is the strobe state of a column, `CycleReports` is
  the twelve reports of a cycle and `AnyPressed` says whether a cycle sees a
  key down.
- `keypad.dfy`, module `KeypadDriver`: class `Keypad` holds the driver's
  state: the column levels (`cols`, an array of three), the declared key
  bits, the reports sent so far (`events`), `working`, `should_die` and
  whether the work item is queued (`pending`). Each handler is one atomic
  method. `ReportRow` reads the row under the columns' current levels in
  `cols`. So the contract of `ScanCycle` (each value equals
  `sample(OneHot(col), num)`) proves that exactly the strobed column was
  high at every read.

The invariant `Keypad.Valid()` holds between atomic steps. It says the
columns are parked at 1, `working` holds exactly while the work item is
queued, and every reported key code was declared on the device.

## Model

| member | source | states |
|---|---|---|
| `KeyTable.KeyIndex` | keypad.c:95 | the index of cell (row `num` 1..4, column `col` 0..2) lies in 0..11 and decodes back to the cell: index mod 4 is `num-1`, index div 4 is `col` |
| `KeyTable.KeyIndexBijective` | keypad.c:95-101 | the 12 cells reach every keymap index: each index is the image of its own (row, column). Distinct cells give distinct indices, and equal indices mean equal cells |
| `KeyTable.KeymapDistinct` | keypad.c:22-24 | the keymap has 12 entries and no key code appears twice |
| `KeyTable.KeysUpToSize` | keypad.c:22-24 | the first `n` keymap entries name exactly `n` distinct key codes |
| `KeyTable.KeySetExact` | keypad.c:22-24 | the keymap's key set has exactly 12 members, and a code is in it exactly when some entry holds it |
| `KeyTable.DeclareKeys` | keypad.c:169-172 | the key-bit loop leaves set exactly the previously set bits plus every keymap entry |
| `Scan.OneHot` | keypad.c:127-140 | the strobe state of a column has three levels. The strobed column is at 1, and each of the other two is at 0 |
| `Scan.CycleReportsLayout` | keypad.c:124-140 | a cycle makes 12 reports, column by column and rows 1 to 4 within a column. Report `k` carries keymap entry `k` and the value read on its row while only its column was high |
| `Scan.CycleReportsEachKeyOnce` | keypad.c:92-101 | every report of a cycle is a key report, and no two carry the same code. The codes reported are exactly the keymap's key set |
| `Scan.AnyPressedIffNonzeroReport` | keypad.c:92-95 | a cycle sees a key down if and only if one of its twelve reported values is nonzero |
| `KeypadDriver.Keypad.constructor` | keypad.c:155-172 | after successful init the columns are at 1, and the declared key bits are exactly the keymap's key set. Nothing is reported, queued or flagged |
| `KeypadDriver.Keypad.QueueWork` | keypad.c:119 | queuing leaves the work item queued and reports whether it was idle before |
| `KeypadDriver.Keypad.ReportRow` | keypad.c:92-95 | one report: the row value under the current column levels, under the cell's key code. `pressed` becomes `pressed or value != 0` |
| `KeypadDriver.Keypad.ReportRows` | keypad.c:97-101 | with only column `col` high, rows 1 to 4 are reported in order. `pressed` also records whether any of the four was nonzero |
| `KeypadDriver.Keypad.ScanCycle` | keypad.c:124-145 | starting from all columns at 1: C1, then C2, then C3 is the only column high at each read. The 12 cycle reports are appended, then one sync. The columns end at 1 again, and `pressed` holds if and only if some sample was nonzero |
| `KeypadDriver.Keypad.RunWork` | keypad.c:124-153 | running the queued work performs one cycle. The work item is queued again if and only if a key was down and `should_die` is 0; otherwise `working` is cleared. The invariant is kept and `should_die` is unchanged |
| `KeypadDriver.Keypad.Irq` | keypad.c:115-122 | an edge leaves `working` set and the work item queued. It queues only when `working` was clear, and the item was then idle. When `working` was already set it changes nothing |
| `KeypadDriver.Keypad.RequestStop` | keypad.c:191 | exit sets `should_die` to 1 and keeps the invariant |
| `KeypadDriver.RunSteps` | keypad.c:107-153 | over any sequence of edges, work runs and stop requests the invariant holds. In particular a second scan is never queued while one is outstanding. Reports are only appended, and `should_die` once set is never reset |
| `KeypadDriver.AppendCycleKeepsDeclared` | keypad.c:169-172 | appending a cycle's reports to a history of declared keys reports only declared keys |

## Left out

- GPIO acquisition and configuration, interrupt registration and the init error paths (`INIT_ROW`, `INIT_COL`, failed device allocation or registration) are not modelled. The constructor models the successful path only: the columns become outputs at level 1 and the key bits are declared.
- The kernel workqueue is reduced to one `pending` flag. `queue_work` is `QueueWork`, and running the item is `RunWork`, which requires the item to be queued.
- The settle delays (`udelay(50)`) and the debounce delay (`mdelay(5)`) are not modelled; they mark places in the code and have no effect on state.
- Concurrency between interrupt and worker context is not modelled. Each handler is one atomic step. The interrupt handler's unsynchronised read-then-write of `working` is a race in the real driver, so the no-double-queue invariant holds only under this atomicity.
- The input core (`input_report_key`, `input_sync`, device registration) is reduced to the raw `(code, value)` reports and sync markers the driver hands it. Turning repeated values into press and release events happens inside the input core, so the model claims nothing about press/release alternation.
- Module exit is modelled only by its `should_die` step. Unregistering and freeing the device (which happens before the work is cancelled), `cancel_work_sync`, `flush_workqueue`, `destroy_workqueue` and freeing the lines and interrupts are not modelled, nor are object lifetimes.
- The numeric key codes are those of the Linux input headers (`linux/input-event-codes.h`), which are not part of this model.
- Logging (`printk`) is not modelled.
- The keymap index follows the code, `num-1 + 4*col` (column-major, four rows per column), rather than a row-major `row*3+column` layout.
- Parking at the end of a cycle follows the code: it drives C1 and C2 high, and C3 is already high from the last strobe.
- The driver reports the value of every cell every cycle rather than only changes.
