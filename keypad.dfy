/** The keypad driver's state and its handlers: the scan cycle run by the
    work item, the edge interrupt handler that arms it, and the shutdown
    flag. Each handler is one atomic step; the driver's interleaving of
    interrupt and worker context is not modelled. */
module KeypadDriver {
  import opened KeyTable
  import opened Scan

  class Keypad {
    /** Levels currently driven on the column lines C1, C2, C3. */
    const cols: array<int>
    /** The key bits declared on the input device. */
    var keybit: set<int>
    /** Everything reported to the input core so far, in order. */
    var events: seq<Event>
    /** A scan is queued or running: set by the interrupt handler, cleared
        by a scan that does not re-queue itself. */
    var working: bool
    /** Set once at module exit; a scan that sees it does not re-queue. */
    var shouldDie: int
    /** The single work item sits on the workqueue. */
    var pending: bool

    /** The driver's invariant between atomic steps: the columns are parked
        high, `working` holds exactly while the work item is queued, and
        every reported key was declared on the device beforehand. */
    ghost predicate Valid()
      reads this, cols
    {
      && cols.Length == Columns
      && cols[..] == Idle
      && working == pending
      && keybit == KeySet()
      && (forall i :: 0 <= i < |events| && events[i].Key? ==> events[i].code in keybit)
    }

    /** The successful path of module init: columns configured as outputs
        at level 1, key bits declared, flags clear, nothing queued. */
    constructor ()
      ensures Valid() && fresh(cols)
      ensures keybit == KeySet()
      ensures events == [] && !working && !pending && shouldDie == 0
    {
      cols := new int[Columns](_ => 1);
      var declared := DeclareKeys({});
      keybit := declared;
      events := [];
      working := false;
      shouldDie := 0;
      pending := false;
    }

    /** queue_work on the driver's work item: it queues the item and reports
        whether it was not already queued. */
    method QueueWork() returns (queued: bool)
      modifies this`pending
      ensures pending
      ensures queued == !old(pending)
    {
      queued := !pending;
      pending := true;
    }

    /** One REPORT_ROW step: read row line `num` under the current column
        levels, fold it into `pressed`, and report it under the key code of
        cell (num, col). */
    method ReportRow(num: int, col: int, sample: Sampler, pressedIn: bool) returns (pressed: bool)
      requires 1 <= num <= Rows && 0 <= col < Columns
      modifies this`events
      ensures events == old(events) + [Key(Keymap[KeyIndex(num, col)], sample(cols[..], num))]
      ensures pressed == (pressedIn || sample(cols[..], num) != 0)
    {
      var value := sample(cols[..], num);
      pressed := pressedIn || value != 0;
      events := events + [Key(Keymap[KeyIndex(num, col)], value)];
    }

    /** One REPORT_ROWS step: rows 1 to 4 while column `col` alone is high. */
    method ReportRows(col: int, sample: Sampler, pressedIn: bool) returns (pressed: bool)
      requires 0 <= col < Columns
      requires cols.Length == Columns && cols[..] == OneHot(col)
      modifies this`events
      ensures events == old(events) + ColumnReports(sample, col)
      ensures pressed == (pressedIn || ColumnPressed(sample, col))
    {
      pressed := ReportRow(1, col, sample, pressedIn);
      pressed := ReportRow(2, col, sample, pressed);
      pressed := ReportRow(3, col, sample, pressed);
      pressed := ReportRow(4, col, sample, pressed);
    }

    /** The scan part of the work routine: strobe C1, C2, C3 in turn, report
        the twelve cells, sync, and park the columns high again. Starting
        from the idle levels, each strobe step leaves exactly its own column
        high; the cycle ends back at the idle levels. */
    method ScanCycle(sample: Sampler) returns (pressed: bool)
      requires cols.Length == Columns && cols[..] == Idle
      modifies cols, this`events
      ensures cols[..] == Idle
      ensures events == old(events) + CycleReports(sample) + [Sync]
      ensures pressed == AnyPressed(sample)
    {
      pressed := false;
      cols[1] := 0;
      cols[2] := 0;
      // settle delay (50 us)
      assert cols[..] == OneHot(0);
      pressed := ReportRows(0, sample, pressed);

      cols[0] := 0;
      cols[1] := 1;
      // settle delay (50 us)
      assert cols[..] == OneHot(1);
      pressed := ReportRows(1, sample, pressed);

      cols[1] := 0;
      cols[2] := 1;
      // settle delay (50 us)
      assert cols[..] == OneHot(2);
      pressed := ReportRows(2, sample, pressed);

      events := events + [Sync];

      cols[0] := 1;
      cols[1] := 1;
      assert cols[..] == Idle;
    }

    /** The workqueue runs the queued work item: it is taken off the queue,
        one scan cycle runs, and the scan re-queues itself exactly when a key
        was seen down and shutdown has not been requested; otherwise it
        clears `working`. */
    method RunWork(sample: Sampler)
      requires Valid() && pending
      modifies this`working, this`pending, this`events, cols
      ensures Valid()
      ensures events == old(events) + CycleReports(sample) + [Sync]
      ensures keybit == old(keybit) && shouldDie == old(shouldDie)
      ensures pending == (AnyPressed(sample) && shouldDie == 0)
      ensures working == pending
    {
      pending := false;
      var pressed := ScanCycle(sample);
      if shouldDie != 0 || !pressed {
        working := false;
      } else {
        // debounce delay (5 ms)
        var queued := QueueWork();
      }
      AppendCycleKeepsDeclared(old(events), sample, keybit);
    }

    /** The rising-edge interrupt handler: when no scan is outstanding it
        marks one and queues the work item, which was then idle; when one is
        outstanding it changes nothing, so a burst of edges queues one scan. */
    method Irq()
      requires Valid()
      modifies this`working, this`pending
      ensures Valid()
      ensures working && pending
      ensures !old(working) ==> !old(pending)
      ensures old(working) ==> unchanged(this)
    {
      if !working {
        working := true;
        var queued := QueueWork();
      }
    }

    /** The should_die step of module exit. The flag is never cleared again:
        no other step writes it. */
    method RequestStop()
      requires Valid()
      modifies this`shouldDie
      ensures Valid()
      ensures shouldDie == 1
    {
      shouldDie := 1;
    }
  }

  /** One atomic step of the driver: a rising edge on a row line, the
      workqueue running the work item, or module exit setting should_die. */
  datatype Step = Edge | Work(sample: Sampler) | Stop

  /** Runs an arbitrary sequence of atomic steps, a sequential stand-in for
      the interleaving of interrupt, worker and exit context. A Work step
      does nothing when the item is not queued, since the workqueue then has
      nothing to run. Over any such sequence the invariant holds throughout,
      reports are only ever appended, and should_die once set stays set. */
  method RunSteps(k: Keypad, steps: seq<Step>)
    requires k.Valid()
    modifies k, k.cols
    ensures k.Valid()
    ensures k.keybit == old(k.keybit)
    ensures old(k.events) <= k.events
    ensures old(k.shouldDie) != 0 ==> k.shouldDie != 0
  {
    for i := 0 to |steps|
      invariant k.Valid()
      invariant k.keybit == old(k.keybit)
      invariant old(k.events) <= k.events
      invariant old(k.shouldDie) != 0 ==> k.shouldDie != 0
    {
      match steps[i]
      case Edge => k.Irq();
      case Work(sample) =>
        if k.pending {
          k.RunWork(sample);
        }
      case Stop => k.RequestStop();
    }
  }

  /** Appending one cycle's reports to a history whose keys are all
      declared keeps every reported key declared. */
  lemma AppendCycleKeepsDeclared(before: seq<Event>, sample: Sampler, declared: set<int>)
    requires declared == KeySet()
    requires forall i :: 0 <= i < |before| && before[i].Key? ==> before[i].code in declared
    ensures var after := before + CycleReports(sample) + [Sync];
            forall i :: 0 <= i < |after| && after[i].Key? ==> after[i].code in declared
  {
  }
}
