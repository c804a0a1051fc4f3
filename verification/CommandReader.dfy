/** The code of the reader and of the producers that wake it (Commander.cxx): each method is one
    region between two points where another thread can act, changes the shared variables exactly as
    the step of ReaderHandshake it names, and keeps the invariant of the handshake. */
module CommandReader {
  import opened InputSweep
  import opened ReaderHandshake

  class CommandReader {
    const windows: WindowList
    var queues: map<WindowId, seq<Line>>
    var firstReadWindow: WindowId
    var isMore: bool
    var lookingForAsyncInputs: bool
    var reader: Reader                 // where SpeedShop_ReadLine is, with its local variables
    var producers: seq<Producer>       // where each caller of Wake_Up_Reader is

    ghost function View(): State
      reads this, windows
    {
      State(windows.list, queues, windows.lastReadWindow, firstReadWindow, isMore, lookingForAsyncInputs, reader, producers)
    }

    /** The sweep is on its tour, and no input is left behind a sleeping reader unannounced. */
    ghost predicate Valid()
      reads this, windows
    {
      Inv(View())
    }

    constructor (windows: WindowList, producers: nat)
      requires Distinct(windows.list)
      ensures Valid()
      ensures this.windows == windows && View() == Init(windows.list, windows.lastReadWindow, producers)
    {
      this.windows := windows;
      queues, firstReadWindow, isMore := map w | w in windows.list :: [], windows.lastReadWindow, false;
      lookingForAsyncInputs, reader := false, Away;
      this.producers := seq(producers, i => Idle);
    }

    /** SpeedShop_ReadLine up to its first read. */
    method BeginReadLine(more: bool)
      requires Valid() && Enabled(View(), Call(more))
      modifies this, windows
      ensures View() == Apply(old(View()), Call(more)) && Valid()
    {
      StepKeepsInv(View(), Call(more));
      var w := windows.SelectInputWindow(more);
      firstReadWindow, isMore, reader := w, more, Reading([], false);
    }

    /** One Read_Command, and what follows it up to the next one, the end of the sweep or a line. */
    method ReadWindow()
      requires Valid() && Enabled(View(), Read)
      modifies this, windows
      ensures View() == Apply(old(View()), Read) && Valid()
      ensures reader.Missed? ==> forall w :: w in Swept(View()) ==> w in reader.tried
    {
      StepKeepsInv(View(), Read);
      var w := windows.lastReadWindow;
      if queues[w] != [] {
        TakeLine(w);
      } else {
        MoveOn();
      }
      TriedAll(View());
    }

    /** A line is used up, and returned if it is a command. */
    method TakeLine(w: WindowId)
      requires Enabled(View(), Read) && w == windows.lastReadWindow && queues[w] != []
      modifies this`queues, this`reader
      ensures View() == ReadNext(old(View()))
    {
      var q := queues[w];
      queues := queues[w := q[1..]];
      if q[0].command { reader := Found(q[0], reader.locked); }
    }

    /** On to the next window, or the end of the sweep. */
    method MoveOn()
      requires Enabled(View(), Read) && queues[windows.lastReadWindow] == []
      modifies this`reader, windows
      ensures View() == ReadNext(old(View()))
    {
      var tried := reader.tried + [windows.lastReadWindow];
      var next := windows.SelectInputWindow(isMore);
      if next != firstReadWindow {
        reader := Reading(tried, reader.locked);
      } else {
        reader := Missed(tried, reader.locked);
      }
    }

    /** Nothing to read: take Async_Input_Lock, announce it and sweep again. */
    method LookAgain()
      requires Valid() && Enabled(View(), Lock)
      modifies this
      ensures View() == Apply(old(View()), Lock) && Valid()
    {
      StepKeepsInv(View(), Lock);
      lookingForAsyncInputs := true;
      reader := Reading([], true);
    }

    /** Still nothing: pthread_cond_wait on Async_Input_Available. */
    method WaitForInput()
      requires Valid() && Enabled(View(), Sleep)
      modifies this
      ensures View() == Apply(old(View()), Sleep) && Valid()
      ensures forall w :: w in Swept(View()) ==> w in queues && (queues[w] == [] || CanWake(View()))
    {
      StepKeepsInv(View(), Sleep);
      reader := Waiting(reader.tried);
      SleeperIsWatched(View());
      forall w | w in Swept(View()) && queues[w] != [] ensures CanWake(View()) { PendingWakes(View(), w); }
    }

    /** The wait ends, by a signal or without one: release the lock and sweep again. */
    method Resume()
      requires Valid() && (Enabled(View(), Wake) || Enabled(View(), Spurious))
      modifies this
      ensures View() == Apply(old(View()), if old(reader).Signalled? then Wake else Spurious) && Valid()
    {
      StepKeepsInv(View(), if reader.Signalled? then Wake else Spurious);
      reader := Reading([], false);
    }

    /** A line was found: clear the flag and release the lock if it is held. */
    method ReturnLine() returns (line: Line)
      requires Valid() && Enabled(View(), Return)
      modifies this
      ensures View() == Apply(old(View()), Return) && line == old(reader).line && Valid()
    {
      StepKeepsInv(View(), Return);
      line := reader.line;
      if reader.locked { lookingForAsyncInputs := false; }
      reader := Away;
    }

    /** The locked part of Append_Input_Source, or of Push_Input_Source with front. */
    method AddInput(i: nat, w: WindowId, lines: seq<Line>, front: bool)
      requires Valid() && Enabled(View(), Post(i, w, lines, front))
      modifies this
      ensures View() == Apply(old(View()), Post(i, w, lines, front)) && Valid()
      ensures reader.Waiting? ==> CanWake(View())
      ensures multiset(queues[w]) == multiset(old(queues[w])) + multiset(lines)
    {
      StepKeepsInv(View(), Post(i, w, lines, front));
      queues := queues[w := if front then lines + queues[w] else queues[w] + lines];
      producers := producers[i := Posted(w)];
      assert Brings(producers[i], w);
      if reader.Waiting? { PendingWakes(View(), w); }
    }

    /** Wake_Up_Reader's test without the lock. */
    method TestLooking(i: nat)
      requires Valid() && Enabled(View(), Test(i))
      modifies this
      ensures View() == Apply(old(View()), Test(i)) && Valid()
    {
      StepKeepsInv(View(), Test(i));
      if lookingForAsyncInputs {
        producers := producers[i := Calling(producers[i].w)];
      } else {
        producers := producers[i := Idle];
      }
    }

    /** Wake_Up_Reader with the lock: test again, clear the flag and signal. */
    method WakeUpReader(i: nat)
      requires Valid() && Enabled(View(), Signal(i))
      modifies this
      ensures View() == Apply(old(View()), Signal(i)) && Valid()
      ensures old(reader).Waiting? ==> reader.Signalled?
    {
      StepKeepsInv(View(), Signal(i));
      if lookingForAsyncInputs {
        lookingForAsyncInputs := false;
        if reader.Waiting? { reader := Signalled; }
      }
      producers := producers[i := Idle];
    }
  }
}
