/** The callback list of C/src/PiVisScheduler.c and the order in which C/src/main.c fills it. */
module Scheduler {
  datatype Callback = Client | Server | AlgoCtrl | Diag | ImageProvider | Control | ImageDataTL

  class Entry {
    const run: Callback
    var next: Entry?

    constructor (run: Callback)
      ensures this.run == run
    {
      this.run := run;
    }
  }

  /** The order of the init calls in `main`. */
  const RegistrationOrder := [Client, Server, AlgoCtrl, Diag, ImageProvider, Control, ImageDataTL]

  class CallbackList {
    var registeredFuncs: Entry?
    ghost var entries: seq<Entry>

    /** The list is acyclic and free of repetitions. */
    ghost predicate Valid()
      reads this, entries
    {
      && (if entries == [] then registeredFuncs == null else registeredFuncs == entries[0])
      && (forall i, j :: 0 <= i && j == i + 1 && j < |entries| ==> entries[i].next == entries[j])
      && (entries != [] ==> entries[|entries| - 1].next == null)
      && (forall i, j :: 0 <= i < j < |entries| ==> entries[i] != entries[j])
    }

    ghost function Callbacks(): seq<Callback>
      reads this
    {
      seq(|entries|, i requires 0 <= i < |entries| reads this => entries[i].run)
    }

    constructor ()
      ensures Valid() && Callbacks() == [] && entries == []
    {
      registeredFuncs, entries := null, [];
    }

    method RegisterCallback(entry: Entry)
      requires Valid() && entry !in entries
      modifies this, entry, entries
      ensures Valid() && entries == old(entries) + [entry]
      ensures Callbacks() == old(Callbacks()) + [entry.run]
    {
      entry.next := null;
      var lastEntry := registeredFuncs;
      if lastEntry == null {
        registeredFuncs := entry;
      } else {
        ghost var i := 0;
        while lastEntry.next != null
          invariant 0 <= i < |entries| && lastEntry == entries[i]
          invariant i + 1 < |entries| ==> lastEntry.next == entries[i + 1]
          decreases |entries| - i
        {
          lastEntry := lastEntry.next;
          i := i + 1;
        }
        lastEntry.next := entry;
      }
      entries := entries + [entry];
    }

    /** One turn of the outer loop of `SCHED_run`: every callback once, in registration order. */
    method RunPass() returns (executed: seq<Callback>)
      requires Valid()
      ensures executed == Callbacks()
    {
      executed := [];
      var toExecute := registeredFuncs;
      while toExecute != null
        invariant |executed| <= |entries| && executed == Callbacks()[..|executed|]
        invariant if |executed| < |entries| then toExecute == entries[|executed|] else toExecute == null
        decreases |entries| - |executed|
      {
        ghost var k := |executed|;
        executed := executed + [toExecute.run];
        assert k + 1 < |entries| ==> entries[k].next == entries[k + 1];
        toExecute := toExecute.next;
      }
    }
  }

  /** `main` up to `SCHED_run`. */
  method Startup() returns (list: CallbackList)
    ensures list.Valid() && list.Callbacks() == RegistrationOrder
    ensures list.Callbacks() == [Client, Server, AlgoCtrl, Diag, ImageProvider, Control, ImageDataTL]
  {
    list := new CallbackList();
    for i := 0 to |RegistrationOrder|
      invariant fresh(list) && list.Valid() && list.Callbacks() == RegistrationOrder[..i]
      invariant forall j :: 0 <= j < |list.entries| ==> fresh(list.entries[j])
    {
      var entry := new Entry(RegistrationOrder[i]);
      list.RegisterCallback(entry);
    }
  }
}
