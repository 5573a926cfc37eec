/** Commands to an archive, and what is recorded of them. */
module Commands {
  import opened ByteStrings
  import opened Outcomes
  import opened Disks

  datatype Command =
    | AddBytes(name: seq<byte>, data: seq<byte>)
    | AddFrom(name: seq<byte>, source: Path)
    | Remove(name: seq<byte>)
    | Rename(name: seq<byte>, newName: seq<byte>)
    | CopyAs(name: seq<byte>, copyName: seq<byte>)
    | Save

  /** What came of a command: its status, the item it added if it was an add, whether some call failed during
      it, and whether it replaced the archive's file. */
  datatype Event<I> = Event(status: Status, added: I, failed: bool, published: bool)

  /** The commands carried out so far: what came of each, and the archive before, between and after them. */
  datatype History<I, M> = History(events: seq<Event<I>>, moments: seq<M>) {
    ghost predicate Fits(commands: seq<Command>) {
      |moments| == |events| + 1 && |events| <= |commands|
    }

    ghost function Last(): M
      requires moments != []
    {
      moments[|moments| - 1]
    }

    ghost function Then(e: Event<I>, m: M): History<I, M> {
      History(events + [e], moments + [m])
    }
  }

  /** An archive never comes to be open, and only a commit during which a call fails can lose its handle. */
  predicate HandleKept(c: Command, failed: bool, before: bool, after: bool) {
    if c == Save then (after ==> before) && (before && !after ==> failed) else after == before
  }

  function Statuses<I>(events: seq<Event<I>>): (s: seq<Status>)
    ensures |s| == |events| && forall i :: 0 <= i < |s| ==> s[i] == events[i].status
  {
    seq(|events|, i requires 0 <= i < |events| => events[i].status)
  }

  /** How many of the commands met a failed call. */
  function Failures<I>(events: seq<Event<I>>): nat {
    if events == [] then 0
    else Failures(events[..|events| - 1]) + if events[|events| - 1].failed then 1 else 0
  }

  lemma FailuresMore<I>(events: seq<Event<I>>, e: Event<I>)
    ensures Failures(events + [e]) == Failures(events) + if e.failed then 1 else 0
  {
    assert (events + [e])[..|events|] == events;
  }
}
