/**
 * The command channel of the drawing surface, seen from the graph library: every call of
 * `add_event` is recorded together with the value the global enable flag had at that moment.
 * What the channel does with an event recorded while the flag is off is not modelled.
 */
module Emission {
  import opened Wrappers

  /** One element of an add_all / remove_all batch: tag 0 (node) or 1 (edge) and the element's internal id. */
  datatype Item = NodeItem(node: int) | EdgeItem(edge: int)

  /** The kind of a command together with its arguments; visual records are abbreviated to internal ids. */
  datatype Command =
    | AddNodeCmd(node: int)
    | RemoveNodeCmd(node: int)
    | AddEdgeCmd(edge: int)
    | RemoveEdgeCmd(edge: int)
    | AddAllCmd(items: seq<Item>)
    | RemoveAllCmd(items: seq<Item>)
    | ClearCmd
    | SetSpreadCmd(spread: int)
    | SetPositionCmd(node: int, x: Option<real>, y: Option<real>, relative: bool)
    | SetDirectedCmd(edge: int, directed: bool)
    | PauseCmd(time: int)

  datatype Event = Event(command: Command, enabled: bool)

  /** Pacing delay after a single node is added or removed. */
  const NodePause := 25
  /** Pacing delay after an add_all / remove_all batch. */
  const BatchPause := 55

  class EventLog {
    var events: seq<Event>
    var enabled: bool

    constructor ()
      ensures events == [] && enabled
    {
      events := [];
      enabled := true;
    }

    /** `add_event`: the command is queued, tagged with the current state of the flag. */
    method Add(c: Command)
      modifies `events
      ensures events == old(events) + [Event(c, enabled)]
    {
      events := events + [Event(c, enabled)];
    }

    /** `enable_events`: a plain flag, not a counter, so nested batches do not compose. */
    method EnableEvents(on: bool)
      modifies `enabled
      ensures enabled == on
    {
      enabled := on;
    }

    /** `pause(time)`: the pause is itself a queued command. */
    method Pause(time: int)
      modifies `events
      ensures events == old(events) + [Event(PauseCmd(time), enabled)]
    {
      Add(PauseCmd(time));
    }

    /** `add_event(c)` followed by `pause(time)`, the way each single-element operation ends. */
    method AddAndPause(c: Command, time: int)
      modifies `events
      ensures events == old(events) + [Event(c, enabled), Event(PauseCmd(time), enabled)]
    {
      Add(c);
      Pause(time);
    }

    /**
     * How an add_all / remove_all batch ends: events back on, then the batch command and a
     * pause of 55, both recorded as enabled.
     */
    method EndBatch(c: Command)
      modifies `events, `enabled
      ensures enabled
      ensures events == old(events) + [Event(c, true), Event(PauseCmd(BatchPause), true)]
    {
      EnableEvents(true);
      AddAndPause(c, BatchPause);
    }
  }

  /** A process-wide counter standing for the internal-id generator of the core. */
  class IdGenerator {
    var next: int

    constructor (start: int)
      ensures next == start
    {
      next := start;
    }

    method Next() returns (id: int)
      modifies `next
      ensures id == old(next) && next == old(next) + 1
    {
      id := next;
      next := next + 1;
    }
  }
}
