/** The extension's output channel and its tracking events, as append-only logs. */
module Output {
  import opened Wrappers

  /** Three lines appended one by one are the three lines appended at once. */
  lemma AppendedThree(before: seq<string>, a: string, b: string, c: string)
    ensures before + [a] + [b] + [c] == before + [a, b, c]
  {
  }

  /** Four lines appended one by one are the four lines appended at once. */
  lemma AppendedFour(before: seq<string>, a: string, b: string, c: string, d: string)
    ensures before + [a] + [b] + [c] + [d] == before + [a, b, c, d]
  {
  }

  /** The output channel: `append` adds one line. */
  class Log {
    var lines: seq<string>

    constructor ()
      ensures lines == []
    {
      lines := [];
    }

    method Append(line: string)
      modifies this
      ensures lines == old(lines) + [line]
    {
      lines := lines + [line];
    }
  }

  datatype TrackEvent = TrackEvent(category: string, action: string, eventLabel: string, value: Option<string>)

  /** The tracking events emitted, in order; sending them is not modelled. */
  class Tracker {
    var events: seq<TrackEvent>

    constructor ()
      ensures events == []
    {
      events := [];
    }

    method Event(event: TrackEvent)
      modifies this
      ensures events == old(events) + [event]
    {
      events := events + [event];
    }
  }
}
