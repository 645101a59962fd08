/**
 * The receiver's state and its two event handlers: the custom-message
 * listener, which replaces the list of censor ranges, and the polling tick,
 * which keeps the overlay element's `style.display` in line with the playback
 * time. Both append what they would log to `log`.
 */
module CensorReceiver {
  import opened Wrappers
  import opened Intervals
  import opened Sync

  /** The `data` of a custom message; `overlays` is None when the field is missing or falsy. */
  datatype Payload = Payload(overlays: Option<seq<Interval>>)

  /** A custom message; `data` is None when the message carries no (or falsy) data. */
  datatype Message = Message(data: Option<Payload>)

  /** A line of the receiver's debug log. */
  datatype LogLine = Received | Loaded(count: nat) | Censorship(change: Write)

  /** The list a message carries when both `data` and `data.overlays` are present. */
  function Incoming(msg: Message): Option<seq<Interval>>
  {
    if msg.data.Some? && msg.data.value.overlays.Some? then msg.data.value.overlays else None
  }

  class Receiver {
    /** `censorOverlays`: the ranges last received. */
    var overlays: seq<Interval>
    /** `style.display` of the overlay element. */
    var display: string
    /** The debug lines written so far. */
    var log: seq<LogLine>

    /** Start-up: no ranges yet; the overlay element shows whatever display the page gave it. */
    constructor (initialDisplay: string)
      ensures overlays == [] && display == initialDisplay && log == []
    {
      overlays := [];
      display := initialDisplay;
      log := [];
    }

    /**
     * The custom-message listener: a message with overlays replaces the whole
     * list (an empty list included); any other message leaves it unchanged.
     */
    method OnMessage(msg: Message)
      modifies this
      ensures display == old(display)
      ensures Incoming(msg).Some? ==> overlays == msg.data.value.overlays.value
      ensures Incoming(msg).Some? ==> log == old(log) + [Received, Loaded(|overlays|)]
      ensures Incoming(msg).None? ==> overlays == old(overlays) && log == old(log) + [Received]
    {
      log := log + [Received];
      var data := msg.data;
      if data.Some? && data.value.overlays.Some? {
        overlays := data.value.overlays.value;
        log := log + [Loaded(|overlays|)];
      }
    }

    /**
     * The polling tick: nothing without a media element or an overlay element;
     * otherwise the display becomes "flex" on a censored time and "none" on any
     * other, written and logged only when it held something else.
     */
    method Tick(p: Probe) returns (wrote: bool)
      modifies this
      ensures overlays == old(overlays)
      ensures var o := Sync.Tick(old(display), overlays, p);
        display == o.display && wrote == o.write.Some?
        && log == old(log) + (if o.write.Some? then [Censorship(o.write.value)] else [])
    {
      wrote := false;
      if p.media.None? {
        return;
      }
      var currentTime := p.media.value;
      if !p.overlayFound {
        return;
      }
      var isCensored := ScanCensored(overlays, currentTime);
      if isCensored {
        if display != FLEX {
          display := FLEX;
          log := log + [Censorship(Active(currentTime))];
          wrote := true;
        }
      } else {
        if display != NONE {
          display := NONE;
          log := log + [Censorship(Lifted(currentTime))];
          wrote := true;
        }
      }
    }
  }

  /**
   * A client of the receiver: after ranges 1..3 are replaced by 5..8, time 2 is
   * no longer censored and time 6 is, and repeating the tick at 6 writes nothing.
   */
  method ReplacementScenario()
  {
    var r := new Receiver("none");
    r.OnMessage(Message(Some(Payload(Some([Interval(1.0, 3.0)])))));
    r.OnMessage(Message(Some(Payload(None))));
    assert r.overlays == [Interval(1.0, 3.0)];
    r.OnMessage(Message(Some(Payload(Some([Interval(5.0, 8.0)])))));
    assert !IsCensored(r.overlays, 2.0);
    var wrote := r.Tick(Seen(2.0));
    assert r.display == "none" && !wrote;
    assert Covers(r.overlays[0], 6.0);
    wrote := r.Tick(Seen(6.0));
    assert r.display == "flex" && wrote;
    wrote := r.Tick(Seen(6.0));
    assert !wrote;
    r.OnMessage(Message(Some(Payload(Some([])))));
    wrote := r.Tick(Probe(None, true));
    assert r.display == "flex" && !wrote;
    wrote := r.Tick(Seen(6.0));
    assert r.display == "none" && wrote;
  }
}
