/**
 * The page side of the telemetry handler: `onMessage` walks a received
 * frame two bytes at a time and writes each record's look into the
 * elements of its battery slot.
 */
module Dashboard {
  import opened Wrappers
  import opened FrameDecoder
  import opened SlotRenderer

  /**
   * The page after handling the first n of `records` in order over
   * `shown`: slot j gets the look of record j - 1, for every slot the page
   * has (`limit` of them); a record beyond the page's slots is never
   * written.
   */
  function Written<R, V>(shown: map<nat, V>, records: seq<R>, look: R -> V, n: nat, limit: nat): map<nat, V>
    requires n <= |records|
  {
    if n == 0 then shown
    else
      var earlier := Written(shown, records, look, n - 1, limit);
      if n <= limit then earlier[n := look(records[n - 1])] else earlier
  }

  /**
   * What the first n records leave on the page: slots 1 to min(n, slots)
   * show the look of their record, and every other slot keeps what it
   * showed before.
   */
  lemma {:induction false} WrittenSlots<R, V>(shown: map<nat, V>, records: seq<R>, look: R -> V, n: nat, limit: nat)
    requires n <= |records|
    ensures forall j :: j in Written(shown, records, look, n, limit) <==> j in shown || (1 <= j <= n && j <= limit)
    ensures forall j :: 1 <= j <= n && j <= limit ==> Written(shown, records, look, n, limit)[j] == look(records[j - 1])
    ensures forall j :: j in shown && !(1 <= j <= n && j <= limit) ==> Written(shown, records, look, n, limit)[j] == shown[j]
  {
    if n > 0 {
      WrittenSlots(shown, records, look, n - 1, limit);
    }
  }

  /** Records past the page's last slot change nothing. */
  lemma {:induction false} WrittenUpToLimit<R, V>(shown: map<nat, V>, records: seq<R>, look: R -> V, n: nat, limit: nat)
    requires limit <= n <= |records|
    ensures Written(shown, records, look, n, limit) == Written(shown, records, look, limit, limit)
  {
    if limit < n {
      WrittenUpToLimit(shown, records, look, n - 1, limit);
    }
  }

  /**
   * Drawing every record of a frame leaves each slot j the page
   * has and the frame reaches showing the look of bytes 2j - 1 and 2j
   * (the latter missing at the end of an even-length frame); the page's
   * other slots keep their look.
   */
  lemma WrittenFrame<V>(shown: map<nat, V>, view: seq<Byte>, look: Sample -> V, limit: nat)
    ensures var page := Written(shown, Decode(view), look, |Decode(view)|, limit);
      (forall j :: 1 <= j <= |Decode(view)| && j <= limit ==>
         (2 * j - 1 < |view| && j in page &&
          page[j] == look(Sample(j, view[2 * j - 1], if 2 * j < |view| then Some(view[2 * j]) else None)))) &&
      (forall j :: j in shown && !(1 <= j <= |Decode(view)| && j <= limit) ==> j in page && page[j] == shown[j]) &&
      (forall j :: j in page ==> j in shown || 1 <= j <= |Decode(view)|)
  {
    var samples := Decode(view);
    WrittenSlots(shown, samples, look, |samples|, limit);
    forall j | 1 <= j <= |samples| && j <= limit
      ensures 2 * j - 1 < |view|
      ensures samples[j - 1] == Sample(j, view[2 * j - 1], if 2 * j < |view| then Some(view[2 * j]) else None)
    {
      DecodeAt(view, j - 1);
    }
  }

  /**
   * Drawing a frame with Render puts into each slot j the page has the
   * frame's look for slot j, as RenderFrame lists them.
   */
  lemma WrittenIsRenderFrame(shown: map<nat, SlotVisual>, view: seq<Byte>, limit: nat, j: nat)
    requires 1 <= j <= |RenderFrame(view)| && j <= limit
    ensures var page := Written(shown, Decode(view), Render, |Decode(view)|, limit);
      j in page && page[j] == RenderFrame(view)[j - 1]
  {
    WrittenSlots(shown, Decode(view), Render, |Decode(view)|, limit);
  }

  /**
   * The battery slots of the page. Each slot has a wrapper, a background,
   * a charge text and a volt text element; `shown` is the look last written
   * to each slot.
   */
  class Page {
    /** The number of slots in the markup (four in the shipped page). */
    const slotCount: nat
    /** How a record is drawn into its slot's elements. */
    const draw: Sample -> SlotVisual
    var shown: map<nat, SlotVisual>

    constructor (slotCount: nat)
      ensures this.slotCount == slotCount && draw == Render && shown == map[]
    {
      this.slotCount := slotCount;
      draw := Render;
      shown := map[];
    }

    /**
     * Handles one binary message (`onMessage`). Only a telemetry update
     * changes the page; it writes the look of slot 1, 2, ... in turn. A
     * record for a slot the page does not have finds no element and the
     * handler stops with an error (ok is false) before writing it; slots
     * written earlier keep their new look. Slots the frame does not reach
     * keep their old look.
     */
    method OnMessage(view: array<Byte>) returns (ok: bool)
      modifies this
      ensures ok <==> |Decode(view[..])| <= slotCount
      ensures shown == Written(old(shown), Decode(view[..]), draw, |Decode(view[..])|, slotCount)
    {
      ok := true;
      ghost var frame := view[..];
      ghost var samples := Decode(frame);
      DecodeLength(frame);
      if view.Length == 0 || view[0] != TelemetryUpdate {
        return;
      }
      var i := 1;
      ghost var done: nat := 0;  // records handled so far
      while i < view.Length
        invariant i == 2 * done + 1 && done <= slotCount && done <= |samples|
        invariant i < view.Length ==> done < |samples|
        invariant i >= view.Length ==> done == |samples|
        invariant view[..] == frame
        invariant shown == Written(old(shown), samples, draw, done, slotCount)
      {
        var slot := (i + 1) / 2;  // Math.ceil(i / 2) for odd i
        assert slot == done + 1;
        if slot > slotCount {
          ok := false;
          assert shown == Written(old(shown), samples, draw, |samples|, slotCount) by {
            WrittenUpToLimit(old(shown), samples, draw, |samples|, slotCount);
          }
          return;
        }
        var charge := view[i];
        var volt := if i + 1 < view.Length then Some(view[i + 1]) else None;
        assert Sample(slot, charge, volt) == samples[done] by { DecodeAt(frame, done); }
        shown := shown[slot := draw(Sample(slot, charge, volt))];
        i := i + 2;
        done := done + 1;
      }
    }
  }
}
