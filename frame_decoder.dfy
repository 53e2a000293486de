/**
 * The frame decoder of the telemetry handler `onMessage`: byte 0 of a
 * binary WebSocket frame is an opcode, and opcode 0 (a telemetry update)
 * is followed by one (charge, volt) byte pair per battery slot.
 */
module FrameDecoder {
  import opened Wrappers

  /** One element of a Uint8Array. */
  type Byte = b: int | 0 <= b < 256

  /** The only opcode the handler acts on. */
  const TelemetryUpdate: Byte := 0

  /**
   * One record of a telemetry update: the 1-based slot number, the charge
   * byte, and the volt byte in hundredths of a volt, which is `undefined`
   * (None) when the charge byte is the last byte of the frame.
   */
  datatype Sample = Sample(slot: nat, charge: Byte, volt: Option<Byte>)

  /** The record the loop reads at odd offset i: slot ceil(i / 2), bytes i and i + 1. */
  function SampleAt(view: seq<Byte>, i: nat): Sample
    requires i < |view|
  {
    Sample((i + 1) / 2, view[i], if i + 1 < |view| then Some(view[i + 1]) else None)
  }

  /** The records the loop produces from offset i on, stepping by two while i < |view|. */
  function DecodeFrom(view: seq<Byte>, i: nat): seq<Sample>
    decreases |view| - i
  {
    if i < |view| then [SampleAt(view, i)] + DecodeFrom(view, i + 2) else []
  }

  /**
   * The records of a frame: none unless byte 0 is the telemetry opcode (an
   * empty frame has no byte 0), otherwise one per odd offset.
   */
  function Decode(view: seq<Byte>): seq<Sample>
  {
    if |view| > 0 && view[0] == TelemetryUpdate then DecodeFrom(view, 1) else []
  }

  lemma {:induction false} DecodeFromLength(view: seq<Byte>, i: nat)
    ensures |DecodeFrom(view, i)| == if i < |view| then (|view| - i + 1) / 2 else 0
    decreases |view| - i
  {
    if i < |view| {
      DecodeFromLength(view, i + 2);
    }
  }

  lemma {:induction false} DecodeFromAt(view: seq<Byte>, i: nat, k: nat)
    requires k < |DecodeFrom(view, i)|
    ensures i + 2 * k < |view| && DecodeFrom(view, i)[k] == SampleAt(view, i + 2 * k)
    decreases k
  {
    if k > 0 {
      DecodeFromAt(view, i + 2, k - 1);
    }
  }

  /**
   * A frame of length L with the telemetry opcode yields floor(L / 2)
   * records; any other frame, the empty one included, yields none.
   */
  lemma DecodeLength(view: seq<Byte>)
    ensures |Decode(view)| == if |view| > 0 && view[0] == TelemetryUpdate then |view| / 2 else 0
  {
    DecodeFromLength(view, 1);
  }

  /**
   * Record k (counting from 0) is slot k + 1, reads its charge from byte
   * 2k + 1 and its volt from byte 2k + 2, which is missing only past the end.
   */
  lemma DecodeAt(view: seq<Byte>, k: nat)
    requires k < |Decode(view)|
    ensures view[0] == TelemetryUpdate && 2 * k + 1 < |view|
    ensures Decode(view)[k] ==
      Sample(k + 1, view[2 * k + 1], if 2 * k + 2 < |view| then Some(view[2 * k + 2]) else None)
  {
    DecodeFromAt(view, 1, k);
  }

  /** A frame of length 1 + 2N with the telemetry opcode yields exactly N complete records. */
  lemma DecodeWholePairs(view: seq<Byte>, n: nat)
    requires |view| == 1 + 2 * n && view[0] == TelemetryUpdate
    ensures |Decode(view)| == n
    ensures forall k :: 0 <= k < n ==> Decode(view)[k].volt == Some(view[2 * k + 2])
  {
    DecodeLength(view);
    forall k | 0 <= k < n
      ensures Decode(view)[k].volt == Some(view[2 * k + 2])
    {
      DecodeAt(view, k);
    }
  }

  /**
   * A frame of even length 2N + 2 with the telemetry opcode yields N + 1
   * records; the trailing byte is not dropped but becomes a last record
   * whose volt byte is missing.
   */
  lemma DecodeTrailingByte(view: seq<Byte>, n: nat)
    requires |view| == 2 * n + 2 && view[0] == TelemetryUpdate
    ensures |Decode(view)| == n + 1
    ensures Decode(view)[n] == Sample(n + 1, view[2 * n + 1], None)
  {
    DecodeLength(view);
    DecodeAt(view, n);
  }

  /**
   * The shape of every decoded sequence: slots numbered 1, 2, 3, ... in
   * order, and only the last record may lack its volt byte.
   */
  predicate WellFormed(samples: seq<Sample>)
  {
    (forall k :: 0 <= k < |samples| ==> samples[k].slot == k + 1) &&
    (forall k :: 0 <= k < |samples| - 1 ==> samples[k].volt.Some?)
  }

  lemma DecodeWellFormed(view: seq<Byte>)
    ensures WellFormed(Decode(view))
  {
    DecodeLength(view);
    forall k | 0 <= k < |Decode(view)|
      ensures Decode(view)[k].slot == k + 1
      ensures k < |Decode(view)| - 1 ==> Decode(view)[k].volt.Some?
    {
      DecodeAt(view, k);
    }
  }

  /** The bytes of a sequence of records, as a producer lays them out after the opcode. */
  function Payload(samples: seq<Sample>): seq<Byte>
  {
    if samples == [] then []
    else
      [samples[0].charge] +
      (match samples[0].volt case Some(v) => [v] case None => []) +
      Payload(samples[1..])
  }

  /** A telemetry-update frame carrying the given records. */
  function Encode(samples: seq<Sample>): seq<Byte>
  {
    [TelemetryUpdate] + Payload(samples)
  }

  lemma {:induction false} PayloadOfDecodeFrom(view: seq<Byte>, i: nat)
    requires i <= |view|
    ensures Payload(DecodeFrom(view, i)) == view[i..]
    decreases |view| - i
  {
    if i < |view| {
      var rest := DecodeFrom(view, i + 2);
      assert DecodeFrom(view, i)[1..] == rest;
      if i + 1 < |view| {
        PayloadOfDecodeFrom(view, i + 2);
        assert view[i..] == [view[i]] + [view[i + 1]] + view[i + 2..];
      } else {
        assert rest == [];
        assert view[i..] == [view[i]];
      }
    }
  }

  /** Decoding loses nothing: a telemetry-update frame is rebuilt byte for byte from its records. */
  lemma EncodeDecode(view: seq<Byte>)
    requires |view| > 0 && view[0] == TelemetryUpdate
    ensures Encode(Decode(view)) == view
  {
    PayloadOfDecodeFrom(view, 1);
  }

  lemma {:induction false} DecodeFromPayload(view: seq<Byte>, i: nat, samples: seq<Sample>)
    requires i % 2 == 1 && i <= |view|
    requires view[i..] == Payload(samples)
    requires forall k :: 0 <= k < |samples| ==> samples[k].slot == (i + 1) / 2 + k
    requires forall k :: 0 <= k < |samples| - 1 ==> samples[k].volt.Some?
    ensures DecodeFrom(view, i) == samples
    decreases |samples|
  {
    if samples == [] {
      assert |view[i..]| == 0;
    } else {
      var s := samples[0];
      assert view[i] == s.charge;
      match s.volt
      case Some(v) =>
        assert view[i + 1] == v;
        assert view[i + 2..] == Payload(samples[1..]);
        DecodeFromPayload(view, i + 2, samples[1..]);
      case None =>
        assert |samples| == 1;
        assert samples[1..] == [];
        assert |view| == i + 1;
    }
  }

  /** Encoding then decoding gives back every well-formed sequence of records. */
  lemma DecodeEncode(samples: seq<Sample>)
    requires WellFormed(samples)
    ensures Decode(Encode(samples)) == samples
  {
    var view := Encode(samples);
    assert view[1..] == Payload(samples);
    DecodeFromPayload(view, 1, samples);
  }
}
