/**
  `TsStreamer`, the byte sink the H.264 encoder writes into when a Transport
  Stream is requested. Each write emits one TS packet to the packet writer
  and advances the continuity counter. The packet writer and the file behind
  it are represented by `emitted`, the packets handed to the writer so far.
 */
module Streamer {
  import opened Wrappers
  import opened TsPacket

  type U64 = x: int | 0 <= x < 0x1_0000_0000_0000_0000

  /** std::io::Error; the streamer itself never produces one. */
  datatype IoError = IoError(message: string)

  class TsStreamer {
    var counter: ContinuityCounter
    var inputFrameNumber: U64
    var inputFrameUnixMicros: U64
    var outputFrameNumber: U64
    const streamId: int
    /** The packets handed to the packet writer, oldest first. */
    ghost var emitted: seq<Packet>

    /** The counter and the packet log are those of a fresh streamer after |emitted| writes. */
    ghost predicate Valid()
      reads this
    {
      IsVideoStreamId(streamId) &&
      counter == CounterAfter(|emitted|) &&
      emitted == StreamLog(|emitted|, streamId)
    }

    /** A streamer over a freshly opened output: video stream 0, counter 0, nothing written. */
    constructor NewStream()
      ensures Valid()
      ensures streamId == VIDEO_STREAM_ID_BASE
      ensures counter == 0 && emitted == []
      ensures inputFrameNumber == 0 && inputFrameUnixMicros == 0 && outputFrameNumber == 0
    {
      var id := VideoStreamId(0);
      streamId := id.value;
      counter := 0;
      inputFrameNumber := 0;
      inputFrameUnixMicros := 0;
      outputFrameNumber := 0;
      emitted := [];
    }

    /** Records the number and capture time of the frame about to be written. */
    method SetNextFrameMeta(frameNumber: U64, unixTimestampMicros: U64)
      requires Valid()
      modifies this`inputFrameNumber, this`inputFrameUnixMicros
      ensures Valid()
      ensures inputFrameNumber == frameNumber && inputFrameUnixMicros == unixTimestampMicros
      ensures counter == old(counter) && outputFrameNumber == old(outputFrameNumber)
      ensures emitted == old(emitted)
    {
      inputFrameNumber := frameNumber;
      inputFrameUnixMicros := unixTimestampMicros;
    }

    /** Emits one packet stamped with the current counter, then advances the
        counter. The bytes given are not looked at, and the call reports that
        none of them was taken. */
    method Write(data: seq<Byte>) returns (r: Result<nat, IoError>)
      requires Valid()
      modifies this`counter, this`emitted
      ensures Valid()
      ensures emitted == old(emitted) + [FramePacket(old(counter), streamId)]
      ensures counter == (old(counter) + 1) % COUNTER_MODULUS
      ensures counter == |emitted| % COUNTER_MODULUS
      ensures inputFrameNumber == old(inputFrameNumber) && inputFrameUnixMicros == old(inputFrameUnixMicros)
      ensures outputFrameNumber == old(outputFrameNumber)
      ensures r == Ok(0)
    {
      emitted := emitted + [FramePacket(counter, streamId)];
      counter := NextCounter(counter);
      CounterAfterIsMod(|emitted|);
      r := Ok(0);
    }

    /** Does not reach the packet writer: nothing changes and the call succeeds. */
    method Flush() returns (r: Result<(), IoError>)
      ensures r == Ok(())
    {
      r := Ok(());
    }
  }
}
