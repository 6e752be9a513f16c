/**
  The Transport Stream packets the streamer hands to its packet writer, as
  the field values it sets (the 188-byte wire encoding is done by the writer
  and is not modelled), the 4-bit continuity counter of section 2.4.3.3 of
  ISO/IEC 13818-1, and the log of packets a streamer has emitted after a
  number of writes.
 */
module TsPacket {
  import opened Wrappers

  type Byte = x: int | 0 <= x < 0x100

  /** The 4-bit continuity_counter. */
  type ContinuityCounter = x: int | 0 <= x < 16

  const COUNTER_MODULUS: int := 16
  /** PID values are 13 bits wide. */
  const PID_LIMIT: int := 0x2000
  /** PTS, DTS and ESCR base values are 33 bits wide. */
  const TIMESTAMP_LIMIT: int := 0x2_0000_0000
  /** A TS packet is 188 bytes, of which 4 are the fixed header. */
  const MAX_PAYLOAD_BYTES: int := 184
  /** stream_id values 1110 xxxx name video stream number xxxx. */
  const VIDEO_STREAM_ID_BASE: int := 0xE0

  /** The PID every packet of the stream is sent on. */
  const VIDEO_PID: int := 32
  /** The PTS every PES header carries. */
  const FRAME_PTS: int := 0
  /** The stand-in payload every packet carries in place of the data written. */
  const FRAME_PAYLOAD: seq<Byte> := [0, 0, 0, 0, 0]

  datatype ScramblingControl = NotScrambled | ScrambledWithEvenKey | ScrambledWithOddKey

  datatype TsHeader = TsHeader(
    transportErrorIndicator: bool,
    transportPriority: bool,
    pid: int,
    continuityCounter: int,
    scrambling: ScramblingControl)

  /** The adaptation field; the extension's own fields are not modelled, only whether it is there. */
  datatype AdaptationField = AdaptationField(
    discontinuityIndicator: bool,
    randomAccessIndicator: bool,
    esPriorityIndicator: bool,
    pcr: Option<int>,
    opcr: Option<int>,
    spliceCountdown: Option<int>,
    transportPrivateData: seq<Byte>,
    hasExtension: bool)

  datatype PesHeader = PesHeader(
    streamId: int,
    priority: bool,
    dataAlignmentIndicator: bool,
    copyright: bool,
    originalOrCopy: bool,
    pts: Option<int>,
    dts: Option<int>,
    escr: Option<int>)

  datatype PesPayload = PesPayload(header: PesHeader, pesPacketLen: int, data: seq<Byte>)

  /** A packet; the only payload the streamer builds is a PES packet. */
  datatype Packet = Packet(
    header: TsHeader,
    adaptationField: Option<AdaptationField>,
    payload: Option<PesPayload>)

  /** The stream_id of video stream number `n`, which exists for `n < 16` only. */
  function VideoStreamId(n: int): (r: Option<int>)
    ensures r.Some? <==> 0 <= n < 16
    ensures r.Some? ==> r.value / 16 == VIDEO_STREAM_ID_BASE / 16 && r.value % 16 == n
  {
    if 0 <= n < 16 then Some(VIDEO_STREAM_ID_BASE + n) else None
  }

  /** The 2-bit adaptation_field_control code: 01 payload only, 10 adaptation
      field only, 11 both; 00 is reserved. */
  function AdaptationFieldControl(p: Packet): int {
    (if p.adaptationField.Some? then 2 else 0) + (if p.payload.Some? then 1 else 0)
  }

  predicate CarriesPayload(p: Packet) {
    p.payload.Some?
  }

  predicate IsVideoStreamId(id: int) {
    VIDEO_STREAM_ID_BASE <= id < VIDEO_STREAM_ID_BASE + 16
  }

  /** Range and consistency rules of ISO/IEC 13818-1 for the fields a packet
      sets: every field within its width, a reserved adaptation_field_control
      never used, and an unbounded PES_packet_length (0) only for video. */
  predicate WellFormed(p: Packet) {
    0 <= p.header.pid < PID_LIMIT &&
    0 <= p.header.continuityCounter < COUNTER_MODULUS &&
    AdaptationFieldControl(p) != 0 &&
    (p.adaptationField.Some? ==>
      (p.adaptationField.value.pcr.Some? ==> 0 <= p.adaptationField.value.pcr.value) &&
      (p.adaptationField.value.opcr.Some? ==> 0 <= p.adaptationField.value.opcr.value)) &&
    (p.payload.Some? ==>
      var pes := p.payload.value;
      0 <= pes.header.streamId < 0x100 &&
      (pes.header.pts.Some? ==> 0 <= pes.header.pts.value < TIMESTAMP_LIMIT) &&
      (pes.header.dts.Some? ==> pes.header.pts.Some? && 0 <= pes.header.dts.value < TIMESTAMP_LIMIT) &&
      (pes.header.escr.Some? ==> 0 <= pes.header.escr.value) &&
      0 <= pes.pesPacketLen < 0x1_0000 &&
      (pes.pesPacketLen == 0 ==> IsVideoStreamId(pes.header.streamId)) &&
      |pes.data| <= MAX_PAYLOAD_BYTES)
  }

  /** The counter after one more payload-bearing packet. */
  function NextCounter(c: ContinuityCounter): (r: ContinuityCounter)
    ensures r != c
    ensures r == 0 <==> c == COUNTER_MODULUS - 1
    ensures r > 0 ==> r == c + 1
  {
    (c + 1) % COUNTER_MODULUS
  }

  /** The counter of a fresh streamer advanced `k` times. */
  function CounterAfter(k: nat): ContinuityCounter {
    if k == 0 then 0 else NextCounter(CounterAfter(k - 1))
  }

  /** Advancing `k` times from 0 leaves the counter at `k` mod 16. */
  lemma {:induction false} CounterAfterIsMod(k: nat)
    ensures CounterAfter(k) == k % COUNTER_MODULUS
  {
    if k > 0 {
      CounterAfterIsMod(k - 1);
      var q, m := (k - 1) / COUNTER_MODULUS, (k - 1) % COUNTER_MODULUS;
      assert k == COUNTER_MODULUS * q + m + 1;
      if m == COUNTER_MODULUS - 1 {
        assert k == COUNTER_MODULUS * (q + 1);
      }
    }
  }

  /** The packet one write emits when the counter stands at `cc`. */
  function FramePacket(cc: ContinuityCounter, streamId: int): (p: Packet)
    ensures p.header.pid == VIDEO_PID && p.header.continuityCounter == cc
    ensures p.header.scrambling == NotScrambled
    ensures AdaptationFieldControl(p) == 3
    ensures p.adaptationField.value.randomAccessIndicator && p.adaptationField.value.pcr == None
    ensures p.payload.value.header.streamId == streamId
    ensures p.payload.value.header.dataAlignmentIndicator
    ensures p.payload.value.header.pts == Some(FRAME_PTS) && p.payload.value.header.dts == None
    ensures p.payload.value.pesPacketLen == 0
    ensures p.payload.value.data == FRAME_PAYLOAD
    ensures IsVideoStreamId(streamId) ==> WellFormed(p)
  {
    Packet(
      TsHeader(
        transportErrorIndicator := false,
        transportPriority := false,
        pid := VIDEO_PID,
        continuityCounter := cc,
        scrambling := NotScrambled),
      Some(AdaptationField(
        discontinuityIndicator := false,
        randomAccessIndicator := true,
        esPriorityIndicator := false,
        pcr := None,
        opcr := None,
        spliceCountdown := None,
        transportPrivateData := [],
        hasExtension := false)),
      Some(PesPayload(
        PesHeader(
          streamId := streamId,
          priority := false,
          dataAlignmentIndicator := true,
          copyright := false,
          originalOrCopy := true,
          pts := Some(FRAME_PTS),
          dts := None,
          escr := None),
        pesPacketLen := 0,
        data := FRAME_PAYLOAD)))
  }

  /** The packets a fresh streamer with the given stream id has emitted after `k` writes. */
  function StreamLog(k: nat, streamId: int): (log: seq<Packet>)
    ensures |log| == k
  {
    if k == 0 then [] else StreamLog(k - 1, streamId) + [FramePacket(CounterAfter(k - 1), streamId)]
  }

  /** The `i`-th packet emitted is the frame packet stamped `i` mod 16. */
  lemma {:induction false} StreamLogAt(k: nat, streamId: int, i: nat)
    requires i < k
    ensures StreamLog(k, streamId)[i] == FramePacket(i % COUNTER_MODULUS, streamId)
  {
    if i == k - 1 {
      CounterAfterIsMod(k - 1);
    } else {
      StreamLogAt(k - 1, streamId, i);
    }
  }

  /** Packet `j` is the next payload-bearing packet after packet `i` on the same PID. */
  predicate NextOnPid(ps: seq<Packet>, i: int, j: int)
    requires 0 <= i < j < |ps|
  {
    CarriesPayload(ps[i]) && CarriesPayload(ps[j]) &&
    ps[i].header.pid == ps[j].header.pid &&
    forall k :: i < k < j ==> !(CarriesPayload(ps[k]) && ps[k].header.pid == ps[i].header.pid)
  }

  /** The continuity rule of section 2.4.3.3 of ISO/IEC 13818-1, without
      duplicate packets: on each PID, each payload-bearing packet carries the
      counter of the previous one plus one, modulo 16. */
  predicate ContinuityHolds(ps: seq<Packet>) {
    forall i, j :: 0 <= i < j < |ps| && NextOnPid(ps, i, j) ==>
      ps[j].header.continuityCounter == (ps[i].header.continuityCounter + 1) % COUNTER_MODULUS
  }

  /** What a streamer emits obeys the continuity rule. */
  lemma {:induction false} StreamLogContinuity(k: nat, streamId: int)
    ensures ContinuityHolds(StreamLog(k, streamId))
  {
    var ps := StreamLog(k, streamId);
    forall i, j | 0 <= i < j < |ps| && NextOnPid(ps, i, j)
      ensures ps[j].header.continuityCounter == (ps[i].header.continuityCounter + 1) % COUNTER_MODULUS
    {
      // packet i + 1 is a payload-bearing packet on the same PID, so it is packet j
      StreamLogAt(k, streamId, i);
      StreamLogAt(k, streamId, i + 1);
      assert CarriesPayload(ps[i + 1]) && ps[i + 1].header.pid == ps[i].header.pid;
      StreamLogAt(k, streamId, j);
    }
  }

  /** Neighbouring packets a streamer emits never share a counter value. */
  lemma {:induction false} StreamLogNeighboursDiffer(k: nat, streamId: int, i: nat)
    requires i + 1 < k
    ensures StreamLog(k, streamId)[i].header.continuityCounter != StreamLog(k, streamId)[i + 1].header.continuityCounter
  {
    StreamLogAt(k, streamId, i);
    StreamLogAt(k, streamId, i + 1);
  }

  /** Every packet a streamer on a video stream id emits is well formed. */
  lemma {:induction false} StreamLogWellFormed(k: nat, streamId: int, i: nat)
    requires IsVideoStreamId(streamId) && i < k
    ensures WellFormed(StreamLog(k, streamId)[i])
  {
    StreamLogAt(k, streamId, i);
  }
}
