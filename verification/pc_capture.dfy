/** The statistics bookkeeping of the capture page (pc_capture/js/main.js): each poll
    compares a stats snapshot with the one kept from the previous poll, derives
    per-interval deltas and ratios of deltas, accumulates the per-stage delays of
    timing frames, and smooths the playback frame rates. Counters are integers, times
    and rates reals; a ratio whose denominator delta is zero is None, where the page
    computes NaN or Infinity. */
module PcCapture {
  import opened Wrappers

  // ---- snapshots and stats reports ----

  /** The `outbound-rtp` counters the sender statistics use. */
  datatype OutboundRtpStats = OutboundRtpStats(
    totalEncodeTime: real,
    totalPacketSendDelay: real,
    packetsSent: int,
    framesEncoded: int,
    framesSent: int,
    qpSum: int,
    qualityLimitationNone: real,
    qualityLimitationCpu: real)

  /** The `inbound-rtp` counters the receiver statistics use. `timingFrameInfo` is the
      comma-separated `googTimingFrameInfo` split into fields, each the number it
      converts to, None where the conversion gives NaN; the whole is None when absent. */
  datatype InboundRtpStats = InboundRtpStats(
    remoteId: Option<string>,
    timingFrameInfo: Option<seq<Option<real>>>,
    totalProcessingDelay: real,
    totalDecodeTime: real,
    jitterBufferDelay: real,
    jitterBufferEmittedCount: int,
    totalAssemblyTime: real,
    framesAssembledFromMultiplePackets: int,
    framesDecoded: int,
    framesReceived: int,
    qpSum: int,
    jitter: real)

  /** The frame counters of the local track's `stats`. */
  datatype TrackStats = TrackStats(totalFrames: int, deliveredFrames: int, discardedFrames: int)

  /** One entry of a stats report, as far as the handlers distinguish them. */
  datatype StatsEntry =
    | MediaSource
    | OutboundRtp(outbound: OutboundRtpStats)
    | Transport
    | InboundRtp(inbound: InboundRtpStats)
    | OtherStats

  /** The snapshot a delta is measured against: the kept one, or on the first report
      the current one itself. */
  function Baseline<S>(prev: Option<S>, curr: S): (base: S)
    ensures prev.None? ==> base == curr
    ensures prev.Some? ==> base == prev.value
  {
    if prev.None? then curr else prev.value
  }

  /** `num / den`, undefined when `den` is zero. */
  function Ratio(num: real, den: real): (r: Option<real>)
    ensures r.Some? <==> den != 0.0
    ensures r.Some? ==> r.value * den == num
  {
    if den == 0.0 then None else Some(num / den)
  }

  // ---- sender statistics (showLocalStats, outbound-rtp branch) ----

  datatype OutboundDeltas = OutboundDeltas(
    encodeTime: real,
    packetSendDelay: real,
    packetsSent: int,
    framesEncoded: int,
    framesSent: int,
    qpSum: int,
    qualityLimitationNone: real,
    qualityLimitationCpu: real)

  const NoOutboundChange := OutboundDeltas(0.0, 0.0, 0, 0, 0, 0, 0.0, 0.0)

  /** The per-interval differences of the sender counters. */
  function OutboundDelta(prev: OutboundRtpStats, curr: OutboundRtpStats): (d: OutboundDeltas)
    ensures d == NoOutboundChange <==> prev == curr
  {
    OutboundDeltas(
      curr.totalEncodeTime - prev.totalEncodeTime,
      curr.totalPacketSendDelay - prev.totalPacketSendDelay,
      curr.packetsSent - prev.packetsSent,
      curr.framesEncoded - prev.framesEncoded,
      curr.framesSent - prev.framesSent,
      curr.qpSum - prev.qpSum,
      curr.qualityLimitationNone - prev.qualityLimitationNone,
      curr.qualityLimitationCpu - prev.qualityLimitationCpu)
  }

  /** The numbers the sender panel shows for one interval (display rounding left out). */
  datatype OutboundReport = OutboundReport(
    qpPerFrame: Option<real>,
    encodeMsPerFrame: Option<real>,
    packetSendDelayMsPerPacket: Option<real>,
    framesEncodedPerInterval: int,
    framesSentPerInterval: int,
    cpuLimitedPercent: real)

  function OutboundReportOf(d: OutboundDeltas): (r: OutboundReport)
    ensures r.qpPerFrame.Some? <==> d.framesEncoded != 0
    ensures r.qpPerFrame.Some? ==> r.qpPerFrame.value * d.framesEncoded as real == d.qpSum as real
    ensures r.encodeMsPerFrame.Some? <==> d.framesEncoded != 0
    ensures r.encodeMsPerFrame.Some? ==>
      r.encodeMsPerFrame.value * d.framesEncoded as real == 1000.0 * d.encodeTime
    ensures r.packetSendDelayMsPerPacket.Some? <==> d.packetsSent != 0
    ensures r.packetSendDelayMsPerPacket.Some? ==>
      r.packetSendDelayMsPerPacket.value * d.packetsSent as real == 1000.0 * d.packetSendDelay
    ensures r.framesEncodedPerInterval == d.framesEncoded && r.framesSentPerInterval == d.framesSent
    ensures r.cpuLimitedPercent <= 100.0
    ensures 100.0 * d.qualityLimitationCpu <= 100.0 ==> r.cpuLimitedPercent == 100.0 * d.qualityLimitationCpu
  {
    var cpu := 100.0 * d.qualityLimitationCpu;
    OutboundReport(
      Ratio(d.qpSum as real, d.framesEncoded as real),
      Ratio(1000.0 * d.encodeTime, d.framesEncoded as real),
      Ratio(1000.0 * d.packetSendDelay, d.packetsSent as real),
      d.framesEncoded,
      d.framesSent,
      if cpu < 100.0 then cpu else 100.0)
  }

  /** The sender snapshot kept after a report has been handled: the last
      `outbound-rtp` entry in it, or the one kept before when it has none. */
  function LastOutbound(prev: Option<OutboundRtpStats>, report: seq<StatsEntry>): Option<OutboundRtpStats>
    decreases |report|
  {
    if report == [] then prev
    else if report[|report| - 1].OutboundRtp? then Some(report[|report| - 1].outbound)
    else LastOutbound(prev, report[..|report| - 1])
  }

  /** What the sender panel shows, in order, while a report is handled: every
      `outbound-rtp` entry is measured against the one handled just before it. */
  function OutboundReports(prev: Option<OutboundRtpStats>, report: seq<StatsEntry>): seq<OutboundReport>
    decreases |report|
  {
    if report == [] then []
    else
      var init := report[..|report| - 1];
      var e := report[|report| - 1];
      OutboundReports(prev, init) +
        if e.OutboundRtp? then [OutboundReportOf(OutboundDelta(Baseline(LastOutbound(prev, init), e.outbound), e.outbound))]
        else []
  }

  /** On the first report every sender delta is zero, so every ratio is undefined,
      the frame counts per interval are zero and so is the CPU-limited share. */
  lemma FirstOutboundReport(curr: OutboundRtpStats)
    ensures OutboundDelta(Baseline(None, curr), curr) == NoOutboundChange
    ensures var r := OutboundReportOf(OutboundDelta(Baseline(None, curr), curr));
      r == OutboundReport(None, None, None, 0, 0, 0.0)
  {
  }

  /** Handling two reports one after the other is handling their concatenation, and
      the second is measured only against what the first left behind. */
  lemma {:induction false} OutboundReportsAppend(prev: Option<OutboundRtpStats>, r1: seq<StatsEntry>, r2: seq<StatsEntry>)
    ensures LastOutbound(prev, r1 + r2) == LastOutbound(LastOutbound(prev, r1), r2)
    ensures OutboundReports(prev, r1 + r2) == OutboundReports(prev, r1) + OutboundReports(LastOutbound(prev, r1), r2)
    decreases |r2|
  {
    if r2 == [] {
      assert r1 + r2 == r1;
    } else {
      var init2 := r2[..|r2| - 1];
      OutboundReportsAppend(prev, r1, init2);
      assert (r1 + r2)[..|r1 + r2| - 1] == r1 + init2;
      assert (r1 + r2)[|r1 + r2| - 1] == r2[|r2| - 1];
    }
  }

  function SumFramesEncoded(shown: seq<OutboundReport>): int
    decreases |shown|
  {
    if shown == [] then 0 else SumFramesEncoded(shown[..|shown| - 1]) + shown[|shown| - 1].framesEncodedPerInterval
  }

  /** The per-interval frame counts add up to the growth of the counter from the kept
      snapshot to the last one handled: no interval is counted twice or skipped. */
  lemma {:induction false} FramesEncodedTelescope(prev: OutboundRtpStats, report: seq<StatsEntry>)
    ensures LastOutbound(Some(prev), report).Some?
    ensures SumFramesEncoded(OutboundReports(Some(prev), report)) ==
      LastOutbound(Some(prev), report).value.framesEncoded - prev.framesEncoded
    decreases |report|
  {
    if report != [] {
      var init := report[..|report| - 1];
      FramesEncodedTelescope(prev, init);
      var shown := OutboundReports(Some(prev), report);
      if report[|report| - 1].OutboundRtp? {
        assert shown[..|shown| - 1] == OutboundReports(Some(prev), init);
      } else {
        assert shown == OutboundReports(Some(prev), init);
      }
    }
  }

  // ---- receiver statistics (showRemoteStats, inbound-rtp branch) ----

  /** The eight per-stage delays of one timing frame, or their running totals. */
  datatype StageDelays = StageDelays(
    captureToEncode: real,
    encode: real,
    packetization: real,
    pacer: real,
    packetReceive: real,
    jitterBuffer: real,
    decode: real,
    endToEnd: real)
  {
    function Plus(o: StageDelays): StageDelays {
      StageDelays(captureToEncode + o.captureToEncode, encode + o.encode,
        packetization + o.packetization, pacer + o.pacer, packetReceive + o.packetReceive,
        jitterBuffer + o.jitterBuffer, decode + o.decode, endToEnd + o.endToEnd)
    }

    function Times(f: real): StageDelays {
      StageDelays(captureToEncode * f, encode * f, packetization * f, pacer * f,
        packetReceive * f, jitterBuffer * f, decode * f, endToEnd * f)
    }

    function Over(n: real): StageDelays
      requires n != 0.0
    {
      StageDelays(captureToEncode / n, encode / n, packetization / n, pacer / n,
        packetReceive / n, jitterBuffer / n, decode / n, endToEnd / n)
    }
  }

  const NoDelay := StageDelays(0.0, 0.0, 0.0, 0.0, 0.0, 0.0, 0.0, 0.0)

  /** Field `k` of a timing frame is present and converts to a number that is at least 0. */
  predicate NonNegativeField(infos: seq<Option<real>>, k: nat) {
    k < |infos| && infos[k].Some? && infos[k].value >= 0.0
  }

  /** The guard of the page: fields 1 to 7 are all at least 0 (a missing or
      non-numeric field fails the comparison). */
  predicate TimingFrameAccepted(infos: seq<Option<real>>)
    ensures TimingFrameAccepted(infos) <==>
      |infos| >= 8 && forall k :: 1 <= k <= 7 ==> infos[k].Some? && infos[k].value >= 0.0
  {
    NonNegativeField(infos, 1) && NonNegativeField(infos, 2) && NonNegativeField(infos, 3) &&
    NonNegativeField(infos, 4) && NonNegativeField(infos, 5) && NonNegativeField(infos, 6) &&
    NonNegativeField(infos, 7)
  }

  /** Fields 8 to 11, which the guard does not check, are numbers. */
  predicate ReceiveFieldsPresent(infos: seq<Option<real>>) {
    |infos| >= 12 && infos[8].Some? && infos[9].Some? && infos[10].Some? && infos[11].Some?
  }

  /** The timing frames the model covers: an accepted frame has numeric receive fields. */
  predicate WellFormedTiming(info: Option<seq<Option<real>>>) {
    info.Some? && TimingFrameAccepted(info.value) ==> ReceiveFieldsPresent(info.value)
  }

  /** The stage delays of an accepted timing frame: differences of consecutive timestamps. */
  function Stages(infos: seq<Option<real>>): (s: StageDelays)
    requires TimingFrameAccepted(infos) && ReceiveFieldsPresent(infos)
    ensures s.endToEnd == infos[11].value - infos[1].value
    ensures s.captureToEncode + s.encode == infos[3].value - infos[1].value
    ensures s.jitterBuffer + s.decode == infos[11].value - infos[9].value
  {
    var t := (k: nat) requires k < |infos| && infos[k].Some? => infos[k].value;
    StageDelays(t(2) - t(1), t(3) - t(2), t(4) - t(3), t(5) - t(4),
      t(9) - t(8), t(10) - t(9), t(11) - t(10), t(11) - t(1))
  }

  /** The four sender stages add up to the span from field 1 to field 5, the three
      receiver stages to the span from field 8 to field 11, and the end-to-end delay
      is both together plus the network span from field 5 to field 8. */
  lemma StageDecomposition(infos: seq<Option<real>>)
    requires TimingFrameAccepted(infos) && ReceiveFieldsPresent(infos)
    ensures var s := Stages(infos);
      && s.captureToEncode + s.encode + s.packetization + s.pacer == infos[5].value - infos[1].value
      && s.packetReceive + s.jitterBuffer + s.decode == infos[11].value - infos[8].value
      && s.endToEnd == (s.captureToEncode + s.encode + s.packetization + s.pacer)
                       + (infos[8].value - infos[5].value)
                       + (s.packetReceive + s.jitterBuffer + s.decode)
  {
  }

  /** The receiver state that outlives one report. */
  datatype ReceiverState = ReceiverState(prevIn: Option<InboundRtpStats>, count: int, totals: StageDelays)

  datatype TimingUpdate = TimingUpdate(count: int, totals: StageDelays, currentE2Edelay: real)

  /** The timing-frame accumulation: an accepted frame adds one to the count and its
      stage delays to the totals; anything else changes nothing and leaves the
      current end-to-end delay at 0. */
  function AccumulateTiming(count: int, totals: StageDelays, info: Option<seq<Option<real>>>): (u: TimingUpdate)
    requires WellFormedTiming(info)
    ensures info.Some? && TimingFrameAccepted(info.value) ==>
      && u.count == count + 1
      && u.totals == totals.Plus(Stages(info.value))
      && u.currentE2Edelay == info.value[11].value - info.value[1].value
    ensures !(info.Some? && TimingFrameAccepted(info.value)) ==>
      u == TimingUpdate(count, totals, 0.0)
  {
    if info.Some? && TimingFrameAccepted(info.value) then
      var st := Stages(info.value);
      TimingUpdate(count + 1, totals.Plus(st), st.endToEnd)
    else
      TimingUpdate(count, totals, 0.0)
  }

  /** The lifetime means of the stage delays; undefined before any accepted frame. */
  function Means(count: int, totals: StageDelays): (m: Option<StageDelays>)
    ensures m.Some? <==> count != 0
    ensures m.Some? ==> m.value.Times(count as real) == totals
  {
    if count == 0 then None else Some(totals.Over(count as real))
  }

  datatype InboundDeltas = InboundDeltas(
    processingDelay: real,
    decodeTime: real,
    jitterBufferDelay: real,
    jitterBufferEmittedCount: int,
    assemblyTime: real,
    framesAssembledFromMultiplePackets: int,
    framesDecoded: int,
    framesReceived: int,
    qpSum: int)

  function InboundDelta(prev: InboundRtpStats, curr: InboundRtpStats): (d: InboundDeltas)
    ensures prev == curr ==> d == InboundDeltas(0.0, 0.0, 0.0, 0, 0.0, 0, 0, 0, 0)
  {
    InboundDeltas(
      curr.totalProcessingDelay - prev.totalProcessingDelay,
      curr.totalDecodeTime - prev.totalDecodeTime,
      curr.jitterBufferDelay - prev.jitterBufferDelay,
      curr.jitterBufferEmittedCount - prev.jitterBufferEmittedCount,
      curr.totalAssemblyTime - prev.totalAssemblyTime,
      curr.framesAssembledFromMultiplePackets - prev.framesAssembledFromMultiplePackets,
      curr.framesDecoded - prev.framesDecoded,
      curr.framesReceived - prev.framesReceived,
      curr.qpSum - prev.qpSum)
  }

  /** The numbers the receiver panel shows for one `inbound-rtp` entry. */
  datatype InboundReport = InboundReport(
    qpPerFrame: Option<real>,
    processingMsPerFrame: Option<real>,
    jitterBufferMsPerEmitted: Option<real>,
    decodeMsPerFrame: Option<real>,
    assemblyMsPerFrame: Option<real>,
    jitterMs: real,
    currentE2Edelay: real,
    framesDecodedPerInterval: int,
    framesReceivedPerInterval: int,
    means: Option<StageDelays>)

  function InboundReportOf(d: InboundDeltas, jitter: real, currentE2Edelay: real, means: Option<StageDelays>): (r: InboundReport)
    ensures r.qpPerFrame.Some? <==> d.framesDecoded != 0
    ensures r.qpPerFrame.Some? ==> r.qpPerFrame.value * d.framesDecoded as real == d.qpSum as real
    ensures r.processingMsPerFrame.Some? <==> d.framesDecoded != 0
    ensures r.processingMsPerFrame.Some? ==>
      r.processingMsPerFrame.value * d.framesDecoded as real == 1000.0 * d.processingDelay
    ensures r.jitterBufferMsPerEmitted.Some? <==> d.jitterBufferEmittedCount != 0
    ensures r.jitterBufferMsPerEmitted.Some? ==>
      r.jitterBufferMsPerEmitted.value * d.jitterBufferEmittedCount as real == 1000.0 * d.jitterBufferDelay
    ensures r.decodeMsPerFrame.Some? <==> d.framesDecoded != 0
    ensures r.decodeMsPerFrame.Some? ==>
      r.decodeMsPerFrame.value * d.framesDecoded as real == 1000.0 * d.decodeTime
    ensures r.assemblyMsPerFrame.Some? <==> d.framesAssembledFromMultiplePackets != 0
    ensures r.assemblyMsPerFrame.Some? ==>
      r.assemblyMsPerFrame.value * d.framesAssembledFromMultiplePackets as real == 1000.0 * d.assemblyTime
    ensures r.jitterMs == 1000.0 * jitter && r.currentE2Edelay == currentE2Edelay
    ensures r.framesDecodedPerInterval == d.framesDecoded && r.framesReceivedPerInterval == d.framesReceived
    ensures r.means == means
  {
    InboundReport(
      Ratio(d.qpSum as real, d.framesDecoded as real),
      Ratio(1000.0 * d.processingDelay, d.framesDecoded as real),
      Ratio(1000.0 * d.jitterBufferDelay, d.jitterBufferEmittedCount as real),
      Ratio(1000.0 * d.decodeTime, d.framesDecoded as real),
      Ratio(1000.0 * d.assemblyTime, d.framesAssembledFromMultiplePackets as real),
      1000.0 * jitter,
      currentE2Edelay,
      d.framesDecoded,
      d.framesReceived,
      means)
  }

  /** One `inbound-rtp` entry as intended: accumulate its timing frame, measure it
      against the kept snapshot (itself the first time), and keep it. */
  function InboundStep(s: ReceiverState, stats: InboundRtpStats): (r: (ReceiverState, InboundReport))
    requires WellFormedTiming(stats.timingFrameInfo)
    ensures r.0.prevIn == Some(stats)
    ensures r.0.count == s.count + (if stats.timingFrameInfo.Some? && TimingFrameAccepted(stats.timingFrameInfo.value) then 1 else 0)
    ensures r.1.means.Some? <==> r.0.count != 0
    ensures s.prevIn.None? ==> r.1.framesDecodedPerInterval == 0 && r.1.qpPerFrame.None?
    ensures var base := Baseline(s.prevIn, stats);
      && r.1.framesDecodedPerInterval == stats.framesDecoded - base.framesDecoded
      && r.1.framesReceivedPerInterval == stats.framesReceived - base.framesReceived
      && (r.1.qpPerFrame.Some? ==>
            r.1.qpPerFrame.value * (stats.framesDecoded - base.framesDecoded) as real ==
            (stats.qpSum - base.qpSum) as real)
      && r.1.jitterMs == 1000.0 * stats.jitter
    ensures var info := stats.timingFrameInfo;
      if info.Some? && TimingFrameAccepted(info.value) then
        r.0.totals == s.totals.Plus(Stages(info.value)) &&
        r.1.currentE2Edelay == info.value[11].value - info.value[1].value
      else
        r.0.totals == s.totals && r.1.currentE2Edelay == 0.0
    ensures r.1.means == Means(r.0.count, r.0.totals)
  {
    var u := AccumulateTiming(s.count, s.totals, stats.timingFrameInfo);
    var d := InboundDelta(Baseline(s.prevIn, stats), stats);
    (ReceiverState(Some(stats), u.count, u.totals),
     InboundReportOf(d, stats.jitter, u.currentE2Edelay, Means(u.count, u.totals)))
  }

  /** The entry as written: the page calls `get` on the stats entry itself, which has no
      such method, whenever `remoteId` is set; the TypeError ends the handling of the
      report before the timing frame, the deltas or the kept snapshot are touched. */
  function InboundStepAsWritten(s: ReceiverState, stats: InboundRtpStats): (r: Option<(ReceiverState, InboundReport)>)
    requires WellFormedTiming(stats.timingFrameInfo)
    ensures stats.remoteId.None? ==> r == Some(InboundStep(s, stats))
    ensures stats.remoteId.Some? ==> r.None?
  {
    if stats.remoteId.Some? then None else Some(InboundStep(s, stats))
  }

  /** The discrepancy: for an entry that carries `remoteId` and an accepted timing frame,
      the code as written neither counts the frame nor keeps the snapshot, while the
      intended handling does both. */
  lemma RemoteIdLosesTimingFrame(s: ReceiverState, stats: InboundRtpStats)
    requires WellFormedTiming(stats.timingFrameInfo)
    requires stats.remoteId.Some?
    requires stats.timingFrameInfo.Some? && TimingFrameAccepted(stats.timingFrameInfo.value)
    ensures InboundStepAsWritten(s, stats).None?
    ensures InboundStep(s, stats).0.count == s.count + 1
    ensures InboundStep(s, stats).0.prevIn == Some(stats)
  {
  }

  /** An entry on which the code as written throws. */
  predicate Throws(e: StatsEntry) {
    e.InboundRtp? && e.inbound.remoteId.Some?
  }

  /** The position of the first entry that throws, or the length of the report. */
  function FirstThrowing(report: seq<StatsEntry>): (k: nat)
    ensures k <= |report|
    ensures forall m :: 0 <= m < k ==> !Throws(report[m])
    ensures k < |report| ==> Throws(report[k])
  {
    if report == [] then 0
    else if Throws(report[0]) then 0
    else 1 + FirstThrowing(report[1..])
  }

  /** The report entries the model covers. */
  predicate WellFormedReport(report: seq<StatsEntry>) {
    forall k :: 0 <= k < |report| && report[k].InboundRtp? ==> WellFormedTiming(report[k].inbound.timingFrameInfo)
  }

  /** The receiver state after a report and what the receiver panel shows for it. */
  function ReceiverAfter(s: ReceiverState, report: seq<StatsEntry>): ReceiverState
    requires WellFormedReport(report)
    decreases |report|
  {
    if report == [] then s
    else
      var init := report[..|report| - 1];
      var e := report[|report| - 1];
      var before := ReceiverAfter(s, init);
      if e.InboundRtp? then InboundStep(before, e.inbound).0 else before
  }

  function InboundReports(s: ReceiverState, report: seq<StatsEntry>): seq<InboundReport>
    requires WellFormedReport(report)
    decreases |report|
  {
    if report == [] then []
    else
      var init := report[..|report| - 1];
      var e := report[|report| - 1];
      InboundReports(s, init) + if e.InboundRtp? then [InboundStep(ReceiverAfter(s, init), e.inbound).1] else []
  }

  function SumFramesDecoded(shown: seq<InboundReport>): int
    decreases |shown|
  {
    if shown == [] then 0 else SumFramesDecoded(shown[..|shown| - 1]) + shown[|shown| - 1].framesDecodedPerInterval
  }

  /** Once a receiver snapshot is kept, the per-interval decoded-frame counts of a
      report add up to the growth of the counter from that snapshot to the one kept
      afterwards: every entry is measured against the entry handled just before it. */
  lemma {:induction false} FramesDecodedTelescope(s: ReceiverState, report: seq<StatsEntry>)
    requires WellFormedReport(report)
    requires s.prevIn.Some?
    ensures ReceiverAfter(s, report).prevIn.Some?
    ensures SumFramesDecoded(InboundReports(s, report)) ==
      ReceiverAfter(s, report).prevIn.value.framesDecoded - s.prevIn.value.framesDecoded
    decreases |report|
  {
    if report != [] {
      var init := report[..|report| - 1];
      assert WellFormedReport(init) by {
        forall k | 0 <= k < |init| && init[k].InboundRtp?
          ensures WellFormedTiming(init[k].inbound.timingFrameInfo)
        {
          assert init[k] == report[k];
        }
      }
      FramesDecodedTelescope(s, init);
      var shown := InboundReports(s, report);
      if report[|report| - 1].InboundRtp? {
        assert shown[..|shown| - 1] == InboundReports(s, init);
      } else {
        assert shown == InboundReports(s, init);
      }
    }
  }

  /** The receiver state after a report as written: the first entry with `remoteId`
      throws, which abandons it and every entry after it. */
  function ReceiverAfterAsWritten(s: ReceiverState, report: seq<StatsEntry>): ReceiverState
    requires WellFormedReport(report)
  {
    var k := FirstThrowing(report);
    assert WellFormedReport(report[..k]) by {
      forall m | 0 <= m < k && report[..k][m].InboundRtp?
        ensures WellFormedTiming(report[..k][m].inbound.timingFrameInfo)
      {
        assert report[..k][m] == report[m];
      }
    }
    ReceiverAfter(s, report[..k])
  }

  /** As written, nothing from an entry with `remoteId` on reaches the receiver state:
      the state is that after the entries before it, whatever follows. */
  lemma AsWrittenStopsAtRemoteId(s: ReceiverState, before: seq<StatsEntry>, e: StatsEntry, after: seq<StatsEntry>)
    requires forall m :: 0 <= m < |before| ==> !Throws(before[m])
    requires Throws(e)
    requires WellFormedReport(before + [e] + after)
    ensures WellFormedReport(before)
    ensures ReceiverAfterAsWritten(s, before + [e] + after) == ReceiverAfter(s, before)
  {
    var report := before + [e] + after;
    assert report[|before|] == e;
    forall m | 0 <= m < |before| ensures report[m] == before[m] { }
    assert FirstThrowing(report) == |before|;
    assert report[..|before|] == before;
  }

  /** Without an entry that carries `remoteId`, the code as written and the intended
      handling agree. */
  lemma NoThrowAsWrittenAgrees(s: ReceiverState, report: seq<StatsEntry>)
    requires WellFormedReport(report)
    requires forall m :: 0 <= m < |report| ==> !Throws(report[m])
    ensures ReceiverAfterAsWritten(s, report) == ReceiverAfter(s, report)
  {
    assert report[..|report|] == report;
  }

  /** Accepted timing frames in a report. */
  function AcceptedFrames(report: seq<StatsEntry>): nat
    decreases |report|
  {
    if report == [] then 0
    else
      var e := report[|report| - 1];
      AcceptedFrames(report[..|report| - 1]) +
        if e.InboundRtp? && e.inbound.timingFrameInfo.Some? && TimingFrameAccepted(e.inbound.timingFrameInfo.value)
        then 1 else 0
  }

  /** The frame count grows by exactly the number of accepted timing frames. */
  lemma {:induction false} ReceiverCountsAcceptedFrames(s: ReceiverState, report: seq<StatsEntry>)
    requires WellFormedReport(report)
    ensures ReceiverAfter(s, report).count == s.count + AcceptedFrames(report)
    decreases |report|
  {
    if report != [] {
      ReceiverCountsAcceptedFrames(s, report[..|report| - 1]);
    }
  }

  // ---- local track statistics (the setInterval callback) ----

  /** `droppedFrames = totalFrames - deliveredFrames - discardedFrames` */
  function DroppedFrames(s: TrackStats): (dropped: int)
    ensures s.deliveredFrames + s.discardedFrames + dropped == s.totalFrames
  {
    s.totalFrames - s.deliveredFrames - s.discardedFrames
  }

  datatype TrackReport = TrackReport(delivered: int, discarded: int, dropped: int, total: int)

  function TrackReportOf(prev: TrackStats, curr: TrackStats): (r: TrackReport)
    ensures r.dropped == r.total - r.delivered - r.discarded
    ensures prev == curr ==> r == TrackReport(0, 0, 0, 0)
  {
    TrackReport(
      curr.deliveredFrames - prev.deliveredFrames,
      curr.discardedFrames - prev.discardedFrames,
      DroppedFrames(curr) - DroppedFrames(prev),
      curr.totalFrames - prev.totalFrames)
  }

  // ---- frame-rate estimate (updateVideoFps) ----

  /** `0.7 * old + 0.3 * sample`: a step 30% of the way from the estimate to the sample. */
  function Smooth(estimate: real, sample: real): (r: real)
    ensures r - sample == 0.7 * (estimate - sample)
    ensures (estimate <= r <= sample) || (sample <= r <= estimate)
  {
    0.7 * estimate + 0.3 * sample
  }

  datatype FpsState = FpsState(oldFrames: int, fps: real)

  /** One update for one video element: the frame total is always kept, and the
      estimate moves toward `1000 * framesSinceLast / periodMs` only when the frame
      total has not gone down. */
  function FpsStep(s: FpsState, newFrames: int, periodMs: real): (r: FpsState)
    requires periodMs > 0.0
    ensures r.oldFrames == newFrames
    ensures newFrames < s.oldFrames ==> r.fps == s.fps
    ensures newFrames >= s.oldFrames ==>
      r.fps == Smooth(s.fps, 1000.0 * (newFrames - s.oldFrames) as real / periodMs)
  {
    var framesSinceLast := newFrames - s.oldFrames;
    if framesSinceLast >= 0 then FpsState(newFrames, Smooth(s.fps, 1000.0 * framesSinceLast as real / periodMs))
    else FpsState(newFrames, s.fps)
  }

  /** An estimate inside [lo, hi] stays there when the measured rate lies there too. */
  lemma FpsStaysInRange(s: FpsState, newFrames: int, periodMs: real, lo: real, hi: real)
    requires periodMs > 0.0
    requires lo <= s.fps <= hi
    requires newFrames >= s.oldFrames ==> lo <= 1000.0 * (newFrames - s.oldFrames) as real / periodMs <= hi
    ensures lo <= FpsStep(s, newFrames, periodMs).fps <= hi
  {
  }

  /** The estimate never becomes negative. */
  lemma FpsNonNegative(s: FpsState, newFrames: int, periodMs: real)
    requires periodMs > 0.0 && s.fps >= 0.0
    ensures FpsStep(s, newFrames, periodMs).fps >= 0.0
  {
    if newFrames >= s.oldFrames {
      var sample := 1000.0 * (newFrames - s.oldFrames) as real / periodMs;
      assert sample >= 0.0;
    }
  }

  /** The update for one element; nothing changes when it reports no playback quality. */
  function FpsAfter(s: FpsState, frames: Option<int>, periodMs: real): FpsState
    requires periodMs > 0.0
  {
    if frames.None? then s else FpsStep(s, frames.value, periodMs)
  }

  // ---- the page's statistics state ----

  /** The module-level variables of the page that the polling handlers update. */
  class StatsMonitor {
    var prevStats: Option<TrackStats>
    var prevOutStats: Option<OutboundRtpStats>
    var prevInStats: Option<InboundRtpStats>
    var numInboundRtpReports: int
    var totals: StageDelays
    var oldReportTimeMs: real
    var oldTimestampMs: real
    var oldLocalFrames: int
    var localFps: real
    var oldRemoteFrames: int
    var remoteFps: real

    ghost predicate Valid()
      reads this
    {
      numInboundRtpReports >= 0 && localFps >= 0.0 && remoteFps >= 0.0
    }

    ghost function Receiver(): ReceiverState
      reads this
    {
      ReceiverState(prevInStats, numInboundRtpReports, totals)
    }

    /** The initial values of the page's variables. */
    constructor ()
      ensures Valid()
      ensures prevStats.None? && prevOutStats.None? && prevInStats.None?
      ensures numInboundRtpReports == 0 && totals == NoDelay
      ensures oldReportTimeMs == 0.0 && oldTimestampMs == 0.0
      ensures oldLocalFrames == 0 && localFps == 30.0 && oldRemoteFrames == 0 && remoteFps == 30.0
    {
      prevStats, prevOutStats, prevInStats := None, None, None;
      numInboundRtpReports, totals := 0, NoDelay;
      oldReportTimeMs, oldTimestampMs := 0.0, 0.0;
      oldLocalFrames, localFps, oldRemoteFrames, remoteFps := 0, 30.0, 0, 30.0;
    }

    /** `showLocalStats(report)`: each `outbound-rtp` entry, in report order, is
        measured against the kept sender snapshot and then becomes the kept one. */
    method ShowLocalStats(report: seq<StatsEntry>) returns (shown: seq<OutboundReport>)
      modifies this`prevOutStats
      ensures shown == OutboundReports(old(prevOutStats), report)
      ensures prevOutStats == LastOutbound(old(prevOutStats), report)
    {
      shown := [];
      for k := 0 to |report|
        invariant shown == OutboundReports(old(prevOutStats), report[..k])
        invariant prevOutStats == LastOutbound(old(prevOutStats), report[..k])
      {
        assert report[..k + 1][..k] == report[..k];
        var entry := report[k];
        if entry.OutboundRtp? {
          var currOutStats := entry.outbound;
          if prevOutStats.None? {
            prevOutStats := Some(currOutStats);
          }
          var deltas := OutboundDelta(prevOutStats.value, currOutStats);
          shown := shown + [OutboundReportOf(deltas)];
          prevOutStats := Some(currOutStats);
        }
      }
      assert report[..|report|] == report;
    }

    /** `showRemoteStats(report, now)`: notes the report time, then handles each
        `inbound-rtp` entry in order (timing frame, deltas, kept snapshot). */
    method ShowRemoteStats(report: seq<StatsEntry>, now: real) returns (shown: seq<InboundReport>)
      requires Valid()
      requires WellFormedReport(report)
      modifies this`prevInStats, this`numInboundRtpReports, this`totals, this`oldReportTimeMs
      ensures Valid()
      ensures Receiver() == ReceiverAfter(old(Receiver()), report)
      ensures shown == InboundReports(old(Receiver()), report)
      ensures oldReportTimeMs == now
    {
      if oldReportTimeMs == 0.0 {
        oldReportTimeMs := now;
      }
      oldReportTimeMs := now;
      shown := [];
      for k := 0 to |report|
        invariant Valid() && oldReportTimeMs == now
        invariant Receiver() == ReceiverAfter(old(Receiver()), report[..k])
        invariant shown == InboundReports(old(Receiver()), report[..k])
      {
        assert report[..k + 1][..k] == report[..k];
        var entry := report[k];
        if entry.InboundRtp? {
          var r := HandleInbound(entry.inbound);
          shown := shown + [r];
        }
      }
      assert report[..|report|] == report;
    }

    /** One `inbound-rtp` entry of `showRemoteStats`. */
    method HandleInbound(stats: InboundRtpStats) returns (r: InboundReport)
      requires Valid()
      requires WellFormedTiming(stats.timingFrameInfo)
      modifies this`prevInStats, this`numInboundRtpReports, this`totals
      ensures Valid()
      ensures (Receiver(), r) == InboundStep(old(Receiver()), stats)
    {
      var info := stats.timingFrameInfo;
      var currentE2Edelay := 0.0;
      if info.Some? && TimingFrameAccepted(info.value) {
        var st := Stages(info.value);
        numInboundRtpReports := numInboundRtpReports + 1;
        totals := totals.Plus(st);
        currentE2Edelay := st.endToEnd;
      }
      if prevInStats.None? {
        prevInStats := Some(stats);
      }
      var deltas := InboundDelta(prevInStats.value, stats);
      r := InboundReportOf(deltas, stats.jitter, currentE2Edelay, Means(numInboundRtpReports, totals));
      prevInStats := Some(stats);
    }

    /** The track-stats block of the one-second poll: `stats` is None when there is no
        local stream or its track has no `stats`; then nothing happens. */
    method PollTrackStats(stats: Option<TrackStats>) returns (shown: Option<TrackReport>)
      modifies this`prevStats
      ensures stats.None? ==> shown.None? && prevStats == old(prevStats)
      ensures stats.Some? ==>
        && prevStats == stats
        && shown == Some(TrackReportOf(Baseline(old(prevStats), stats.value), stats.value))
    {
      shown := None;
      if stats.Some? {
        var currStats := stats.value;
        if prevStats.None? {
          prevStats := Some(currStats);
        }
        shown := Some(TrackReportOf(prevStats.value, currStats));
        prevStats := Some(currStats);
      }
    }

    /** `updateVideoFps` at time `now`: `localFrames` and `remoteFrames` are the
        elements' `totalVideoFrames`, None when no playback quality is available. */
    method UpdateVideoFps(now: real, localFrames: Option<int>, remoteFrames: Option<int>)
      requires Valid() && now > oldTimestampMs
      modifies this`oldTimestampMs, this`oldLocalFrames, this`localFps, this`oldRemoteFrames, this`remoteFps
      ensures Valid() && oldTimestampMs == now
      ensures FpsState(oldLocalFrames, localFps) ==
        FpsAfter(old(FpsState(oldLocalFrames, localFps)), localFrames, now - old(oldTimestampMs))
      ensures FpsState(oldRemoteFrames, remoteFps) ==
        FpsAfter(old(FpsState(oldRemoteFrames, remoteFps)), remoteFrames, now - old(oldTimestampMs))
    {
      var periodMs := now - oldTimestampMs;
      oldTimestampMs := now;
      if localFrames.Some? {
        var framesSinceLast := localFrames.value - oldLocalFrames;
        oldLocalFrames := localFrames.value;
        if framesSinceLast >= 0 {
          var newFps := 1000.0 * framesSinceLast as real / periodMs;
          localFps := 0.7 * localFps + 0.3 * newFps;
        }
      }
      if remoteFrames.Some? {
        var framesSinceLast := remoteFrames.value - oldRemoteFrames;
        oldRemoteFrames := remoteFrames.value;
        if framesSinceLast >= 0 {
          var newFps := 1000.0 * framesSinceLast as real / periodMs;
          remoteFps := 0.7 * remoteFps + 0.3 * newFps;
        }
      }
    }
  }
}
