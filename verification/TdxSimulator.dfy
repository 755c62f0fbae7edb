/** The quote printer used where there is no TDX hardware
    (node/attestation/src/tdx/hardware.rs, `make_mock_quote`), checked against the parser. */
module TdxSimulator {
  import opened Bytes
  import opened TdxQuotes

  datatype SimulatorConfig = SimulatorConfig(mrtd: Bytes, debugEnabled: bool, quoteVersion: nat)

  /** Everything the printer draws from its random generator, in full width. */
  datatype Noise = Noise(
    reserved: Bytes, vendorId: Bytes, user: Bytes,
    tcbSvn: Bytes, mrSeam: Bytes, mrSignerSeam: Bytes,
    seamAttributes: Bytes, tdAttributes: Bytes, xfam: Bytes,
    mrtd: Bytes, mrConfigId: Bytes, mrOwner: Bytes, mrOwnerConfig: Bytes,
    rtmr: seq<Bytes>, reportData: Bytes, signature: Bytes)

  predicate Sized(cfg: SimulatorConfig, z: Noise) {
    && |cfg.mrtd| == 48 && cfg.quoteVersion < 0x1_0000
    && |z.reserved| == 4 && |z.vendorId| == 16 && |z.user| == 20
    && |z.tcbSvn| == 16 && |z.mrSeam| == 48 && |z.mrSignerSeam| == 48
    && |z.seamAttributes| == 8 && |z.tdAttributes| == 8 && |z.xfam| == 8
    && |z.mrtd| == 48 && |z.mrConfigId| == 48 && |z.mrOwner| == 48 && |z.mrOwnerConfig| == 48
    && |z.rtmr| == 4 && |z.rtmr[0]| == |z.rtmr[1]| == |z.rtmr[2]| == |z.rtmr[3]| == 48
    && |z.reportData| == 64 && 64 <= |z.signature| < 192
  }

  /** `data` cut to the width of `noise`, the rest filled with noise. */
  function Overlay(data: Bytes, noise: Bytes): (r: Bytes)
    ensures |r| == |noise|
    ensures forall i :: 0 <= i < |noise| && i < |data| ==> r[i] == data[i]
  {
    var n := if |data| < |noise| then |data| else |noise|;
    data[..n] + noise[n..]
  }

  /** Set or clear bit 0 of the first byte. */
  function WithDebugBit(b: Bytes, debug: bool): (r: Bytes)
    requires |b| == 8
    ensures |r| == 8
  {
    [b[0] - b[0] % 2 + (if debug then 1 else 0)] + b[1..]
  }

  function MockMrtd(cfg: SimulatorConfig, z: Noise): (r: Bytes)
    requires Sized(cfg, z)
    ensures |r| == 48
  {
    if cfg.mrtd == seq(48, _ => 0x42) then z.mrtd else cfg.mrtd[..44] + z.mrtd[44..]
  }

  /** The quote the simulator means to print. */
  function MockQuote(cfg: SimulatorConfig, reportData: Bytes, z: Noise): Quote
    requires Sized(cfg, z)
  {
    Quote(
      Header(cfg.quoteVersion, 2, 0x81, LeDecode(z.reserved), z.vendorId, Overlay(reportData, z.user)),
      TdReport(z.tcbSvn, z.mrSeam, z.mrSignerSeam,
               LeDecode(z.seamAttributes), LeDecode(WithDebugBit(z.tdAttributes, cfg.debugEnabled)), LeDecode(z.xfam),
               MockMrtd(cfg, z), z.mrConfigId, z.mrOwner, z.mrOwnerConfig,
               z.rtmr, Overlay(reportData, z.reportData)),
      |z.signature|, SignatureOf(z.signature), z.signature)
  }

  /** `body[at..at + n].copy_from_slice(src)`, where everything before `at` is already in place. */
  method CopyIn(body: array<byte>, at: nat, src: Bytes)
    requires at + |src| <= body.Length
    modifies body
    ensures body[..at + |src|] == old(body[..at]) + src
  {
    forall k | 0 <= k < |src| {
      body[at + k] := src[k];
    }
    assert body[..at] == old(body[..at]);
    assert body[at..at + |src|] == src;
  }

  /** Three adjacent fields of the body. */
  method CopyThree(body: array<byte>, at: nat, x: Bytes, y: Bytes, w: Bytes)
    requires at + |x| + |y| + |w| <= body.Length
    modifies body
    ensures body[..at + |x| + |y| + |w|] == old(body[..at]) + (x + y + w)
  {
    ghost var before := body[..at];
    CopyIn(body, at, x);
    CopyIn(body, at + |x|, y);
    CopyIn(body, at + |x| + |y|, w);
    assert before + x + y + w == before + (x + y + w);
  }

  method CopyRtmrs(body: array<byte>, at: nat, rtmr: seq<Bytes>)
    requires at + 192 <= body.Length && |rtmr| == 4
    requires |rtmr[0]| == |rtmr[1]| == |rtmr[2]| == |rtmr[3]| == 48
    modifies body
    ensures body[..at + 192] == old(body[..at]) + JoinFirst(rtmr, 4)
  {
    ghost var before := body[..at];
    for i := 0 to 4
      invariant body[..at + 48 * i] == before + JoinFirst(rtmr, i)
    {
      CopyIn(body, at + i * 48, rtmr[i]);
      assert before + JoinFirst(rtmr, i) + rtmr[i] == before + JoinFirst(rtmr, i + 1);
    }
  }

  /** The 584-byte report body, written in place field by field. */
  method MakeBody(cfg: SimulatorConfig, reportData: Bytes, z: Noise) returns (b: Bytes)
    requires Sized(cfg, z)
    ensures b == EncodeReport(MockQuote(cfg, reportData, z).report)
  {
    ghost var r := MockQuote(cfg, reportData, z).report;
    var tdAttributes := WithDebugBit(z.tdAttributes, cfg.debugEnabled);
    var mrtd := MockMrtd(cfg, z);
    var body := new byte[584](_ => 0);
    CopyThree(body, 0, z.tcbSvn, z.mrSeam, z.mrSignerSeam);
    assert body[..0] == [] && body[..112] == EncodeMeasurements(r);
    CopyThree(body, 112, z.seamAttributes, tdAttributes, z.xfam);
    assert z.seamAttributes + tdAttributes + z.xfam == EncodeAttributes(r) by {
      LeEncodeDecode(z.seamAttributes);
      LeEncodeDecode(tdAttributes);
      LeEncodeDecode(z.xfam);
    }
    CopyThree(body, 136, mrtd, z.mrConfigId, z.mrOwner);
    CopyIn(body, 280, z.mrOwnerConfig);
    ghost var head := EncodeMeasurements(r) + EncodeAttributes(r);
    assert head + (mrtd + z.mrConfigId + z.mrOwner) + z.mrOwnerConfig == head + EncodeIdentity(r);
    CopyRtmrs(body, 328, z.rtmr);
    RtmrsJoin(r);
    CopyIn(body, 520, Overlay(reportData, z.reportData));
    b := body[..584];
  }

  lemma RtmrsJoin(r: TdReport)
    requires |r.rtmr| == 4
    ensures JoinFirst(r.rtmr, 4) == EncodeRtmrs(r)
  {
    assert JoinFirst(r.rtmr, 1) == r.rtmr[0];
    assert JoinFirst(r.rtmr, 2) == r.rtmr[0] + r.rtmr[1];
    assert JoinFirst(r.rtmr, 3) == r.rtmr[0] + r.rtmr[1] + r.rtmr[2];
  }

  function JoinFirst(parts: seq<Bytes>, n: nat): Bytes
    requires n <= |parts|
  {
    if n == 0 then [] else JoinFirst(parts, n - 1) + parts[n - 1]
  }

  method MakeMockQuote(cfg: SimulatorConfig, reportData: Bytes, z: Noise) returns (q: Bytes)
    requires Sized(cfg, z)
    ensures q == Encode(MockQuote(cfg, reportData, z))
  {
    ghost var m := MockQuote(cfg, reportData, z);
    q := LeEncode(cfg.quoteVersion, 2);
    q := q + [0x02, 0x00];
    q := q + LeEncode(0x81, 4);
    q := q + z.reserved;
    q := q + z.vendorId;
    q := q + Overlay(reportData, z.user);
    assert LeEncode(2, 2) == [0x02, 0x00];
    LeEncodeDecode(z.reserved);
    assert q == EncodeHeader(m.header);
    var body := MakeBody(cfg, reportData, z);
    q := q + body;
    q := q + LeEncode(|z.signature|, 4);
    q := q + z.signature;
  }

  lemma DebugBitDecodes(b: Bytes, debug: bool)
    requires |b| == 8
    ensures LeDecode(WithDebugBit(b, debug)) % 2 == if debug then 1 else 0
  {
    var w := WithDebugBit(b, debug);
    assert LeDecode(w) == w[0] + 256 * LeDecode(w[1..]);
  }

  lemma MockQuoteWellFormed(cfg: SimulatorConfig, reportData: Bytes, z: Noise)
    requires Sized(cfg, z)
    ensures WellFormed(MockQuote(cfg, reportData, z))
  {
    Pow256Widths();
    LeDecodeBound(z.reserved);
    LeDecodeBound(z.seamAttributes);
    LeDecodeBound(WithDebugBit(z.tdAttributes, cfg.debugEnabled));
    LeDecodeBound(z.xfam);
  }

  /** For every configuration, report data and noise: a version-4 simulator quote parses back to the
      quote that was meant, with the report data and the debug bit asked for, the configured measurement
      except for its last four bytes unless it is the default one, and no parseable signature; any other
      version is refused. */
  lemma SimulatorQuoteParses(cfg: SimulatorConfig, reportData: Bytes, z: Noise)
    requires Sized(cfg, z)
    ensures var m := MockQuote(cfg, reportData, z);
      && Parse(Encode(m)) == (if cfg.quoteVersion == 4 then Some(m) else None)
      && (m.report.tdAttributes % 2 == 1 <==> cfg.debugEnabled)
      && (forall i :: 0 <= i < 64 && i < |reportData| ==> m.report.reportData[i] == reportData[i])
      && (forall i :: 0 <= i < 20 && i < |reportData| ==> m.header.userData[i] == reportData[i])
      && ((exists i :: 0 <= i < 48 && cfg.mrtd[i] != 0x42) ==> m.report.mrtd[..44] == cfg.mrtd[..44])
      && m.signature.None?
  {
    var m := MockQuote(cfg, reportData, z);
    MockQuoteWellFormed(cfg, reportData, z);
    DebugBitDecodes(z.tdAttributes, cfg.debugEnabled);
    if cfg.quoteVersion == 4 {
      EncodeThenParse(m, []);
      assert Encode(m) + [] == Encode(m);
    } else {
      HeaderReadsBack(m.header);
      HeaderIgnoresTail(EncodeHeader(m.header), EncodeReport(m.report) + LeEncode(m.signatureLen, 4) + m.rawSignature,
                        0);
      FourParts(EncodeHeader(m.header), EncodeReport(m.report), LeEncode(m.signatureLen, 4), m.rawSignature);
    }
  }
}
