/** The TDX quote parser (node/attestation/src/tdx/parser.rs) against the layout it reads. */
module TdxQuotes {
  import opened Bytes

  const QUOTE_VERSION_4: nat := 4
  const TEE_TYPE_TDX: nat := 0x81

  datatype Header = Header(
    version: nat, attKeyType: nat, teeType: nat, reserved: nat, vendorId: Bytes, userData: Bytes)

  datatype TdReport = TdReport(
    tcbSvn: Bytes, mrSeam: Bytes, mrSignerSeam: Bytes,
    seamAttributes: nat, tdAttributes: nat, xfam: nat,
    mrtd: Bytes, mrConfigId: Bytes, mrOwner: Bytes, mrOwnerConfig: Bytes,
    rtmr: seq<Bytes>, reportData: Bytes)

  datatype QuoteSignature = QuoteSignature(
    ecdsaSignature: Bytes, ecdsaPublicKey: Bytes, certDataType: nat, certDataSize: nat,
    qeReport: Bytes, qeSignature: Bytes, qeAuthData: Bytes,
    certType: nat, certData: Bytes)

  datatype Quote = Quote(
    header: Header, report: TdReport, signatureLen: nat,
    signature: Option<QuoteSignature>, rawSignature: Bytes)

  // ---------- The layout, read by position ----------

  function HeaderAt(d: Bytes, o: nat): Header
    requires o + 48 <= |d|
  {
    Header(LeDecode(d[o..o + 2]), LeDecode(d[o + 2..o + 4]), LeDecode(d[o + 4..o + 8]),
           LeDecode(d[o + 8..o + 12]), d[o + 12..o + 28], d[o + 28..o + 48])
  }

  function ReportAt(d: Bytes, o: nat): TdReport
    requires o + 584 <= |d|
  {
    TdReport(d[o..o + 16], d[o + 16..o + 64], d[o + 64..o + 112],
             LeDecode(d[o + 112..o + 120]), LeDecode(d[o + 120..o + 128]), LeDecode(d[o + 128..o + 136]),
             d[o + 136..o + 184], d[o + 184..o + 232], d[o + 232..o + 280], d[o + 280..o + 328],
             [d[o + 328..o + 376], d[o + 376..o + 424], d[o + 424..o + 472], d[o + 472..o + 520]],
             d[o + 520..o + 584])
  }

  /** After 584 fixed bytes come authentication data, whose length the last two of them give, and
      then a certificate if at least its six-byte header is there. */
  function SignatureOf(s: Bytes): Option<QuoteSignature> {
    if |s| < 584 then None
    else
      var a := 584 + LeDecode(s[582..584]);
      if |s| < a then None
      else if |s| < a + 6 then
        Some(QuoteSignature(s[0..64], s[64..128], LeDecode(s[128..130]), LeDecode(s[130..134]),
                            s[134..518], s[518..582], s[584..a], 0, []))
      else
        var c := a + 6 + LeDecode(s[a + 2..a + 6]);
        if |s| < c then None
        else Some(QuoteSignature(s[0..64], s[64..128], LeDecode(s[128..130]), LeDecode(s[130..134]),
                                 s[134..518], s[518..582], s[584..a], LeDecode(s[a..a + 2]), s[a + 6..c]))
  }

  predicate HeaderSupported(h: Header) {
    h.version == QUOTE_VERSION_4 && h.teeType == TEE_TYPE_TDX
  }

  /** The quote in `d`, if there is one: 48 + 584 + 4 bytes and the declared signature. */
  function Parse(d: Bytes): Option<Quote> {
    if |d| < 636 || !HeaderSupported(HeaderAt(d, 0)) then None
    else
      var len := LeDecode(d[632..636]);
      if |d| < 636 + len then None
      else
        var raw := d[636..636 + len];
        Some(Quote(HeaderAt(d, 0), ReportAt(d, 48), len, SignatureOf(raw), raw))
  }

  // ---------- The layout, written ----------

  function EncodeHeader(h: Header): Bytes {
    LeEncode(h.version, 2) + LeEncode(h.attKeyType, 2) + LeEncode(h.teeType, 4) + LeEncode(h.reserved, 4)
    + h.vendorId + h.userData
  }

  function EncodeMeasurements(r: TdReport): Bytes {
    r.tcbSvn + r.mrSeam + r.mrSignerSeam
  }

  function EncodeAttributes(r: TdReport): Bytes {
    LeEncode(r.seamAttributes, 8) + LeEncode(r.tdAttributes, 8) + LeEncode(r.xfam, 8)
  }

  function EncodeIdentity(r: TdReport): Bytes {
    r.mrtd + r.mrConfigId + r.mrOwner + r.mrOwnerConfig
  }

  function EncodeRtmrs(r: TdReport): Bytes
    requires |r.rtmr| == 4
  {
    r.rtmr[0] + r.rtmr[1] + r.rtmr[2] + r.rtmr[3]
  }

  function EncodeReport(r: TdReport): Bytes
    requires |r.rtmr| == 4
  {
    EncodeMeasurements(r) + EncodeAttributes(r) + EncodeIdentity(r) + EncodeRtmrs(r) + r.reportData
  }

  function Encode(q: Quote): Bytes
    requires |q.report.rtmr| == 4
  {
    EncodeHeader(q.header) + EncodeReport(q.report) + LeEncode(q.signatureLen, 4) + q.rawSignature
  }

  // ---------- The code: a cursor over the bytes ----------

  /** The mutable `offset` of the source. */
  class Cursor {
    const data: Bytes
    var offset: nat

    constructor (data: Bytes)
      ensures this.data == data && offset == 0
    {
      this.data := data;
      offset := 0;
    }

    /** `parse_bytes`: the next `len` bytes, or an error that leaves the cursor alone. */
    method TakeBytes(len: nat) returns (r: Option<Bytes>)
      modifies this
      ensures r.Some? <==> old(offset) + len <= |data|
      ensures offset == if r.Some? then old(offset) + len else old(offset)
      ensures r.Some? ==> r.value == data[old(offset)..old(offset) + len]
    {
      if |data| < offset + len {
        return None;
      }
      r := Some(data[offset..offset + len]);
      offset := offset + len;
    }

    /** `parse_u16_le`, `parse_u32_le` and `parse_u64_le`. */
    method TakeUint(len: nat) returns (r: Option<nat>)
      modifies this
      ensures r.Some? <==> old(offset) + len <= |data|
      ensures offset == if r.Some? then old(offset) + len else old(offset)
      ensures r.Some? ==> r.value == LeDecode(data[old(offset)..old(offset) + len])
    {
      if |data| < offset + len {
        return None;
      }
      r := Some(LeDecode(data[offset..offset + len]));
      offset := offset + len;
    }
  }

  method ParseHeader(c: Cursor) returns (r: Option<Header>)
    modifies c
    ensures r.Some? <==> old(c.offset) + 48 <= |c.data|
    ensures r.Some? ==> r.value == HeaderAt(c.data, old(c.offset)) && c.offset == old(c.offset) + 48
  {
    if |c.data| < c.offset + 48 {
      return None;
    }
    var version := c.TakeUint(2);
    var attKeyType := c.TakeUint(2);
    var teeType := c.TakeUint(4);
    var reserved := c.TakeUint(4);
    var vendorId := c.TakeBytes(16);
    var userData := c.TakeBytes(20);
    r := Some(Header(version.value, attKeyType.value, teeType.value, reserved.value, vendorId.value, userData.value));
  }

  /** The loop that fills the four runtime measurement registers. */
  method ParseRtmrs(c: Cursor) returns (rtmr: seq<Bytes>)
    requires c.offset + 192 <= |c.data|
    modifies c
    ensures c.offset == old(c.offset) + 192
    ensures var d, o := c.data, old(c.offset);
            rtmr == [d[o..o + 48], d[o + 48..o + 96], d[o + 96..o + 144], d[o + 144..o + 192]]
  {
    ghost var o := c.offset;
    rtmr := [Zeros(48), Zeros(48), Zeros(48), Zeros(48)];
    for i := 0 to 4
      invariant c.offset == o + 48 * i && |rtmr| == 4
      invariant forall k :: 0 <= k < i ==> rtmr[k] == c.data[o + 48 * k..o + 48 * k + 48]
    {
      var item := c.TakeBytes(48);
      rtmr := rtmr[i := item.value];
    }
    assert rtmr == [rtmr[0], rtmr[1], rtmr[2], rtmr[3]];
  }

  method ParseReport(c: Cursor) returns (r: Option<TdReport>)
    modifies c
    ensures r.Some? <==> old(c.offset) + 584 <= |c.data|
    ensures r.Some? ==> r.value == ReportAt(c.data, old(c.offset)) && c.offset == old(c.offset) + 584
  {
    if |c.data| < c.offset + 584 {
      return None;
    }
    var tcbSvn := c.TakeBytes(16);
    var mrSeam := c.TakeBytes(48);
    var mrSignerSeam := c.TakeBytes(48);
    var seamAttributes := c.TakeUint(8);
    var tdAttributes := c.TakeUint(8);
    var xfam := c.TakeUint(8);
    var mrtd := c.TakeBytes(48);
    var mrConfigId := c.TakeBytes(48);
    var mrOwner := c.TakeBytes(48);
    var mrOwnerConfig := c.TakeBytes(48);
    var rtmr := ParseRtmrs(c);
    var reportData := c.TakeBytes(64);
    r := Some(TdReport(tcbSvn.value, mrSeam.value, mrSignerSeam.value,
                       seamAttributes.value, tdAttributes.value, xfam.value,
                       mrtd.value, mrConfigId.value, mrOwner.value, mrOwnerConfig.value,
                       rtmr, reportData.value));
  }

  /** The fixed 584 bytes of the signature: its fields and the authentication data length. */
  method ParseFixedSignature(c: Cursor) returns (r: Option<QuoteSignature>, authSize: nat)
    requires c.offset == 0
    modifies c
    ensures r.Some? <==> |c.data| >= 584
    ensures var s := c.data;
      r.Some? ==> c.offset == 584 && authSize == LeDecode(s[582..584])
                  && r.value == QuoteSignature(s[0..64], s[64..128], LeDecode(s[128..130]), LeDecode(s[130..134]),
                                               s[134..518], s[518..582], [], 0, [])
  {
    authSize := 0;
    var ecdsaSignature := c.TakeBytes(64);
    if ecdsaSignature.None? { return None, 0; }
    var ecdsaPublicKey := c.TakeBytes(64);
    if ecdsaPublicKey.None? { return None, 0; }
    var certDataType := c.TakeUint(2);
    if certDataType.None? { return None, 0; }
    var certDataSize := c.TakeUint(4);
    if certDataSize.None? { return None, 0; }
    var qeReport := c.TakeBytes(384);
    if qeReport.None? { return None, 0; }
    var qeSignature := c.TakeBytes(64);
    if qeSignature.None? { return None, 0; }
    var size := c.TakeUint(2);
    if size.None? { return None, 0; }
    r := Some(QuoteSignature(ecdsaSignature.value, ecdsaPublicKey.value, certDataType.value, certDataSize.value,
                             qeReport.value, qeSignature.value, [], 0, []));
    authSize := size.value;
  }

  method ParseSignature(sig: Bytes) returns (r: Option<QuoteSignature>)
    ensures r == SignatureOf(sig)
  {
    var c := new Cursor(sig);
    var fixed, authSize := ParseFixedSignature(c);
    if fixed.None? {
      return None;
    }
    var auth := c.TakeBytes(authSize);
    if auth.None? {
      return None;
    }
    var signature := fixed.value.(qeAuthData := auth.value);
    if c.offset + 6 > |sig| {
      return Some(signature);
    }
    var certType := c.TakeUint(2);
    var certSize := c.TakeUint(4);
    var certData := c.TakeBytes(certSize.value);
    if certData.None? {
      return None;
    }
    r := Some(signature.(certType := certType.value, certData := certData.value));
  }

  /** `TdxQuote::parse`, for every byte string. */
  method ParseQuote(data: Bytes) returns (r: Option<Quote>)
    ensures r == Parse(data)
  {
    var c := new Cursor(data);
    var header := ParseHeader(c);
    if header.None? {
      return None;
    }
    if !HeaderSupported(header.value) {
      return None;
    }
    var report := ParseReport(c);
    if report.None? {
      return None;
    }
    var signatureLen := c.TakeUint(4);
    if signatureLen.None? {
      return None;
    }
    if |data| < c.offset + signatureLen.value {
      return None;
    }
    var raw := data[c.offset..c.offset + signatureLen.value];
    var signature := None;
    if |raw| >= 134 {
      signature := ParseSignature(raw);
    }
    return Some(Quote(header.value, report.value, signatureLen.value, signature, raw));
  }

  // ---------- Reading, then writing ----------

  lemma HeaderRewrites(d: Bytes, o: nat)
    requires o + 48 <= |d|
    ensures EncodeHeader(HeaderAt(d, o)) == d[o..o + 48]
  {
    LeEncodeDecode(d[o..o + 2]);
    LeEncodeDecode(d[o + 2..o + 4]);
    LeEncodeDecode(d[o + 4..o + 8]);
    LeEncodeDecode(d[o + 8..o + 12]);
    JoinSlices(d, o, o + 2, o + 4);
    JoinSlices(d, o, o + 4, o + 8);
    JoinSlices(d, o, o + 8, o + 12);
    JoinSlices(d, o, o + 12, o + 28);
    JoinSlices(d, o, o + 28, o + 48);
  }

  lemma AttributesRewrite(d: Bytes, o: nat)
    requires o + 584 <= |d|
    ensures EncodeAttributes(ReportAt(d, o)) == d[o + 112..o + 136]
  {
    LeEncodeDecode(d[o + 112..o + 120]);
    LeEncodeDecode(d[o + 120..o + 128]);
    LeEncodeDecode(d[o + 128..o + 136]);
    JoinSlices(d, o + 112, o + 120, o + 128);
    JoinSlices(d, o + 112, o + 128, o + 136);
  }

  lemma ReportRewrites(d: Bytes, o: nat)
    requires o + 584 <= |d|
    ensures EncodeReport(ReportAt(d, o)) == d[o..o + 584]
  {
    var r := ReportAt(d, o);
    AttributesRewrite(d, o);
    assert EncodeMeasurements(r) == d[o..o + 112] by {
      JoinSlices(d, o, o + 16, o + 64);
      JoinSlices(d, o, o + 64, o + 112);
    }
    assert EncodeIdentity(r) == d[o + 136..o + 328] by {
      JoinSlices(d, o + 136, o + 184, o + 232);
      JoinSlices(d, o + 136, o + 232, o + 280);
      JoinSlices(d, o + 136, o + 280, o + 328);
    }
    assert EncodeRtmrs(r) == d[o + 328..o + 520] by {
      JoinSlices(d, o + 328, o + 376, o + 424);
      JoinSlices(d, o + 328, o + 424, o + 472);
      JoinSlices(d, o + 328, o + 472, o + 520);
    }
    JoinSlices(d, o, o + 112, o + 136);
    JoinSlices(d, o, o + 136, o + 328);
    JoinSlices(d, o, o + 328, o + 520);
    JoinSlices(d, o, o + 520, o + 584);
  }

  /** Whatever is accepted re-encodes to exactly the bytes it was read from. */
  lemma ParseThenEncode(d: Bytes)
    requires Parse(d).Some?
    ensures var q := Parse(d).value;
      |q.report.rtmr| == 4 && |d| >= 636 + q.signatureLen && Encode(q) == d[..636 + q.signatureLen]
  {
    var n := 636 + Parse(d).value.signatureLen;
    HeaderRewrites(d, 0);
    ReportRewrites(d, 48);
    LeEncodeDecode(d[632..636]);
    JoinSlices(d, 0, 48, 632);
    JoinSlices(d, 0, 632, 636);
    JoinSlices(d, 0, 636, n);
  }

  /** Bytes that decode to a number in range are its encoding. */
  lemma DecodesToExactly(b: Bytes, v: nat)
    requires v < Pow256(|b|)
    ensures LeDecode(b) == v <==> b == LeEncode(v, |b|)
  {
    LeDecodeEncode(v, |b|);
    LeEncodeDecode(b);
  }

  /** Exactly which byte strings are accepted: long enough for the declared signature, of version 4, and
      of TEE type 0x81; so a quote of any other version or type is refused, whatever else it holds. */
  lemma AcceptedExactly(d: Bytes)
    ensures Parse(d).Some? <==>
            && |d| >= 636 && |d| >= 636 + LeDecode(d[632..636])
            && d[0..2] == [4, 0] && d[4..8] == [0x81, 0, 0, 0]
  {
    if |d| >= 636 {
      Pow256Widths();
      assert LeEncode(4, 2) == [4, 0] && LeEncode(0x81, 4) == [0x81, 0, 0, 0];
      DecodesToExactly(d[0..2], 4);
      DecodesToExactly(d[4..8], 0x81);
    }
  }

  lemma HeaderIgnoresTail(d: Bytes, extra: Bytes, o: nat)
    requires o + 48 <= |d|
    ensures HeaderAt(d + extra, o) == HeaderAt(d, o)
  {
    SliceIgnoresTail(d, extra, o, o + 2);
    SliceIgnoresTail(d, extra, o + 2, o + 4);
    SliceIgnoresTail(d, extra, o + 4, o + 8);
    SliceIgnoresTail(d, extra, o + 8, o + 12);
    SliceIgnoresTail(d, extra, o + 12, o + 28);
    SliceIgnoresTail(d, extra, o + 28, o + 48);
  }

  lemma SliceIgnoresTail<T>(s: seq<T>, extra: seq<T>, a: nat, b: nat)
    requires a <= b <= |s|
    ensures (s + extra)[a..b] == s[a..b]
  {
  }

  lemma SliceOfSlice<T>(s: seq<T>, o: nat, e: nat, a: nat, b: nat)
    requires o <= e <= |s| && a <= b <= e - o
    ensures s[o..e][a..b] == s[o + a..o + b]
  {
    var x, y := s[o..e][a..b], s[o + a..o + b];
    forall i | 0 <= i < b - a ensures x[i] == y[i] {
      assert x[i] == s[o..e][a + i] == s[o + a + i];
    }
  }

  lemma ReportIgnoresTail(d: Bytes, extra: Bytes, o: nat)
    requires o + 584 <= |d|
    ensures ReportAt(d + extra, o) == ReportAt(d, o)
  {
    SliceIgnoresTail(d, extra, o, o + 584);
    ReportIsASlice(d, o);
    ReportIsASlice(d + extra, o);
  }

  /** A report depends only on its own 584 bytes. */
  lemma ReportIsASlice(d: Bytes, o: nat)
    requires o + 584 <= |d|
    ensures ReportAt(d, o) == ReportAt(d[o..o + 584], 0)
  {
    SliceOfSlice(d, o, o + 584, 0, 16);
    SliceOfSlice(d, o, o + 584, 16, 64);
    SliceOfSlice(d, o, o + 584, 64, 112);
    SliceOfSlice(d, o, o + 584, 112, 120);
    SliceOfSlice(d, o, o + 584, 120, 128);
    SliceOfSlice(d, o, o + 584, 128, 136);
    SliceOfSlice(d, o, o + 584, 136, 184);
    SliceOfSlice(d, o, o + 584, 184, 232);
    SliceOfSlice(d, o, o + 584, 232, 280);
    SliceOfSlice(d, o, o + 584, 280, 328);
    SliceOfSlice(d, o, o + 584, 328, 376);
    SliceOfSlice(d, o, o + 584, 376, 424);
    SliceOfSlice(d, o, o + 584, 424, 472);
    SliceOfSlice(d, o, o + 584, 472, 520);
    SliceOfSlice(d, o, o + 584, 520, 584);
  }

  /** Bytes after the declared signature never change the result. */
  lemma TrailingBytesIgnored(d: Bytes, extra: Bytes)
    requires Parse(d).Some?
    ensures Parse(d + extra) == Parse(d)
  {
    HeaderIgnoresTail(d, extra, 0);
    ReportIgnoresTail(d, extra, 48);
    SliceIgnoresTail(d, extra, 632, 636);
    SliceIgnoresTail(d, extra, 636, 636 + LeDecode(d[632..636]));
  }

  /** Every shorter prefix of an accepted quote is refused. */
  lemma ShorterPrefixRefused(d: Bytes, k: nat)
    requires Parse(d).Some? && k < 636 + Parse(d).value.signatureLen && k <= |d|
    ensures Parse(d[..k]).None?
  {
    if k >= 636 {
      assert d[..k][632..636] == d[632..636];
    }
  }

  // ---------- Writing, then reading ----------

  predicate ReportFits(r: TdReport) {
    && r.seamAttributes < 0x1_0000_0000_0000_0000
    && r.tdAttributes < 0x1_0000_0000_0000_0000
    && r.xfam < 0x1_0000_0000_0000_0000
    && |r.tcbSvn| == 16 && |r.mrSeam| == 48 && |r.mrSignerSeam| == 48
    && |r.mrtd| == 48 && |r.mrConfigId| == 48 && |r.mrOwner| == 48 && |r.mrOwnerConfig| == 48
    && |r.rtmr| == 4 && |r.rtmr[0]| == |r.rtmr[1]| == |r.rtmr[2]| == |r.rtmr[3]| == 48
    && |r.reportData| == 64
  }

  predicate HeaderFits(h: Header) {
    && h.version < 0x1_0000 && h.attKeyType < 0x1_0000
    && h.teeType < 0x1_0000_0000 && h.reserved < 0x1_0000_0000
    && |h.vendorId| == 16 && |h.userData| == 20
  }

  /** Quotes that fit the field sizes and whose signature is the one their bytes hold. */
  predicate WellFormed(q: Quote) {
    && HeaderFits(q.header) && ReportFits(q.report)
    && q.signatureLen == |q.rawSignature| && q.signatureLen < 0x1_0000_0000
    && q.signature == SignatureOf(q.rawSignature)
  }

  lemma HeaderReadsBack(h: Header)
    requires HeaderFits(h)
    ensures |EncodeHeader(h)| == 48 && HeaderAt(EncodeHeader(h), 0) == h
  {
    var e := EncodeHeader(h);
    Pow256Widths();
    assert e[0..2] == LeEncode(h.version, 2) && e[2..4] == LeEncode(h.attKeyType, 2);
    assert e[4..8] == LeEncode(h.teeType, 4) && e[8..12] == LeEncode(h.reserved, 4);
    assert e[12..28] == h.vendorId && e[28..48] == h.userData;
    LeDecodeEncode(h.version, 2);
    LeDecodeEncode(h.attKeyType, 2);
    LeDecodeEncode(h.teeType, 4);
    LeDecodeEncode(h.reserved, 4);
  }

  lemma ReportPartsReadBack(r: TdReport)
    requires ReportFits(r)
    ensures var m, a, i, x := EncodeMeasurements(r), EncodeAttributes(r), EncodeIdentity(r), EncodeRtmrs(r);
      && |m| == 112 && |a| == 24 && |i| == 192 && |x| == 192
      && m[0..16] == r.tcbSvn && m[16..64] == r.mrSeam && m[64..112] == r.mrSignerSeam
      && LeDecode(a[0..8]) == r.seamAttributes && LeDecode(a[8..16]) == r.tdAttributes && LeDecode(a[16..24]) == r.xfam
      && i[0..48] == r.mrtd && i[48..96] == r.mrConfigId && i[96..144] == r.mrOwner && i[144..192] == r.mrOwnerConfig
      && x[0..48] == r.rtmr[0] && x[48..96] == r.rtmr[1] && x[96..144] == r.rtmr[2] && x[144..192] == r.rtmr[3]
  {
    Pow256Widths();
    var a := EncodeAttributes(r);
    assert a[0..8] == LeEncode(r.seamAttributes, 8) && a[8..16] == LeEncode(r.tdAttributes, 8);
    assert a[16..24] == LeEncode(r.xfam, 8);
    LeDecodeEncode(r.seamAttributes, 8);
    LeDecodeEncode(r.tdAttributes, 8);
    LeDecodeEncode(r.xfam, 8);
  }

  lemma ReportReadsBack(r: TdReport)
    requires ReportFits(r)
    ensures |EncodeReport(r)| == 584 && ReportAt(EncodeReport(r), 0) == r
  {
    ReportPartsReadBack(r);
    var e := EncodeReport(r);
    var m, a, i, x := EncodeMeasurements(r), EncodeAttributes(r), EncodeIdentity(r), EncodeRtmrs(r);
    assert e[0..112] == m && e[112..136] == a && e[136..328] == i && e[328..520] == x && e[520..584] == r.reportData;
    assert e[0..16] == m[0..16] && e[16..64] == m[16..64] && e[64..112] == m[64..112];
    assert e[112..120] == a[0..8] && e[120..128] == a[8..16] && e[128..136] == a[16..24];
    assert e[136..184] == i[0..48] && e[184..232] == i[48..96];
    assert e[232..280] == i[96..144] && e[280..328] == i[144..192];
    assert e[328..376] == x[0..48] && e[376..424] == x[48..96];
    assert e[424..472] == x[96..144] && e[472..520] == x[144..192];
    assert [r.rtmr[0], r.rtmr[1], r.rtmr[2], r.rtmr[3]] == r.rtmr;
  }

  lemma FourParts<T>(a: seq<T>, b: seq<T>, c: seq<T>, d: seq<T>)
    ensures var all := a + b + c + d;
      && all[|a|..|a| + |b|] == b
      && all[|a| + |b|..|a| + |b| + |c|] == c
      && all[|a| + |b| + |c|..] == d
      && all == a + (b + c + d)
  {
  }

  /** Every supported quote that fits the layout parses back to itself, whatever follows it. */
  lemma EncodeThenParse(q: Quote, extra: Bytes)
    requires WellFormed(q) && HeaderSupported(q.header)
    ensures Parse(Encode(q) + extra) == Some(q)
  {
    var h, r, n, s := EncodeHeader(q.header), EncodeReport(q.report), LeEncode(q.signatureLen, 4), q.rawSignature;
    var d := Encode(q);
    HeaderReadsBack(q.header);
    ReportReadsBack(q.report);
    FourParts(h, r, n, s);
    HeaderIgnoresTail(h, r + n + s, 0);
    ReportIsASlice(d, 48);
    assert LeDecode(d[632..636]) == q.signatureLen by {
      Pow256Widths();
      LeDecodeEncode(q.signatureLen, 4);
    }
    assert d[636..636 + q.signatureLen] == d[636..];
    assert Parse(d) == Some(q);
    TrailingBytesIgnored(d, extra);
  }

  // ---------- The signature, read and written ----------

  /** Where the authentication data of a signature ends. */
  function AuthEnd(s: Bytes): (a: nat)
    requires |s| >= 584
    ensures a >= 584
  {
    584 + LeDecode(s[582..584])
  }

  /** The six bytes that announce a certificate are there. */
  predicate HasCertificate(s: Bytes) {
    |s| >= 584 && |s| >= AuthEnd(s) + 6
  }

  function EncodeKeys(q: QuoteSignature): Bytes {
    q.ecdsaSignature + q.ecdsaPublicKey + LeEncode(q.certDataType, 2) + LeEncode(q.certDataSize, 4)
  }

  function EncodeFixed(q: QuoteSignature): Bytes {
    EncodeKeys(q) + q.qeReport + q.qeSignature + LeEncode(|q.qeAuthData|, 2)
  }

  function EncodeCertificate(q: QuoteSignature): Bytes {
    LeEncode(q.certType, 2) + LeEncode(|q.certData|, 4) + q.certData
  }

  function EncodeSignature(q: QuoteSignature, certificate: bool): Bytes {
    EncodeFixed(q) + q.qeAuthData + (if certificate then EncodeCertificate(q) else [])
  }

  predicate SignatureFits(q: QuoteSignature) {
    && |q.ecdsaSignature| == |q.ecdsaPublicKey| == |q.qeSignature| == 64 && |q.qeReport| == 384
    && q.certDataType < 0x1_0000 && q.certDataSize < 0x1_0000_0000 && |q.qeAuthData| < 0x1_0000
    && q.certType < 0x1_0000 && |q.certData| < 0x1_0000_0000
  }

  lemma FixedRewrites(s: Bytes)
    requires SignatureOf(s).Some?
    ensures EncodeFixed(SignatureOf(s).value) == s[0..584]
  {
    LeEncodeDecode(s[128..130]);
    LeEncodeDecode(s[130..134]);
    LeEncodeDecode(s[582..584]);
    JoinSlices(s, 0, 64, 128);
    JoinSlices(s, 0, 128, 130);
    JoinSlices(s, 0, 130, 134);
    JoinSlices(s, 0, 134, 518);
    JoinSlices(s, 0, 518, 582);
    JoinSlices(s, 0, 582, 584);
  }

  lemma CertificateRewrites(s: Bytes)
    requires SignatureOf(s).Some? && HasCertificate(s)
    ensures var a, c := AuthEnd(s), EncodeCertificate(SignatureOf(s).value); a + |c| <= |s| && c == s[a..a + |c|]
  {
    var a := AuthEnd(s);
    var end := a + 6 + LeDecode(s[a + 2..a + 6]);
    LeEncodeDecode(s[a..a + 2]);
    LeEncodeDecode(s[a + 2..a + 6]);
    JoinSlices(s, a, a + 2, a + 6);
    JoinSlices(s, a, a + 6, end);
  }

  /** Whenever a signature decodes, writing it gives back its own prefix. */
  lemma SignatureThenEncode(s: Bytes)
    requires SignatureOf(s).Some?
    ensures EncodeSignature(SignatureOf(s).value, HasCertificate(s)) <= s
  {
    var q, a := SignatureOf(s).value, AuthEnd(s);
    FixedRewrites(s);
    JoinSlices(s, 0, 584, a);
    assert EncodeFixed(q) + q.qeAuthData == s[0..a];
    if HasCertificate(s) {
      CertificateRewrites(s);
      JoinSlices(s, 0, a, a + |EncodeCertificate(q)|);
    } else {
      assert s[0..a] + [] == s[0..a];
    }
  }

  /** Cutting a signature short loses it, except that a cut within the six bytes that announce the
      certificate goes unnoticed and loses only the certificate. */
  lemma ShorterSignature(s: Bytes, k: nat)
    requires SignatureOf(s).Some? && k < |EncodeSignature(SignatureOf(s).value, HasCertificate(s))| && k <= |s|
    ensures SignatureOf(s[..k]) ==
            if HasCertificate(s) && AuthEnd(s) <= k < AuthEnd(s) + 6
            then Some(SignatureOf(s).value.(certType := 0, certData := [])) else None
  {
    var t := s[..k];
    FixedRewrites(s);
    if k >= 584 {
      var a := AuthEnd(s);
      assert t[582..584] == s[582..584];
      if HasCertificate(s) {
        CertificateRewrites(s);
        CutCertificate(s, k);
      }
    }
  }

  lemma CutCertificate(s: Bytes, k: nat)
    requires SignatureOf(s).Some? && HasCertificate(s) && 584 <= k <= |s|
    requires k < AuthEnd(s) + |EncodeCertificate(SignatureOf(s).value)|
    ensures SignatureOf(s[..k]) ==
            if AuthEnd(s) <= k < AuthEnd(s) + 6 then Some(SignatureOf(s).value.(certType := 0, certData := []))
              else None
  {
    var t, a := s[..k], AuthEnd(s);
    assert t[582..584] == s[582..584];
    if k >= a {
      assert t[0..64] == s[0..64] && t[64..128] == s[64..128] && t[128..130] == s[128..130];
      assert t[130..134] == s[130..134] && t[134..518] == s[134..518] && t[518..582] == s[518..582];
      assert t[584..a] == s[584..a];
    }
    if k >= a + 6 {
      assert t[a + 2..a + 6] == s[a + 2..a + 6];
    }
  }

  lemma FixedReadsBack(q: QuoteSignature)
    requires SignatureFits(q)
    ensures var e := EncodeFixed(q);
      && |e| == 584 && e[0..64] == q.ecdsaSignature && e[64..128] == q.ecdsaPublicKey
      && LeDecode(e[128..130]) == q.certDataType && LeDecode(e[130..134]) == q.certDataSize
      && e[134..518] == q.qeReport && e[518..582] == q.qeSignature && LeDecode(e[582..584]) == |q.qeAuthData|
  {
    Pow256Widths();
    var e, keys := EncodeFixed(q), EncodeKeys(q);
    assert keys[128..130] == LeEncode(q.certDataType, 2) && keys[130..134] == LeEncode(q.certDataSize, 4);
    assert e[0..134] == keys;
    assert e[0..64] == keys[0..64] && e[64..128] == keys[64..128];
    assert e[128..130] == keys[128..130] && e[130..134] == keys[130..134];
    assert e[582..584] == LeEncode(|q.qeAuthData|, 2);
    LeDecodeEncode(q.certDataType, 2);
    LeDecodeEncode(q.certDataSize, 4);
    LeDecodeEncode(|q.qeAuthData|, 2);
  }

  lemma CertificateReadsBack(q: QuoteSignature)
    requires SignatureFits(q)
    ensures var c := EncodeCertificate(q);
      && |c| == 6 + |q.certData| && LeDecode(c[0..2]) == q.certType && LeDecode(c[2..6]) == |q.certData|
      && c[6..] == q.certData
  {
    Pow256Widths();
    var c := EncodeCertificate(q);
    assert c[0..2] == LeEncode(q.certType, 2) && c[2..6] == LeEncode(|q.certData|, 4);
    LeDecodeEncode(q.certType, 2);
    LeDecodeEncode(|q.certData|, 4);
  }

  /** The fields of a signature whose fixed part and authentication data begin `s`. */
  lemma FieldsOf(q: QuoteSignature, s: Bytes)
    requires SignatureFits(q) && EncodeFixed(q) + q.qeAuthData <= s
    ensures |s| >= 584 + |q.qeAuthData| && AuthEnd(s) == 584 + |q.qeAuthData|
    ensures s[0..64] == q.ecdsaSignature && s[64..128] == q.ecdsaPublicKey
    ensures LeDecode(s[128..130]) == q.certDataType && LeDecode(s[130..134]) == q.certDataSize
    ensures s[134..518] == q.qeReport && s[518..582] == q.qeSignature && s[584..AuthEnd(s)] == q.qeAuthData
  {
    FixedReadsBack(q);
    var e, n := EncodeFixed(q), 584 + |q.qeAuthData|;
    assert s[..n] == e + q.qeAuthData;
    assert s[0..64] == e[0..64] && s[64..128] == e[64..128] && s[128..130] == e[128..130];
    assert s[130..134] == e[130..134] && s[134..518] == e[134..518] && s[518..582] == e[518..582];
    assert s[582..584] == e[582..584];
    assert s[584..n] == s[..n][584..];
  }

  /** Every signature that fits the layout decodes from what is written, whatever follows. */
  lemma EncodeThenSignature(q: QuoteSignature, extra: Bytes)
    requires SignatureFits(q)
    ensures SignatureOf(EncodeSignature(q, true) + extra) == Some(q)
  {
    var c, n := EncodeCertificate(q), 584 + |q.qeAuthData|;
    var front := EncodeFixed(q) + q.qeAuthData;
    var s := EncodeSignature(q, true) + extra;
    FixedReadsBack(q);
    CertificateReadsBack(q);
    assert s == front + c + extra;
    FieldsOf(q, s);
    assert s[n..n + |c|] == c;
    assert s[n..n + 2] == c[0..2] && s[n + 2..n + 6] == c[2..6] && s[n + 6..n + |c|] == c[6..];
  }

  /** Without a certificate it decodes as long as fewer than six bytes follow. */
  lemma EncodeThenBareSignature(q: QuoteSignature, extra: Bytes)
    requires SignatureFits(q) && q.certType == 0 && q.certData == [] && |extra| < 6
    ensures SignatureOf(EncodeSignature(q, false) + extra) == Some(q)
  {
    var front := EncodeFixed(q) + q.qeAuthData;
    var s := EncodeSignature(q, false) + extra;
    FixedReadsBack(q);
    assert s == front + extra;
    FieldsOf(q, s);
  }
}
