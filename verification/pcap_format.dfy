/**
 * The libpcap savefile layout written by the packet capture of PASST
 * (pcap-savefile(5)): one 24-byte global header, then for every frame a
 * 16-byte record header followed by the frame's bytes. Both headers are
 * written as raw C structs, so every field is in host byte order.
 *
 * ParseCapture is the reader side of the format, the inverse of the
 * writer: what the writer produces reads back as the header and the frames
 * it was given.
 */
module PcapFormat {
  import opened Bytes

  const PCAP_MAGIC: U32 := 0xa1b2c3d4
  const PCAP_VERSION_MAJOR: U16 := 2
  const PCAP_VERSION_MINOR: U16 := 4
  const PCAP_LINKTYPE_ETHERNET: U32 := 1
  /** ETH_MAX_MTU of <linux/if_ether.h>, the snapshot length declared in the header. */
  const ETH_MAX_MTU: U32 := 0xffff

  const FILE_HEADER_LEN: nat := 24
  const RECORD_HEADER_LEN: nat := 16

  /** The global header, the anonymous struct behind `pcap_hdr`. */
  datatype FileHeader = FileHeader(
    magic: U32, major: U16, minor: U16, thiszone: I32,
    sigfigs: U32, snaplen: U32, linktype: U32)

  /** The value the writer gives `pcap_hdr`. */
  const PCAP_HDR: FileHeader := FileHeader(
    PCAP_MAGIC, PCAP_VERSION_MAJOR, PCAP_VERSION_MINOR, 0, 0, ETH_MAX_MTU,
    PCAP_LINKTYPE_ETHERNET)

  /** `struct pcap_pkthdr`: the per-record header. */
  datatype RecordHeader = RecordHeader(tvSec: U32, tvUsec: U32, caplen: U32, len: U32)

  /** A `struct timeval` as gettimeofday() reports it: signed seconds and microseconds. */
  datatype Timeval = Timeval(sec: int, usec: int)

  /** One frame handed to the capture, with the clock reading taken when it was. */
  datatype Frame = Frame(pkt: seq<Byte>, at: Timeval)

  datatype Option<T> = None | Some(value: T)

  /** One record of a savefile as a reader sees it. */
  datatype Record = Record(header: RecordHeader, data: seq<Byte>)

  function FileHeaderBytes(h: FileHeader, e: Endian): (bs: seq<Byte>)
    ensures |bs| == FILE_HEADER_LEN
  {
    U32Bytes(h.magic, e) + U16Bytes(h.major, e) + U16Bytes(h.minor, e)
    + I32Bytes(h.thiszone, e) + U32Bytes(h.sigfigs, e) + U32Bytes(h.snaplen, e)
    + U32Bytes(h.linktype, e)
  }

  function ParseFileHeader(bs: seq<Byte>, e: Endian): FileHeader
    requires |bs| == FILE_HEADER_LEN
  {
    FileHeader(U32Of(bs[0..4], e), U16Of(bs[4..6], e), U16Of(bs[6..8], e),
               I32Of(bs[8..12], e), U32Of(bs[12..16], e), U32Of(bs[16..20], e),
               U32Of(bs[20..24], e))
  }

  function RecordHeaderBytes(h: RecordHeader, e: Endian): (bs: seq<Byte>)
    ensures |bs| == RECORD_HEADER_LEN
  {
    U32Bytes(h.tvSec, e) + U32Bytes(h.tvUsec, e) + U32Bytes(h.caplen, e) + U32Bytes(h.len, e)
  }

  function ParseRecordHeader(bs: seq<Byte>, e: Endian): RecordHeader
    requires |bs| == RECORD_HEADER_LEN
  {
    RecordHeader(U32Of(bs[0..4], e), U32Of(bs[4..8], e), U32Of(bs[8..12], e), U32Of(bs[12..16], e))
  }

  /**
   * The record header the writer fills in for a frame of `len` bytes seen
   * at time `now`: each value is converted to a 32-bit unsigned field, and
   * the captured length is the full length (no truncation to snaplen).
   */
  function RecordHeaderOf(len: nat, now: Timeval): (h: RecordHeader)
    ensures h.caplen == h.len
    ensures (h.len - len) % U32_LIMIT == 0
    ensures (h.tvSec - now.sec) % U32_LIMIT == 0 && (h.tvUsec - now.usec) % U32_LIMIT == 0
  {
    var h := RecordHeader(ToU32(now.sec), ToU32(now.usec), 0, 0);
    var h := h.(len := ToU32(len));
    h.(caplen := h.len)
  }

  /** The bytes one call of the writer appends: record header, then the frame. */
  function RecordBytes(f: Frame, e: Endian): (bs: seq<Byte>)
    ensures |bs| == RECORD_HEADER_LEN + |f.pkt|
    ensures bs[..RECORD_HEADER_LEN] == RecordHeaderBytes(RecordHeaderOf(|f.pkt|, f.at), e)
    ensures bs[RECORD_HEADER_LEN..] == f.pkt
  {
    RecordHeaderBytes(RecordHeaderOf(|f.pkt|, f.at), e) + f.pkt
  }

  /** The record section: one record per frame, in the order they were captured. */
  function RecordsBytes(frames: seq<Frame>, e: Endian): seq<Byte>
  {
    if frames == [] then [] else RecordBytes(frames[0], e) + RecordsBytes(frames[1..], e)
  }

  /** A whole savefile: global header, then one record per frame in order. */
  function CaptureBytes(frames: seq<Frame>, e: Endian): seq<Byte>
  {
    FileHeaderBytes(PCAP_HDR, e) + RecordsBytes(frames, e)
  }

  /** The records a reader finds in `frames`' savefile. */
  function RecordsOf(frames: seq<Frame>): (rs: seq<Record>)
    ensures |rs| == |frames|
  {
    if frames == [] then []
    else [Record(RecordHeaderOf(|frames[0].pkt|, frames[0].at), frames[0].pkt)] + RecordsOf(frames[1..])
  }

  /** Every frame's length fits the 32-bit length fields. */
  predicate Representable(frames: seq<Frame>)
  {
    forall i :: 0 <= i < |frames| ==> |frames[i].pkt| < U32_LIMIT
  }

  /** The reader of the record section: a record header, caplen bytes of data, repeated. */
  function ParseRecords(bs: seq<Byte>, e: Endian): Option<seq<Record>>
    decreases |bs|
  {
    if bs == [] then Some([])
    else if |bs| < RECORD_HEADER_LEN then None
    else
      var h := ParseRecordHeader(bs[..RECORD_HEADER_LEN], e);
      if h.caplen > |bs| - RECORD_HEADER_LEN then None
      else
        var next := RECORD_HEADER_LEN + h.caplen;
        match ParseRecords(bs[next..], e)
        case None => None
        case Some(rest) => Some([Record(h, bs[RECORD_HEADER_LEN..next])] + rest)
  }

  /** The reader of a whole savefile. */
  function ParseCapture(bs: seq<Byte>, e: Endian): Option<(FileHeader, seq<Record>)>
  {
    if |bs| < FILE_HEADER_LEN then None
    else
      match ParseRecords(bs[FILE_HEADER_LEN..], e)
      case None => None
      case Some(rs) => Some((ParseFileHeader(bs[..FILE_HEADER_LEN], e), rs))
  }

  /**
   * The global header holds, in this order: magic 0xa1b2c3d4, version 2.4,
   * thiszone 0, sigfigs 0, snaplen ETH_MAX_MTU and linktype 1 (Ethernet),
   * 24 bytes in all.
   */
  lemma FileHeaderLayout(e: Endian)
    ensures |FileHeaderBytes(PCAP_HDR, e)| == 24
    ensures ParseFileHeader(FileHeaderBytes(PCAP_HDR, e), e)
            == FileHeader(0xa1b2c3d4, 2, 4, 0, 0, 65535, 1)
  {
    FileHeaderRoundTrip(PCAP_HDR, e);
  }

  /**
   * The magic number's bytes tell a reader the writer's byte order:
   * d4 c3 b2 a1 from a little-endian host, a1 b2 c3 d4 from a big-endian one.
   */
  lemma MagicBytes()
    ensures FileHeaderBytes(PCAP_HDR, Little)[..4] == [0xd4, 0xc3, 0xb2, 0xa1]
    ensures FileHeaderBytes(PCAP_HDR, Big)[..4] == [0xa1, 0xb2, 0xc3, 0xd4]
  {
    var le := LittleBytes(PCAP_MAGIC, 4);
    assert le == [0xd4] + LittleBytes(0xa1b2c3, 3);
    assert LittleBytes(0xa1b2c3, 3) == [0xc3] + LittleBytes(0xa1b2, 2);
    assert LittleBytes(0xa1b2, 2) == [0xb2] + LittleBytes(0xa1, 1);
    assert LittleBytes(0xa1, 1) == [0xa1] + LittleBytes(0, 0);
    assert FileHeaderBytes(PCAP_HDR, Little)[..4] == le;
    assert FileHeaderBytes(PCAP_HDR, Big)[..4] == Reverse(le);
  }

  lemma {:induction false} FileHeaderRoundTrip(h: FileHeader, e: Endian)
    ensures ParseFileHeader(FileHeaderBytes(h, e), e) == h
  {
    var bs := FileHeaderBytes(h, e);
    var rest := U32Bytes(h.sigfigs, e) + U32Bytes(h.snaplen, e) + U32Bytes(h.linktype, e);
    assert bs == U32Bytes(h.magic, e) + U16Bytes(h.major, e) + U16Bytes(h.minor, e)
                 + I32Bytes(h.thiszone, e) + rest;
    assert bs[12..] == rest;
    assert bs[0..4] == U32Bytes(h.magic, e);
    assert bs[4..6] == U16Bytes(h.major, e);
    assert bs[6..8] == U16Bytes(h.minor, e);
    assert bs[8..12] == I32Bytes(h.thiszone, e);
    assert bs[12..16] == U32Bytes(h.sigfigs, e);
    assert bs[16..20] == U32Bytes(h.snaplen, e);
    assert bs[20..24] == U32Bytes(h.linktype, e);
    U32RoundTrip(h.magic, e);
    U16RoundTrip(h.major, e);
    U16RoundTrip(h.minor, e);
    I32RoundTrip(h.thiszone, e);
    U32RoundTrip(h.sigfigs, e);
    U32RoundTrip(h.snaplen, e);
    U32RoundTrip(h.linktype, e);
  }

  lemma {:induction false} RecordHeaderRoundTrip(h: RecordHeader, e: Endian)
    ensures ParseRecordHeader(RecordHeaderBytes(h, e), e) == h
  {
    var bs := RecordHeaderBytes(h, e);
    var rest := U32Bytes(h.caplen, e) + U32Bytes(h.len, e);
    assert bs == U32Bytes(h.tvSec, e) + U32Bytes(h.tvUsec, e) + rest;
    assert bs[8..] == rest;
    assert bs[0..4] == U32Bytes(h.tvSec, e);
    assert bs[4..8] == U32Bytes(h.tvUsec, e);
    assert bs[8..12] == U32Bytes(h.caplen, e);
    assert bs[12..16] == U32Bytes(h.len, e);
    U32RoundTrip(h.tvSec, e);
    U32RoundTrip(h.tvUsec, e);
    U32RoundTrip(h.caplen, e);
    U32RoundTrip(h.len, e);
  }

  /**
   * For a frame whose length fits 32 bits, the record header stores the
   * frame's length as both caplen and len, and a clock reading within the
   * 32-bit range as is.
   */
  lemma RecordHeaderFields(len: nat, now: Timeval)
    requires len < U32_LIMIT
    ensures RecordHeaderOf(len, now).caplen == len
    ensures RecordHeaderOf(len, now).len == len
    ensures 0 <= now.sec < U32_LIMIT ==> RecordHeaderOf(len, now).tvSec == now.sec
    ensures 0 <= now.usec < U32_LIMIT ==> RecordHeaderOf(len, now).tvUsec == now.usec
  {
  }

  /** One record reads back as the frame's header and all of its bytes, whatever follows. */
  lemma {:induction false} RecordRoundTrip(f: Frame, rest: seq<Byte>, e: Endian)
    requires |f.pkt| < U32_LIMIT
    ensures ParseRecords(RecordBytes(f, e) + rest, e)
            == match ParseRecords(rest, e)
               case None => None
               case Some(rs) => Some([Record(RecordHeaderOf(|f.pkt|, f.at), f.pkt)] + rs)
  {
    var h := RecordHeaderOf(|f.pkt|, f.at);
    var bs := RecordBytes(f, e) + rest;
    assert bs[..RECORD_HEADER_LEN] == RecordHeaderBytes(h, e);
    RecordHeaderRoundTrip(h, e);
    RecordHeaderFields(|f.pkt|, f.at);
    var next := RECORD_HEADER_LEN + h.caplen;
    assert bs[RECORD_HEADER_LEN..next] == f.pkt;
    assert bs[next..] == rest;
  }

  lemma {:induction false} RecordsBytesAppend(frames: seq<Frame>, f: Frame, e: Endian)
    ensures RecordsBytes(frames + [f], e) == RecordsBytes(frames, e) + RecordBytes(f, e)
    decreases |frames|
  {
    if frames == [] {
      assert RecordsBytes([f], e) == RecordBytes(f, e) + RecordsBytes([], e);
    } else {
      assert (frames + [f])[1..] == frames[1..] + [f];
      RecordsBytesAppend(frames[1..], f, e);
    }
  }

  lemma {:induction false} RecordsRoundTrip(frames: seq<Frame>, e: Endian)
    requires Representable(frames)
    ensures ParseRecords(RecordsBytes(frames, e), e) == Some(RecordsOf(frames))
    decreases |frames|
  {
    if frames != [] {
      assert |frames[0].pkt| < U32_LIMIT;
      RecordsRoundTrip(frames[1..], e);
      RecordRoundTrip(frames[0], RecordsBytes(frames[1..], e), e);
    }
  }

  /**
   * A savefile made of the global header and one record per frame reads
   * back as `pcap_hdr` and exactly those frames, in order, each with its
   * full length.
   */
  lemma CaptureRoundTrip(frames: seq<Frame>, e: Endian)
    requires Representable(frames)
    ensures ParseCapture(CaptureBytes(frames, e), e) == Some((PCAP_HDR, RecordsOf(frames)))
  {
    var bs := CaptureBytes(frames, e);
    RecordsRoundTrip(frames, e);
    assert bs[..FILE_HEADER_LEN] == FileHeaderBytes(PCAP_HDR, e);
    assert bs[FILE_HEADER_LEN..] == RecordsBytes(frames, e);
    FileHeaderRoundTrip(PCAP_HDR, e);
  }

  /** Appending one record to a savefile is what one more frame adds to it. */
  lemma CaptureAppend(frames: seq<Frame>, f: Frame, e: Endian)
    ensures CaptureBytes(frames + [f], e) == CaptureBytes(frames, e) + RecordBytes(f, e)
  {
    RecordsBytesAppend(frames, f, e);
  }
}
