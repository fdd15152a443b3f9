/**
 * The packet capture writer of PASST: a sink for frames whose only state
 * is the descriptor `pcap_fd`. It starts as 1 (standard output), becomes
 * the descriptor of the capture file or -1 once `pcap_init` has run, and
 * `pcap` writes nothing while it is -1.
 *
 * The descriptors' contents are modelled as `out`, the bytes appended to
 * each descriptor so far. The clock, the result of open(2) and the result
 * of each write(2) are inputs: the writer acts on the first two and
 * ignores the last.
 */
module PcapWriter {
  import opened Bytes
  import opened PcapFormat

  /** The initial value of `pcap_fd`: standard output. */
  const STDOUT_FD: int := 1
  /** The value of `pcap_fd` once the capture file could not be opened. */
  const DISABLED_FD: int := -1

  /** What open(2) returns: a new descriptor, or -1. */
  datatype OpenResult = Opened(fd: nat) | OpenFailed

  /** How much of a buffer one write(2) call appends. */
  datatype WriteOutcome = Complete | Short(count: nat) | Failed

  /** The bytes of `bs` that a write(2) with outcome `w` appends: a prefix of `bs`. */
  function Accepted(bs: seq<Byte>, w: WriteOutcome): (r: seq<Byte>)
    ensures |r| <= |bs| && r == bs[..|r|]
    ensures w == Complete ==> r == bs
    ensures w == Failed ==> r == []
  {
    match w
    case Complete => bs
    case Short(n) => if n < |bs| then bs[..n] else bs
    case Failed => []
  }

  /** What has been written to descriptor `fd` so far. */
  function Stream(out: map<int, seq<Byte>>, fd: int): seq<Byte>
  {
    if fd in out then out[fd] else []
  }

  class Capture {
    /** Whether the program is built with DEBUG: without it both operations do nothing. */
    const debug: bool
    /** Host byte order, in which the raw header structs are written. */
    const endian: Endian
    /** The bytes of the static `pcap_hdr` struct. */
    const fileHeader: seq<Byte>
    /** `pcap_fd`. */
    var fd: int
    /** The bytes appended to each descriptor by this writer. */
    var out: map<int, seq<Byte>>

    ghost predicate Valid()
      reads this
    {
      fd >= DISABLED_FD && fileHeader == FileHeaderBytes(PCAP_HDR, endian)
    }

    /** Whether `pcap` writes: a DEBUG build whose `pcap_fd` is not -1. */
    predicate Enabled()
      reads this
    {
      debug && fd != DISABLED_FD
    }

    constructor (debug: bool, endian: Endian)
      ensures Valid()
      ensures this.debug == debug && this.endian == endian
      ensures fileHeader == FileHeaderBytes(PCAP_HDR, endian)
      ensures fd == STDOUT_FD && out == map[]
      ensures debug ==> Enabled()
    {
      this.debug := debug;
      this.endian := endian;
      fileHeader := FileHeaderBytes(PCAP_HDR, endian);
      fd := STDOUT_FD;
      out := map[];
    }

    /** write(2) to descriptor `d`; what it appends depends on its outcome `w`. */
    method Write(d: int, bs: seq<Byte>, w: WriteOutcome)
      modifies this`out
      ensures out == old(out)[d := Stream(old(out), d) + Accepted(bs, w)]
    {
      out := out[d := Stream(out, d) + Accepted(bs, w)];
    }

    /**
     * `pcap_init`: open the capture file and write the global header to it;
     * if the file cannot be opened, disable the capture until `pcap_init`
     * is called again.
     */
    method PcapInit(open: OpenResult, w: WriteOutcome)
      requires Valid()
      modifies this
      ensures Valid()
      ensures !debug ==> fd == old(fd) && out == old(out)
      ensures debug && open.OpenFailed? ==> fd == DISABLED_FD && out == old(out) && !Enabled()
      ensures debug && open.Opened? ==>
                fd == open.fd && Enabled()
                && out == old(out)[fd := Stream(old(out), fd) + Accepted(fileHeader, w)]
      ensures debug && open.Opened? && w == Complete ==>
                Stream(out, fd) == Stream(old(out), fd) + FileHeaderBytes(PCAP_HDR, endian)
    {
      if !debug {
        return;
      }
      fd := match open case Opened(d) => d case OpenFailed => DISABLED_FD;
      if fd == DISABLED_FD {
        return;
      }
      Write(fd, fileHeader, w);
    }

    /**
     * `pcap`: append one record, its header then the frame, to the current
     * descriptor, unless the capture is disabled. Write failures are ignored
     * and the descriptor never changes.
     */
    method Pcap(pkt: seq<Byte>, now: Timeval, wHeader: WriteOutcome, wData: WriteOutcome)
      modifies this`out
      ensures !Enabled() ==> out == old(out)
      ensures Enabled() ==>
                out == old(out)[fd := Stream(old(out), fd)
                                      + Accepted(RecordHeaderBytes(RecordHeaderOf(|pkt|, now), endian), wHeader)
                                      + Accepted(pkt, wData)]
      ensures Enabled() && wHeader == Complete && wData == Complete ==>
                Stream(out, fd) == Stream(old(out), fd) + RecordBytes(Frame(pkt, now), endian)
    {
      if !debug || fd == DISABLED_FD {
        return;
      }
      var h := RecordHeaderOf(|pkt|, now);
      ghost var before := Stream(out, fd);
      var header := RecordHeaderBytes(h, endian);
      Write(fd, header, wHeader);
      ghost var mid := before + Accepted(header, wHeader);
      assert Stream(out, fd) == mid;
      Write(fd, pkt, wData);
      assert out == old(out)[fd := mid + Accepted(pkt, wData)];
      if wHeader == Complete && wData == Complete {
        assert RecordBytes(Frame(pkt, now), endian) == header + pkt;
        assert Stream(out, fd) == before + (header + pkt);
      }
    }
  }

  /** One more record extends the records of a prefix of the frames by one frame. */
  lemma ExtendPrefix(start: seq<Byte>, frames: seq<Frame>, i: nat, e: Endian)
    requires i < |frames|
    ensures (start + RecordsBytes(frames[..i], e)) + RecordBytes(frames[i], e)
            == start + RecordsBytes(frames[..i + 1], e)
  {
    assert frames[..i + 1] == frames[..i] + [frames[i]];
    RecordsBytesAppend(frames[..i], frames[i], e);
  }

  /**
   * `pcap` called once per frame on an enabled writer, every write
   * completing: the descriptor receives one record per frame, in order.
   */
  method PcapAll(c: Capture, frames: seq<Frame>)
    requires c.Enabled()
    modifies c`out
    ensures Stream(c.out, c.fd) == Stream(old(c.out), c.fd) + RecordsBytes(frames, c.endian)
    ensures forall d :: d != c.fd ==> Stream(c.out, d) == Stream(old(c.out), d)
  {
    ghost var start := Stream(c.out, c.fd);
    ghost var fd := c.fd;
    var i := 0;
    assert start == start + RecordsBytes(frames[..0], c.endian);
    while i < |frames|
      invariant 0 <= i <= |frames|
      invariant c.debug && c.fd == fd && fd != DISABLED_FD
      invariant Stream(c.out, fd) == start + RecordsBytes(frames[..i], c.endian)
      invariant forall d :: d != fd ==> Stream(c.out, d) == Stream(old(c.out), d)
    {
      c.Pcap(frames[i].pkt, frames[i].at, Complete, Complete);
      ExtendPrefix(start, frames, i, c.endian);
      i := i + 1;
    }
    assert frames[..i] == frames;
  }

  /**
   * A capture session: `pcap_init` opens descriptor `fd`, then `pcap` is
   * called once per frame and every write completes. The file then holds
   * exactly the savefile of those frames, which (CaptureRoundTrip) reads
   * back as `pcap_hdr` followed by one untruncated record per frame.
   */
  method CaptureSession(e: Endian, fd: nat, frames: seq<Frame>) returns (file: seq<Byte>)
    ensures file == CaptureBytes(frames, e)
  {
    var c := new Capture(true, e);
    c.PcapInit(Opened(fd), Complete);
    assert Stream(c.out, fd) == c.fileHeader;
    PcapAll(c, frames);
    file := Stream(c.out, fd);
    assert file == c.fileHeader + RecordsBytes(frames, e);
  }

  /**
   * A failed open disables the capture until `pcap_init` runs again, and a
   * build without DEBUG never captures: whatever frames follow, nothing is
   * written anywhere.
   */
  method SilentSession(debug: bool, open: OpenResult, e: Endian, frames: seq<Frame>)
    returns (written: map<int, seq<Byte>>)
    requires !debug || open == OpenFailed
    ensures written == map[]
  {
    var c := new Capture(debug, e);
    c.PcapInit(open, Complete);
    var i := 0;
    while i < |frames|
      invariant 0 <= i <= |frames|
      invariant c.debug == debug && !c.Enabled() && c.out == map[]
    {
      c.Pcap(frames[i].pkt, frames[i].at, Complete, Complete);
      i := i + 1;
    }
    written := c.out;
  }
}
