# PASST packet capture and TCP epoll references, in Dafny

This project models two small pieces of PASST (Plug A Simple Socket Transport), the user-space
network bridge that carries a guest's tap traffic over host sockets:

- **The packet capture writer** (`pcap.c`). It writes a libpcap savefile as laid out in
  pcap-savefile(5): a 24-byte global header, then, for every frame, a 16-byte record header
  and the frame's bytes. Its only state is the descriptor `pcap_fd`. The descriptor starts as
  standard output (1). `pcap_init` sets it to the capture file, or to -1 when the file cannot
  be opened, and `pcap` writes nothing while it is -1. A build without `DEBUG` makes both
  functions empty.
- **The TCP epoll references and constants** (`tcp.h`). An epoll reference is the opaque
  32-bit value the event loop returns with each readiness event. For a connection it carries
  the connection index in a 20-bit bit-field. For a listening socket it carries the port
  forwarded to and a namespace flag. The connection table holds `TCP_MAX_CONNS = 2^17 - 1`
  entries, and the TCP timer runs every 1000 ms.

Files and modules:

- `bytes.dfy`, module `Bytes`: C integers in memory. A `uint16_t`, `uint32_t` or `int32_t` is
  laid out in host byte order (`Endian`: `Little` or `Big`). Conversion to `uint32_t` is
  reduction modulo 2^32. Both byte orders are proved to round-trip.
- `pcap_format.dfy`, module `PcapFormat`: the savefile layout as pure functions. It holds the
  global header value `PCAP_HDR`, the record header the writer fills in (`RecordHeaderOf`), and
  the bytes of one record and of a whole capture. It also holds a reader (`ParseRecords`,
  `ParseCapture`), the writer's inverse. When every write completes and every frame is
  shorter than 2^32 bytes, what the writer produces reads back as `pcap_hdr` followed by the
  frames, in order and untruncated.
- `pcap_writer.dfy`, module `PcapWriter`: the writer as a class `Capture`. Its fields are the
  build flag `debug`, the host byte order, the bytes of the static `pcap_hdr`, the descriptor
  `fd` (`pcap_fd`), and `out`: the bytes appended so far to each descriptor. The clock reading,
  the result of open(2) and the outcome of each write(2) are inputs.
- `tcp_ref.dfy`, module `TcpRef`: the `tcp.h` constants and the two union encodings, stated
  field by field.

Model notes:

- The raw structs are written in host byte order, so every layout takes the byte order as a
  parameter. The physical position of the 20-bit `index` bit-field depends on the ABI. The
  model puts it in the low 20 bits on a little-endian host and in the high 20 bits on a
  big-endian one. Every lemma about it is stated at field level, so it holds under either
  placement.
- The listening struct has a `uint16_t` port at offset 0 and a `bool` at offset 2. Byte 3 is
  padding: no member of the union names it, so `tcp.h` does not fix its value. So the `u32`
  of a listening reference depends on that byte, and the model keeps it as a parameter.
  Reading the port and flag back does not depend on it (`ListenRoundTrip`). But two
  references with the same port and flag are equal as 32-bit values only when their padding
  bytes agree.
- `union tcp_epoll_ref` (`tcp.h:36-39`) carries only the connection index; which side an event
  came from is not part of it.

## Model

| member | source | states |
|---|---|---|
| `PcapFormat.FileHeaderBytes` | pcap.c:39-58 | The raw image of the global header struct that `pcap_init` writes: 24 bytes, with no padding between the seven fields (`FileHeaderRoundTrip` shows each field sits in host byte order at its offset). |
| `PcapFormat.RecordHeaderBytes` | pcap.c:60-65 | The raw image of `struct pcap_pkthdr` written first by `pcap`: 16 bytes, four `uint32_t` fields with no padding. |
| `PcapFormat.RecordBytes` | pcap.c:80-81 | What the two writes of `pcap` append when both complete: the 16-byte record header the writer fills in for the frame, then exactly the frame's bytes. |
| `PcapFormat.FileHeaderLayout` | pcap.c:39-58 | The global header is 24 bytes. Its fields, in order, are magic 0xa1b2c3d4, version 2.4, thiszone 0, sigfigs 0, snaplen ETH_MAX_MTU (65535) and linktype 1 (Ethernet). |
| `PcapFormat.MagicBytes` | pcap.c:39-41 | The first four bytes of the file are the magic in host order: d4 c3 b2 a1 on a little-endian host, a1 b2 c3 d4 on a big-endian one. |
| `PcapFormat.FileHeaderRoundTrip` | pcap.c:39-55 | Every global header written as a raw struct reads back field for field, in either byte order. |
| `PcapFormat.RecordHeaderOf` | pcap.c:75-78 | The record header of a frame has caplen equal to len. len agrees with the frame length, and the timestamp fields agree with the clock's seconds and microseconds, each modulo 2^32. |
| `PcapFormat.RecordHeaderFields` | pcap.c:76-78 | For a frame shorter than 2^32 bytes, caplen and len both equal the frame length, so nothing is cut to snaplen. A clock reading within 32 bits is stored as is. |
| `PcapFormat.RecordHeaderRoundTrip` | pcap.c:60-65 | The 16-byte `struct pcap_pkthdr` reads back field for field. |
| `PcapFormat.RecordRoundTrip` | pcap.c:80-81 | One record, the header then the frame bytes, reads back as that header and all of the frame, whatever follows it. |
| `PcapFormat.RecordsRoundTrip` | pcap.c:67-82 | The records of any frames shorter than 2^32 bytes read back as exactly those frames, in order. |
| `PcapFormat.CaptureAppend` | pcap.c:80-81 | Capturing one more frame appends exactly its record to the savefile. |
| `PcapFormat.CaptureRoundTrip` | pcap.c:67-108 | A savefile made of the global header and one record per frame reads back as `pcap_hdr` followed by those frames, in order, each at full length. |
| `PcapWriter.Capture.constructor` | pcap.c:36 | The descriptor starts as 1 (standard output), not disabled, and nothing has been written. |
| `PcapWriter.Capture.PcapInit` | pcap.c:99-108 | After a successful open, the descriptor is the new file and only the 24-byte global header (the bytes of `pcap_hdr`, which `Valid()` ties to the writer's byte order) is appended to it, once; no other descriptor changes. After a failed open, the descriptor is -1 and nothing is written. Without DEBUG, nothing changes. |
| `PcapWriter.Capture.Pcap` | pcap.c:67-82 | When enabled, the descriptor receives the 16-byte record header and then the frame bytes, in that order, each cut short only by its own write's outcome. When disabled (fd -1, or no DEBUG), nothing is written. The descriptor never changes, and write failures are ignored. |
| `PcapWriter.PcapAll` | pcap.c:67-82 | On an enabled writer, with every write completing, capturing frames one after another appends their records to the current descriptor, in order, and leaves every other descriptor unchanged. |
| `PcapWriter.CaptureSession` | pcap.c:84-109 | In a DEBUG build, with a successful open and every write completing, `pcap_init` then `pcap` for each frame appends to the new descriptor exactly the savefile of those frames. The model records only what this writer appends, not what the file held before (the file is opened with `O_APPEND`). |
| `PcapWriter.SilentSession` | pcap.c:99-117 | After a failed open, or in a build without DEBUG, no later `pcap` call writes anything to any descriptor. |
| `TcpRef.TcpConstants` | tcp.h:9-12 | The timer interval is 1000 ms. `TCP_MAX_CONNS` is 2^17 - 1 = 131071, which is below 2^20, the range of the index field. |
| `TcpRef.IndexOf` | tcp.h:37 | Reading `ref.index` from a reference's `u32` gives a value below 2^20, the range of the 20-bit bit-field. |
| `TcpRef.RestOf` | tcp.h:36-39 | The bits of the `u32` outside the `index` bit-field form a value below 2^12. |
| `TcpRef.StoreIndex` | tcp.h:37 | Storing any value in the 20-bit `index` field (`ref.index = v`) keeps exactly that value modulo 2^20 and leaves the other 12 bits of the `u32` unchanged. |
| `TcpRef.IndexRoundTrip` | tcp.h:11-12 | Every connection index from 0 to `TCP_MAX_CONNS`, stored in a reference, reads back unchanged. |
| `TcpRef.IndexTokensDistinct` | tcp.h:36-39 | Two legal indices stored in the same reference give the same `u32` exactly when they are equal. |
| `TcpRef.StoreOwnIndex` | tcp.h:36-39 | Storing the index a reference already holds leaves its `u32` unchanged. |
| `TcpRef.ListenStorage` | tcp.h:47-53 | After `port` and `ns` are written, the union's four bytes hold the port in bytes 0-1, the flag in byte 2 (nonzero exactly when it is set) and the padding in byte 3. |
| `TcpRef.ListenPayloadFits` | tcp.h:48-52 | The 16-bit port and the one-byte bool fit, without overlapping, inside the 32-bit opaque value: writing a different `ns` leaves the port's bytes as they were, and writing a different `port` leaves the flag and padding bytes as they were. |
| `TcpRef.ListenToken` | tcp.h:52 | Reading `ref.u32` after writing `port` and `ns` gives the 32-bit value whose four bytes in memory are exactly the union's storage: the port, the flag, then the padding. |
| `TcpRef.ListenOf` | tcp.h:48-51 | Reading `port` and `ns` from a reference's `u32`: the port is the one whose bytes are bytes 0-1 of the value, and the flag is set exactly when byte 2 is nonzero. |
| `TcpRef.ListenRoundTrip` | tcp.h:47-53 | Any port and flag, carried through the opaque `u32`, read back as the same port and flag, whatever the padding byte. |
| `TcpRef.ListenTokenOfFields` | tcp.h:47-53 | Every `u32` whose flag byte is 0 or 1 is the token built from the port and flag read from it, together with its own padding byte. |

## Left out

- The bodies behind the `tcp.h` prototypes (`tcp_tap_handler`, `tcp_sock_handler`, `tcp_timer`, `tcp_sock_init` and the rest) live in tcp.c, which is not part of this model. So the connection table, sequence translation, splicing and aging are not modelled.
- `struct tcp_ctx` (`tcp.h:66-76`) only declares fields, and no behaviour over them is visible, so it is not modelled.
- `netlink.h` and `tap.h` declare I/O functions only, so they are not modelled.
- The capture file name (`pcap.c:86-97`) is built with `localtime`, `strftime` and `snprintf`, which are library and time-zone calls, so it is not modelled. With it goes `pcap_init`'s `sock_index` argument.
- The open(2) flags and mode, `perror` and `info` logging, and `gettimeofday` are left out. The open result and the clock reading are inputs.
- `MAX_FROM_BITS` (util.h) and `ETH_MAX_MTU` (`<linux/if_ether.h>`) are defined outside the modelled files. The model takes them to be 2^n - 1 and 65535.
- The non-DEBUG `pcap_init` takes no argument, while the DEBUG one takes `sock_index`. The model gives both builds one signature and switches on `debug`.
- `PcapWriter.Capture.Pcap`: a write(2) outcome is modelled as complete, short (a prefix of the buffer) or failed. Errors that change other descriptors are not modelled.
- `PcapFormat.CaptureRoundTrip`: stated only for frames shorter than 2^32 bytes. For a longer frame, `len` and `caplen` wrap modulo 2^32 while every byte is still written, so the file does not read back.
- `TcpRef.ListenOf`: a flag byte other than 0 or 1 reads as true. C leaves such a `bool` undefined.
