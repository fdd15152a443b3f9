/**
 * The constants and epoll reference encodings of the TCP module of PASST.
 *
 * An epoll reference is an opaque 32-bit value handed to the event loop
 * and returned with every readiness notification. For a connection it
 * carries the connection's index in a 20-bit bit-field; for a listening
 * socket it carries the port forwarded to and whether the socket lives in
 * the namespace. Both are C unions: a field is written, the `u32` member is
 * read and stored by the event loop, and later the field is read again.
 *
 * Where bits and bytes physically sit is decided by the ABI: here the
 * index bit-field takes the low 20 bits on a little-endian host and the
 * high 20 bits on a big-endian one, and the listening struct is laid out
 * in host byte order. All properties are stated at the level of fields.
 */
module TcpRef {
  import opened Bytes

  /** TCP_TIMER_INTERVAL: period of the TCP timer, in milliseconds. */
  const TCP_TIMER_INTERVAL_MS: nat := 1000

  /** TCP_CONN_INDEX_BITS: bits of a connection index. */
  const TCP_CONN_INDEX_BITS: nat := 17

  /** Width of the `index` bit-field of `union tcp_epoll_ref`. */
  const EPOLL_INDEX_BITS: nat := 20
  const EPOLL_INDEX_LIMIT: nat := 0x10_0000
  /** The bits of the 32-bit reference outside the `index` bit-field. */
  const EPOLL_REST_LIMIT: nat := 0x1000

  function Pow2(n: nat): (p: nat)
    ensures p >= 1
  {
    if n == 0 then 1 else 2 * Pow2(n - 1)
  }

  /** MAX_FROM_BITS: the largest unsigned value that fits in `bits` bits. */
  function MaxFromBits(bits: nat): nat
  {
    Pow2(bits) - 1
  }

  /** TCP_MAX_CONNS: capacity of the connection table. */
  const TCP_MAX_CONNS: nat := MaxFromBits(TCP_CONN_INDEX_BITS)

  lemma {:induction false} Pow2Add(m: nat, n: nat)
    ensures Pow2(m + n) == Pow2(m) * Pow2(n)
    decreases n
  {
    if n > 0 {
      Pow2Add(m, n - 1);
    }
  }

  /**
   * The timer runs every second, and the table holds at most 2^17 - 1
   * connections, a count whose every index fits the 20-bit field.
   */
  lemma TcpConstants()
    ensures TCP_TIMER_INTERVAL_MS == 1000
    ensures TCP_MAX_CONNS == Pow2(17) - 1 == 131071
    ensures Pow2(EPOLL_INDEX_BITS) == EPOLL_INDEX_LIMIT
    ensures TCP_MAX_CONNS < EPOLL_INDEX_LIMIT
  {
    assert Pow2(4) == 16 by {
      assert Pow2(1) == 2;
      assert Pow2(2) == 4;
    }
    Pow2Add(4, 4);
    Pow2Add(8, 8);
    Pow2Add(16, 1);
    Pow2Add(16, 4);
  }

  /** Reading `ref.index` from a reference whose `u32` is `u`. */
  function IndexOf(u: U32, e: Endian): (i: nat)
    ensures i < EPOLL_INDEX_LIMIT
  {
    if e == Little then u % EPOLL_INDEX_LIMIT else u / EPOLL_REST_LIMIT
  }

  /** The 12 bits of `u` that `ref.index` does not cover. */
  function RestOf(u: U32, e: Endian): (r: nat)
    ensures r < EPOLL_REST_LIMIT
  {
    if e == Little then u / EPOLL_INDEX_LIMIT else u % EPOLL_REST_LIMIT
  }

  /**
   * `ref.index = v` on a reference whose `u32` was `u`: the bit-field keeps
   * v modulo 2^20, as a C assignment to an unsigned bit-field does, and the
   * result is again a 32-bit value.
   */
  function StoreIndex(u: U32, v: int, e: Endian): (r: U32)
    ensures IndexOf(r, e) == v % EPOLL_INDEX_LIMIT
    ensures RestOf(r, e) == RestOf(u, e)
  {
    var field := v % EPOLL_INDEX_LIMIT;
    if e == Little then RestOf(u, e) * EPOLL_INDEX_LIMIT + field
    else field * EPOLL_REST_LIMIT + RestOf(u, e)
  }

  /** The reference a field value and the remaining bits make up. */
  lemma {:induction false} RefOfFields(u: U32, e: Endian)
    ensures u == if e == Little then RestOf(u, e) * EPOLL_INDEX_LIMIT + IndexOf(u, e)
                 else IndexOf(u, e) * EPOLL_REST_LIMIT + RestOf(u, e)
  {
  }

  /**
   * Every connection index from 0 to TCP_MAX_CONNS, stored in a reference,
   * reads back unchanged: the token carries the index losslessly.
   */
  lemma IndexRoundTrip(u: U32, i: int, e: Endian)
    requires 0 <= i <= TCP_MAX_CONNS
    ensures IndexOf(StoreIndex(u, i, e), e) == i
  {
    TcpConstants();
  }

  /** Two distinct legal indices give two distinct tokens. */
  lemma IndexTokensDistinct(u: U32, i: int, j: int, e: Endian)
    requires 0 <= i <= TCP_MAX_CONNS && 0 <= j <= TCP_MAX_CONNS
    ensures StoreIndex(u, i, e) == StoreIndex(u, j, e) <==> i == j
  {
    IndexRoundTrip(u, i, e);
    IndexRoundTrip(u, j, e);
  }

  /** Storing the index a reference already holds gives back the same reference. */
  lemma StoreOwnIndex(u: U32, e: Endian)
    ensures StoreIndex(u, IndexOf(u, e), e) == u
  {
    RefOfFields(u, e);
  }

  /**
   * The struct inside `union tcp_listen_epoll_ref`: the port forwarded to
   * and whether the listening socket is in the namespace.
   */
  datatype ListenRef = ListenRef(port: U16, ns: bool)

  /** Offsets and sizes of the struct's members within the 4-byte union. */
  const LISTEN_PORT_OFFSET: nat := 0
  const LISTEN_PORT_SIZE: nat := 2
  const LISTEN_NS_OFFSET: nat := 2
  const LISTEN_NS_SIZE: nat := 1
  const LISTEN_PAD_OFFSET: nat := 3
  const U32_SIZE: nat := 4

  /**
   * The union's four bytes after its `port` and `ns` members are written:
   * the port in host byte order, the bool as 0 or 1, then one padding byte:
   * no member of the union names it, so tcp.h does not fix its value.
   */
  function ListenStorage(r: ListenRef, pad: Byte, e: Endian): (bs: seq<Byte>)
    ensures |bs| == U32_SIZE
    ensures U16Of(bs[LISTEN_PORT_OFFSET..LISTEN_PORT_OFFSET + LISTEN_PORT_SIZE], e) == r.port
    ensures (bs[LISTEN_NS_OFFSET] != 0) == r.ns
    ensures bs[LISTEN_PAD_OFFSET] == pad
  {
    U16RoundTrip(r.port, e);
    U16Bytes(r.port, e) + [if r.ns then 1 else 0, pad]
  }

  /**
   * The struct's members do not overlap inside the 32-bit value: the port,
   * then the flag, then padding, and writing one member leaves the bytes of
   * the others as they were.
   */
  lemma ListenPayloadFits(r: ListenRef, port: U16, ns: bool, pad: Byte, e: Endian)
    ensures LISTEN_PORT_OFFSET + LISTEN_PORT_SIZE <= LISTEN_NS_OFFSET
    ensures LISTEN_NS_OFFSET + LISTEN_NS_SIZE <= LISTEN_PAD_OFFSET < U32_SIZE
    ensures ListenStorage(r.(ns := ns), pad, e)[LISTEN_PORT_OFFSET..LISTEN_PORT_OFFSET + LISTEN_PORT_SIZE]
            == ListenStorage(r, pad, e)[LISTEN_PORT_OFFSET..LISTEN_PORT_OFFSET + LISTEN_PORT_SIZE]
    ensures ListenStorage(r.(port := port), pad, e)[LISTEN_NS_OFFSET..]
            == ListenStorage(r, pad, e)[LISTEN_NS_OFFSET..]
  {
  }

  /** Reading `ref.u32` after writing `port` and `ns`. */
  function ListenToken(r: ListenRef, pad: Byte, e: Endian): (u: U32)
    ensures U32Bytes(u, e) == ListenStorage(r, pad, e)
  {
    U32BytesRoundTrip(ListenStorage(r, pad, e), e);
    U32Of(ListenStorage(r, pad, e), e)
  }

  /**
   * Reading `port` and `ns` from a reference whose `u32` is `u`. A bool
   * byte other than 0 reads as true.
   */
  function ListenOf(u: U32, e: Endian): (r: ListenRef)
    ensures U16Bytes(r.port, e)
            == U32Bytes(u, e)[LISTEN_PORT_OFFSET..LISTEN_PORT_OFFSET + LISTEN_PORT_SIZE]
    ensures r.ns <==> U32Bytes(u, e)[LISTEN_NS_OFFSET] != 0
  {
    var bs := U32Bytes(u, e);
    U16BytesRoundTrip(bs[LISTEN_PORT_OFFSET..LISTEN_PORT_OFFSET + LISTEN_PORT_SIZE], e);
    ListenRef(U16Of(bs[LISTEN_PORT_OFFSET..LISTEN_PORT_OFFSET + LISTEN_PORT_SIZE], e),
              bs[LISTEN_NS_OFFSET] != 0)
  }

  /**
   * A listening reference made from any port and flag, whatever its padding
   * byte, comes back from the event loop with the same port and flag.
   */
  lemma ListenRoundTrip(r: ListenRef, pad: Byte, e: Endian)
    ensures ListenOf(ListenToken(r, pad, e), e) == r
  {
    U32BytesRoundTrip(ListenStorage(r, pad, e), e);
  }

  /**
   * Every token whose flag byte is 0 or 1 is the token of the port and
   * flag read from it, with its own padding byte.
   */
  lemma ListenTokenOfFields(u: U32, e: Endian)
    requires U32Bytes(u, e)[LISTEN_NS_OFFSET] <= 1
    ensures ListenToken(ListenOf(u, e), U32Bytes(u, e)[LISTEN_PAD_OFFSET], e) == u
  {
    var bs := U32Bytes(u, e);
    U16BytesRoundTrip(bs[..2], e);
    assert ListenStorage(ListenOf(u, e), bs[3], e) == bs;
    U32RoundTrip(u, e);
  }
}
