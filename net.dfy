/** Model of the `Packet` of the `net` module: a received or outgoing UDP
    payload together with the socket address it came from. */
module Net {
  import opened Encoding

  type u16 = x: int | 0 <= x < 0x1_0000

  type Octets4 = s: seq<byte> | |s| == 4 witness [0, 0, 0, 0]

  type Octets16 = s: seq<byte> | |s| == 16
    witness [0, 0, 0, 0, 0, 0, 0, 0, 0, 0, 0, 0, 0, 0, 0, 0]

  /** `std::net::IpAddr`: four octets for IPv4, sixteen for IPv6. */
  datatype IpAddr = V4(v4: Octets4) | V6(v6: Octets16)

  /** `std::net::SocketAddr`: an IP address and a port. */
  datatype SocketAddr = SocketAddr(ip: IpAddr, port: u16)

  /** `0.0.0.0:0`, the source of a packet nobody has received. */
  const Unspecified: SocketAddr := SocketAddr(V4([0, 0, 0, 0]), 0)

  class Packet {
    var data: seq<byte>
    var from: SocketAddr

    /** `Packet::new`: no payload, unspecified source. */
    constructor ()
      ensures Bytes() == [] && From() == Unspecified
    {
      data := [];
      from := Unspecified;
    }

    /** `Packet::from_bytes`: a copy of `d` as payload, unspecified source. */
    constructor FromBytes(d: seq<byte>)
      ensures Bytes() == d && From() == Unspecified
    {
      data := d;
      from := Unspecified;
    }

    /** `Packet::from`. */
    function From(): (a: SocketAddr)
      reads this
      ensures a == from
    {
      from
    }

    /** `Packet::bytes`. */
    function Bytes(): (d: seq<byte>)
      reads this
      ensures d == data
    {
      data
    }

    /** `Packet::set_from`: replaces the source only; returns the packet
        itself so that calls can be chained. */
    method SetFrom(addr: SocketAddr) returns (self: Packet)
      modifies this
      ensures From() == addr && Bytes() == old(Bytes())
      ensures self == this
    {
      from := addr;
      self := this;
    }

    /** `Packet::set_bytes`: replaces the payload by a copy of `d` only. */
    method SetBytes(d: seq<byte>)
      modifies this
      ensures Bytes() == d && From() == old(From())
    {
      data := d;
    }

    /** `Clone::clone`: a new packet with an equal payload and source; the
        original is untouched. */
    method Clone() returns (p: Packet)
      ensures fresh(p)
      ensures p.Bytes() == Bytes() && p.From() == From()
    {
      p := new Packet.FromBytes(data);
      p.from := from;
    }

    /** `Display::fmt`: the payload as upper-case hex, two digits per byte;
        the same text as `Bytes::to_hexstring` of the payload. */
    function ToString(): (s: string)
      reads this
      ensures s == ToHex(Bytes())
      ensures |s| == 2 * |Bytes()| && IsUpperHex(s)
    {
      RenderIsToHex(data);
      ToHexAt(data);
      ToHexIsUpperHex(data);
      Render(data)
    }
  }

  /** What `Display::fmt` writes: each byte formatted with `{:02X}`, from the
      first byte to the last. */
  function Render(d: seq<byte>): string
  {
    if d == [] then "" else HexPair(d[0]) + Render(d[1..])
  }

  /** Appending a byte appends its pair to the rendering. */
  lemma {:induction false} RenderSnoc(d: seq<byte>, b: byte)
    ensures Render(d + [b]) == Render(d) + HexPair(b)
  {
    if d != [] {
      assert (d + [b])[1..] == d[1..] + [b];
      RenderSnoc(d[1..], b);
    } else {
      assert [b][1..] == [];
    }
  }

  /** The packet's rendering coincides with `Bytes::to_hexstring`. */
  lemma {:induction false} RenderIsToHex(d: seq<byte>)
    ensures Render(d) == ToHex(d)
  {
    if d != [] {
      var init := d[..|d| - 1];
      RenderIsToHex(init);
      RenderSnoc(init, d[|d| - 1]);
      assert init + [d[|d| - 1]] == d;
    }
  }
}
