/** The geometry of a packed 4:2:2 frame, and the bytes that it is made of. */
module VideoFormat {

  type Byte = x: int | 0 <= x < 256
  type U16 = x: int | 0 <= x < 0x1_0000

  datatype Option<+T> = None | Some(value: T)

  datatype Sampling = YCbCr422_10 | YCbCr422_8

  datatype Format = Format(width: nat, height: nat, sampling: Sampling) {
    /** A pgroup is two pixels: five octets at 10 bits, four at 8. */
    function Pgroup(): (pg: nat)
      ensures pg in {4, 5}
    {
      if sampling == YCbCr422_8 then 4 else 5
    }

    function OctetsOf(pgroups: nat): nat {
      if sampling == YCbCr422_8 then 4 * pgroups else 5 * pgroups
    }

    function PgroupsIn(octets: nat): nat {
      if sampling == YCbCr422_8 then octets / 4 else octets / 5
    }

    /** The octets are a whole number of pgroups. */
    predicate Whole(octets: nat) {
      if sampling == YCbCr422_8 then octets % 4 == 0 else octets % 5 == 0
    }

    /** The whole pgroups among the octets. */
    function RoundDown(octets: nat): (r: nat)
      ensures Whole(r) && r <= octets
    {
      OctetsOf(PgroupsIn(octets))
    }

    function LineOctets(): nat {
      OctetsOf(width / 2)
    }

    function FrameOctets(): nat {
      LineOctets() * height
    }

    function ByteOffset(line: nat, offset: nat): nat {
      line * LineOctets() + OctetsOf(offset / 2)
    }

    /** One segment per packet, never across a line: IP10 always, and anything from 2160 lines up. */
    predicate LineAligned() {
      sampling == YCbCr422_8 || height >= 2160
    }
  }

  /** `data` written over `frame` at position `at`. */
  function Overwrite<T>(frame: seq<T>, at: nat, data: seq<T>): (r: seq<T>)
    requires at + |data| <= |frame|
    ensures |r| == |frame|
    ensures forall b :: 0 <= b < |frame| ==> r[b] == if at <= b < at + |data| then data[b - at] else frame[b]
  {
    frame[..at] + data + frame[at + |data|..]
  }
}
