/**
  The arithmetic of the IPv4 destination endpoint (src/handlers.rs): the
  destination address is the source address plus the key, octet by octet,
  each sum wrapping around modulo 256.
 */
module Handlers {
  import opened Numeric

  /** `Ipv4Addr::octets`: four octets, most significant first. */
  type Octets = s: seq<u8> | |s| == 4 witness [0, 0, 0, 0]

  /** `u8::wrapping_add`. */
  function WrappingAdd(a: u8, b: u8): (r: u8)
    ensures r == (a + b) % 256
    ensures a + b < 256 ==> r == a + b
  {
    if a + b < 256 then a + b else a + b - 256
  }

  /** `u8::wrapping_sub`. */
  function WrappingSub(a: u8, b: u8): (r: u8)
    ensures r == (a - b) % 256
  {
    if a >= b then a - b else a - b + 256
  }

  /** `ipv4_octets_zip_with!`: `f` applied to the octets at each of the four positions. */
  function ZipWith(f: (u8, u8) -> u8, l: Octets, r: Octets): (d: Octets)
    ensures forall i :: 0 <= i < 4 ==> d[i] == f(l[i], r[i])
  {
    [f(l[0], r[0]), f(l[1], r[1]), f(l[2], r[2]), f(l[3], r[3])]
  }

  /** The destination `ipv4_dest` computes from `from` and `key`. */
  function Ipv4Dest(from: Octets, key: Octets): (d: Octets)
    ensures forall i :: 0 <= i < 4 ==> d[i] == (from[i] as int + key[i]) % 256
  {
    ZipWith(WrappingAdd, from, key)
  }

  /** The key recovered from a source and a destination: the octet-wise difference. */
  function Ipv4Key(from: Octets, dest: Octets): (k: Octets)
    ensures forall i :: 0 <= i < 4 ==> k[i] == (dest[i] as int - from[i]) % 256
  {
    ZipWith(WrappingSub, dest, from)
  }

  /** An octet of the destination depends only on the octets of `from` and `key` at its position. */
  lemma OctetsIndependent(from: Octets, key: Octets, from': Octets, key': Octets, i: nat)
    requires i < 4 && from[i] == from'[i] && key[i] == key'[i]
    ensures Ipv4Dest(from, key)[i] == Ipv4Dest(from', key')[i]
  {
  }

  /** The key 0.0.0.0 leaves the address unchanged. */
  lemma ZeroKey(from: Octets)
    ensures Ipv4Dest(from, [0, 0, 0, 0]) == from
  {
  }

  /** Source and key play the same part. */
  lemma Ipv4DestCommutes(from: Octets, key: Octets)
    ensures Ipv4Dest(from, key) == Ipv4Dest(key, from)
  {
  }

  /** Subtracting the key octet-wise from the destination gives the source back. */
  lemma SubtractKey(from: Octets, key: Octets)
    ensures ZipWith(WrappingSub, Ipv4Dest(from, key), key) == from
  {
    var d := Ipv4Dest(from, key);
    forall i | 0 <= i < 4
      ensures WrappingSub(d[i], key[i]) == from[i]
    {
      if from[i] as int + key[i] >= 256 {
        assert d[i] == from[i] as int + key[i] - 256;
      }
    }
  }

  /** The key is determined by the source and the destination. */
  lemma KeyRoundTrip(from: Octets, key: Octets)
    ensures Ipv4Key(from, Ipv4Dest(from, key)) == key
    ensures Ipv4Dest(from, Ipv4Key(from, key)) == key
  {
    var d := Ipv4Dest(from, key);
    forall i | 0 <= i < 4
      ensures WrappingSub(d[i], from[i]) == key[i]
    {
      if from[i] as int + key[i] >= 256 {
        assert d[i] == from[i] as int + key[i] - 256;
      }
    }
    var k := Ipv4Key(from, key);
    forall i | 0 <= i < 4
      ensures WrappingAdd(from[i], k[i]) == key[i]
    {
      if key[i] < from[i] {
        assert k[i] == key[i] as int - from[i] + 256;
      }
    }
  }
}
