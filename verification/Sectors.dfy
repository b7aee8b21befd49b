// Sectors of 512 bytes, the unit of every disk transfer.
module Sectors {

  const SECTOR_SIZE := 512

  type Byte = b: int | 0 <= b < 256

  type Sector = s: seq<Byte> | |s| == SECTOR_SIZE witness seq(SECTOR_SIZE, _ => 0)

  const ZERO_SECTOR: Sector := seq(SECTOR_SIZE, _ => 0)

  // The device contents after `data` has been stored from sector `at` on.
  function Stored<T>(device: seq<T>, at: nat, data: seq<T>): (r: seq<T>)
    requires at + |data| <= |device|
    ensures |r| == |device|
  {
    device[..at] + data + device[at + |data|..]
  }

  lemma StoredAt<T>(device: seq<T>, at: nat, data: seq<T>)
    requires at + |data| <= |device|
    ensures forall i :: 0 <= i < |device| ==>
              Stored(device, at, data)[i] == if at <= i < at + |data| then data[i - at] else device[i]
  {
  }

  lemma StoredNothing<T>(device: seq<T>, at: nat, nothing: seq<T>)
    requires at <= |device| && nothing == []
    ensures Stored(device, at, nothing) == device
  {
  }

  lemma StoredNext<T>(device: seq<T>, at: nat, data: seq<T>, a: nat, k: nat)
    requires at + |data| <= |device| && a <= k < |data|
    ensures Stored(device, at + a, data[a..k])[at + k := data[k]] == Stored(device, at + a, data[a..k + 1])
  {
  }

  // Storing the two ends and then the middle stores everything.
  lemma StoredInThreeParts<T>(device: seq<T>, at: nat, data: seq<T>, a: nat, b: nat)
    requires at + |data| <= |device| && a <= b <= |data|
    ensures Stored(Stored(Stored(device, at, data[..a]), at + b, data[b..]), at + a, data[a..b]) ==
            Stored(device, at, data)
  {
  }
}
