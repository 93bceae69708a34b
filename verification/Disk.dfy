/** A block device as `dd` sees it. A byte is written as the character with that code. */
module Disk {
  /** The byte offset of a block. */
  function Bytes(blocks: nat): nat {
    4096 * blocks
  }

  const BLOCK := Bytes(1)

  /** How many whole blocks, and whether there is anything over. */
  function Blocks(bytes: nat): (nat, bool) {
    (bytes / 4096, bytes % 4096 != 0)
  }

  /** `conv=notrunc`: the bytes replace what lies under them and nothing else. */
  function Overwrite(d: string, at: nat, bytes: string): (r: string)
    requires at + |bytes| <= |d|
    ensures |r| == |d|
    ensures r[..at] == d[..at] && r[at..at + |bytes|] == bytes && r[at + |bytes|..] == d[at + |bytes|..]
  {
    d[..at] + bytes + d[at + |bytes|..]
  }

  /** Everything outside `[from, to)` is as it was. */
  ghost predicate SameOutside(d: string, d': string, from: nat, to: nat)
    requires from <= to <= |d|
  {
    |d'| == |d| && d'[..from] == d[..from] && d'[to..] == d[to..]
  }

  /** A slice that a write leaves alone reads the same afterwards. */
  lemma SliceOutside(d: string, d': string, from: nat, to: nat, i: nat, j: nat)
    requires from <= to <= |d| && SameOutside(d, d', from, to)
    requires i <= j <= |d| && (j <= from || to <= i)
    ensures d'[i..j] == d[i..j]
  {
    if j <= from {
      assert d'[i..j] == d'[..from][i..j];
      assert d[i..j] == d[..from][i..j];
    } else {
      forall k | i <= k < j ensures d'[k] == d[k] {
        assert d'[k] == d'[to..][k - to] && d[k] == d[to..][k - to];
      }
    }
  }

  method Dd(dev: array<char>, at: nat, bytes: string)
    requires at + |bytes| <= dev.Length
    modifies dev
    ensures dev[..] == Overwrite(old(dev[..]), at, bytes)
    ensures SameOutside(old(dev[..]), dev[..], at, at + |bytes|)
  {
    forall i | 0 <= i < |bytes| {
      dev[at + i] := bytes[i];
    }
    assert dev[..at] == old(dev[..])[..at];
    assert dev[at..at + |bytes|] == bytes;
    assert dev[at + |bytes|..] == old(dev[..])[at + |bytes|..];
  }
}
