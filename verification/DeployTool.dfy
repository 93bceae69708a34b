/** The deploy tools themselves: the device they write, and what a run of them guarantees. */
module DeployTool {
  import opened Common
  import opened Disk
  import opened Deploy
  import opened DeploySafety

  /** A writable device the deploy tools run against, with the log of what reached it. */
  class Target {
    const data: array<char>
    ghost var writes: seq<Write>

    constructor (data: array<char>)
      ensures this.data == data && writes == []
    {
      this.data := data;
      writes := [];
    }

    ghost function Now(): State
      reads this, data
    {
      State(data[..], writes)
    }

    /** A bulk write of which only the first `landed` bytes arrive. */
    method Send(at: nat, bytes: string, landed: nat)
      requires at + |bytes| <= data.Length
      modifies this, data
      ensures Now() == Log(old(Now()), Write(at, Take(bytes, landed)))
    {
      Dd(data, at, Take(bytes, landed));
      writes := writes + [Write(at, Take(bytes, landed))];
    }

    method Hash(at: nat, n: nat, reply: Reply) returns (got: Answer)
      ensures got == Answered(reply, ReadAt(data[..], at, n))
    {
      got := Empty;
      if reply.Garbled? {
        got := Junk;
      } else if reply.Faithful? {
        got := Digest(ReadAt(data[..], at, n));
      }
    }

    method Attempt(img: string, at: nat, n: nat, tr: Transport, t: Try) returns (v: Verdict)
      requires at + |Chunk(img, at, n)| <= data.Length
      modifies this, data
      ensures Now() == Log(old(Now()), Sent(img, at, n, t))
      ensures v == Judge(data[..], img, at, n, tr, t)
    {
      Send(at, Chunk(img, at, n), t.landed);
      if tr.Ssh? && t.reported {
        return Again;
      }
      if tr.Adb? && !t.after {
        return Gone;
      }
      var got := Hash(at, n, t.reply);
      if got == Empty {
        return Again;
      }
      if got == Digest(Chunk(img, at, n)) {
        return Good;
      }
      return Again;
    }

    method TryChunk(img: string, at: nat, n: nat, tr: Transport, s: ChunkScript) returns (ok: bool)
      requires at + |Chunk(img, at, n)| <= data.Length
      modifies this, data
      ensures Outcome(Now(), ok) == DoChunk(old(Now()), img, at, n, tr, s)
    {
      if tr.Adb? && !s.up {
        return false;
      }
      var got := Hash(at, n, s.first);
      if got == Digest(Chunk(img, at, n)) {
        return true;
      }
      for k := 0 to TRIES
        invariant Tries(Now(), img, at, n, tr, s.tries[k..]) == Tries(old(Now()), img, at, n, tr, s.tries)
      {
        var t := s.tries[k];
        assert s.tries[k..][0] == t && s.tries[k..][1..] == s.tries[k + 1..];
        if tr.Adb? && !t.before {
          return false;
        }
        var v := Attempt(img, at, n, tr, t);
        if v.Good? {
          return true;
        }
        if v.Gone? {
          return false;
        }
      }
      return false;
    }

    /** The loop over every chunk but the first. */
    method TrailingChunks(img: string, total: nat, tr: Transport, script: Script) returns (ok: bool)
      requires Bytes(total) == |img| <= data.Length
      modifies this, data
      ensures Outcome(Now(), ok) == Trailing(old(Now()), img, tr, script, 1)
    {
      var blk, n := CHUNK, 1;
      while blk < total
        invariant n >= 1 && (Bytes(blk) == Offset(n) || (total <= blk && |img| <= Offset(n)))
        invariant Trailing(Now(), img, tr, script, n) == Trailing(old(Now()), img, tr, script, 1)
      {
        var cnt := CHUNK;
        var rem := total - blk;
        if rem < CHUNK {
          cnt := rem;
        }
        assert Bytes(cnt) == Length(img, n);
        ghost var before := Now();
        var done := TryChunk(img, Bytes(blk), Bytes(cnt), tr, script(n));
        assert Outcome(Now(), done) == OneChunk(before, img, tr, script, n);
        if !done {
          return false;
        }
        blk := blk + cnt;
        n := n + 1;
      }
      return true;
    }

    /** The whole tool. The writes logged are the bulk ones; the magic is zeroed before the first. A guard
        that fails, a size in no whole blocks or one that reaches the log ring leaves the device alone. With
        neither in the way the exit status tells exactly whether every chunk could be done. */
    method Deploy(img: string, guards: bool, tr: Transport, script: Script) returns (ok: bool)
      requires data.Length >= Bytes(LOG_SLOT_A) && writes == []
      modifies this, data
      ensures Outcome(Now(), ok) == Run(old(data[..]), img, guards, tr, script)
      ensures !guards || |img| % 4096 != 0 || |img| > 4096 * 4194304 ==> !ok && data[..] == old(data[..]) && writes == []
      ensures guards && |img| % 4096 == 0 && |img| <= 4096 * 4194304 ==>
                (ok <==> |img| >= 33554432 && forall k: nat :: 33554432 * k < |img| ==> Done(Zeroed(old(data[..])), img, tr, script, k))
      ensures ok ==> data[..] == img + old(data[..])[|img|..]
      ensures data[4096 * 4194304..] == old(data[..])[4096 * 4194304..]
    {
      var (total, over) := Blocks(|img|);
      if over {
        return false;
      }
      if total > LOG_SLOT_A || !guards {
        return false;
      }
      SucceedsExactlyWhen(data[..], img, tr, script);
      WhatARunLeaves(data[..], img, tr, script);
      hide Done;
      Dd(data, MAGIC_OFFSET, "\0\0");
      var done := TrailingChunks(img, total, tr, script);
      var fail := !done;
      if !fail {
        done := TryChunk(img, 0, Bytes(CHUNK), tr, script(0));
        if !done {
          fail := true;
        }
      }
      return !fail;
    }
  }
}
