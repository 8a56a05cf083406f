/** The HCI adapter as the firmware has it: a 1024-byte buffer served byte-wise. */
module Hci {
  import opened Bytes
  import opened HciSpec

  /** What the radio controller has queued for the host. */
  class Controller {
    var queue: seq<Packet>

    constructor (queue: seq<Packet>)
      ensures this.queue == queue
    {
      this.queue := queue;
    }

    /** The next packet, or nothing. */
    method Next() returns (p: Packet)
      modifies this
      ensures p == (if old(queue) == [] then [] else old(queue)[0])
      ensures queue == (if old(queue) == [] then [] else old(queue)[1..])
    {
      if queue == [] { return []; }
      p, queue := queue[0], queue[1..];
    }
  }

  class BufferedHci {
    const inner: Controller
    const buf: array<byte>
    var start: nat
    var end: nat

    ghost predicate Valid()
      reads this, inner
    {
      buf.Length == BUF && start <= end <= BUF && Small(inner.queue)
    }

    /** Everything the host has still to read. */
    ghost function Ahead(): seq<byte>
      requires Valid()
      reads this, inner, buf
    {
      buf[start..end] + Drain(inner.queue)
    }

    constructor (inner: Controller)
      requires Small(inner.queue)
      ensures Valid() && this.inner == inner && fresh(buf) && Ahead() == Drain(inner.queue)
    {
      this.inner := inner;
      buf := new byte[BUF](_ => 0);
      start, end := 0, 0;
    }

    /** The gathering loop of `fill`, from a first fragment in the buffer. */
    method GatherRest(want: nat) returns (stray: seq<byte>)
      requires Valid() && ACL_HDR <= end
      modifies this`end, buf, inner
      ensures Valid() && end >= old(end)
      ensures (buf[..end], stray, inner.queue) == Gather(old(buf[..end]), want, [], old(inner.queue))
    {
      hide Absorb, Gather;
      stray := [];
      while end - ACL_HDR < want && inner.queue != []
        invariant Valid() && old(end) <= end && |stray| <= STRAY
        invariant Gather(buf[..end], want, stray, inner.queue) == Gather(old(buf[..end]), want, [], old(inner.queue))
        decreases |inner.queue|
      {
        ghost var q, was, aside := inner.queue, buf[..end], stray;
        GatherStep(was, want, aside, q);
        var m := inner.Next();
        stray := TakeIn(m, stray);
        assert (buf[..end], stray) == Absorb(was, aside, q[0]);
      }
      GatherEnds(buf[..end], want, stray, inner.queue);
    }

    method TakeIn(m: Packet, stray: seq<byte>) returns (aside: seq<byte>)
      requires Valid() && ACL_HDR <= end && |stray| <= STRAY
      modifies this`end, buf
      ensures Valid() && (buf[..end], aside) == Absorb(old(buf[..end]), stray, m) && end >= old(end)
    {
      aside := stray;
      if m == [] {
      } else if Continuation(m) {
        var k := Min(|m| - ACL_HDR, buf.Length - end);
        CopyInto(buf, end, m[ACL_HDR..ACL_HDR + k]);
        end := end + k;
        assert buf[..end] == old(buf[..end]) + m[ACL_HDR..ACL_HDR + k];
      } else if |stray| + |m| <= STRAY {
        aside := stray + m;
      }
    }

    /** Complete the first fragment in the buffer: its new length, then what came in between. */
    method Complete()
      requires Valid() && start == 0 && ACL_HDR <= end && NeedsMore(buf[..end])
      modifies this`end, buf, inner
      ensures Valid()
      ensures var (b, stray, rest) := Gather(old(buf[..end]), Wanted(old(buf[..end])), [], old(inner.queue));
              buf[..end] == Relabel(b) + stray[..Min(|stray|, BUF - |b|)] && inner.queue == rest
    {
      hide Gather, Relabel;
      var want := FromLe16([buf[5], buf[6]]) + 4;
      assert [buf[5], buf[6]] == buf[..end][5..7];
      var stray := GatherRest(want);
      ghost var b := buf[..end];
      CopyInto(buf, 3, Le16(end - ACL_HDR));
      RelabelPrefix(buf[..], b);
      ghost var labelled := buf[..end];
      assert labelled == Relabel(b);
      var k := Min(|stray|, buf.Length - end);
      CopyInto(buf, end, stray[..k]);
      end := end + k;
      assert buf[..end] == labelled + stray[..k];
    }

    /** `fill` */
    method Fill()
      requires Valid() && start == end
      modifies this, buf, inner
      ensures Valid() && start == 0 && (buf[..end], inner.queue) == HciSpec.Fill(old(inner.queue))
    {
      hide Gather, Relabel, NeedsMore;
      if inner.queue == [] {
        start, end := 0, 0;
        return;
      }
      ghost var queue := inner.queue;
      var p := inner.Next();
      CopyInto(buf, 0, p);
      start, end := 0, |p|;
      assert buf[..end] == p;
      if NeedsMore(p) {
        LongEnough(p);
        Complete();
      }
      assert buf[..end] == HciSpec.Fill(queue).0 && inner.queue == HciSpec.Fill(queue).1;
    }

    /** `read`: as many bytes as asked for and ready, after a refill if none were. */
    method Read(max: nat) returns (out: seq<byte>)
      requires Valid()
      modifies this, buf, inner
      ensures Valid() && |out| <= max && old(Ahead()) == out + Ahead()
      ensures (out, buf[start..end], inner.queue) == Serve(old(buf[start..end]), old(inner.queue), max)
      ensures max > 0 && old(start) < old(end) ==> out != []
    {
      hide HciSpec.Fill;
      ghost var rest, queue := buf[start..end], inner.queue;
      DrainStep(queue);
      if start == end { Fill(); }
      ghost var ready := buf[start..end];
      assert (ready, inner.queue) == if rest == [] then HciSpec.Fill(queue) else (rest, queue);
      var n := Min(max, end - start);
      out := buf[start..start + n];
      start := start + n;
      assert out == ready[..n] && buf[start..end] == ready[n..];
      assert ready == out + ready[n..];
    }
  }

  lemma DrainStep(queue: seq<Packet>)
    requires Small(queue)
    ensures Drain(queue) == HciSpec.Fill(queue).0 + Drain(HciSpec.Fill(queue).1)
  {
  }

  lemma GatherStep(buf: seq<byte>, want: nat, stray: seq<byte>, queue: seq<Packet>)
    requires ACL_HDR <= |buf| <= BUF && |stray| <= STRAY && |buf| - ACL_HDR < want && queue != []
    ensures var (b, s) := Absorb(buf, stray, queue[0]);
            Gather(buf, want, stray, queue) == Gather(b, want, s, queue[1..])
  {
  }

  lemma GatherEnds(buf: seq<byte>, want: nat, stray: seq<byte>, queue: seq<Packet>)
    requires ACL_HDR <= |buf| <= BUF && |stray| <= STRAY && (|buf| - ACL_HDR >= want || queue == [])
    ensures Gather(buf, want, stray, queue) == (buf, stray, queue)
  {
  }

  lemma LongEnough(p: Packet)
    requires NeedsMore(p)
    ensures |p| >= ACL_HDR + 4
  {
  }

  lemma RelabelPrefix(after: seq<byte>, b: seq<byte>)
    requires ACL_HDR <= |b| <= |after| && |b| <= BUF
    requires after[..3] == b[..3] && after[3..5] == Le16(|b| - ACL_HDR) && after[5..|b|] == b[5..]
    ensures after[..|b|] == Relabel(b)
  {
  }
}
