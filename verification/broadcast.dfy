/**
 * Interface-to-peers path (`_on_vmnet_packets_available` and
 * `on_vmnet_packets_available`): packets read from the vmnet interface are
 * framed and written to every registered peer socket.
 */
module Broadcast {
  import opened Types
  import Wire
  import Batching
  import VmnetStatus

  /** One `writev` of a framed packet to a peer socket, and whether it succeeded. */
  datatype Send = Send(fd: int, frame: seq<uint8>, ok: bool)

  /** Reply of `vmnet_read` for one batch: a failure status, or the packets received, in order. */
  datatype VmnetRead = ReadError(status: VmnetStatus.Status) | Received(packets: seq<seq<uint8>>)

  /**
   * What the broker cannot see during one notification, as oracles:
   * `read(b, n)` is `vmnet_read`'s reply to batch `b` asked for `n` packets,
   * `snapshot(b, i)` the registry read under the semaphore for packet `i`
   * of batch `b`, and `writeOk(b, i, fd)` whether `writev` of that packet
   * to `fd` succeeds.
   */
  datatype Interface = Interface(
    read: (nat, nat) -> VmnetRead,
    snapshot: (nat, nat) -> seq<int>,
    writeOk: (nat, nat, int) -> bool)

  /** The writes of one frame to every connection of a snapshot, in list order. */
  function Fanout(frame: seq<uint8>, conns: seq<int>, ok: int -> bool): seq<Send> {
    seq(|conns|, k requires 0 <= k < |conns| => Send(conns[k], frame, ok(conns[k])))
  }

  /** Every write a batch calls for: packet by packet, and within a packet connection by connection. */
  function Planned(b: nat, packets: seq<seq<uint8>>, i: nat, iface: Interface): seq<Send>
    decreases |packets| - i
  {
    if i >= |packets| then []
    else
      Fanout(Wire.EncodeFrame(packets[i]), iface.snapshot(b, i), fd => iface.writeOk(b, i, fd))
      + Planned(b, packets, i + 1, iface)
  }

  /**
   * `sent` is what is left of `planned` when writing stops at the first
   * failure: a prefix of it, successful except for its last write, which
   * failed exactly when the run was `aborted`; a run that was not aborted
   * performed every planned write.
   */
  predicate StopsAtFirstFailure(sent: seq<Send>, planned: seq<Send>, aborted: bool) {
    && |sent| <= |planned|
    && sent == planned[..|sent|]
    && (forall k :: 0 <= k < |sent| - 1 ==> sent[k].ok)
    && (aborted <==> |sent| > 0 && !sent[|sent| - 1].ok)
    && (!aborted ==> sent == planned)
  }

  /** The writes of one packet, performed in list order until one fails (the `goto done`). */
  function SendAll(frame: seq<uint8>, conns: seq<int>, ok: int -> bool): (r: (seq<Send>, bool))
    ensures StopsAtFirstFailure(r.0, Fanout(frame, conns, ok), r.1)
  {
    if |conns| == 0 then ([], false)
    else
      var s := Send(conns[0], frame, ok(conns[0]));
      if !s.ok then ([s], true)
      else
        var rest := SendAll(frame, conns[1..], ok);
        assert Fanout(frame, conns, ok) == [s] + Fanout(frame, conns[1..], ok);
        ([s] + rest.0, rest.1)
  }

  /** A run that stopped early inside one part also stopped early inside the whole. */
  lemma StopsWithin(sent: seq<Send>, p1: seq<Send>, p2: seq<Send>)
    requires StopsAtFirstFailure(sent, p1, true)
    ensures StopsAtFirstFailure(sent, p1 + p2, true)
  {
    assert (p1 + p2)[..|sent|] == p1[..|sent|];
  }

  /** A complete run over one part followed by a run over the next is a run over both. */
  lemma StopsAcross(s1: seq<Send>, p1: seq<Send>, s2: seq<Send>, p2: seq<Send>, aborted: bool)
    requires StopsAtFirstFailure(s1, p1, false)
    requires StopsAtFirstFailure(s2, p2, aborted)
    ensures StopsAtFirstFailure(s1 + s2, p1 + p2, aborted)
  {
    assert (p1 + p2)[..|s1 + s2|] == p1 + p2[..|s2|];
  }

  /** Outcome of broadcasting one batch: the writes performed, and whether a failure cut it short. */
  datatype Delivery = Delivery(sends: seq<Send>, aborted: bool)

  /**
   * The broadcast loop over the packets of one batch from packet `i` on:
   * each packet goes to every connection of the registry as it stands when
   * that packet's turn comes, and the first failed write ends the batch.
   */
  function Deliver(b: nat, packets: seq<seq<uint8>>, i: nat, iface: Interface): (r: Delivery)
    ensures StopsAtFirstFailure(r.sends, Planned(b, packets, i, iface), r.aborted)
    decreases |packets| - i
  {
    if i >= |packets| then Delivery([], false)
    else
      var ok := fd => iface.writeOk(b, i, fd);
      var frame := Wire.EncodeFrame(packets[i]);
      var first := SendAll(frame, iface.snapshot(b, i), ok);
      var fan := Fanout(frame, iface.snapshot(b, i), ok);
      assert Planned(b, packets, i, iface) == fan + Planned(b, packets, i + 1, iface);
      if first.1 then
        StopsWithin(first.0, fan, Planned(b, packets, i + 1, iface));
        Delivery(first.0, true)
      else
        var rest := Deliver(b, packets, i + 1, iface);
        StopsAcross(first.0, fan, rest.sends, Planned(b, packets, i + 1, iface), rest.aborted);
        Delivery(first.0 + rest.sends, rest.aborted)
  }

  /** A batch is cut short exactly when some planned write fails. */
  lemma AbortedIffSomeWriteFails(sent: seq<Send>, planned: seq<Send>, aborted: bool)
    requires StopsAtFirstFailure(sent, planned, aborted)
    ensures aborted <==> exists k :: 0 <= k < |planned| && !planned[k].ok
  {
    if aborted {
      assert !planned[|sent| - 1].ok;
    }
  }

  /** Every write performed carries the length-prefixed packet to a connection of its snapshot. */
  lemma DeliveredFramesAreEncoded(b: nat, packets: seq<seq<uint8>>, i: nat, iface: Interface, k: nat)
    requires k < |Planned(b, packets, i, iface)|
    ensures exists j :: (i <= j < |packets|
                         && Planned(b, packets, i, iface)[k].frame == Wire.EncodeFrame(packets[j])
                         && Planned(b, packets, i, iface)[k].fd in iface.snapshot(b, j))
    decreases |packets| - i
  {
    var fan := Fanout(Wire.EncodeFrame(packets[i]), iface.snapshot(b, i), fd => iface.writeOk(b, i, fd));
    assert Planned(b, packets, i, iface) == fan + Planned(b, packets, i + 1, iface);
    if k < |fan| {
      assert Planned(b, packets, i, iface)[k] == fan[k];
    } else {
      DeliveredFramesAreEncoded(b, packets, i + 1, iface, k - |fan|);
    }
  }

  /** What one batch came to: the count asked for, and a read failure or a delivery. */
  datatype BatchOutcome =
    | ReadFailed(requested: nat, status: VmnetStatus.Status)
    | Delivered(requested: nat, delivery: Delivery)

  /** `_on_vmnet_packets_available` for batch `b` of `count` packets. */
  function HandleBatch(b: nat, count: nat, iface: Interface): BatchOutcome {
    match iface.read(b, count)
    case ReadError(st) => ReadFailed(count, st)
    case Received(packets) => Delivered(count, Deliver(b, packets, 0, iface))
  }

  /**
   * `on_vmnet_packets_available`: the estimate is cut into batches and each
   * batch is read and broadcast on its own, so a failed read or an aborted
   * broadcast loses only its own batch.
   */
  function OnPacketsAvailable(estim: uint64, iface: Interface): (r: seq<BatchOutcome>)
    ensures estim >= 0x8000_0000_0000_0000 ==> r == []
    ensures estim < 0x8000_0000_0000_0000 ==> |r| == (estim + 31) / 32
    ensures forall b :: 0 <= b < |r| ==> 1 <= r[b].requested <= Batching.MaxPacketCountAtOnce
    ensures forall b :: 0 <= b < |r| - 1 ==> r[b].requested == Batching.MaxPacketCountAtOnce
    ensures forall b :: 0 <= b < |r| ==>
      (r[b].ReadFailed? <==> iface.read(b, r[b].requested).ReadError?)
    ensures forall b :: 0 <= b < |r| && r[b].Delivered? ==>
      StopsAtFirstFailure(r[b].delivery.sends, Planned(b, iface.read(b, r[b].requested).packets, 0, iface),
                          r[b].delivery.aborted)
  {
    var sizes := Batching.Batches(Batching.AsInt64(estim));
    Batching.BatchesCover(Batching.AsInt64(estim));
    seq(|sizes|, b requires 0 <= b < |sizes| => HandleBatch(b, sizes[b], iface))
  }

  /** Summed over the batches, the packets asked of the interface are exactly the estimate. */
  function TotalRequested(r: seq<BatchOutcome>): nat {
    if |r| == 0 then 0 else r[0].requested + TotalRequested(r[1..])
  }

  lemma {:induction false} RequestsMatchBatches(r: seq<BatchOutcome>, sizes: seq<nat>)
    requires |r| == |sizes|
    requires forall b :: 0 <= b < |r| ==> r[b].requested == sizes[b]
    ensures TotalRequested(r) == Batching.Sum(sizes)
  {
    if |r| > 0 {
      RequestsMatchBatches(r[1..], sizes[1..]);
    }
  }

  /** A notification asks the interface for exactly the estimated number of packets. */
  lemma RequestsCoverEstimate(estim: uint64, iface: Interface)
    requires estim < 0x8000_0000_0000_0000
    ensures TotalRequested(OnPacketsAvailable(estim, iface)) == estim
  {
    var sizes := Batching.Batches(Batching.AsInt64(estim));
    Batching.BatchesCover(Batching.AsInt64(estim));
    RequestsMatchBatches(OnPacketsAvailable(estim, iface), sizes);
  }
}
