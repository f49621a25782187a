/** What a batch send puts on the wire, message by message, why it stops where it does, and what
    it returns. */
module SendOutcomes {
  import opened Errno
  import opened SendMmsg
  import opened SocketLayer
  import opened Wrappers

  /** The first obstacle in a header, or the destination: at most 128 bytes of the name. */
  lemma HeaderChecked(u: UserMsg)
    ensures var r := CopyHeader(u);
            var len := if u.name == None then 0 else if u.nameLen <= 128 then u.nameLen else 128;
            if !u.readable then r == Err(-14)
            else if len < 0 then r == Err(-22)
            else if len > 0 && |u.name.value| < len then r == Err(-14)
            else if u.iovLen > 1024 then r == Err(-90)
            else if u.iovError != 0 then r == Err(u.iovError)
            else if u.controlError != 0 then r == Err(u.controlError)
            else if len == 0 then r == Ok(None)
            else r.Ok? && r.value.Some? && |r.value.value| == len && r.value.value <= u.name.value
  {
  }

  /** The datagram a message becomes: its own destination and payload, and batched unless it is
      the last, which goes out as the caller asked. */
  predicate Carries(d: Datagram, msgs: seq<UserMsg>, k: nat, userBatch: bool)
    requires k < |msgs|
  {
    && CopyHeader(msgs[k]) == Ok(d.addr)
    && d.payload == msgs[k].payload
    && d.batch == (k + 1 < |msgs| || userBatch)
  }

  /** Message `k` was allowed, sent and accepted, and its length was written back. */
  predicate Counted(policy: Policy, net: Network, msgs: seq<UserMsg>, userBatch: bool, k: nat, wire: seq<Datagram>,
                    d: Datagram)
    requires k < |msgs|
  {
    && Carries(d, msgs, k, userBatch)
    && policy(d.addr) == 0 && net(wire, d).ret >= 0 && msgs[k].putError == 0
  }

  /** Why message `k` ends the batch with `err`, and what of it reached the wire. */
  predicate Refused(policy: Policy, net: Network, msgs: seq<UserMsg>, userBatch: bool, k: nat, wire: seq<Datagram>,
                    err: int, sent: seq<Datagram>)
    requires k < |msgs|
  {
    || (CopyHeader(msgs[k]) == Err(err) && sent == [])
    || (CopyHeader(msgs[k]).Ok? && policy(CopyHeader(msgs[k]).value) == err != 0 && sent == [])
    || (|sent| == 1 && Carries(sent[0], msgs, k, userBatch) && policy(sent[0].addr) == 0
        && if net(wire, sent[0]).ret < 0 then err == net(wire, sent[0]).ret else err == msgs[k].putError != 0)
  }

  lemma CopyFails(u: UserMsg)
    ensures CopyHeader(u).Err? ==> CopyHeader(u).error < 0
  {
  }

  /** One turn of the loop. */
  lemma OneTurn(policy: Policy, net: Network, msgs: seq<UserMsg>, userBatch: bool, i: nat, wire: seq<Datagram>)
    requires i < |msgs|
    ensures var s := CheckedSend(policy, net, wire, msgs[i], i != |msgs| - 1 || userBatch);
            var sent := if s.wire == wire then [] else s.wire[|wire|..];
            && wire <= s.wire && s.wire == wire + sent
            && (s.err < 0 ==> Refused(policy, net, msgs, userBatch, i, wire, s.err, sent))
            && (s.err >= 0 ==>
                  && |sent| == 1 && Carries(sent[0], msgs, i, userBatch) && policy(sent[0].addr) == 0
                  && net(wire, sent[0]).ret >= 0 && s.left == net(wire, sent[0]).left)
  {
    CopyFails(msgs[i]);
    hide CopyHeader;
    match CopyHeader(msgs[i]) {
      case Err(_) =>
      case Ok(addr) =>
        var d := Datagram(addr, msgs[i].payload, i != |msgs| - 1 || userBatch);
        assert (wire + [d])[|wire|..] == [d];
    }
  }

  /** Message `k`, counted, stands on the wire `ahead` places past its number, and left no data
      behind unless it was the last. */
  predicate Delivered(policy: Policy, net: Network, msgs: seq<UserMsg>, userBatch: bool, b: BatchSend, ahead: int,
                      k: nat)
  {
    var at := k + ahead;
    && k < b.datagrams && k < |msgs| && 0 <= at < |b.wire|
    && Counted(policy, net, msgs, userBatch, k, b.wire[..at], b.wire[at])
    && (net(b.wire[..at], b.wire[at]).left ==> b.err == 0 && k + 1 == b.datagrams)
  }

  ghost predicate AllDelivered(policy: Policy, net: Network, msgs: seq<UserMsg>, userBatch: bool, b: BatchSend,
                               ahead: int, i: nat)
  {
    forall k: nat :: i <= k < b.datagrams ==> Delivered(policy, net, msgs, userBatch, b, ahead, k)
  }

  /** Why there is no more: every message is sent, the last one sent left data behind, or the next
      is refused. */
  predicate Stops(policy: Policy, net: Network, msgs: seq<UserMsg>, userBatch: bool, b: BatchSend, ahead: int) {
    var end := b.datagrams + ahead;
    && 0 <= end <= |b.wire| && b.datagrams <= |msgs|
    && if b.err == 0 then
         && end == |b.wire|
         && (b.datagrams == |msgs| || (end > 0 && net(b.wire[..end - 1], b.wire[end - 1]).left))
       else
         b.datagrams < |msgs|
         && Refused(policy, net, msgs, userBatch, b.datagrams, b.wire[..end], b.err, b.wire[end..])
  }

  /** Everything from message `i` on, when `wire` has been sent before it. */
  ghost predicate BatchIs(policy: Policy, net: Network, msgs: seq<UserMsg>, userBatch: bool, i: nat,
                          wire: seq<Datagram>, b: BatchSend)
  {
    && i <= b.datagrams && wire <= b.wire
    && AllDelivered(policy, net, msgs, userBatch, b, |wire| - i, i)
    && Stops(policy, net, msgs, userBatch, b, |wire| - i)
  }

  lemma {:induction false} BatchFrom(policy: Policy, net: Network, msgs: seq<UserMsg>, userBatch: bool, i: nat,
                                     wire: seq<Datagram>)
    requires i <= |msgs|
    ensures BatchIs(policy, net, msgs, userBatch, i, wire, CheckedBatch(policy, net, msgs, userBatch, i, wire))
    decreases |msgs| - i
  {
    var b := CheckedBatch(policy, net, msgs, userBatch, i, wire);
    if i == |msgs| {
      assert wire[..|wire|] == wire;
    } else {
      var s := CheckedSend(policy, net, wire, msgs[i], i != |msgs| - 1 || userBatch);
      OneTurn(policy, net, msgs, userBatch, i, wire);
      hide CheckedSend, Carries, Refused;
      if s.err < 0 {
        EndsHere(policy, net, msgs, userBatch, i, wire, b);
      } else if msgs[i].putError != 0 {
        PutRefuses(policy, net, msgs, userBatch, i, wire, s.wire[|wire|]);
        EndsHere(policy, net, msgs, userBatch, i, wire, b);
      } else {
        if s.left {
          assert b == BatchSend(i + 1, 0, s.wire);
        } else {
          BatchFrom(policy, net, msgs, userBatch, i + 1, s.wire);
        }
        FirstDelivered(policy, net, msgs, userBatch, i, wire, s.wire[|wire|], b);
      }
    }
  }

  lemma EndsHere(policy: Policy, net: Network, msgs: seq<UserMsg>, userBatch: bool, i: nat, wire: seq<Datagram>,
                 b: BatchSend)
    requires i < |msgs| && b.datagrams == i && b.err != 0 && wire <= b.wire
    requires Refused(policy, net, msgs, userBatch, i, wire, b.err, if b.wire == wire then [] else b.wire[|wire|..])
    ensures BatchIs(policy, net, msgs, userBatch, i, wire, b)
  {
    hide Refused;
    assert b.wire[..|wire|] == wire;
    assert b.wire == wire ==> b.wire[|wire|..] == [];
  }

  lemma FirstDelivered(policy: Policy, net: Network, msgs: seq<UserMsg>, userBatch: bool, i: nat, wire: seq<Datagram>,
                       d: Datagram, b: BatchSend)
    requires i < |msgs| && Counted(policy, net, msgs, userBatch, i, wire, d) && wire + [d] <= b.wire
    requires if net(wire, d).left then b == BatchSend(i + 1, 0, wire + [d])
             else BatchIs(policy, net, msgs, userBatch, i + 1, wire + [d], b)
    ensures BatchIs(policy, net, msgs, userBatch, i, wire, b)
  {
    hide Counted, Refused;
    assert b.wire[..|wire|] == wire && b.wire[|wire|] == d;
    assert Delivered(policy, net, msgs, userBatch, b, |wire| - i, i);
  }

  lemma PutRefuses(policy: Policy, net: Network, msgs: seq<UserMsg>, userBatch: bool, k: nat, wire: seq<Datagram>,
                   d: Datagram)
    requires k < |msgs| && Carries(d, msgs, k, userBatch) && policy(d.addr) == 0
    requires net(wire, d).ret >= 0 && msgs[k].putError != 0
    ensures Refused(policy, net, msgs, userBatch, k, wire, msgs[k].putError, [d])
  {
    hide Carries;
  }

  /** The whole batch.  The datagrams of the messages counted are the start of the wire, one for
      each in order, with its own destination and payload; every message but the last goes out
      batched and the last as the caller asked; left-over data ends the loop, and so does the
      first refusal, which leaves at most its own datagram behind; otherwise every message is
      sent.  The call returns the count, and an error only when nothing was counted. */
  lemma BatchSends(policy: Policy, net: Network, msgs: seq<UserMsg>, userBatch: bool)
    ensures var b := CheckedBatch(policy, net, msgs, userBatch, 0, []);
            && BatchIs(policy, net, msgs, userBatch, 0, [], b)
            && (b.datagrams > 0 ==> b.Returned() == b.datagrams)
            && (b.datagrams == 0 ==> b.Returned() == b.err <= 0)
            && (b.Returned() < 0 <==> b.datagrams == 0 && b.err != 0)
  {
    BatchFrom(policy, net, msgs, userBatch, 0, []);
    ErrorsNegative(policy, net, msgs, userBatch, 0, []);
    hide CheckedBatch, BatchIs;
  }

  lemma {:induction false} ErrorsNegative(policy: Policy, net: Network, msgs: seq<UserMsg>, userBatch: bool, i: nat,
                                          wire: seq<Datagram>)
    requires i <= |msgs|
    ensures CheckedBatch(policy, net, msgs, userBatch, i, wire).err <= 0
    decreases |msgs| - i
  {
    hide CheckedSend;
    if i < |msgs| {
      var s := CheckedSend(policy, net, wire, msgs[i], i != |msgs| - 1 || userBatch);
      ErrorsNegative(policy, net, msgs, userBatch, i + 1, s.wire);
    }
  }
}
