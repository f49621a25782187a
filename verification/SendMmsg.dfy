/** The batch send and its address cache: the security hook is not asked again about the
    destination that last succeeded in the same call.  With a hook whose verdict depends only
    on the destination, the cached loop is proved equal to asking every time. */
module SendMmsg {
  import opened Errno
  import opened SocketLayer
  import opened Wrappers

  const UIO_MAXIOV := 1024
  const ADDRESS_SIZE := 128
  const UINT_MAX := 0xFFFF_FFFF

  type Name = seq<int>

  /** A message header in user memory, with what the copies around it will answer. */
  datatype UserMsg = UserMsg(
    readable: bool,
    name: Option<Name>,
    nameLen: int,
    iovLen: nat,
    iovError: Verdict,
    controlError: Verdict,
    payload: seq<int>,
    putError: Verdict)

  datatype Datagram = Datagram(addr: Option<Name>, payload: seq<int>, batch: bool)

  /** What the protocol answers: its return value, and whether data was left over. */
  datatype Sent = Sent(ret: int, left: bool)

  type Policy = Option<Name> -> Verdict
  type Network = (seq<Datagram>, Datagram) -> Sent

  /** The destination after `copy_msghdr_from_user`: none, or one to 128 bytes. */
  function CopyHeader(u: UserMsg): (r: Result<Option<Name>>)
    ensures r.Ok? && r.value.Some? ==> 0 < |r.value.value| <= ADDRESS_SIZE
  {
    var len := if u.name.None? then 0 else if u.nameLen > ADDRESS_SIZE then ADDRESS_SIZE else u.nameLen;
    if !u.readable then Err(EFAULT)
    else if len < 0 then Err(EINVAL)
    else if len > 0 && |u.name.value| < len then Err(EFAULT)
    else if u.iovLen > UIO_MAXIOV then Err(EMSGSIZE)
    else if u.iovError != 0 then Err(u.iovError)
    else if u.controlError != 0 then Err(u.controlError)
    else Ok(if len > 0 then Some(u.name.value[..len]) else None)
  }

  // ----- asking every time

  datatype OneSend = OneSend(err: int, left: bool, wire: seq<Datagram>)

  function CheckedSend(policy: Policy, net: Network, wire: seq<Datagram>, u: UserMsg, batch: bool): OneSend {
    match CopyHeader(u)
    case Err(e) => OneSend(e, false, wire)
    case Ok(addr) =>
      if policy(addr) != 0 then OneSend(policy(addr), false, wire)
      else
        var d := Datagram(addr, u.payload, batch);
        OneSend(net(wire, d).ret, net(wire, d).left, wire + [d])
  }

  datatype BatchSend = BatchSend(datagrams: nat, err: int, wire: seq<Datagram>) {
    /** An error is reported only when nothing was counted. */
    function Returned(): int { if datagrams != 0 then datagrams else err }
  }

  function CheckedBatch(policy: Policy, net: Network, msgs: seq<UserMsg>, userBatch: bool, i: nat,
                        wire: seq<Datagram>): (r: BatchSend)
    requires i <= |msgs|
    ensures wire <= r.wire
    decreases |msgs| - i
  {
    if i == |msgs| then BatchSend(i, 0, wire)
    else
      var s := CheckedSend(policy, net, wire, msgs[i], i != |msgs| - 1 || userBatch);
      if s.err < 0 then BatchSend(i, s.err, s.wire)
      else if msgs[i].putError != 0 then BatchSend(i, msgs[i].putError, s.wire)
      else if s.left then BatchSend(i + 1, 0, s.wire)
      else CheckedBatch(policy, net, msgs, userBatch, i + 1, s.wire)
  }

  // ----- the cached code

  /** Some datagram to `name` was let through and accepted earlier in this call. */
  predicate Succeeded(net: Network, wire: seq<Datagram>, name: Name) {
    exists k :: 0 <= k < |wire| && wire[k].addr == Some(name) && net(wire[..k], wire[k]).ret >= 0
  }

  lemma SucceededGrows(net: Network, wire: seq<Datagram>, d: Datagram, name: Name)
    requires Succeeded(net, wire, name)
    ensures Succeeded(net, wire + [d], name)
  {
    var k :| 0 <= k < |wire| && wire[k].addr == Some(name) && net(wire[..k], wire[k]).ret >= 0;
    assert (wire + [d])[k] == wire[k] && (wire + [d])[..k] == wire[..k];
  }

  class BatchCall {
    const policy: Policy
    const net: Network
    const usedName: array<int>
    var usedLen: nat
    var wire: seq<Datagram>

    constructor (policy: Policy, net: Network)
      ensures this.policy == policy && this.net == net && wire == [] && CacheSound() && fresh(usedName)
    {
      this.policy := policy;
      this.net := net;
      usedName := new int[ADDRESS_SIZE];
      usedLen := UINT_MAX;
      wire := [];
    }

    /** What the cache holds has been let through, and has succeeded, in this call. */
    ghost predicate CacheSound()
      reads this, usedName
    {
      && usedName.Length == ADDRESS_SIZE
      && (0 < usedLen <= ADDRESS_SIZE ==>
            && policy(Some(usedName[..usedLen])) == 0
            && Succeeded(net, wire, usedName[..usedLen]))
    }

    /** `sock_sendmsg_nosec`. */
    method Transmit(d: Datagram) returns (r: Sent)
      modifies this`wire
      ensures r == net(old(wire), d) && wire == old(wire) + [d]
    {
      r := net(wire, d);
      wire := wire + [d];
    }

    /** `___sys_sendmsg` with a cache.  `asked` says whether the hook was consulted. */
    method SendOne(u: UserMsg, batch: bool) returns (err: int, left: bool, asked: bool)
      requires CacheSound()
      modifies this`usedLen, this`wire, usedName
      ensures CacheSound()
      ensures OneSend(err, left, wire) == CheckedSend(policy, net, old(wire), u, batch)
      ensures !asked && CopyHeader(u).Ok? ==>
                CopyHeader(u).value.Some? && Succeeded(net, old(wire), CopyHeader(u).value.value)
    {
      asked := false;
      left := false;
      var header := CopyHeader(u);
      if header.Err? {
        return header.error, false, false;
      }
      var addr := header.value;
      var d := Datagram(addr, u.payload, batch);
      var r: Sent;
      if addr.Some? && usedLen == |addr.value| && usedName[..usedLen] == addr.value {
        r := Transmit(d);
        SucceededGrows(net, old(wire), d, addr.value);
        return r.ret, r.left, false;
      }
      asked := true;
      err := policy(addr);
      if err == 0 {
        r := Transmit(d);
        err, left := r.ret, r.left;
        if 0 < usedLen <= ADDRESS_SIZE {
          SucceededGrows(net, old(wire), d, usedName[..usedLen]);
        }
      }
      if err >= 0 {
        usedLen := if addr.Some? then |addr.value| else 0;
        if addr.Some? {
          forall i | 0 <= i < usedLen {
            usedName[i] := addr.value[i];
          }
          assert usedName[..usedLen] == addr.value;
          assert wire[|old(wire)|] == d && wire[..|old(wire)|] == old(wire);
        }
      }
    }

    /** The loop of `__sys_sendmmsg` over a vector already clamped to its limit. */
    method SendAll(msgs: seq<UserMsg>, userBatch: bool) returns (r: int)
      requires CacheSound() && wire == []
      modifies this`usedLen, this`wire, usedName
      ensures r == CheckedBatch(policy, net, msgs, userBatch, 0, []).Returned()
      ensures wire == CheckedBatch(policy, net, msgs, userBatch, 0, []).wire
    {
      ghost var whole := CheckedBatch(policy, net, msgs, userBatch, 0, []);
      var datagrams, err, batch := 0, 0, true;
      while datagrams < |msgs|
        invariant 0 <= datagrams <= |msgs| && CacheSound()
        invariant CheckedBatch(policy, net, msgs, userBatch, datagrams, wire) == whole
        invariant err == 0 && (batch || datagrams == |msgs|)
        decreases |msgs| - datagrams
      {
        ghost var was := wire;
        if datagrams == |msgs| - 1 {
          batch := userBatch;
        }
        var left, asked;
        err, left, asked := SendOne(msgs[datagrams], batch);
        if err < 0 {
          break;
        }
        err := msgs[datagrams].putError;
        if err != 0 {
          break;
        }
        datagrams := datagrams + 1;
        if left {
          break;
        }
      }
      return if datagrams != 0 then datagrams else err;
    }
  }

  function Clamp(vlen: nat): nat {
    if vlen > UIO_MAXIOV then UIO_MAXIOV else vlen
  }

  /** The flags a caller passes that matter here. */
  datatype SendFlags = SendFlags(batch: bool, compat: bool)

  /** The cache makes no difference: the count returned and the datagrams sent are those of a
      call that asks the hook about every message.  A native call must not pass the flag of the
      compatible one. */
  method SysSendmmsg(policy: Policy, net: Network, lookup: Verdict, mmsg: seq<UserMsg>, vlen: nat,
                     flags: SendFlags, forbidCmsgCompat: bool)
    returns (r: int, wire: seq<Datagram>)
    requires Clamp(vlen) <= |mmsg|
    ensures forbidCmsgCompat && flags.compat ==> r == EINVAL && wire == []
    ensures !(forbidCmsgCompat && flags.compat) && lookup != 0 ==> r == lookup && wire == []
    ensures !(forbidCmsgCompat && flags.compat) && lookup == 0 ==>
              var n := if vlen > 1024 then 1024 else vlen;
              var b := CheckedBatch(policy, net, mmsg[..n], flags.batch, 0, []);
              r == b.Returned() && wire == b.wire
  {
    if forbidCmsgCompat && flags.compat {
      return EINVAL, [];
    }
    if lookup != 0 {
      return lookup, [];
    }
    var call := new BatchCall(policy, net);
    r := call.SendAll(mmsg[..Clamp(vlen)], flags.batch);
    wire := call.wire;
  }

  /** Whatever the cache skipped, nothing reaches the wire that the hook would have refused. */
  lemma {:induction false} OnlyAllowedSent(policy: Policy, net: Network, msgs: seq<UserMsg>, userBatch: bool, i: nat,
                                           wire: seq<Datagram>)
    requires i <= |msgs| && forall k :: 0 <= k < |wire| ==> policy(wire[k].addr) == 0
    ensures var b := CheckedBatch(policy, net, msgs, userBatch, i, wire);
            forall k :: 0 <= k < |b.wire| ==> policy(b.wire[k].addr) == 0
    decreases |msgs| - i
  {
    if i < |msgs| {
      var s := CheckedSend(policy, net, wire, msgs[i], i != |msgs| - 1 || userBatch);
      assert s.wire == wire || (|s.wire| == |wire| + 1 && s.wire[..|wire|] == wire && policy(s.wire[|wire|].addr) == 0);
      forall k | 0 <= k < |s.wire| ensures policy(s.wire[k].addr) == 0 {
        assert k < |wire| ==> s.wire[k] == wire[k];
      }
      var b := CheckedBatch(policy, net, msgs, userBatch, i, wire);
      if b.wire != s.wire {
        OnlyAllowedSent(policy, net, msgs, userBatch, i + 1, s.wire);
        assert b == CheckedBatch(policy, net, msgs, userBatch, i + 1, s.wire);
      }
    }
  }

  /** The count is honest: each counted message put one datagram on the wire, and at most one
      more was tried, the one whose error or unwritable length ended the loop. */
  lemma {:induction false} CountedAreSent(policy: Policy, net: Network, msgs: seq<UserMsg>, userBatch: bool, i: nat,
                                          wire: seq<Datagram>)
    requires i <= |msgs|
    ensures var b := CheckedBatch(policy, net, msgs, userBatch, i, wire);
            b.datagrams - i <= |b.wire| - |wire| <= b.datagrams - i + 1
    decreases |msgs| - i
  {
    if i < |msgs| {
      var s := CheckedSend(policy, net, wire, msgs[i], i != |msgs| - 1 || userBatch);
      CountedAreSent(policy, net, msgs, userBatch, i + 1, s.wire);
    }
  }
}
