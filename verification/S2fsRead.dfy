/** Reading a mirror file in chunks: the open file's offset and the bytes handed out. */
module S2fsRead {
  import opened Arith
  import opened Errno
  import opened MirrorProofs
  import opened Numerals
  import opened TaskMirror
  import opened TaskTree
  import opened Text
  import opened Wrappers

  /** One read request, and whether the copy to the caller's buffer will fault. */
  datatype Request = Request(count: nat, fault: bool)

  datatype Answer = Answer(ret: int, data: string, offset: nat)

  /** The task a file's name stands for: a name that is not a number leaves the pid at 0. */
  function NamedPid(name: string): int {
    match PidOfName(name)
    case Ok(pid) => pid
    case Err(_) => 0
  }

  /** A name that is a decimal numeral for an `int` stands for it, and any other for task 0. */
  lemma NamedExactly(name: string, v: int)
    ensures Denotes(name, 10, v) && IsInt(v) ==> NamedPid(name) == v
    ensures (forall w: int :: Denotes(name, 10, w) ==> !IsInt(w)) ==> NamedPid(name) == 0
  {
    hide KstrToInt, Denotes;
    AcceptedExactly(name, 10, v);
    AcceptedExactly(name, 10, NamedPid(name));
  }

  /** What a file shows: the information of the task its name stands for, if there is one. */
  function TextOf(name: string, tasks: map<int, string>): Option<string> {
    if NamedPid(name) in tasks then Some(tasks[NamedPid(name)]) else None
  }

  /** One read of `text`.  For a task that is not there the length reported is -1. */
  function ReadAt(text: Option<string>, offset: nat, q: Request): Answer {
    var len := if text.Some? then |text.value| else -1;
    if offset > len then Answer(0, "", offset)
    else
      var count := if q.count > len - offset then len - offset else q.count;
      if q.fault then Answer(EFAULT, "", offset)
      else Answer(count, text.value[offset..offset + count], offset + count)
  }

  class OpenFile {
    const name: string
    const tasks: map<int, string>
    var offset: nat

    constructor (name: string, tasks: map<int, string>)
      ensures this.name == name && this.tasks == tasks && offset == 0
    {
      this.name, this.tasks := name, tasks;
      offset := 0;
    }

    /** What is returned is what was copied out and how far the offset moved; a fault inside the
        text moves nothing. */
    method Read(count: nat, fault: bool) returns (ret: int, data: string)
      modifies this
      ensures Answer(ret, data, offset) == ReadAt(TextOf(name, tasks), old(offset), Request(count, fault))
      ensures ret >= 0 ==> ret == |data| && offset == old(offset) + ret && ret <= count
      ensures ret < 0 ==> ret == -14 && fault && data == "" && offset == old(offset)
    {
      var pidInput := 0;
      match KstrToInt(name, 10) {
        case Ok(pid) => pidInput := pid;
        case Err(_) =>
      }
      var len := if pidInput in tasks then |tasks[pidInput]| else -1;
      if offset > len {
        return 0, "";
      }
      var n := count;
      if n > len - offset {
        n := len - offset;
      }
      if fault {
        return EFAULT, "";
      }
      data := tasks[pidInput][offset..offset + n];
      offset := offset + n;
      return n, data;
    }

    /** A caller that keeps reading, joins what it gets and adds up what was returned. */
    method ReadMany(requests: seq<Request>) returns (joined: string, total: nat)
      requires offset == 0
      modifies this
      ensures var text := TextOf(name, tasks);
              && joined == Joined(text, requests).0 && offset == Joined(text, requests).1
              && total == Returned(text, requests)
      ensures total == |joined| == offset
    {
      joined, total := "", 0;
      var k := 0;
      ghost var text := TextOf(name, tasks);
      while k < |requests|
        invariant 0 <= k <= |requests|
        invariant (joined, offset) == Joined(text, requests[..k]) && total == Returned(text, requests[..k])
        invariant total == |joined| == offset
      {
        var ret, data := Read(requests[k].count, requests[k].fault);
        joined := joined + data;
        total := total + if ret > 0 then ret else 0;
        assert requests[..k + 1][..k] == requests[..k];
        k := k + 1;
      }
      assert requests[..k] == requests;
    }
  }

  /** The bytes delivered by a run of requests from offset 0, and the offset after it. */
  function Joined(text: Option<string>, requests: seq<Request>): (string, nat) {
    if requests == [] then ("", 0)
    else
      var (data, offset) := Joined(text, requests[..|requests| - 1]);
      var a := ReadAt(text, offset, requests[|requests| - 1]);
      (data + a.data, a.offset)
  }

  /** What the same requests returned, errors apart. */
  function Returned(text: Option<string>, requests: seq<Request>): nat {
    if requests == [] then 0
    else
      var before := requests[..|requests| - 1];
      var a := ReadAt(text, Joined(text, before).1, requests[|requests| - 1]);
      Returned(text, before) + if a.ret > 0 then a.ret else 0
  }

  function Asked(requests: seq<Request>): nat {
    if requests == [] then 0
    else
      var q := requests[|requests| - 1];
      Asked(requests[..|requests| - 1]) + if q.fault then 0 else q.count
  }

  /** Every single read: without a fault it returns the bytes it copied out, which are as many as
      asked for or as are left, and moves the offset by them; a fault is reported only at an
      offset inside the text, and moves nothing. */
  lemma EachRead(text: Option<string>, offset: nat, q: Request)
    ensures var a := ReadAt(text, offset, q);
            var left := if text.Some? && offset <= |text.value| then |text.value| - offset else 0;
            var n := if q.count < left then q.count else left;
            && (!q.fault ==> a.ret == |a.data| == n && a.offset == offset + n)
            && (!q.fault && n > 0 ==> a.data == text.value[offset..offset + n])
            && (q.fault && text.Some? && offset <= |text.value| ==> a == Answer(-14, "", offset))
            && (q.fault && !(text.Some? && offset <= |text.value|) ==> a == Answer(0, "", offset))
  {
  }

  /** Over any run of reads the returns that are not errors add up to the bytes joined and to
      the offset. */
  lemma {:induction false} ReturnsAddUp(text: Option<string>, requests: seq<Request>)
    ensures Returned(text, requests) == |Joined(text, requests).0| == Joined(text, requests).1
  {
    if requests != [] {
      var before := requests[..|requests| - 1];
      ReturnsAddUp(text, before);
      EachRead(text, Joined(text, before).1, requests[|requests| - 1]);
    }
  }

  /** Read through the file the mirror made for it, a task with a name that fits shows its own
      information, byte for byte as far as was asked. */
  lemma ReadsItsTask(t: Task, k: nat, tasks: map<int, string>, requests: seq<Request>)
    requires k < |Pids(t)| && Nameable(Pids(t)[k]) && Pids(t)[k] in tasks
    ensures |Files(Mirror(t))| == |Pids(t)|
    ensures var text := tasks[Pids(t)[k]];
            var (data, offset) := Joined(TextOf(Files(Mirror(t))[k], tasks), requests);
            && offset == (if Asked(requests) < |text| then Asked(requests) else |text|)
            && data == text[..offset]
  {
    EveryFileNamesItsTask(t, k);
    DeliversPrefix(tasks[Pids(t)[k]], requests);
  }

  /** One more request extends what was delivered. */
  lemma NextPiece(text: string, offset: nat, q: Request)
    requires offset <= |text|
    ensures var a := ReadAt(Some(text), offset, q);
            && a.offset <= |text| && text[..offset] + a.data == text[..a.offset]
            && a.offset == if q.fault then offset
                           else if offset + q.count < |text| then offset + q.count
                           else |text|
  {
  }

  /** Whatever sizes are asked for and whichever copies fault, the bytes delivered are the start
      of the text, as many as were asked for or all there are, and the offset counts them. */
  lemma {:induction false} DeliversPrefix(text: string, requests: seq<Request>)
    ensures var (data, offset) := Joined(Some(text), requests);
            && offset == (if Asked(requests) < |text| then Asked(requests) else |text|)
            && data == text[..offset]
  {
    if requests != [] {
      var before, q := requests[..|requests| - 1], requests[|requests| - 1];
      DeliversPrefix(text, before);
      NextPiece(text, Joined(Some(text), before).1, q);
    }
  }

  /** Once everything is delivered, and for a task that is gone, a read that does not fault
      returns 0 and moves nothing. */
  lemma NothingMore(text: Option<string>, requests: seq<Request>, q: Request)
    requires !q.fault && (text.Some? ==> Asked(requests) >= |text.value|)
    ensures ReadAt(text, Joined(text, requests).1, q) == Answer(0, "", Joined(text, requests).1)
  {
    if text.Some? {
      DeliversPrefix(text.value, requests);
    }
  }
}
