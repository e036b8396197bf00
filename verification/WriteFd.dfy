// write_fd: the nodes of a list go to a kernel that may write less than asked.
module WriteFd {
  import opened Crc
  import opened Rope
  import opened BufferRaw
  import opened BufferList

  const IOV_MAX: nat := 1024
  const EINTR: Errno := 4

  type Errno = e: nat | e > 0 witness 1

  // What the kernel answers to one call: it writes at most n bytes, or fails.
  datatype Reply = Accept(n: nat) | Fail(errno: Errno)

  function Min(a: nat, b: nat): nat {
    if a < b then a else b
  }

  // A file after the bytes a were written at position off; a gap reads as zeros.
  function Written(file: seq<byte>, off: nat, a: seq<byte>): (f: seq<byte>)
    ensures a == [] ==> f == file
    ensures a != [] ==> |f| == if |file| < off + |a| then off + |a| else |file|
    ensures forall i :: 0 <= i < |f| ==>
      f[i] == if off <= i < off + |a| then a[i - off] else if i < |file| then file[i] else 0
  {
    if a == [] then file
    else
      var n := if |file| < off + |a| then off + |a| else |file|;
      seq(n, i requires 0 <= i < n =>
        if off <= i < off + |a| then a[i - off] else if i < |file| then file[i] else 0)
  }

  lemma WrittenJoin(file: seq<byte>, off: nat, a: seq<byte>, b: seq<byte>)
    ensures Written(Written(file, off, a), off + |a|, b) == Written(file, off, a + b)
  {
    assert a == [] ==> a + b == b;
    assert b == [] ==> a + b == a;
    var f, g := Written(Written(file, off, a), off + |a|, b), Written(file, off, a + b);
    assert |f| == |g|;
    assert forall i :: 0 <= i < |f| ==> f[i] == g[i];
  }

  // The kernel side: a script of replies, after which every call is served in
  // full; the vectors that writev was given; the bytes of the stream; and the
  // contents of the file.
  class Kernel {
    var script: seq<Reply>
    ghost var calls: seq<seq<seq<byte>>>
    var stream: seq<byte>
    var file: seq<byte>

    // writev, which takes no longer vectors
    method Writev(vec: seq<seq<byte>>) returns (r: int)
      requires |vec| <= IOV_MAX
      modifies this`script, this`stream, this`calls
      ensures calls == old(calls) + [vec]
      ensures script == if old(script) == [] then [] else old(script)[1..]
      ensures r < 0 <==> old(script) != [] && old(script)[0].Fail?
      ensures r < 0 ==> stream == old(stream) && r == -(old(script)[0].errno as int)
      ensures r >= 0 ==>
        && r == (if old(script) == [] then |Concat(vec)| else Min(old(script)[0].n, |Concat(vec)|))
        && stream == old(stream) + Concat(vec)[..r]
    {
      calls := calls + [vec];
      r := |Concat(vec)|;
      if script != [] {
        var reply := script[0];
        script := script[1..];
        if reply.Fail? {
          return -(reply.errno as int);
        }
        r := Min(reply.n, r);
      }
      stream := stream + Concat(vec)[..r];
    }

    // pwritev
    method Pwritev(vec: seq<seq<byte>>, offset: nat) returns (r: int)
      requires |vec| <= IOV_MAX
      modifies this`script, this`file
      ensures script == if old(script) == [] then [] else old(script)[1..]
      ensures r < 0 <==> old(script) != [] && old(script)[0].Fail?
      ensures r < 0 ==> file == old(file)
      ensures r >= 0 ==>
        && r == (if old(script) == [] then |Concat(vec)| else Min(old(script)[0].n, |Concat(vec)|))
        && file == Written(old(file), offset, Concat(vec)[..r])
    {
      r := |Concat(vec)|;
      if script != [] {
        var reply := script[0];
        script := script[1..];
        if reply.Fail? {
          return -(reply.errno as int);
        }
        r := Min(reply.n, r);
      }
      file := Written(file, offset, Concat(vec)[..r]);
    }
  }

  // ----- Resuming in the middle of a vector -----

  // What is left of a vector after its first r bytes.  The loops of write_fd and
  // do_writev have no bound of their own: they stop inside the vector because
  // fewer bytes were written than it holds.
  method Resume(vec: seq<seq<byte>>, r: nat) returns (rest: seq<seq<byte>>)
    requires r < |Concat(vec)|
    ensures Concat(rest) == Concat(vec)[r..] && 0 < |rest| <= |vec|
    ensures rest[0] != [] && rest[1..] == vec[|vec| - |rest| + 1..]
  {
    hide Concat;
    var start := 0;
    var wrote := r;
    assert vec[0..] == vec;
    NotEmpty(vec, 0);
    while wrote >= |vec[start]|
      invariant 0 <= start < |vec| && 0 <= wrote < |Concat(vec[start..])|
      invariant Concat(vec[start..])[wrote..] == Concat(vec)[r..]
      decreases |vec| - start
    {
      ConcatHead(vec[start..]);
      assert vec[start..][1..] == vec[start + 1..];
      wrote := wrote - |vec[start]|;
      start := start + 1;
      NotEmpty(vec, start);
    }
    ConcatHead(vec[start..]);
    rest := [vec[start][wrote..]] + vec[start + 1..];
    ConcatCons(vec[start][wrote..], vec[start + 1..]);
    assert vec[start..][1..] == vec[start + 1..];
  }

  lemma NotEmpty(vec: seq<seq<byte>>, start: nat)
    requires start <= |vec| && |Concat(vec[start..])| > 0
    ensures start < |vec|
  {
    NothingLeft(vec, start);
  }

  lemma NothingLeft(vec: seq<seq<byte>>, start: nat)
    requires start <= |vec|
    ensures start == |vec| ==> Concat(vec[start..]) == []
  {
  }

  lemma ConcatHead(vec: seq<seq<byte>>)
    requires vec != []
    ensures Concat(vec) == vec[0] + Concat(vec[1..])
  {
  }

  // ----- write_fd(fd) -----

  // The kernel fails no call but by interrupting it.
  ghost predicate OnlyInterrupts(script: seq<Reply>) {
    forall i :: 0 <= i < |script| ==> script[i].Fail? ==> script[i].errno == EINTR
  }

  // What the calls offer to take.
  function Offered(script: seq<Reply>): nat {
    if script == [] then 0
    else
      var last := script[|script| - 1];
      Offered(script[..|script| - 1]) + if last.Accept? then last.n else 0
  }

  ghost predicate Suffix(a: seq<Reply>, b: seq<Reply>) {
    |a| <= |b| && a == b[|b| - |a|..]
  }

  // The replies that have been given when after is left of before.
  ghost function Used(before: seq<Reply>, after: seq<Reply>): (u: seq<Reply>)
    requires Suffix(after, before)
    ensures |u| == |before| - |after|
  {
    before[..|before| - |after|]
  }

  // An error that ends the writing.
  predicate Hard(r: Reply) {
    r.Fail? && r.errno != EINTR
  }

  // The result is minus the error number when the last reply was a hard error, and
  // else zero; no reply before the last one was a hard error.
  ghost predicate Answers(ret: int, used: seq<Reply>) {
    && (forall k :: 0 <= k < |used| - 1 ==> !Hard(used[k]))
    && ret == if used != [] && Hard(used[|used| - 1]) then -(used[|used| - 1].errno as int) else 0
  }

  // After these replies there is still something to write, or no call has come
  // through at all.
  ghost predicate Wanting(used: seq<Reply>, bytes: nat) {
    Offered(used) < bytes || forall k :: 0 <= k < |used| ==> used[k].Fail?
  }

  ghost predicate AlwaysWanting(used: seq<Reply>, bytes: nat) {
    forall k :: 0 <= k < |used| ==> Wanting(used[..k], bytes)
  }

  ghost predicate Soft(used: seq<Reply>) {
    forall k :: 0 <= k < |used| ==> !Hard(used[k])
  }

  // The retry loop on one batch: interrupted calls and short writes are taken
  // up again; done is what reached the stream.
  method FlushBatch(kernel: Kernel, vec: seq<seq<byte>>) returns (ret: int, ghost done: nat)
    requires |vec| <= IOV_MAX
    modifies kernel`script, kernel`stream, kernel`calls
    ensures done <= |Concat(vec)| && kernel.stream == old(kernel.stream) + Concat(vec)[..done]
    ensures Suffix(kernel.script, old(kernel.script))
    ensures var used := Used(old(kernel.script), kernel.script); var bytes := |Concat(vec)|;
      && Answers(ret, used)
      && done == (if ret == 0 then bytes else Offered(used))
      && (ret == 0 ==> Offered(used) >= bytes || kernel.script == [])
      && AlwaysWanting(used, bytes)
    ensures OnlyInterrupts(old(kernel.script)) ==> ret == 0
    ensures old(kernel.script) == [] ==> kernel.script == [] && kernel.calls == old(kernel.calls) + [vec]
  {
    hide Concat, OnlyInterrupts, Offered, AlwaysWanting, Soft, Answers, Suffix;
    var start := vec;
    var bytes := |Concat(vec)|;
    done := 0;
    ghost var all, had, script, used: seq<Reply> := Concat(vec), kernel.stream, kernel.script, [];
    NothingUsed(script, |all|);
    while true
      invariant done <= |all| && Concat(start) == all[done..] && bytes == |all| - done && |start| <= IOV_MAX
      invariant kernel.stream == had + all[..done]
      invariant Suffix(kernel.script, script) && used == Used(script, kernel.script)
      invariant done == Offered(used) && Soft(used) && Wanting(used, |all|) && AlwaysWanting(used, |all|)
      invariant script == [] ==> kernel.script == [] && start == vec && kernel.calls == old(kernel.calls)
      decreases |kernel.script|
    {
      ghost var before, was := kernel.script, used;
      var wrote := kernel.Writev(start);
      if before != [] {
        used := was + [before[0]];
        OneMore(script, before, kernel.script, was, |all|);
      }
      SoftAnswers(used);
      if wrote < 0 {
        FirstOf(before, script);
        if -wrote == EINTR {
          continue;
        }
        return wrote, done;
      }
      PrefixGrows(all, done, wrote);
      done := done + wrote;
      if wrote < bytes {
        start := Resume(start, wrote);
        bytes := bytes - wrote;
        continue;
      }
      return 0, done;
    }
  }

  lemma NothingUsed(script: seq<Reply>, bytes: nat)
    ensures Offered([]) == 0 && Soft([]) && Wanting([], bytes) && AlwaysWanting([], bytes)
    ensures Suffix(script, script) && Used(script, script) == []
  {
  }

  lemma SoftAnswers(used: seq<Reply>)
    ensures Soft(used) ==> Answers(0, used)
  {
  }

  // One more reply is used while there is something to write.
  lemma OneMore(script: seq<Reply>, before: seq<Reply>, after: seq<Reply>, was: seq<Reply>, bytes: nat)
    requires Suffix(before, script) && before != [] && after == before[1..] && was == Used(script, before)
    requires Soft(was) && Wanting(was, bytes) && AlwaysWanting(was, bytes)
    ensures Suffix(after, script) && Used(script, after) == was + [before[0]]
    ensures Offered(was + [before[0]]) == Offered(was) + if before[0].Accept? then before[0].n else 0
    ensures AlwaysWanting(was + [before[0]], bytes)
    ensures before[0].Fail? ==> Wanting(was + [before[0]], bytes)
    ensures if Hard(before[0]) then Answers(-(before[0].errno as int), was + [before[0]]) else Soft(was + [before[0]])
  {
    hide Offered;
    var used := was + [before[0]];
    OneUsed(script, before, after);
    OfferedMore(was, before[0]);
    assert used[..|was|] == was && forall k :: 0 <= k <= |was| ==> used[..k] == was[..k];
  }

  lemma OfferedMore(used: seq<Reply>, r: Reply)
    ensures Offered(used + [r]) == Offered(used) + if r.Accept? then r.n else 0
  {
    assert (used + [r])[..|used|] == used;
  }

  lemma OneUsed(script: seq<Reply>, before: seq<Reply>, after: seq<Reply>)
    requires Suffix(before, script) && before != [] && after == before[1..]
    ensures Suffix(after, script) && Used(script, after) == Used(script, before) + [before[0]]
  {
  }

  lemma FirstOf(a: seq<Reply>, b: seq<Reply>)
    requires a != [] && Suffix(a, b)
    ensures OnlyInterrupts(b) && a[0].Fail? ==> a[0].errno == EINTR
  {
    assert a[0] == b[|b| - |a|];
  }

  // write_fd: batches of at most IOV_MAX non-empty nodes.  Whatever the kernel
  // does, the stream gets a prefix of the list's bytes, each once and in order,
  // and all of them when the result is zero.
  method WriteAll(kernel: Kernel, list: List) returns (ret: int, ghost done: nat)
    requires list.Valid()
    modifies kernel`script, kernel`stream, kernel`calls
    ensures list.Valid() && list.Flat() == old(list.Flat())
    ensures done <= |list.Flat()| && kernel.stream == old(kernel.stream) + list.Flat()[..done]
    ensures Suffix(kernel.script, old(kernel.script)) && Answers(ret, Used(old(kernel.script), kernel.script))
    ensures ret == 0 ==> done == |list.Flat()|
    ensures OnlyInterrupts(old(kernel.script)) ==> ret == 0
    ensures old(kernel.script) == [] ==>
      exists calls :: Batched(calls, list.Parts()) && kernel.calls == old(kernel.calls) + calls
  {
    hide Concat, Fold, List.Valid, List.Shape, List.Parts, List.Flat, Suffix, OnlyInterrupts, Answers;
    hide Batched, Filling;
    ghost var c, flat, had, script := list.Parts(), list.Flat(), kernel.stream, kernel.script;
    list.FlatIsParts();
    ConcatEmpty<byte>();
    assert c[..0] == [] && c[..|c|] == c;
    var iov: seq<seq<byte>> := [];
    var i := 0;
    done := 0;
    NothingUsed(script, |flat|);
    SoftAnswers([]);
    ghost var calls: seq<seq<seq<byte>>> := [];
    NoPieces(c, kernel.calls);
    while i < |list.buffers|
      invariant 0 <= i <= |list.buffers| == |c|
      invariant list.Valid() && list.Parts() == c && list.Flat() == flat
      invariant done <= |flat| && kernel.stream == had + flat[..done]
      invariant |iov| < IOV_MAX && flat[..done] + Concat(iov) == Concat(c[..i])
      invariant i == |c| ==> iov == []
      invariant Suffix(kernel.script, script) && Answers(0, Used(script, kernel.script))
      invariant script == [] ==> kernel.script == [] && Sent(kernel.calls, old(kernel.calls), calls)
      invariant Batching(calls, iov, c, i)
    {
      var bytes := NodeData(list, i);
      NodeJoins(flat, done, c, i, iov);
      FillingOn(calls, iov, c, i);
      if |bytes| > 0 {
        iov := iov + [bytes];
      }
      i := i + 1;
      if |iov| == IOV_MAX || i == |list.buffers| {
        ghost var n, script', batch := 0, kernel.script, Concat(iov);
        ret, n := FlushNodes(kernel, list, iov);
        SuffixStill(kernel.script, script', script);
        AnswersOn(script, script', kernel.script, ret);
        BatchGoes(had, flat, done, batch, n);
        done := done + n;
        if ret != 0 {
          return;
        }
        BatchJoins(calls, iov, c, i);
        SentOn(old(kernel.calls), calls, iov);
        calls := calls + [iov];
        iov := [];
      }
    }
    ret := 0;
  }

  // The nodes that have bytes, in order.
  ghost function Pieces(c: seq<seq<byte>>): seq<seq<byte>> {
    if c == [] then []
    else
      var last := c[|c| - 1];
      Pieces(c[..|c| - 1]) + if last == [] then [] else [last]
  }

  ghost predicate Full(calls: seq<seq<seq<byte>>>) {
    forall k :: 0 <= k < |calls| ==> |calls[k]| == IOV_MAX
  }

  // The calls that a list with the nodes c takes when each is served in full: every
  // call but the last gets IOV_MAX pieces, and the last one gets the rest, which
  // is nothing only when the last node has no byte.
  ghost predicate Batched(calls: seq<seq<seq<byte>>>, c: seq<seq<byte>>) {
    && Concat(calls) == Pieces(c) && (calls == [] <==> c == [])
    && (calls != [] ==>
         var n := |calls| - 1;
         && Full(calls[..n]) && |calls[n]| <= IOV_MAX
         && (calls[n] == [] ==> c[|c| - 1] == []))
  }

  // Calls so far, and pieces for the next one, from the nodes before i.
  ghost predicate Filling(calls: seq<seq<seq<byte>>>, iov: seq<seq<byte>>, c: seq<seq<byte>>, i: nat)
    requires i <= |c|
  {
    Full(calls) && Concat(calls) + iov == Pieces(c[..i])
  }

  // The same at the head of the loop, when the last call may have been made.
  ghost predicate Batching(calls: seq<seq<seq<byte>>>, iov: seq<seq<byte>>, c: seq<seq<byte>>, i: nat)
    requires i <= |c|
  {
    if i < |c| then Filling(calls, iov, c, i) else Batched(calls, c)
  }

  ghost predicate Sent(now: seq<seq<seq<byte>>>, was: seq<seq<seq<byte>>>, calls: seq<seq<seq<byte>>>) {
    now == was + calls
  }

  lemma SentOn(was: seq<seq<seq<byte>>>, calls: seq<seq<seq<byte>>>, iov: seq<seq<byte>>)
    ensures forall now :: Sent(now, was, calls) ==> Sent(now + [iov], was, calls + [iov])
  {
  }

  lemma NoPieces(c: seq<seq<byte>>, was: seq<seq<seq<byte>>>)
    ensures Batching([], [], c, 0) && Sent(was, was, [])
  {
  }

  lemma FillingOn(calls: seq<seq<seq<byte>>>, iov: seq<seq<byte>>, c: seq<seq<byte>>, i: nat)
    requires i < |c| && Batching(calls, iov, c, i)
    ensures Filling(calls, if c[i] == [] then iov else iov + [c[i]], c, i + 1)
  {
    assert c[..i + 1][..i] == c[..i];
  }

  lemma BatchJoins(calls: seq<seq<seq<byte>>>, iov: seq<seq<byte>>, c: seq<seq<byte>>, i: nat)
    requires 0 < i <= |c| && Filling(calls, iov, c, i)
    requires |iov| == IOV_MAX || (i == |c| && |iov| < IOV_MAX && (iov == [] ==> c[i - 1] == []))
    ensures Batching(calls + [iov], [], c, i)
  {
    ConcatSnoc(calls, iov);
    assert c[..|c|] == c && (calls + [iov])[..|calls|] == calls;
  }

  method NodeData(list: List, i: nat) returns (bytes: seq<byte>)
    requires list.Valid() && i < |list.buffers|
    ensures list.Valid() && list.Parts() == old(list.Parts()) && list.Flat() == old(list.Flat())
    ensures i < |list.Parts()| && bytes == list.Parts()[i]
  {
    hide Concat, Fold, Raw.Coherent;
    var p := list.buffers[i];
    bytes := p.raw.data[p.off..p.off + p.len];
    assert bytes == list.Parts()[i];
  }

  // The list is not touched.
  method FlushNodes(kernel: Kernel, list: List, iov: seq<seq<byte>>) returns (ret: int, ghost done: nat)
    requires list.Valid() && |iov| <= IOV_MAX
    modifies kernel`script, kernel`stream, kernel`calls
    ensures list.Valid() && list.Parts() == old(list.Parts()) && list.Flat() == old(list.Flat())
    ensures done <= |Concat(iov)| && kernel.stream == old(kernel.stream) + Concat(iov)[..done]
    ensures Suffix(kernel.script, old(kernel.script)) && Answers(ret, Used(old(kernel.script), kernel.script))
    ensures ret == 0 ==> done == |Concat(iov)|
    ensures OnlyInterrupts(old(kernel.script)) ==> ret == 0
    ensures old(kernel.script) == [] ==> kernel.script == [] && kernel.calls == old(kernel.calls) + [iov]
  {
    hide Concat, Fold, Raw.Coherent;
    ghost var c := list.Parts();
    ret, done := FlushBatch(kernel, iov);
    List.OtherKept(list);
    assert list.Parts() == c;
  }

  lemma PrefixGrows(all: seq<byte>, done: nat, n: nat)
    requires done + n <= |all|
    ensures all[..done] + all[done..][..n] == all[..done + n]
    ensures all[done..][n..] == all[done + n..]
    ensures |all[done..]| == |all| - done
    ensures forall had: seq<byte> :: had + all[..done] + all[done..][..n] == had + all[..done + n]
  {
    forall had: seq<byte>
      ensures had + all[..done] + all[done..][..n] == had + all[..done + n]
    {
      Assoc(had, all[..done], all[done..][..n]);
    }
  }

  // The stream after n bytes of a batch that comes next.
  lemma BatchGoes(had: seq<byte>, flat: seq<byte>, done: nat, batch: seq<byte>, n: nat)
    requires done <= |flat| && n <= |batch| && flat[..done] + batch <= flat
    ensures done + n <= |flat| && had + flat[..done] + batch[..n] == had + flat[..done + n]
    ensures n == |batch| ==> flat[..done + n] == flat[..done] + batch
  {
    assert batch == flat[done..done + |batch|];
    assert flat[..done] + batch[..n] == flat[..done + n];
    Assoc(had, flat[..done], batch[..n]);
  }

  // A node with bytes joins the batch.
  lemma NodeJoins(flat: seq<byte>, done: nat, c: seq<seq<byte>>, i: nat, iov: seq<seq<byte>>)
    requires i < |c| && flat == Concat(c) && done <= |flat| && flat[..done] + Concat(iov) == Concat(c[..i])
    ensures flat[..done] + Concat(iov + [c[i]]) == Concat(c[..i + 1])
    ensures c[i] == [] ==> flat[..done] + Concat(iov) == Concat(c[..i + 1])
    ensures Concat(c[..i + 1]) <= flat
  {
    hide Concat;
    ConcatAt(c, i);
    ConcatSnoc(iov, c[i]);
    Assoc(flat[..done], Concat(iov), c[i]);
    ConcatPrefix(c, i + 1);
  }

  lemma AnswersOn(script: seq<Reply>, mid: seq<Reply>, after: seq<Reply>, ret: int)
    requires Suffix(mid, script) && Suffix(after, mid) && Suffix(after, script)
    requires Answers(0, Used(script, mid)) && Answers(ret, Used(mid, after))
    ensures Answers(ret, Used(script, after))
  {
    assert Used(script, after) == Used(script, mid) + Used(mid, after);
  }

  lemma SuffixStill(a: seq<Reply>, b: seq<Reply>, c: seq<Reply>)
    requires Suffix(a, b) && Suffix(b, c)
    ensures Suffix(a, c) && (OnlyInterrupts(c) ==> OnlyInterrupts(b))
  {
    assert forall i :: 0 <= i < |b| ==> b[i] == c[|c| - |b| + i];
  }

  lemma ConcatPrefix(c: seq<seq<byte>>, i: nat)
    requires i <= |c|
    ensures |Concat(c[..i])| <= |Concat(c)| && Concat(c[..i]) == Concat(c)[..|Concat(c[..i])|]
    ensures Concat(c[..i]) <= Concat(c)
  {
    hide Concat;
    assert c == c[..i] + c[i..];
    ConcatAppend(c[..i], c[i..]);
  }

  // ----- write_fd(fd, offset) -----

  // How many of the bytes the kernel has taken after n calls: nothing in a call
  // that fails, and everything in a call after the script.
  function Taken(script: seq<Reply>, n: nat, bytes: nat): (t: nat)
    ensures t <= bytes
  {
    if n == 0 then 0
    else
      var t := Taken(script, n - 1, bytes);
      if n > |script| then bytes
      else match script[n - 1]
        case Fail(_) => t
        case Accept(k) => t + Min(k, bytes - t)
  }

  // While the script lasts, the kernel has taken what it has offered so far, or
  // all.  So do_writev returns exactly when the offers add up to the bytes, and a
  // kernel that fails or takes nothing for ever keeps it for ever.
  lemma {:induction false} TakenIsOffered(script: seq<Reply>, n: nat, bytes: nat)
    requires n <= |script|
    ensures Taken(script, n, bytes) == Min(Offered(script[..n]), bytes)
  {
    if n > 0 {
      TakenIsOffered(script, n - 1, bytes);
      assert script[..n][..n - 1] == script[..n - 1];
    }
  }

  lemma {:induction false} NeverTaken(script: seq<Reply>, n: nat, bytes: nat)
    requires n <= |script| && bytes > 0
    requires forall k :: 0 <= k < n ==> script[k].Fail? || script[k].n == 0
    ensures Taken(script, n, bytes) < bytes
  {
    if n > 0 {
      NeverTaken(script, n - 1, bytes);
    }
  }

  // The first call and then the others.
  lemma {:induction false} TakenFirst(script: seq<Reply>, n: nat, bytes: nat)
    requires n > 0 && script != []
    ensures var k := if script[0].Fail? then 0 else Min(script[0].n, bytes);
      Taken(script, n, bytes) == k + Taken(script[1..], n - 1, bytes - k)
  {
    if n > 1 {
      TakenFirst(script, n - 1, bytes);
    }
  }

  lemma {:induction false} AllTaken(script: seq<Reply>, n: nat)
    ensures Taken(script, n, 0) == 0
    ensures script == [] && n > 0 ==> forall bytes: nat :: Taken(script, n, bytes) == bytes
  {
  }

  // do_writev, its first limit rounds: the test of errno assigns it, so that every
  // failed call is taken for an interrupted one and retried.
  method DoWritevRounds(kernel: Kernel, vec: seq<seq<byte>>, offset: nat, limit: nat) returns (finished: bool)
    requires |vec| <= IOV_MAX
    modifies kernel`script, kernel`file
    ensures var bytes := |Concat(vec)|; var t := Taken(old(kernel.script), limit, bytes);
      (finished <==> t == bytes) && kernel.file == Written(old(kernel.file), offset, Concat(vec)[..t])
    ensures Suffix(kernel.script, old(kernel.script))
    ensures var used := |Used(old(kernel.script), kernel.script)|; var bytes := |Concat(vec)|;
      && used <= limit && (used < limit && bytes > 0 ==> finished || kernel.script == [])
      && StillTaking(old(kernel.script), used, bytes)
  {
    hide Concat, Written, Taken, Suffix, Used, StillTaking, Underway;
    var rest, at, bytes := vec, offset, |Concat(vec)|;
    var rounds: nat := limit;
    ghost var all, was, done: nat, script := Concat(vec), kernel.file, 0, kernel.script;
    WrittenNothing(was, offset);
    RoundsStart(script, limit, bytes);
    while bytes > 0 && rounds > 0
      invariant done <= |all| && bytes == |all| - done && at == offset + done
      invariant |rest| <= IOV_MAX && (bytes > 0 ==> Concat(rest) == all[done..])
      invariant kernel.file == Written(was, offset, all[..done])
      invariant Underway(script, kernel.script, limit, rounds, |all|, bytes)
      decreases rounds
    {
      ghost var before := kernel.script;
      var r := kernel.Pwritev(rest, at);
      RoundGoes(script, before, kernel.script, limit, rounds, |all|, bytes);
      rounds := rounds - 1;
      if r < 0 {
        continue;
      }
      WrittenJoin(was, offset, all[..done], all[done..][..r]);
      PrefixGrows(all, done, r);
      done := done + r;
      bytes := bytes - r;
      at := at + r;
      if bytes == 0 {
        break;
      }
      rest := Resume(rest, r);
    }
    RoundsEnd(script, kernel.script, limit, rounds, |all|, bytes);
    finished := bytes == 0;
  }

  // So many bytes are left of total, so many rounds of limit, and now of the script.
  ghost predicate Underway(script: seq<Reply>, now: seq<Reply>, limit: nat, rounds: nat, total: nat, bytes: nat) {
    && Suffix(now, script) && rounds <= limit && bytes <= total
    && Taken(script, limit, total) == total - bytes + Taken(now, rounds, bytes)
    && var used := |Used(script, now)|;
       && (used + rounds == limit || (now == [] && bytes == 0 && used <= limit))
       && (total - bytes == Taken(script, used, total) || (now == [] && bytes == 0))
       && StillTaking(script, used, total)
  }

  lemma RoundsStart(script: seq<Reply>, limit: nat, bytes: nat)
    ensures Underway(script, script, limit, limit, bytes, bytes)
  {
    AllTaken(script, limit);
    NoRounds(script, bytes);
  }

  lemma RoundGoes(script: seq<Reply>, now: seq<Reply>, after: seq<Reply>, limit: nat, rounds: nat,
                  total: nat, bytes: nat)
    requires Underway(script, now, limit, rounds, total, bytes) && rounds > 0 && bytes > 0
    requires after == if now == [] then [] else now[1..]
    ensures var k := if now == [] then bytes else if now[0].Fail? then 0 else Min(now[0].n, bytes);
      Underway(script, after, limit, rounds - 1, total, bytes - k)
  {
    hide Taken, StillTaking;
    OneRound(now, rounds, bytes);
    if now == [] {
      AllTaken(now, rounds - 1);
    } else {
      OneUsed(script, now, after);
      NextTaken(script, now, |Used(script, now)|, total);
    }
  }

  lemma RoundsEnd(script: seq<Reply>, now: seq<Reply>, limit: nat, rounds: nat, total: nat, bytes: nat)
    requires Underway(script, now, limit, rounds, total, bytes) && (bytes == 0 || rounds == 0)
    ensures Taken(script, limit, total) == total - bytes && Suffix(now, script)
    ensures var used := |Used(script, now)|;
      used <= limit && (used < limit ==> bytes == 0) && StillTaking(script, used, total)
  {
    AllTaken(now, rounds);
    NoRounds(now, bytes);
  }

  // There were bytes left before each of the first n calls.
  ghost predicate StillTaking(script: seq<Reply>, n: nat, bytes: nat) {
    forall k :: 0 <= k < n ==> Taken(script, k, bytes) < bytes
  }

  lemma NextTaken(script: seq<Reply>, before: seq<Reply>, k: nat, bytes: nat)
    requires Suffix(before, script) && before != [] && k == |Used(script, before)|
    ensures var t := Taken(script, k, bytes);
      && Taken(script, k + 1, bytes) == (if before[0].Fail? then t else t + Min(before[0].n, bytes - t))
      && (t < bytes && StillTaking(script, k, bytes) ==> StillTaking(script, k + 1, bytes))
  {
    assert before[0] == script[k];
  }

  lemma NoRounds(script: seq<Reply>, bytes: nat)
    ensures Taken(script, 0, bytes) == 0 && StillTaking(script, 0, bytes)
  {
  }

  lemma OneRound(script: seq<Reply>, rounds: nat, bytes: nat)
    requires rounds > 0
    ensures script == [] ==> Taken(script, rounds, bytes) == bytes
    ensures script != [] ==>
      var k := if script[0].Fail? then 0 else Min(script[0].n, bytes);
      Taken(script, rounds, bytes) == k + Taken(script[1..], rounds - 1, bytes - k)
  {
    if script == [] {
      AllTaken(script, rounds);
    } else {
      TakenFirst(script, rounds, bytes);
    }
  }

  // do_writev to its end, which the kernel's service after the script brings.
  method DoWritev(kernel: Kernel, vec: seq<seq<byte>>, offset: nat) returns (ret: int)
    requires |vec| <= IOV_MAX
    modifies kernel`script, kernel`file
    ensures ret == 0 && kernel.file == Written(old(kernel.file), offset, Concat(vec))
  {
    hide Concat, Written;
    var finished := DoWritevRounds(kernel, vec, offset, |kernel.script| + 1);
    assert Concat(vec)[..|Concat(vec)|] == Concat(vec);
    ret := 0;
  }

  lemma WrittenNothing(file: seq<byte>, off: nat)
    ensures Written(file, off, []) == file
  {
  }

  // write_fd at an offset: batches of at most IOV_MAX nodes, empty ones included.
  method WriteAllAt(kernel: Kernel, list: List, offset: nat) returns (ret: int)
    requires list.Valid()
    modifies kernel`script, kernel`file
    ensures list.Valid() && list.Flat() == old(list.Flat())
    ensures ret == 0 && kernel.file == Written(old(kernel.file), offset, list.Flat())
  {
    hide Concat, Fold, Raw.Coherent, Written;
    ghost var c, flat, was := list.Parts(), list.Flat(), kernel.file;
    list.FlatIsParts();
    ConcatEmpty<byte>();
    assert c[..0] == [] && c[..|c|] == c;
    WrittenNothing(was, offset);
    var left, at, p := list.num, offset, 0;
    while left > 0
      invariant 0 <= left <= list.num && p == list.num - left && 0 <= p <= |c| == list.num
      invariant list.Valid() && list.Parts() == c && list.Flat() == flat
      invariant at == offset + |Concat(c[..p])|
      invariant kernel.file == Written(was, offset, Concat(c[..p]))
    {
      var size := Min(left, IOV_MAX);
      left := left - size;
      var iov := NodeBytes(list, p, size);
      assert c[..p + size] == c[..p] + c[p..p + size];
      ConcatAppend(c[..p], c[p..p + size]);
      WrittenJoin(was, offset, Concat(c[..p]), Concat(iov));
      label before:
      ret := DoWritev(kernel, iov, at);
      List.OtherKept@before(list);
      assert list.Parts() == c;
      at := at + |Concat(iov)|;
      p := p + size;
    }
    ret := 0;
  }

  // The vector for size nodes from node p on.
  method NodeBytes(list: List, p: nat, size: nat) returns (iov: seq<seq<byte>>)
    requires list.Valid() && p + size <= |list.buffers|
    ensures list.Valid() && list.Parts() == old(list.Parts()) && iov == list.Parts()[p..p + size]
  {
    hide Concat, Fold, Raw.Coherent;
    iov := [];
    var k := 0;
    while k < size
      invariant list.Valid() && list.Parts() == old(list.Parts())
      invariant 0 <= k <= size && iov == list.Parts()[p..p + k]
    {
      var q := list.buffers[p + k];
      iov := iov + [q.raw.data[q.off..q.off + q.len]];
      k := k + 1;
    }
  }
}
