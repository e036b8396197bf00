// Pure facts about a sequence of chunks and the flat sequence it stands for.
module Rope {

  function Concat<T>(chunks: seq<seq<T>>): seq<T> {
    if chunks == [] then [] else chunks[0] + Concat(chunks[1..])
  }

  lemma {:induction false} ConcatAppend<T>(a: seq<seq<T>>, b: seq<seq<T>>)
    ensures Concat(a + b) == Concat(a) + Concat(b)
    decreases a
  {
    if a == [] {
      assert a + b == b;
    } else {
      assert (a + b)[0] == a[0] && (a + b)[1..] == a[1..] + b;
      ConcatAppend(a[1..], b);
    }
  }

  lemma ConcatOne<T>(c: seq<T>)
    ensures Concat([c]) == c
  {
    assert [c][1..] == [];
  }

  lemma ConcatSnoc<T>(a: seq<seq<T>>, c: seq<T>)
    ensures Concat(a + [c]) == Concat(a) + c
  {
    ConcatAppend(a, [c]);
    ConcatOne(c);
  }

  lemma ConcatCons<T>(c: seq<T>, b: seq<seq<T>>)
    ensures Concat([c] + b) == c + Concat(b)
  {
    assert ([c] + b)[1..] == b;
  }

  lemma ConcatEmpty<T>()
    ensures Concat<T>([]) == []
  {
  }

  // The chunks before i, the chunk at i, and the chunks after it.
  lemma ConcatAt<T>(chunks: seq<seq<T>>, i: nat)
    requires i < |chunks|
    ensures Concat(chunks) == Concat(chunks[..i]) + chunks[i] + Concat(chunks[i + 1..])
    ensures Concat(chunks) == Concat(chunks[..i]) + Concat(chunks[i..])
    ensures Concat(chunks[..i + 1]) == Concat(chunks[..i]) + chunks[i]
    ensures Concat(chunks[i..]) == chunks[i] + Concat(chunks[i + 1..])
  {
    hide Concat;
    ConcatSplit(chunks, i);
    ConcatNext(chunks, i);
    Assoc(Concat(chunks[..i]), chunks[i], Concat(chunks[i + 1..]));
  }

  lemma ConcatSplit<T>(chunks: seq<seq<T>>, i: nat)
    requires i <= |chunks|
    ensures Concat(chunks) == Concat(chunks[..i]) + Concat(chunks[i..])
  {
    hide Concat;
    assert chunks == chunks[..i] + chunks[i..];
    ConcatAppend(chunks[..i], chunks[i..]);
  }

  lemma ConcatNext<T>(chunks: seq<seq<T>>, i: nat)
    requires i < |chunks|
    ensures Concat(chunks[..i + 1]) == Concat(chunks[..i]) + chunks[i]
    ensures Concat(chunks[i..]) == chunks[i] + Concat(chunks[i + 1..])
  {
    hide Concat;
    assert chunks[..i + 1] == chunks[..i] + [chunks[i]];
    ConcatSnoc(chunks[..i], chunks[i]);
    assert chunks[i..] == [chunks[i]] + chunks[i + 1..];
    ConcatCons(chunks[i], chunks[i + 1..]);
  }

  lemma Assoc<T>(a: seq<T>, b: seq<T>, c: seq<T>)
    ensures a + b + c == a + (b + c)
  {
  }

  // Replacing the chunk at i.
  lemma ConcatReplace<T>(chunks: seq<seq<T>>, i: nat, c: seq<T>)
    requires i < |chunks|
    ensures Concat(chunks[i := c]) == Concat(chunks[..i]) + c + Concat(chunks[i + 1..])
  {
    hide Concat;
    var d := chunks[i := c];
    ConcatAt(d, i);
    assert d[..i] == chunks[..i] && d[i + 1..] == chunks[i + 1..];
  }

  // Where chunk i starts.
  ghost function StartOf<T>(c: seq<seq<T>>, i: nat): nat
    requires i <= |c|
  {
    |Concat(c[..i])|
  }

  // Part of a chunk as a part of the flat sequence.
  lemma NodeSlice<T>(chunks: seq<seq<T>>, j: nat, off: nat, n: nat)
    requires j < |chunks| && off + n <= |chunks[j]|
    ensures var s := |Concat(chunks[..j])| + off; var f := Concat(chunks);
      && s + n <= |f|
      && chunks[j][off..off + n] == f[s..s + n]
      && f[..s] == Concat(chunks[..j]) + chunks[j][..off]
  {
    hide Concat;
    ConcatAt(chunks, j);
    var a, m, z := Concat(chunks[..j]), chunks[j], Concat(chunks[j + 1..]);
    assert Concat(chunks) == a + m + z;
  }

  // The due part of chunk j continues what has been cut since position off.
  lemma CutFacts<T>(chunks: seq<seq<T>>, j: nat, rest: nat, take: nat, off: nat, done: nat)
    requires j < |chunks| && rest + take <= |chunks[j]|
    requires |Concat(chunks[..j])| + rest == done && off <= done
    ensures done + take <= |Concat(chunks)|
    ensures var f := Concat(chunks);
      f[off..done] + chunks[j][rest..rest + take] == f[off..done + take]
    ensures rest + take == |chunks[j]| ==> |Concat(chunks[..j + 1])| == done + take
    ensures rest + take < |chunks[j]| ==> done + take < |Concat(chunks)|
  {
    hide Concat;
    NodeSlice(chunks, j, rest, take);
    ConcatAt(chunks, j);
  }

  // Where a cut stands that began at off: n - left elements are out, and rest
  // of chunk j stay before what is due next.
  ghost predicate StillDue<T>(c: seq<seq<T>>, j: nat, rest: nat, left: nat, n: nat, off: nat) {
    && j <= |c| && left <= n && StartOf(c, j) + rest == off + n - left <= |Concat(c)|
    && (if j < |c| then rest <= |c[j]| else rest == 0) && (left < n ==> rest == 0)
  }

  // What the claiming list has by then.
  ghost function Gotten<T>(c: seq<seq<T>>, left: nat, n: nat, off: nat, had: seq<T>): seq<T>
    requires left <= n && off + n - left <= |Concat(c)|
  {
    had + Concat(c)[off..off + n - left]
  }

  lemma CutStarts<T>(c: seq<seq<T>>, j: nat, rest: nat, n: nat, off: nat, had: seq<T>)
    requires j < |c| && rest <= |c[j]| && StartOf(c, j) + rest == off <= |Concat(c)|
    ensures StillDue(c, j, rest, n, n, off) && off <= |Concat(c)| && Gotten(c, n, n, off, had) == had
  {
    hide Concat;
    assert Concat(c)[off..off] == [];
  }

  lemma CutStands<T>(c: seq<seq<T>>, j: nat, rest: nat, left: nat, n: nat, off: nat, had: seq<T>)
    requires StillDue(c, j, rest, left, n, off)
    ensures j <= |c| && left <= n && off + n - left <= |Concat(c)|
    ensures if j < |c| then rest <= |c[j]| else off + n - left == |Concat(c)|
    ensures left == 0 && n > 0 ==>
      StartOf(c, j) == off + n && Gotten(c, left, n, off, had) == had + Concat(c)[off..off + n]
  {
    hide Concat;
    assert c[..|c|] == c;
  }

  // What a cut from off to off + n leaves when it ends inside chunk j.
  lemma CutLeaves<T>(c: seq<seq<T>>, j: nat, pre: seq<seq<T>>, cut: nat, off: nat, n: nat)
    requires j < |c| && cut <= |c[j]| && StartOf(c, j) + cut == off + n <= |Concat(c)| &&
      Concat(pre) == Concat(c)[..off]
    ensures Concat((pre + c[j..])[|pre| := c[j][cut..]]) == Concat(c)[..off] + Concat(c)[off + n..]
  {
    hide Concat;
    CutAt(c, j, pre, cut);
  }

  // And when it ends before chunk j.
  lemma CutLeavesAll<T>(c: seq<seq<T>>, j: nat, pre: seq<seq<T>>, off: nat, n: nat)
    requires j <= |c| && StartOf(c, j) == off + n <= |Concat(c)| && Concat(pre) == Concat(c)[..off]
    ensures Concat(pre + c[j..]) == Concat(c)[..off] + Concat(c)[off + n..]
  {
    hide Concat;
    CutAll(c, j, pre);
  }

  // Taking the due part of chunk j.
  lemma CutGoesOn<T>(c: seq<seq<T>>, j: nat, rest: nat, left: nat, n: nat, off: nat, had: seq<T>, take: nat)
    requires StillDue(c, j, rest, left, n, off) && j < |c| && left > 0
    requires take == if rest + left < |c[j]| then left else |c[j]| - rest
    ensures off + n - (left - take) <= |Concat(c)|
    ensures Gotten(c, left, n, off, had) + c[j][rest..rest + take] == Gotten(c, left - take, n, off, had)
    ensures take == left ==> Gotten(c, left - take, n, off, had) == had + Concat(c)[off..off + n]
    ensures rest + left < |c[j]| ==> StartOf(c, j) + rest + left == off + n < |Concat(c)|
    ensures rest + left >= |c[j]| ==> StillDue(c, j + 1, 0, left - take, n, off)
  {
    hide Concat;
    var f, done := Concat(c), off + n - left;
    CutFacts(c, j, rest, take, off, done);
    Assoc(had, f[off..done], c[j][rest..rest + take]);
  }

  // What is left when the chunks before j go, but not pre.
  lemma CutAll<T>(chunks: seq<seq<T>>, j: nat, pre: seq<seq<T>>)
    requires j <= |chunks|
    ensures var s := |Concat(chunks[..j])|; var f := Concat(chunks);
      s <= |f| && Concat(pre + chunks[j..]) == Concat(pre) + f[s..]
  {
    hide Concat;
    assert chunks == chunks[..j] + chunks[j..];
    ConcatAppend(chunks[..j], chunks[j..]);
    ConcatAppend(pre, chunks[j..]);
  }

  // What is left when the first cut Ts of chunk j and all of pre's extra go.
  lemma CutAt<T>(chunks: seq<seq<T>>, j: nat, pre: seq<seq<T>>, cut: nat)
    requires j < |chunks| && cut <= |chunks[j]|
    ensures var s := |Concat(chunks[..j])| + cut;
      && s <= |Concat(chunks)|
      && (pre + chunks[j..])[|pre| := chunks[j][cut..]] == pre + [chunks[j][cut..]] + chunks[j + 1..]
      && Concat((pre + chunks[j..])[|pre| := chunks[j][cut..]]) == Concat(pre) + Concat(chunks)[s..]
  {
    hide Concat;
    var d := chunks[j][cut..];
    ConcatAt(chunks, j);
    assert (pre + chunks[j..])[|pre| := d] == pre + [d] + chunks[j + 1..];
    ConcatSnoc(pre, d);
    ConcatAppend(pre + [d], chunks[j + 1..]);
    Assoc(Concat(pre), d, Concat(chunks[j + 1..]));
    var a, m, z := Concat(chunks[..j]), chunks[j], Concat(chunks[j + 1..]);
    assert Concat(chunks) == a + m + z;
    assert (a + m + z)[|a| + cut..] == d + z;
  }
}
