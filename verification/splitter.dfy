/**
  The tree splitter of src/splitter.rs: split a parsed syntax tree into chunks whose size,
  under a pluggable metric, stays within a budget; keep a node whole when it fits, descend
  into its children when it does not, and on the way back up greedily merge the last chunk
  of one child with the first chunk of the next when their joined text still fits.
*/
module TreeSplitter {
  import opened Results
  import opened Utf8
  import opened Syntax
  import opened Chunks
  import opened Sizers

  /** `DEFAULT_MAX_CHUNK_SIZE`. */
  const DefaultMaxChunkSize: nat := 512

  /** A splitter's configuration: its size metric and its budget. */
  datatype Splitter = Splitter(sizer: Sizer, maxChunkSize: nat)

  /** `Splitter::words()`: the word metric with the default budget. */
  function WordsSplitter(): (s: Splitter)
    ensures s.sizer.WordCounter? && s.maxChunkSize == 512
  {
    Splitter(WordCounter, DefaultMaxChunkSize)
  }

  /** `Splitter::with_char_counter`: the character metric with the default budget. */
  function WithCharCounter(): (s: Splitter)
    ensures s.sizer.CharCounter? && s.maxChunkSize == 512
  {
    Splitter(CharCounter, DefaultMaxChunkSize)
  }

  /** `with_max_chunk_size`: the same metric with another budget. */
  function WithMaxChunkSize(s: Splitter, maxChunkSize: nat): (r: Splitter)
    ensures r.sizer == s.sizer && r.maxChunkSize == maxChunkSize
  {
    s.(maxChunkSize := maxChunkSize)
  }

  // ---------------------------------------------------------------------------------------
  // Measuring ranges of the code

  /** The size of the code's bytes `[lo, hi)`: decode them strictly, then apply the metric.
      This is `node.utf8_text(code)` followed by `size`, and equally `joined_size`. */
  function Measure(sp: Splitter, code: seq<byte>, lo: nat, hi: nat): (r: Result<nat>)
    requires lo <= hi <= |code|
    ensures Decode(code[lo..hi]).None? ==> r == Err(Utf8Error(lo, hi))
    ensures r.Err? && !sp.sizer.Tokenizer? ==> r.error.Utf8Error?
  {
    match Decode(code[lo..hi])
    case None => Err(Utf8Error(lo, hi))
    case Some(text) => Size(sp.sizer, text)
  }

  /** A chunk whose range lies in the code and whose stored size is what the metric gives
      its text when measured afresh. */
  predicate Measured(sp: Splitter, code: seq<byte>, c: Chunk) {
    && c.range.startByte <= c.range.endByte <= |code|
    && Measure(sp, code, c.range.startByte, c.range.endByte) == Ok(c.size)
  }

  /** What every chunk the splitter returns satisfies: measured, within budget, traced. */
  predicate Sound(sp: Splitter, code: seq<byte>, c: Chunk) {
    Measured(sp, code, c) && c.size <= sp.maxChunkSize && |c.subtree| > 0
  }

  predicate AllSound(sp: Splitter, code: seq<byte>, cs: seq<Chunk>) {
    forall i :: 0 <= i < |cs| ==> Sound(sp, code, cs[i])
  }

  // ---------------------------------------------------------------------------------------
  // Order of chunk sequences

  /** Each range is well oriented and each chunk ends before the next begins. */
  predicate Ordered(cs: seq<Chunk>) {
    && (forall i :: 0 <= i < |cs| ==> cs[i].range.startByte <= cs[i].range.endByte)
    && (forall i :: 0 <= i < |cs| - 1 ==> cs[i].range.endByte <= cs[i + 1].range.startByte)
  }

  predicate Within(cs: seq<Chunk>, lo: nat, hi: nat) {
    forall i :: 0 <= i < |cs| ==> lo <= cs[i].range.startByte && cs[i].range.endByte <= hi
  }

  /** The first byte and the end byte of a non-empty chunk sequence. */
  function Span(cs: seq<Chunk>): (nat, nat)
    requires |cs| > 0
  {
    (cs[0].range.startByte, cs[|cs| - 1].range.endByte)
  }

  lemma OrderedSplit(x: seq<Chunk>, y: seq<Chunk>)
    requires Ordered(x + y)
    ensures Ordered(x) && Ordered(y)
    ensures |x| > 0 && |y| > 0 ==> x[|x| - 1].range.endByte <= y[0].range.startByte
  {
    assert forall i :: 0 <= i < |x| ==> (x + y)[i] == x[i];
    assert forall i :: 0 <= i < |y| ==> (x + y)[|x| + i] == y[i];
    if |x| > 0 && |y| > 0 {
      assert (x + y)[|x| - 1] == x[|x| - 1];
    }
  }

  lemma OrderedJoin(x: seq<Chunk>, y: seq<Chunk>)
    requires Ordered(x) && Ordered(y)
    requires |x| > 0 && |y| > 0 ==> x[|x| - 1].range.endByte <= y[0].range.startByte
    ensures Ordered(x + y)
  {
    var xy := x + y;
    forall i | 0 <= i < |xy| - 1
      ensures xy[i].range.endByte <= xy[i + 1].range.startByte
    {
      if i + 1 < |x| {
        assert xy[i] == x[i] && xy[i + 1] == x[i + 1];
      } else if i + 1 == |x| {
        assert xy[i] == x[|x| - 1] && xy[i + 1] == y[0];
      } else {
        assert xy[i] == y[i - |x|] && xy[i + 1] == y[i - |x| + 1];
      }
    }
  }

  /** In an ordered sequence every chunk ends before any later chunk begins. */
  lemma {:induction false} OrderedPairwise(cs: seq<Chunk>, i: nat, j: nat)
    requires Ordered(cs) && i < j < |cs|
    ensures cs[i].range.endByte <= cs[j].range.startByte
    decreases j - i
  {
    if i + 1 < j {
      OrderedPairwise(cs, i + 1, j);
    }
  }

  /** An ordered sequence lies within its span. */
  lemma OrderedWithinSpan(cs: seq<Chunk>)
    requires Ordered(cs) && |cs| > 0
    ensures Within(cs, Span(cs).0, Span(cs).1)
  {
    forall i | 0 <= i < |cs|
      ensures Span(cs).0 <= cs[i].range.startByte && cs[i].range.endByte <= Span(cs).1
    {
      if 0 < i {
        OrderedPairwise(cs, 0, i);
      }
      if i < |cs| - 1 {
        OrderedPairwise(cs, i, |cs| - 1);
      }
    }
  }

  // ---------------------------------------------------------------------------------------
  // Merging as coarsening: what the fold keeps of its input

  /** Chunk `c` lies inside chunk `d`. */
  predicate Inside(c: Chunk, d: Chunk) {
    d.range.startByte <= c.range.startByte && c.range.endByte <= d.range.endByte
  }

  /** Chunk `c` lies inside some chunk of `outer`. */
  predicate InsideSome(outer: seq<Chunk>, c: Chunk) {
    exists j :: 0 <= j < |outer| && Inside(c, outer[j])
  }

  /** Every chunk of `inner` lies inside some chunk of `outer`. */
  predicate Covers(outer: seq<Chunk>, inner: seq<Chunk>) {
    forall i {:trigger InsideSome(outer, inner[i])} :: 0 <= i < |inner| ==> InsideSome(outer, inner[i])
  }

  predicate StartsAt(cs: seq<Chunk>, b: nat) {
    exists i :: 0 <= i < |cs| && cs[i].range.startByte == b
  }

  predicate EndsAt(cs: seq<Chunk>, b: nat) {
    exists i :: 0 <= i < |cs| && cs[i].range.endByte == b
  }

  /** Both ends of chunk `c` are chunk boundaries of `cs`. */
  predicate Aligned(cs: seq<Chunk>, c: Chunk) {
    StartsAt(cs, c.range.startByte) && EndsAt(cs, c.range.endByte)
  }

  /** `outer` is `inner` with runs of neighbouring chunks merged: no more chunks than `inner`,
      nothing of `inner` lost, and every boundary of `outer` a boundary of `inner`. */
  predicate Coarsens(outer: seq<Chunk>, inner: seq<Chunk>) {
    && |outer| <= |inner|
    && Covers(outer, inner)
    && (forall j {:trigger Aligned(inner, outer[j])} :: 0 <= j < |outer| ==> Aligned(inner, outer[j]))
  }

  /** The error `e` is what measuring the code from the start of one chunk of `cs` to the end
      of another gives: the only failure a merge can meet. */
  predicate JoinFails(sp: Splitter, code: seq<byte>, cs: seq<Chunk>, e: Error) {
    exists i, j :: 0 <= i < |cs| && 0 <= j < |cs| && FailsBetween(sp, code, cs[i], cs[j], e)
  }

  /** Measuring from the start of `c` to the end of `d` gives the error `e`. */
  predicate FailsBetween(sp: Splitter, code: seq<byte>, c: Chunk, d: Chunk, e: Error) {
    c.range.startByte <= d.range.endByte <= |code|
    && Measure(sp, code, c.range.startByte, d.range.endByte) == Err(e)
  }

  lemma CoarsensRefl(cs: seq<Chunk>)
    ensures Coarsens(cs, cs)
  {
    forall i | 0 <= i < |cs|
      ensures InsideSome(cs, cs[i]) && Aligned(cs, cs[i])
    {
      assert Inside(cs[i], cs[i]);
    }
  }

  lemma InsideSomeTrans(a: seq<Chunk>, b: seq<Chunk>, c: Chunk)
    requires Covers(a, b) && InsideSome(b, c)
    ensures InsideSome(a, c)
  {
    var j :| 0 <= j < |b| && Inside(c, b[j]);
    assert InsideSome(a, b[j]);
    var k :| 0 <= k < |a| && Inside(b[j], a[k]);
    assert Inside(c, a[k]);
  }

  lemma AlignedTrans(b: seq<Chunk>, c: seq<Chunk>, d: Chunk)
    requires (forall j {:trigger Aligned(c, b[j])} :: 0 <= j < |b| ==> Aligned(c, b[j])) && Aligned(b, d)
    ensures Aligned(c, d)
  {
    var j :| 0 <= j < |b| && b[j].range.startByte == d.range.startByte;
    var j' :| 0 <= j' < |b| && b[j'].range.endByte == d.range.endByte;
    assert Aligned(c, b[j]) && Aligned(c, b[j']);
  }

  lemma CoarsensTrans(a: seq<Chunk>, b: seq<Chunk>, c: seq<Chunk>)
    requires Coarsens(a, b) && Coarsens(b, c)
    ensures Coarsens(a, c)
  {
    forall i | 0 <= i < |c|
      ensures InsideSome(a, c[i])
    {
      InsideSomeTrans(a, b, c[i]);
    }
    forall k | 0 <= k < |a|
      ensures Aligned(c, a[k])
    {
      AlignedTrans(b, c, a[k]);
    }
  }

  lemma InsideSomeAppend(x: seq<Chunk>, z: seq<Chunk>, c: Chunk)
    requires InsideSome(x, c)
    ensures InsideSome(x + z, c)
  {
    var k :| 0 <= k < |x| && Inside(c, x[k]);
    assert (x + z)[k] == x[k];
  }

  lemma AlignedAppend(y: seq<Chunk>, z: seq<Chunk>, c: Chunk)
    requires Aligned(y, c)
    ensures Aligned(y + z, c)
  {
    var j :| 0 <= j < |y| && y[j].range.startByte == c.range.startByte;
    var j' :| 0 <= j' < |y| && y[j'].range.endByte == c.range.endByte;
    assert (y + z)[j] == y[j] && (y + z)[j'] == y[j'];
  }

  /** Both ends of any chunk of `x + z` are boundaries of `y + z` when `x` coarsens `y`. */
  lemma AlignedInAppend(x: seq<Chunk>, y: seq<Chunk>, z: seq<Chunk>, i: nat)
    requires Coarsens(x, y) && i < |x + z|
    ensures Aligned(y + z, (x + z)[i])
  {
    if i < |x| {
      assert (x + z)[i] == x[i];
      AlignedAppend(y, z, x[i]);
    } else {
      var k := i - |x|;
      assert (x + z)[i] == z[k] == (y + z)[|y| + k];
    }
  }

  /** Every chunk of `y + z` lies inside a chunk of `x + z` when `x` coarsens `y`. */
  lemma InsideSomeInAppend(x: seq<Chunk>, y: seq<Chunk>, z: seq<Chunk>, i: nat)
    requires Coarsens(x, y) && i < |y + z|
    ensures InsideSome(x + z, (y + z)[i])
  {
    if i < |y| {
      assert (y + z)[i] == y[i];
      InsideSomeAppend(x, z, y[i]);
    } else {
      var k := i - |y|;
      assert (y + z)[i] == z[k] == (x + z)[|x| + k];
      assert Inside(z[k], (x + z)[|x| + k]);
    }
  }

  /** Coarsening a prefix coarsens the whole sequence. */
  lemma CoarsensAppend(x: seq<Chunk>, y: seq<Chunk>, z: seq<Chunk>)
    requires Coarsens(x, y)
    ensures Coarsens(x + z, y + z)
  {
    forall i | 0 <= i < |y + z|
      ensures InsideSome(x + z, (y + z)[i])
    {
      InsideSomeInAppend(x, y, z, i);
    }
    forall k | 0 <= k < |x + z|
      ensures Aligned(y + z, (x + z)[k])
    {
      AlignedInAppend(x, y, z, k);
    }
  }

  /** A failing join over a coarsening is a failing join over what it coarsens. */
  lemma JoinFailsBack(sp: Splitter, code: seq<byte>, x: seq<Chunk>, y: seq<Chunk>, z: seq<Chunk>, e: Error)
    requires Coarsens(x, y) && JoinFails(sp, code, x + z, e)
    ensures JoinFails(sp, code, y + z, e)
  {
    var xz, yz := x + z, y + z;
    var i, j :| 0 <= i < |xz| && 0 <= j < |xz| && FailsBetween(sp, code, xz[i], xz[j], e);
    AlignedInAppend(x, y, z, i);
    AlignedInAppend(x, y, z, j);
    var i' :| 0 <= i' < |yz| && yz[i'].range.startByte == xz[i].range.startByte;
    var j' :| 0 <= j' < |yz| && yz[j'].range.endByte == xz[j].range.endByte;
    assert FailsBetween(sp, code, yz[i'], yz[j'], e);
  }

  lemma JoinFailsExtend(sp: Splitter, code: seq<byte>, x: seq<Chunk>, z: seq<Chunk>, e: Error)
    requires JoinFails(sp, code, x, e)
    ensures JoinFails(sp, code, x + z, e)
  {
    var i, j :| 0 <= i < |x| && 0 <= j < |x| && FailsBetween(sp, code, x[i], x[j], e);
    assert (x + z)[i] == x[i] && (x + z)[j] == x[j];
  }

  /** Every chunk of the lists, concatenated, inside some chunk of `outer` means every chunk of
      each list is. */
  lemma {:induction false} CoversEach(outer: seq<Chunk>, lists: seq<seq<Chunk>>, k: nat)
    requires Covers(outer, Flatten(lists)) && k < |lists|
    ensures Covers(outer, lists[k])
    decreases k
  {
    assert Flatten(lists) == lists[0] + Flatten(lists[1..]);
    if k == 0 {
      forall i | 0 <= i < |lists[0]|
        ensures InsideSome(outer, lists[0][i])
      {
        assert Flatten(lists)[i] == lists[0][i];
      }
    } else {
      var rest := Flatten(lists[1..]);
      forall i | 0 <= i < |rest|
        ensures InsideSome(outer, rest[i])
      {
        assert Flatten(lists)[|lists[0]| + i] == rest[i];
      }
      CoversEach(outer, lists[1..], k - 1);
    }
  }

  // ---------------------------------------------------------------------------------------
  // Merging the chunks of neighbouring children

  /** The chunk that replaces `tail` and `head` when they merge: the head, extended back to
      the tail's start, with both traces and the freshly measured joined size. */
  function Merged(tail: Chunk, head: Chunk, joined: nat): Chunk {
    Chunk(tail.subtree + head.subtree,
          head.range.(startByte := tail.range.startByte, startPoint := tail.range.startPoint),
          joined)
  }

  /** One step of the fold over the children's chunk lists: `acc` holds the chunks built so
      far, `next` those of the next child. */
  function MergeStep(sp: Splitter, code: seq<byte>, acc: seq<Chunk>, next: seq<Chunk>): (r: Result<seq<Chunk>>)
    requires |acc| > 0 && |next| > 0 ==>
               acc[|acc| - 1].range.startByte <= next[0].range.endByte <= |code|
    ensures |acc| == 0 || |next| == 0 ==> r == Ok(acc + next)
    ensures r.Ok? ==> (|r.value| == 0 <==> |acc + next| == 0)
    ensures r.Ok? && |r.value| > 0 ==> Span(r.value) == Span(acc + next)
    ensures r.Ok? && Ordered(acc + next) ==> Ordered(r.value)
    ensures r.Ok? && AllSound(sp, code, acc + next) ==> AllSound(sp, code, r.value)
    ensures r.Err? && !sp.sizer.Tokenizer? ==> r.error.Utf8Error?
    ensures |acc| > 0 && |next| > 0 ==>
      var tail, head := acc[|acc| - 1], next[0];
      var m := Measure(sp, code, tail.range.startByte, head.range.endByte);
      && (m.Err? ==> r == Err(m.error))
      && (m.Ok? && m.value > sp.maxChunkSize ==> r == Ok(acc + next))
      && (m.Ok? && m.value <= sp.maxChunkSize ==>
            && r.Ok? && |r.value| == |acc| + |next| - 1
            && r.value[..|acc| - 1] == acc[..|acc| - 1]
            && r.value[|acc|..] == next[1..]
            && r.value[|acc| - 1].range.startByte == tail.range.startByte
            && r.value[|acc| - 1].range.startPoint == tail.range.startPoint
            && r.value[|acc| - 1].range.endByte == head.range.endByte
            && r.value[|acc| - 1].range.endPoint == head.range.endPoint
            && r.value[|acc| - 1].subtree == tail.subtree + head.subtree
            && r.value[|acc| - 1].size == m.value)
    ensures r.Ok? && Ordered(acc + next) ==> Coarsens(r.value, acc + next)
    ensures r.Err? ==> JoinFails(sp, code, acc + next, r.error)
  {
    if |acc| == 0 || |next| == 0 then
      CoarsensRefl(acc + next);
      Ok(acc + next)
    else
      var tail := acc[|acc| - 1];
      var head := next[0];
      var m := Measure(sp, code, tail.range.startByte, head.range.endByte);
      if m.Err? then
        assert (acc + next)[|acc| - 1] == tail && (acc + next)[|acc|] == head;
        assert FailsBetween(sp, code, (acc + next)[|acc| - 1], (acc + next)[|acc|], m.error);
        Err(m.error)
      else if m.value <= sp.maxChunkSize then
        var r := acc[..|acc| - 1] + [Merged(tail, head, m.value)] + next[1..];
        MergeKeepsOrder(acc, next, m.value);
        MergeKeepsSound(sp, code, acc, next, m.value);
        MergeCoarsens(acc, next, m.value);
        Ok(r)
      else
        CoarsensRefl(acc + next);
        Ok(acc + next)
  }

  /** The merged chunk spans its two parts: it starts where the tail starts, ends where the
      head ends, contains both, and carries the tail's trace lines followed by the head's. */
  lemma MergedSpans(tail: Chunk, head: Chunk, joined: nat)
    requires tail.range.startByte <= tail.range.endByte <= head.range.startByte <= head.range.endByte
    ensures var m := Merged(tail, head, joined);
      && Inside(tail, m) && Inside(head, m)
      && m.range.startByte == tail.range.startByte && m.range.endByte == head.range.endByte
      && m.subtree[..|tail.subtree|] == tail.subtree && m.subtree[|tail.subtree|..] == head.subtree
      && m.size == joined
  {
  }

  /** A merge coarsens: the merged chunk covers the tail and the head, every other chunk stays,
      and the merged chunk's ends are the tail's start and the head's end. */
  lemma MergeCoarsens(acc: seq<Chunk>, next: seq<Chunk>, joined: nat)
    requires |acc| > 0 && |next| > 0
    ensures Ordered(acc + next) ==>
              Coarsens(acc[..|acc| - 1] + [Merged(acc[|acc| - 1], next[0], joined)] + next[1..], acc + next)
  {
    if Ordered(acc + next) {
      MergeCoarsensOrdered(acc, next, joined);
    }
  }

  lemma MergeCoarsensOrdered(acc: seq<Chunk>, next: seq<Chunk>, joined: nat)
    requires |acc| > 0 && |next| > 0 && Ordered(acc + next)
    ensures Coarsens(acc[..|acc| - 1] + [Merged(acc[|acc| - 1], next[0], joined)] + next[1..], acc + next)
  {
    var an := acc + next;
    var t := |acc| - 1;
    var tail, head := acc[t], next[0];
    var m := Merged(tail, head, joined);
    var r := acc[..t] + [m] + next[1..];
    assert an[t] == tail && an[t + 1] == head;
    MergedSpans(tail, head, joined);
    forall i | 0 <= i < |an|
      ensures InsideSome(r, an[i])
    {
      if i < t {
        assert r[i] == an[i] && Inside(an[i], r[i]);
      } else if i <= t + 1 {
        assert r[t] == m && Inside(an[i], r[t]);
      } else {
        assert r[i - 1] == an[i] && Inside(an[i], r[i - 1]);
      }
    }
    forall j | 0 <= j < |r|
      ensures Aligned(an, r[j])
    {
      if j < t {
        assert r[j] == an[j];
      } else if j == t {
        assert r[j].range.startByte == an[t].range.startByte && r[j].range.endByte == an[t + 1].range.endByte;
      } else {
        assert r[j] == an[j + 1];
      }
    }
  }

  lemma MergeKeepsOrder(acc: seq<Chunk>, next: seq<Chunk>, joined: nat)
    requires |acc| > 0 && |next| > 0
    ensures var r := acc[..|acc| - 1] + [Merged(acc[|acc| - 1], next[0], joined)] + next[1..];
      && Span(r) == Span(acc + next)
      && (Ordered(acc + next) ==> Ordered(r))
  {
    var tail, head := acc[|acc| - 1], next[0];
    var m := Merged(tail, head, joined);
    var front := acc[..|acc| - 1];
    var r := front + [m] + next[1..];
    assert r[0] == (if |front| > 0 then acc[0] else m);
    assert r[|r| - 1] == (if |next| > 1 then next[|next| - 1] else m);
    if Ordered(acc + next) {
      OrderedSplit(acc, next);
      assert acc == front + [tail];
      OrderedSplit(front, [tail]);
      assert next == [head] + next[1..];
      OrderedSplit([head], next[1..]);
      OrderedJoin(front, [m]);
      OrderedJoin(front + [m], next[1..]);
    }
  }

  lemma MergeKeepsSound(sp: Splitter, code: seq<byte>, acc: seq<Chunk>, next: seq<Chunk>, joined: nat)
    requires |acc| > 0 && |next| > 0
    requires acc[|acc| - 1].range.startByte <= next[0].range.endByte <= |code|
    requires Measure(sp, code, acc[|acc| - 1].range.startByte, next[0].range.endByte) == Ok(joined)
    requires joined <= sp.maxChunkSize
    ensures AllSound(sp, code, acc + next) ==>
              AllSound(sp, code, acc[..|acc| - 1] + [Merged(acc[|acc| - 1], next[0], joined)] + next[1..])
  {
    var tail, head := acc[|acc| - 1], next[0];
    var m := Merged(tail, head, joined);
    var front := acc[..|acc| - 1];
    var r := front + [m] + next[1..];
    if AllSound(sp, code, acc + next) {
      assert (acc + next)[|acc| - 1] == tail;
      assert Sound(sp, code, m);
      forall i | 0 <= i < |r|
        ensures Sound(sp, code, r[i])
      {
        if i < |front| {
          assert r[i] == (acc + next)[i];
        } else if i > |front| {
          assert r[i] == (acc + next)[i + 1];
        }
      }
    }
  }

  /** The chunk lists concatenated in order. */
  function Flatten(lists: seq<seq<Chunk>>): seq<Chunk> {
    if |lists| == 0 then [] else lists[0] + Flatten(lists[1..])
  }

  lemma FlattenFront(acc: seq<Chunk>, lists: seq<seq<Chunk>>)
    requires |lists| > 0
    ensures acc + Flatten(lists) == (acc + lists[0]) + Flatten(lists[1..])
  {
    var x, y := lists[0], Flatten(lists[1..]);
    assert Flatten(lists) == x + y;
    SeqAssoc(acc, x, y);
  }

  lemma SeqAssoc(a: seq<Chunk>, b: seq<Chunk>, c: seq<Chunk>)
    ensures a + (b + c) == (a + b) + c
  {
  }

  /** Every byte range a fold step joins lies in the code. */
  predicate InCode(cs: seq<Chunk>, len: nat) {
    forall i :: 0 <= i < |cs| ==> cs[i].range.endByte <= len
  }

  /** What folding `lists` onto `acc` promises of its result `r`, relative to the unmerged
      chunks `acc ++ concat(lists)`: ordered, sound chunks over the same span, each a merge of
      neighbouring input chunks, none only when there were none; a failure is a join that
      failed between two of the input chunks, and a failing first join is the failure. */
  ghost predicate Folded(sp: Splitter, code: seq<byte>, acc: seq<Chunk>, lists: seq<seq<Chunk>>, r: Result<seq<Chunk>>) {
    var input := acc + Flatten(lists);
    && (r.Ok? ==> Ordered(r.value))
    && (r.Ok? ==> (|r.value| == 0 <==> |input| == 0))
    && (r.Ok? && |r.value| > 0 ==> Span(r.value) == Span(input))
    && (r.Ok? && AllSound(sp, code, input) ==> AllSound(sp, code, r.value))
    && (r.Ok? ==> Coarsens(r.value, input))
    && (r.Err? ==> JoinFails(sp, code, input, r.error))
    && (r.Err? && !sp.sizer.Tokenizer? ==> r.error.Utf8Error?)
    && (|acc| > 0 && |lists| > 0 && |lists[0]| > 0
        && acc[|acc| - 1].range.startByte <= lists[0][0].range.endByte <= |code|
        && Measure(sp, code, acc[|acc| - 1].range.startByte, lists[0][0].range.endByte).Err? ==>
          r == Err(Measure(sp, code, acc[|acc| - 1].range.startByte, lists[0][0].range.endByte).error))
  }

  /** The `try_fold` over the children's lists, left to right, from `acc`. */
  function Fold(sp: Splitter, code: seq<byte>, acc: seq<Chunk>, lists: seq<seq<Chunk>>): (r: Result<seq<Chunk>>)
    requires Ordered(acc + Flatten(lists)) && InCode(acc + Flatten(lists), |code|)
    ensures Folded(sp, code, acc, lists, r)
    decreases |lists|
  {
    if |lists| == 0 then
      FoldNothing(sp, code, acc, lists);
      Ok(acc)
    else
      FoldBoundary(acc, lists, |code|);
      var step := MergeStep(sp, code, acc, lists[0]);
      if step.Err? then
        FoldStep(sp, code, acc, lists, Err(step.error));
        Err(step.error)
      else
        FlattenFront(acc, lists);
        OrderedSplit(acc + lists[0], Flatten(lists[1..]));
        FoldReady(sp, code, acc, lists, step.value);
        var r := Fold(sp, code, step.value, lists[1..]);
        FoldStep(sp, code, acc, lists, r);
        r
  }

  lemma FoldNothing(sp: Splitter, code: seq<byte>, acc: seq<Chunk>, lists: seq<seq<Chunk>>)
    requires |lists| == 0 && Ordered(acc + Flatten(lists))
    ensures Folded(sp, code, acc, lists, Ok(acc))
  {
    assert acc + Flatten(lists) == acc;
    CoarsensRefl(acc);
  }

  /** The first join of the fold reads a range of the code. */
  lemma FoldBoundary(acc: seq<Chunk>, lists: seq<seq<Chunk>>, len: nat)
    requires |lists| > 0 && Ordered(acc + Flatten(lists)) && InCode(acc + Flatten(lists), len)
    ensures |acc| > 0 && |lists[0]| > 0 ==> acc[|acc| - 1].range.startByte <= lists[0][0].range.endByte <= len
  {
    FlattenFront(acc, lists);
    OrderedSplit(acc + lists[0], Flatten(lists[1..]));
    FoldStepInCode(acc, lists[0], Flatten(lists[1..]), len);
  }

  /** After a successful merge step the rest of the fold may run. */
  lemma FoldReady(sp: Splitter, code: seq<byte>, acc: seq<Chunk>, lists: seq<seq<Chunk>>, acc': seq<Chunk>)
    requires |lists| > 0 && Ordered(acc + Flatten(lists)) && InCode(acc + Flatten(lists), |code|)
    requires Ordered(acc') && (|acc'| == 0 <==> |acc + lists[0]| == 0)
    requires |acc'| > 0 ==> Span(acc') == Span(acc + lists[0])
    ensures Ordered(acc' + Flatten(lists[1..])) && InCode(acc' + Flatten(lists[1..]), |code|)
  {
    var x, rest := acc + lists[0], Flatten(lists[1..]);
    assert acc + Flatten(lists) == x + rest;
    PrefixKeepsOrder(x, acc', rest);
    PrefixKeepsInCode(x, acc', rest, |code|);
  }

  /** One step of the fold: a merge step that fails is the fold's failure, and what the rest
      of the fold promises about `acc' ++ rest` it promises about `acc ++ next ++ rest`. */
  lemma FoldStep(sp: Splitter, code: seq<byte>, acc: seq<Chunk>, lists: seq<seq<Chunk>>, r: Result<seq<Chunk>>)
    requires |lists| > 0 && Ordered(acc + Flatten(lists)) && InCode(acc + Flatten(lists), |code|)
    requires |acc| > 0 && |lists[0]| > 0 ==> acc[|acc| - 1].range.startByte <= lists[0][0].range.endByte <= |code|
    requires MergeStep(sp, code, acc, lists[0]).Err? ==> r == Err(MergeStep(sp, code, acc, lists[0]).error)
    requires MergeStep(sp, code, acc, lists[0]).Ok? ==> Folded(sp, code, MergeStep(sp, code, acc, lists[0]).value, lists[1..], r)
    ensures Folded(sp, code, acc, lists, r)
  {
    var next, rest := lists[0], Flatten(lists[1..]);
    FlattenFront(acc, lists);
    OrderedSplit(acc + next, rest);
    var step := MergeStep(sp, code, acc, next);
    if step.Err? {
      JoinFailsExtend(sp, code, acc + next, rest, step.error);
    } else {
      var acc' := step.value;
      FoldStepKeeps(sp, code, acc + next, acc', rest);
      FoldStepTrace(sp, code, acc, next, acc', rest, r);
    }
  }

  /** What the rest of the fold keeps of `acc' + rest` it keeps of `acc + next + rest`, when
      `acc'` is the merge of `acc` and `next`. */
  lemma FoldStepTrace(sp: Splitter, code: seq<byte>, acc: seq<Chunk>, next: seq<Chunk>, acc': seq<Chunk>,
                      rest: seq<Chunk>, r: Result<seq<Chunk>>)
    requires Coarsens(acc', acc + next)
    requires r.Ok? ==> Coarsens(r.value, acc' + rest)
    requires r.Err? ==> JoinFails(sp, code, acc' + rest, r.error)
    ensures r.Ok? ==> Coarsens(r.value, acc + next + rest)
    ensures r.Err? ==> JoinFails(sp, code, acc + next + rest, r.error)
  {
    CoarsensAppend(acc', acc + next, rest);
    if r.Ok? {
      CoarsensTrans(r.value, acc' + rest, acc + next + rest);
    } else {
      JoinFailsBack(sp, code, acc', acc + next, rest, r.error);
    }
  }

  lemma FoldStepInCode(acc: seq<Chunk>, next: seq<Chunk>, rest: seq<Chunk>, len: nat)
    requires Ordered(acc + next) && InCode(acc + next + rest, len)
    ensures |acc| > 0 && |next| > 0 ==> acc[|acc| - 1].range.startByte <= next[0].range.endByte <= len
  {
    if |acc| > 0 && |next| > 0 {
      var i := |acc| - 1;
      assert (acc + next)[i] == acc[i] && (acc + next)[i + 1] == next[0];
      assert (acc + next + rest)[i + 1] == next[0];
    }
  }

  /** Replacing `acc ++ next` by its merge `x'` in front of the rest keeps what the fold needs. */
  lemma FoldStepKeeps(sp: Splitter, code: seq<byte>, x: seq<Chunk>, x': seq<Chunk>, rest: seq<Chunk>)
    requires Ordered(x + rest) && InCode(x + rest, |code|)
    requires Ordered(x') && (|x'| == 0 <==> |x| == 0)
    requires |x'| > 0 ==> Span(x') == Span(x)
    requires AllSound(sp, code, x) ==> AllSound(sp, code, x')
    ensures Ordered(x' + rest) && InCode(x' + rest, |code|)
    ensures |x' + rest| == 0 <==> |x + rest| == 0
    ensures |x' + rest| > 0 ==> Span(x' + rest) == Span(x + rest)
    ensures AllSound(sp, code, x + rest) ==> AllSound(sp, code, x' + rest)
  {
    PrefixKeepsOrder(x, x', rest);
    PrefixKeepsInCode(x, x', rest, |code|);
    PrefixKeepsSpan(x, x', rest);
    PrefixKeepsSound(sp, code, x, x', rest);
  }

  lemma PrefixKeepsOrder(x: seq<Chunk>, x': seq<Chunk>, y: seq<Chunk>)
    requires Ordered(x + y) && Ordered(x') && (|x'| == 0 <==> |x| == 0)
    requires |x'| > 0 ==> Span(x') == Span(x)
    ensures Ordered(x' + y)
  {
    OrderedSplit(x, y);
    OrderedJoin(x', y);
  }

  lemma PrefixKeepsInCode(x: seq<Chunk>, x': seq<Chunk>, y: seq<Chunk>, len: nat)
    requires Ordered(x + y) && InCode(x + y, len) && Ordered(x') && (|x'| == 0 <==> |x| == 0)
    requires |x'| > 0 ==> Span(x') == Span(x)
    ensures InCode(x' + y, len)
  {
    if |x'| > 0 {
      OrderedWithinSpan(x');
      assert (x + y)[|x| - 1] == x[|x| - 1];
    }
    forall i | 0 <= i < |x' + y|
      ensures (x' + y)[i].range.endByte <= len
    {
      if i < |x'| {
        assert (x' + y)[i] == x'[i];
      } else {
        assert (x' + y)[i] == y[i - |x'|] == (x + y)[|x| + i - |x'|];
      }
    }
  }

  lemma PrefixKeepsSpan(x: seq<Chunk>, x': seq<Chunk>, y: seq<Chunk>)
    requires (|x'| == 0 <==> |x| == 0) && (|x'| > 0 ==> Span(x') == Span(x))
    ensures |x' + y| == 0 <==> |x + y| == 0
    ensures |x' + y| > 0 ==> Span(x' + y) == Span(x + y)
  {
    if |x'| > 0 {
      assert (x' + y)[0] == x'[0] && (x + y)[0] == x[0];
    }
    if |y| > 0 {
      assert (x' + y)[|x' + y| - 1] == y[|y| - 1] == (x + y)[|x + y| - 1];
    } else {
      assert x' + y == x' && x + y == x;
    }
  }

  lemma PrefixKeepsSound(sp: Splitter, code: seq<byte>, x: seq<Chunk>, x': seq<Chunk>, y: seq<Chunk>)
    requires AllSound(sp, code, x) ==> AllSound(sp, code, x')
    ensures AllSound(sp, code, x + y) ==> AllSound(sp, code, x' + y)
  {
    if AllSound(sp, code, x + y) {
      assert forall i :: 0 <= i < |x| ==> (x + y)[i] == x[i];
      assert forall i :: 0 <= i < |y| ==> (x + y)[|x| + i] == y[i];
      JoinSound(sp, code, x', y);
    }
  }

  /** Some chunk of `cs` contains both `c` and `d`: the two ended up in one chunk. */
  predicate Together(cs: seq<Chunk>, c: Chunk, d: Chunk) {
    exists k :: 0 <= k < |cs| && Inside(c, cs[k]) && Inside(d, cs[k])
  }

  /** The last chunk of `a` and the first chunk of `b` are the tail and head of a merge, and
      their joined text measures within budget. */
  predicate JoinFitsAt(sp: Splitter, code: seq<byte>, a: seq<Chunk>, b: seq<Chunk>) {
    && |a| > 0 && |b| > 0
    && a[|a| - 1].range.startByte <= b[0].range.endByte <= |code|
    && Measure(sp, code, a[|a| - 1].range.startByte, b[0].range.endByte).Ok?
    && Measure(sp, code, a[|a| - 1].range.startByte, b[0].range.endByte).value <= sp.maxChunkSize
  }

  /** When the accumulator's tail and the next list's head fit together, the fold merges
      them: whatever later merges do, one chunk of a successful result contains both. */
  lemma FoldJoins(sp: Splitter, code: seq<byte>, acc: seq<Chunk>, lists: seq<seq<Chunk>>)
    requires |lists| > 0 && Ordered(acc + Flatten(lists)) && InCode(acc + Flatten(lists), |code|)
    requires JoinFitsAt(sp, code, acc, lists[0])
    ensures Fold(sp, code, acc, lists).Ok? ==> Together(Fold(sp, code, acc, lists).value, acc[|acc| - 1], lists[0][0])
  {
    var next := lists[0];
    var tail, head := acc[|acc| - 1], next[0];
    FlattenFront(acc, lists);
    OrderedSplit(acc + next, Flatten(lists[1..]));
    assert (acc + next)[|acc| - 1] == tail && (acc + next)[|acc|] == head;
    var step := MergeStep(sp, code, acc, next);
    assert step.Ok?;
    var m := step.value[|acc| - 1];
    assert Inside(tail, m) && Inside(head, m);
    FoldReady(sp, code, acc, lists, step.value);
    var r := Fold(sp, code, acc, lists);
    assert r == Fold(sp, code, step.value, lists[1..]);
    if r.Ok? {
      var input := step.value + Flatten(lists[1..]);
      assert Folded(sp, code, step.value, lists[1..], r);
      assert input[|acc| - 1] == m;
      assert InsideSome(r.value, input[|acc| - 1]);
      var k :| 0 <= k < |r.value| && Inside(m, r.value[k]);
      assert Inside(tail, r.value[k]) && Inside(head, r.value[k]);
    }
  }

  /** From an empty accumulator, the first merge attempted is between the first two lists. */
  lemma FoldFirstMerge(sp: Splitter, code: seq<byte>, lists: seq<seq<Chunk>>)
    requires Ordered([] + Flatten(lists)) && InCode([] + Flatten(lists), |code|)
    requires |lists| >= 2 && JoinFitsAt(sp, code, lists[0], lists[1])
    ensures Fold(sp, code, [], lists).Ok? ==> Together(Fold(sp, code, [], lists).value, lists[0][|lists[0]| - 1], lists[1][0])
  {
    assert [] + lists[0] == lists[0];
    FlattenFront([], lists);
    assert lists[1..][0] == lists[1];
    FoldJoins(sp, code, lists[0], lists[1..]);
  }

  // ---------------------------------------------------------------------------------------
  // Splitting a node

  /** The single chunk for a node that fits the budget. */
  function Leaf(node: Node, depth: nat, size: nat): Chunk {
    Chunk([TraceLine(node.kind, depth, node.range.startPoint.row, node.range.endPoint.row, size)], node.range, size)
  }

  /** A node that fits the budget gives a sound chunk covering exactly the node, one trace
      line long, whose size is the node's measured size. */
  lemma LeafSound(sp: Splitter, code: seq<byte>, node: Node, depth: nat, size: nat)
    requires node.range.startByte <= node.range.endByte <= |code|
    requires Measure(sp, code, node.range.startByte, node.range.endByte) == Ok(size)
    requires size <= sp.maxChunkSize
    ensures Sound(sp, code, Leaf(node, depth, size))
    ensures Leaf(node, depth, size).range == node.range && Leaf(node, depth, size).size == size
    ensures |Leaf(node, depth, size).subtree| == 1
  {
  }

  /** `split_node`: the chunks for `node`, which sits at `depth` in the tree. */
  function SplitNode(sp: Splitter, code: seq<byte>, node: Node, depth: nat): (r: Result<seq<Chunk>>)
    requires WellFormed(node, |code|)
    ensures var m := Measure(sp, code, node.range.startByte, node.range.endByte);
      && (m.Err? ==> r == Err(m.error))
      && (m == Ok(0) ==> r == Ok([]))
      && (m.Ok? && 0 < m.value <= sp.maxChunkSize ==> r == Ok([Leaf(node, depth, m.value)]))
      && (m.Ok? && m.value > sp.maxChunkSize && |node.children| == 0 ==> r == Ok([]))
    ensures r.Ok? ==> Ordered(r.value) && AllSound(sp, code, r.value)
    ensures r.Ok? ==> Within(r.value, node.range.startByte, node.range.endByte)
    ensures (exists k :: 0 <= k < |node.children| && SplitNode(sp, code, node.children[k], depth + 1).Err?) ==>
              var m := Measure(sp, code, node.range.startByte, node.range.endByte);
              m.Ok? && m.value > sp.maxChunkSize ==> r.Err?
    ensures r.Err? && !sp.sizer.Tokenizer? ==> r.error.Utf8Error?
    decreases node, 2, 0
  {
    var size :- Measure(sp, code, node.range.startByte, node.range.endByte);
    if size == 0 then Ok([])
    else if size <= sp.maxChunkSize then Ok([Leaf(node, depth, size)])
    else SplitChildren(sp, code, node, depth)
  }

  /** The last chunk of `a` and the first chunk of `b` are the tail and head of a merge, and
      measuring their joined text fails with `e`. */
  predicate JoinFailsAt(sp: Splitter, code: seq<byte>, a: seq<Chunk>, b: seq<Chunk>, e: Error) {
    |a| > 0 && |b| > 0 && FailsBetween(sp, code, a[|a| - 1], b[0], e)
  }

  /** How a result `r` relates to chunk lists `lists` that it was folded from:
      - a success loses nothing: every chunk of every list lies inside a chunk of `r`;
      - `r` is the lists' chunks with runs of neighbours merged, and no more;
      - a failure is a joined measurement between two of their chunks;
      - the first merge attempted, between the first two lists, aborts the fold when its
        measurement fails, and joins the two boundary chunks into one when it fits. */
  ghost predicate MergedFrom(sp: Splitter, code: seq<byte>, lists: seq<seq<Chunk>>, r: Result<seq<Chunk>>) {
    && (r.Ok? ==> forall k :: 0 <= k < |lists| ==> Covers(r.value, lists[k]))
    && (r.Ok? ==> Coarsens(r.value, Flatten(lists)))
    && (r.Err? ==> JoinFails(sp, code, Flatten(lists), r.error))
    && (forall err :: |lists| >= 2 && JoinFailsAt(sp, code, lists[0], lists[1], err) ==> r == Err(err))
    && (r.Ok? && |lists| >= 2 && JoinFitsAt(sp, code, lists[0], lists[1]) ==>
          Together(r.value, lists[0][|lists[0]| - 1], lists[1][0]))
  }

  /** How the result `r` of an oversized node relates to its children: a failing child fails
      the node with the first child's error, before any merge; otherwise `r` is merged from
      the children's chunk lists `SplitEach(.., node, depth + 1, 0)`, each of which is that
      child's own `split_node` result. */
  ghost predicate Descends(sp: Splitter, code: seq<byte>, node: Node, depth: nat, r: Result<seq<Chunk>>)
    requires WellFormed(node, |code|)
  {
    var e := SplitEach(sp, code, node, depth + 1, 0);
    && (e.Err? ==> r == Err(e.error) && FailsFirst(sp, code, node, depth + 1, 0, e.error))
    && (e.Ok? ==> MergedFrom(sp, code, e.value, r))
  }

  /** The descent of `split_node` into an oversized node: split every child one level deeper,
      then fold their chunk lists, merging across each boundary where the joined text fits. */
  function SplitChildren(sp: Splitter, code: seq<byte>, node: Node, depth: nat): (r: Result<seq<Chunk>>)
    requires WellFormed(node, |code|)
    ensures |node.children| == 0 ==> r == Ok([])
    ensures r.Ok? ==> Ordered(r.value) && AllSound(sp, code, r.value)
    ensures r.Ok? ==> Within(r.value, node.range.startByte, node.range.endByte)
    ensures (exists k :: 0 <= k < |node.children| && SplitNode(sp, code, node.children[k], depth + 1).Err?) ==> r.Err?
    ensures r.Err? && !sp.sizer.Tokenizer? ==> r.error.Utf8Error?
    decreases node, 1, 0
  {
    var e := SplitEach(sp, code, node, depth + 1, 0);
    if e.Err? then Err(e.error)
    else
      assert node.children[0..] == node.children;
      FoldOfChildren(sp, code, node, e.value);
      Fold(sp, code, [], e.value)
  }

  /** Folding the chunk lists of a well-formed node's children gives ordered, sound chunks
      inside the node; with no children there is nothing to fold. */
  lemma FoldOfChildren(sp: Splitter, code: seq<byte>, node: Node, lists: seq<seq<Chunk>>)
    requires WellFormed(node, |code|) && ChildLists(sp, code, node.children, lists)
    ensures Ordered([] + Flatten(lists)) && InCode([] + Flatten(lists), |code|)
    ensures var r := Fold(sp, code, [], lists);
      && (|lists| == 0 ==> r == Ok([]))
      && (r.Ok? ==> Ordered(r.value) && AllSound(sp, code, r.value))
      && (r.Ok? ==> Within(r.value, node.range.startByte, node.range.endByte))
      && (r.Err? && !sp.sizer.Tokenizer? ==> r.error.Utf8Error?)
  {
    ChildrenReady(sp, code, node, lists);
    FoldWithin(sp, code, lists, node.range.startByte, node.range.endByte);
  }

  lemma FoldWithin(sp: Splitter, code: seq<byte>, lists: seq<seq<Chunk>>, lo: nat, hi: nat)
    requires Ordered([] + Flatten(lists)) && InCode([] + Flatten(lists), |code|)
    requires AllSound(sp, code, [] + Flatten(lists))
    requires |Flatten(lists)| > 0 ==>
               lo <= Flatten(lists)[0].range.startByte && Flatten(lists)[|Flatten(lists)| - 1].range.endByte <= hi
    ensures var r := Fold(sp, code, [], lists);
      && (|lists| == 0 ==> r == Ok([]))
      && (r.Ok? ==> Ordered(r.value) && AllSound(sp, code, r.value))
      && (r.Ok? ==> Within(r.value, lo, hi))
      && (r.Err? && !sp.sizer.Tokenizer? ==> r.error.Utf8Error?)
  {
    var f := Flatten(lists);
    assert [] + f == f;
    var r := Fold(sp, code, [], lists);
    assert Folded(sp, code, [], lists, r);
    if r.Ok? && |r.value| > 0 {
      assert |f| > 0 && Span(r.value) == Span(f);
    }
    FoldInside(r, lo, hi);
  }

  /** The descent relates its result to the children's as `Descends` says. */
  lemma ChildrenDescend(sp: Splitter, code: seq<byte>, node: Node, depth: nat)
    requires WellFormed(node, |code|)
    ensures Descends(sp, code, node, depth, SplitChildren(sp, code, node, depth))
  {
    var e := SplitEach(sp, code, node, depth + 1, 0);
    SplitEachFailsFirst(sp, code, node, depth + 1, 0);
    if e.Ok? {
      assert node.children[0..] == node.children;
      ChildrenReady(sp, code, node, e.value);
      FoldMerges(sp, code, e.value);
    }
  }

  /** The fold of chunk lists from an empty accumulator is merged from those lists. */
  lemma FoldMerges(sp: Splitter, code: seq<byte>, lists: seq<seq<Chunk>>)
    requires Ordered([] + Flatten(lists)) && InCode([] + Flatten(lists), |code|)
    ensures MergedFrom(sp, code, lists, Fold(sp, code, [], lists))
  {
    var r := Fold(sp, code, [], lists);
    assert [] + Flatten(lists) == Flatten(lists);
    if r.Ok? {
      DescentCovers(r.value, lists);
    }
    forall err | |lists| >= 2 && JoinFailsAt(sp, code, lists[0], lists[1], err)
      ensures r == Err(err)
    {
      FoldFirstJoin(sp, code, lists, err);
    }
    if |lists| >= 2 && JoinFitsAt(sp, code, lists[0], lists[1]) {
      FoldFirstMerge(sp, code, lists);
    }
  }

  /** `split_node` of an oversized node relates its chunks to its children's chunks as
      `Descends` says: nothing lost, neighbours merged, and every failure aborts. */
  lemma SplitNodeDescends(sp: Splitter, code: seq<byte>, node: Node, depth: nat)
    requires WellFormed(node, |code|)
    ensures var m := Measure(sp, code, node.range.startByte, node.range.endByte);
      m.Ok? && m.value > sp.maxChunkSize ==> Descends(sp, code, node, depth, SplitNode(sp, code, node, depth))
  {
    var m := Measure(sp, code, node.range.startByte, node.range.endByte);
    if m.Ok? && m.value > sp.maxChunkSize {
      assert SplitNode(sp, code, node, depth) == SplitChildren(sp, code, node, depth);
      ChildrenDescend(sp, code, node, depth);
    }
  }

  /** An oversized node with two children that each fit, and whose joined text fits as well,
      becomes one chunk: the merge of the two children's leaves. */
  lemma SiblingLeavesMerge(sp: Splitter, code: seq<byte>, node: Node, depth: nat, sa: nat, sb: nat, joined: nat)
    requires WellFormed(node, |code|) && |node.children| == 2
    requires WellFormed(node.children[0], |code|) && WellFormed(node.children[1], |code|)
    requires Measure(sp, code, node.range.startByte, node.range.endByte).Ok?
    requires Measure(sp, code, node.range.startByte, node.range.endByte).value > sp.maxChunkSize
    requires Measure(sp, code, node.children[0].range.startByte, node.children[0].range.endByte) == Ok(sa)
    requires Measure(sp, code, node.children[1].range.startByte, node.children[1].range.endByte) == Ok(sb)
    requires 0 < sa <= sp.maxChunkSize && 0 < sb <= sp.maxChunkSize
    requires Measure(sp, code, node.children[0].range.startByte, node.children[1].range.endByte) == Ok(joined)
    requires joined <= sp.maxChunkSize
    ensures SplitNode(sp, code, node, depth)
         == Ok([Merged(Leaf(node.children[0], depth + 1, sa), Leaf(node.children[1], depth + 1, sb), joined)])
  {
    var a, b := node.children[0], node.children[1];
    var la, lb := Leaf(a, depth + 1, sa), Leaf(b, depth + 1, sb);
    SiblingLeaves(sp, code, node, depth, sa, sb);
    FoldPair(sp, code, la, lb, joined);
    assert SplitNode(sp, code, node, depth) == SplitChildren(sp, code, node, depth);
    assert SplitChildren(sp, code, node, depth) == Fold(sp, code, [], [[la], [lb]]);
  }

  /** Two children that each fit give the chunk lists `[[leaf a], [leaf b]]`, ordered and in
      the code, which the node's descent then folds. */
  lemma SiblingLeaves(sp: Splitter, code: seq<byte>, node: Node, depth: nat, sa: nat, sb: nat)
    requires WellFormed(node, |code|) && |node.children| == 2
    requires WellFormed(node.children[0], |code|) && WellFormed(node.children[1], |code|)
    requires Measure(sp, code, node.children[0].range.startByte, node.children[0].range.endByte) == Ok(sa)
    requires Measure(sp, code, node.children[1].range.startByte, node.children[1].range.endByte) == Ok(sb)
    requires 0 < sa <= sp.maxChunkSize && 0 < sb <= sp.maxChunkSize
    ensures var la, lb := Leaf(node.children[0], depth + 1, sa), Leaf(node.children[1], depth + 1, sb);
      && la.range.startByte <= la.range.endByte <= lb.range.startByte <= lb.range.endByte <= |code|
      && SplitEach(sp, code, node, depth + 1, 0) == Ok([[la], [lb]])
  {
    var a, b := node.children[0], node.children[1];
    var la, lb := Leaf(a, depth + 1, sa), Leaf(b, depth + 1, sb);
    assert SplitNode(sp, code, a, depth + 1) == Ok([la]);
    assert SplitNode(sp, code, b, depth + 1) == Ok([lb]);
    var e := SplitEach(sp, code, node, depth + 1, 0);
    assert node.children[0..] == node.children;
    assert e.Ok? && |e.value| == 2;
    assert e.value[0] == [la] && e.value[1] == [lb];
    assert e.value == [[la], [lb]];
  }

  /** Folding two single-chunk lists whose joined text fits gives their merge. */
  lemma FoldPair(sp: Splitter, code: seq<byte>, tail: Chunk, head: Chunk, joined: nat)
    requires tail.range.startByte <= tail.range.endByte <= head.range.startByte <= head.range.endByte <= |code|
    requires Measure(sp, code, tail.range.startByte, head.range.endByte) == Ok(joined)
    requires joined <= sp.maxChunkSize
    ensures Ordered([] + Flatten([[tail], [head]])) && InCode([] + Flatten([[tail], [head]]), |code|)
    ensures Fold(sp, code, [], [[tail], [head]]) == Ok([Merged(tail, head, joined)])
  {
    var lists := [[tail], [head]];
    var m := Merged(tail, head, joined);
    PairInput(tail, head, |code|);
    assert [] + [tail] == [tail] && lists[1..] == [[head]];
    FoldOnce(sp, code, [], lists, [tail]);
    MergePair(sp, code, tail, head, joined);
    assert Ordered([m]) && InCode([m], |code|);
    assert [m] + Flatten([]) == [m];
    FoldOnce(sp, code, [tail], [[head]], [m]);
  }

  /** A fold step that succeeds with `acc'` continues the fold from `acc'`. */
  lemma FoldOnce(sp: Splitter, code: seq<byte>, acc: seq<Chunk>, lists: seq<seq<Chunk>>, acc': seq<Chunk>)
    requires |lists| > 0 && Ordered(acc + Flatten(lists)) && InCode(acc + Flatten(lists), |code|)
    requires |acc| > 0 && |lists[0]| > 0 ==>
               acc[|acc| - 1].range.startByte <= lists[0][0].range.endByte <= |code|
    requires MergeStep(sp, code, acc, lists[0]) == Ok(acc')
    requires Ordered(acc' + Flatten(lists[1..])) && InCode(acc' + Flatten(lists[1..]), |code|)
    ensures Fold(sp, code, acc, lists) == Fold(sp, code, acc', lists[1..])
  {
  }

  /** Two ordered chunks in the code, as two one-chunk lists, are a valid fold input both
      before and after the first step. */
  lemma PairInput(tail: Chunk, head: Chunk, len: nat)
    requires tail.range.startByte <= tail.range.endByte <= head.range.startByte <= head.range.endByte <= len
    ensures [] + Flatten([[tail], [head]]) == [tail, head] && [tail] + Flatten([[head]]) == [tail, head]
    ensures Ordered([tail, head]) && InCode([tail, head], len)
    ensures [[head]][1..] == [] && Flatten([]) == []
  {
    var lists := [[tail], [head]];
    assert Flatten(lists[1..][1..]) == [];
    assert Flatten(lists) == [tail, head];
  }

  /** Two single chunks whose joined text fits merge into one. */
  lemma MergePair(sp: Splitter, code: seq<byte>, tail: Chunk, head: Chunk, joined: nat)
    requires tail.range.startByte <= head.range.endByte <= |code|
    requires Measure(sp, code, tail.range.startByte, head.range.endByte) == Ok(joined)
    requires joined <= sp.maxChunkSize
    ensures MergeStep(sp, code, [tail], [head]) == Ok([Merged(tail, head, joined)])
  {
    assert [tail][..0] == [] && [head][1..] == [];
    assert [tail][..0] + [Merged(tail, head, joined)] + [head][1..] == [Merged(tail, head, joined)];
  }

  /** An ordered result whose ends lie in `[lo, hi)` lies entirely there. */
  lemma FoldInside(r: Result<seq<Chunk>>, lo: nat, hi: nat)
    requires r.Ok? ==> Ordered(r.value)
    requires r.Ok? && |r.value| > 0 ==> lo <= Span(r.value).0 && Span(r.value).1 <= hi
    ensures r.Ok? ==> Within(r.value, lo, hi)
  {
    if r.Ok? && |r.value| > 0 {
      OrderedWithinSpan(r.value);
    }
  }

  /** A coarsening of the children's concatenated chunks covers each child's own chunks. */
  lemma DescentCovers(outer: seq<Chunk>, lists: seq<seq<Chunk>>)
    requires Coarsens(outer, Flatten(lists))
    ensures forall k :: 0 <= k < |lists| ==> Covers(outer, lists[k])
  {
    forall k | 0 <= k < |lists|
      ensures Covers(outer, lists[k])
    {
      CoversEach(outer, lists, k);
    }
  }

  /** The fold's first merge is between the first two lists; when its measurement fails, the
      fold fails with that error. */
  lemma FoldFirstJoin(sp: Splitter, code: seq<byte>, lists: seq<seq<Chunk>>, err: Error)
    requires Ordered([] + Flatten(lists)) && InCode([] + Flatten(lists), |code|)
    requires |lists| >= 2 && JoinFailsAt(sp, code, lists[0], lists[1], err)
    ensures Fold(sp, code, [], lists) == Err(err)
  {
    assert [] + lists[0] == lists[0];
    assert [] + Flatten(lists) == lists[0] + Flatten(lists[1..]);
    assert lists[1..][0] == lists[1];
  }

  /** The children's chunk lists, concatenated, are a valid start for the fold. */
  lemma ChildrenReady(sp: Splitter, code: seq<byte>, node: Node, lists: seq<seq<Chunk>>)
    requires WellFormed(node, |code|) && ChildLists(sp, code, node.children, lists)
    ensures Ordered([] + Flatten(lists)) && InCode([] + Flatten(lists), |code|)
    ensures AllSound(sp, code, [] + Flatten(lists))
    ensures |Flatten(lists)| > 0 ==>
              node.range.startByte <= Flatten(lists)[0].range.startByte
              && Flatten(lists)[|Flatten(lists)| - 1].range.endByte <= node.range.endByte
  {
    ChildrenInOrder(node, |code|);
    FlattenInOrder(sp, code, node.children, lists, node.range.endByte);
    assert [] + Flatten(lists) == Flatten(lists);
  }

  /** The chunk lists of the children `i..` of `parent`, in order; the first failure wins. */
  function SplitEach(sp: Splitter, code: seq<byte>, parent: Node, depth: nat, i: nat): (r: Result<seq<seq<Chunk>>>)
    requires WellFormed(parent, |code|) && i <= |parent.children|
    ensures r.Ok? ==> ChildLists(sp, code, parent.children[i..], r.value)
    ensures r.Ok? ==> forall k :: 0 <= k < |r.value| ==>
              SplitNode(sp, code, parent.children[i + k], depth) == Ok(r.value[k])
    ensures r.Err? ==> exists k :: i <= k < |parent.children| && SplitNode(sp, code, parent.children[k], depth).Err?
    ensures r.Err? && !sp.sizer.Tokenizer? ==> r.error.Utf8Error?
    decreases parent, 0, |parent.children| - i
  {
    if i == |parent.children| then Ok([])
    else
      var first :- SplitNode(sp, code, parent.children[i], depth);
      var rest :- SplitEach(sp, code, parent, depth, i + 1);
      ChildListsCons(sp, code, parent.children[i..], first, rest);
      assert forall k :: 0 < k < |rest| + 1 ==> ([first] + rest)[k] == rest[k - 1] && i + k == (i + 1) + (k - 1);
      Ok([first] + rest)
  }

  /** Among the children `i..` of `parent`, the one at `k` is the first whose `split_node`
      fails, and it fails with `e`. */
  ghost predicate FailsFirst(sp: Splitter, code: seq<byte>, parent: Node, depth: nat, i: nat, e: Error)
    requires WellFormed(parent, |code|) && i <= |parent.children|
  {
    exists k :: i <= k < |parent.children| && SplitNode(sp, code, parent.children[k], depth) == Err(e)
      && (forall j :: i <= j < k ==> SplitNode(sp, code, parent.children[j], depth).Ok?)
  }

  /** Collecting the children's results stops at the first failure in document order, as
      `collect::<Result<Vec<_>>>` does, and returns that child's error. */
  lemma {:induction false} SplitEachFailsFirst(sp: Splitter, code: seq<byte>, parent: Node, depth: nat, i: nat)
    requires WellFormed(parent, |code|) && i <= |parent.children|
    ensures var r := SplitEach(sp, code, parent, depth, i);
      r.Err? ==> FailsFirst(sp, code, parent, depth, i, r.error)
    decreases |parent.children| - i
  {
    var r := SplitEach(sp, code, parent, depth, i);
    if r.Err? {
      var first := SplitNode(sp, code, parent.children[i], depth);
      if first.Err? {
        assert r.error == first.error;
        assert FailsFirst(sp, code, parent, depth, i, r.error) by {
          assert SplitNode(sp, code, parent.children[i], depth) == Err(r.error);
        }
      } else {
        var rest := SplitEach(sp, code, parent, depth, i + 1);
        assert rest.Err? && rest.error == r.error;
        SplitEachFailsFirst(sp, code, parent, depth, i + 1);
        var k :| i + 1 <= k < |parent.children| && SplitNode(sp, code, parent.children[k], depth) == Err(r.error)
          && (forall j :: i + 1 <= j < k ==> SplitNode(sp, code, parent.children[j], depth).Ok?);
        assert forall j :: i <= j < k ==> SplitNode(sp, code, parent.children[j], depth).Ok?;
      }
    }
  }

  /** Each list is the ordered, sound chunk list of the child at the same position. */
  predicate ChildLists(sp: Splitter, code: seq<byte>, children: seq<Node>, lists: seq<seq<Chunk>>) {
    && |lists| == |children|
    && forall k :: 0 <= k < |lists| ==>
         && Ordered(lists[k])
         && AllSound(sp, code, lists[k])
         && Within(lists[k], children[k].range.startByte, children[k].range.endByte)
  }

  lemma ChildrenInOrder(node: Node, len: nat)
    requires WellFormed(node, len)
    ensures forall i :: 0 <= i < |node.children| ==>
              node.children[i].range.startByte <= node.children[i].range.endByte <= node.range.endByte
  {
    forall i | 0 <= i < |node.children|
      ensures node.children[i].range.startByte <= node.children[i].range.endByte <= node.range.endByte
    {
      assert WellFormed(node.children[i], len);
    }
  }

  lemma ChildListsCons(sp: Splitter, code: seq<byte>, children: seq<Node>, first: seq<Chunk>, rest: seq<seq<Chunk>>)
    requires |children| > 0 && ChildLists(sp, code, children[1..], rest)
    requires Ordered(first) && AllSound(sp, code, first)
    requires Within(first, children[0].range.startByte, children[0].range.endByte)
    ensures ChildLists(sp, code, children, [first] + rest)
  {
    var lists := [first] + rest;
    forall k | 0 < k < |lists|
      ensures Ordered(lists[k]) && AllSound(sp, code, lists[k])
      ensures Within(lists[k], children[k].range.startByte, children[k].range.endByte)
    {
      assert lists[k] == rest[k - 1] && children[k] == children[1..][k - 1];
    }
  }

  lemma ChildListsRest(sp: Splitter, code: seq<byte>, children: seq<Node>, lists: seq<seq<Chunk>>)
    requires ChildLists(sp, code, children, lists) && |lists| > 0
    ensures ChildLists(sp, code, children[1..], lists[1..])
  {
    forall k | 0 <= k < |lists| - 1
      ensures Ordered(lists[1..][k]) && AllSound(sp, code, lists[1..][k])
      ensures Within(lists[1..][k], children[1..][k].range.startByte, children[1..][k].range.endByte)
    {
      assert lists[1..][k] == lists[k + 1] && children[1..][k] == children[k + 1];
    }
  }

  lemma JoinSound(sp: Splitter, code: seq<byte>, x: seq<Chunk>, y: seq<Chunk>)
    requires AllSound(sp, code, x) && AllSound(sp, code, y)
    ensures AllSound(sp, code, x + y)
  {
    assert forall k :: 0 <= k < |x| ==> (x + y)[k] == x[k];
    assert forall k :: 0 <= k < |y| ==> (x + y)[|x| + k] == y[k];
  }

  lemma JoinWithin(x: seq<Chunk>, y: seq<Chunk>, lo: nat, hi: nat)
    requires Within(x, lo, hi) && Within(y, lo, hi)
    ensures Within(x + y, lo, hi)
  {
    assert forall k :: 0 <= k < |x| ==> (x + y)[k] == x[k];
    assert forall k :: 0 <= k < |y| ==> (x + y)[|x| + k] == y[k];
  }

  /** Children in document order give an ordered, sound concatenation of their chunk lists,
      starting no earlier than the first child. */
  lemma {:induction false} FlattenInOrder(sp: Splitter, code: seq<byte>, children: seq<Node>, lists: seq<seq<Chunk>>, hi: nat)
    requires ChildLists(sp, code, children, lists)
    requires forall i :: 0 <= i < |children| - 1 ==> children[i].range.endByte <= children[i + 1].range.startByte
    requires forall i :: 0 <= i < |children| ==> children[i].range.startByte <= children[i].range.endByte <= hi
    ensures Ordered(Flatten(lists)) && AllSound(sp, code, Flatten(lists))
    ensures |children| > 0 ==> Within(Flatten(lists), children[0].range.startByte, hi)
    decreases |lists|
  {
    if |lists| > 0 {
      var first, rest := lists[0], Flatten(lists[1..]);
      var c0 := children[0];
      ChildListsRest(sp, code, children, lists);
      FlattenInOrder(sp, code, children[1..], lists[1..], hi);
      if |first| > 0 && |rest| > 0 {
        assert first[|first| - 1].range.endByte <= c0.range.endByte;
        assert children[1].range.startByte <= rest[0].range.startByte;
      }
      OrderedJoin(first, rest);
      JoinSound(sp, code, first, rest);
      assert Within(first, c0.range.startByte, hi);
      if |children| > 1 {
        assert Within(rest, c0.range.startByte, hi);
      }
      JoinWithin(first, rest, c0.range.startByte, hi);
    }
  }

  // ---------------------------------------------------------------------------------------
  // Splitting a whole input

  /** `split`: an empty input gives no chunks without consulting the parser; otherwise the
      parser's tree is split from its root at depth 0. */
  function Split(sp: Splitter, code: seq<byte>, parse: seq<byte> -> Result<Node>): (r: Result<seq<Chunk>>)
    requires |code| > 0 && parse(code).Ok? ==> WellFormed(parse(code).value, |code|)
    ensures |code| == 0 ==> r == Ok([])
    ensures |code| > 0 && parse(code).Err? ==> r == Err(parse(code).error)
    ensures |code| > 0 && parse(code).Ok? ==> r == SplitNode(sp, code, parse(code).value, 0)
    ensures r.Ok? ==> Ordered(r.value) && AllSound(sp, code, r.value)
    ensures r.Err? && !sp.sizer.Tokenizer? ==> r.error.Utf8Error? || (|code| > 0 && parse(code).Err? && r.error == parse(code).error)
  {
    if |code| == 0 then Ok([])
    else
      var root :- parse(code);
      SplitNode(sp, code, root, 0)
  }
}
