/** The stream stages of stream.go, sequentially. A stage reads the values its
    upstream has produced (`pending`) with `Next` and pushes values downstream
    with `Push`. Downstream cancellation (the `done` channel) is a fixed number
    of pushes the sink accepts (`cutoff`): every later push is refused. When a
    value is ready and `done` has fired, Go's `select` may take either; the
    model always takes the value. */
module Streams {
  import opened Wrappers
  import opened Text
  import opened IO

  /** The downstream side: what has been pushed, and how many pushes in total
      are accepted before cancellation. */
  datatype Sink<T> = Sink(pushed: seq<T>, cutoff: nat)

  /** How many more pushes will be accepted. */
  function Room<T>(k: Sink<T>): nat
  {
    if |k.pushed| < k.cutoff then k.cutoff - |k.pushed| else 0
  }

  /** `stream.Push`: true and the value delivered while there is room, false
      and nothing delivered once cancelled. */
  function Push<T>(k: Sink<T>, v: T): (r: (bool, Sink<T>))
    ensures r.0 <==> Room(k) > 0
    ensures r.0 ==> r.1 == Sink(k.pushed + [v], k.cutoff) && Room(r.1) == Room(k) - 1
    ensures !r.0 ==> r.1 == k
  {
    if |k.pushed| < k.cutoff then (true, Sink(k.pushed + [v], k.cutoff)) else (false, k)
  }

  /** Once a push has been refused every later push is refused too. */
  lemma RefusedStaysRefused<T>(k: Sink<T>, v: T, u: T)
    requires !Push(k, v).0
    ensures !Push(Push(k, v).1, u).0 && Push(Push(k, v).1, u).1 == k
  {
  }

  /** `k'` is `k` with values appended: the earlier pushes are kept in order. */
  ghost predicate Extends<T>(k': Sink<T>, k: Sink<T>)
  {
    k'.cutoff == k.cutoff && |k.pushed| <= |k'.pushed| && k'.pushed[..|k.pushed|] == k.pushed
  }

  lemma ExtendsTransitive<T>(k3: Sink<T>, k2: Sink<T>, k1: Sink<T>)
    requires Extends(k3, k2) && Extends(k2, k1)
    ensures Extends(k3, k1)
  {
    assert k3.pushed[..|k1.pushed|] == k3.pushed[..|k2.pushed|][..|k1.pushed|];
  }

  /** A stage's view of the pipeline: upstream values not read yet, and the sink. */
  datatype Stream<T> = Stream(pending: seq<T>, sink: Sink<T>)

  /** `stream.Next`: the next upstream value, or `ok == false` (`None`) once
      upstream is exhausted. */
  function Next<T>(s: Stream<T>): (r: (Option<T>, Stream<T>))
    ensures r.0.None? <==> |s.pending| == 0
    ensures r.0.None? ==> r.1 == s
    ensures r.0.Some? ==> r.0.value == s.pending[0] && r.1 == Stream(s.pending[1..], s.sink)
  {
    if |s.pending| == 0 then (None, s) else (Some(s.pending[0]), Stream(s.pending[1..], s.sink))
  }

  function Min(a: int, b: int): int
  {
    if a <= b then a else b
  }

  /** `Drain`: forwards upstream values unchanged and in order. It reports
      true when upstream ran out first; when a push is refused it stops at
      once, and the refused value is lost. */
  method Drain<T>(s: Stream<T>) returns (drained: bool, s': Stream<T>)
    ensures drained <==> |s.pending| <= Room(s.sink)
    ensures s'.sink.cutoff == s.sink.cutoff
    ensures drained ==> s'.pending == [] && s'.sink.pushed == s.sink.pushed + s.pending
    ensures !drained ==> s'.sink.pushed == s.sink.pushed + s.pending[..Room(s.sink)]
                         && s'.pending == s.pending[Room(s.sink) + 1..]
  {
    var cur := s;
    var i := 0;
    while true
      invariant 0 <= i <= |s.pending| && i <= Room(s.sink)
      invariant cur.pending == s.pending[i..]
      invariant cur.sink == Sink(s.sink.pushed + s.pending[..i], s.sink.cutoff)
      invariant Room(cur.sink) == Room(s.sink) - i
      decreases |cur.pending|
    {
      var next := Next(cur);
      if next.0.None? {
        assert s.pending[..i] == s.pending;
        return true, cur;
      }
      var pushed := Push(next.1.sink, next.0.value);
      if !pushed.0 {
        return false, next.1;
      }
      assert s.pending[..i + 1] == s.pending[..i] + [s.pending[i]];
      cur := Stream(next.1.pending, pushed.1);
      i := i + 1;
    }
  }

  /** After `Drain` the downstream has received a prefix of the upstream values. */
  lemma DrainForwardsPrefix<T>(s: Stream<T>, pushed: seq<T>)
    requires pushed == s.sink.pushed + s.pending[..Min(|s.pending|, Room(s.sink))]
    ensures |s.sink.pushed| <= |pushed| && pushed[|s.sink.pushed|..] <= s.pending
  {
    assert pushed[|s.sink.pushed|..] == s.pending[..Min(|s.pending|, Room(s.sink))];
  }

  /** `ToArray.Run`: reads every upstream value; if there was any, pushes one
      array holding all of them in arrival order (`wrap` builds the array
      value). It never fails, even when the push is refused. */
  method ToArray<T>(wrap: seq<T> -> T, s: Stream<T>) returns (res: Outcome<Error>, s': Stream<T>)
    ensures res == Pass
    ensures s'.pending == []
    ensures |s.pending| == 0 ==> s'.sink == s.sink
    ensures |s.pending| > 0 ==> s'.sink == Push(s.sink, wrap(s.pending)).1
  {
    var arr: seq<T> := [];
    var cur := s;
    while true
      invariant |arr| + |cur.pending| == |s.pending|
      invariant arr + cur.pending == s.pending
      invariant cur.sink == s.sink
      decreases |cur.pending|
    {
      var next := Next(cur);
      if next.0.None? {
        break;
      }
      assert cur.pending == [next.0.value] + next.1.pending;
      arr := arr + [next.0.value];
      cur := next.1;
    }
    assert arr == s.pending;
    res := Pass;
    if |arr| > 0 {
      var pushed := Push(cur.sink, wrap(arr));
      s' := Stream(cur.pending, pushed.1);
    } else {
      s' := cur;
    }
  }

  /** `NullStream.Produce`: one push of the null value, whose refusal is
      ignored. */
  function NullStream<T>(nullValue: T, k: Sink<T>): (r: (Outcome<Error>, Sink<T>))
    ensures r.0 == Pass
    ensures Room(k) > 0 ==> r.1.pushed == k.pushed + [nullValue]
    ensures Room(k) == 0 ==> r.1 == k
  {
    (Pass, Push(k, nullValue).1)
  }

  /** A producer writes to the sink and reports an error. Go gives it only the
      write side of the stream, so a well-formed producer only appends. */
  type Producer<!T> = Sink<T> -> (Outcome<Error>, Sink<T>)

  ghost predicate OnlyPushes<T(!new)>(p: Producer<T>)
  {
    forall k: Sink<T> :: Extends(p(k).1, k)
  }

  /** `ProducerFunc.Run`: drains upstream first, then runs the producer on what
      downstream has received so far, whether or not the drain was cut off. */
  method ProducerRun<T(!new)>(f: Producer<T>, s: Stream<T>) returns (res: Outcome<Error>, s': Stream<T>)
    ensures var up := s.pending[..Min(|s.pending|, Room(s.sink))];
            (res, s'.sink) == f(Sink(s.sink.pushed + up, s.sink.cutoff))
    ensures OnlyPushes(f) ==>
              var up := s.pending[..Min(|s.pending|, Room(s.sink))];
              |s.sink.pushed + up| <= |s'.sink.pushed| && s'.sink.pushed[..|s.sink.pushed + up|] == s.sink.pushed + up
  {
    var drained, d := Drain(s);
    assert drained ==> s.pending[..Min(|s.pending|, Room(s.sink))] == s.pending;
    var r := f(d.sink);
    res := r.0;
    s' := Stream(d.pending, r.1);
  }

  /** `Producers.Produce`: the producers in list order, stopping at the first
      error, which is returned; `Pass` when every one passed. */
  function Produce<T>(tasks: seq<Producer<T>>, k: Sink<T>): (r: (Outcome<Error>, Sink<T>))
    ensures |tasks| == 0 ==> r == (Pass, k)
    ensures |tasks| > 0 && tasks[0](k).0.Fail? ==> r == tasks[0](k)
    decreases |tasks|
  {
    if |tasks| == 0 then (Pass, k)
    else
      var first := tasks[0](k);
      if first.0.Fail? then first else Produce(tasks[1..], first.1)
  }

  /** A list of well-formed producers is a well-formed producer. */
  lemma {:induction false} ProduceOnlyPushes<T(!new)>(tasks: seq<Producer<T>>, k: Sink<T>)
    requires forall i | 0 <= i < |tasks| :: OnlyPushes(tasks[i])
    ensures Extends(Produce(tasks, k).1, k)
    decreases |tasks|
  {
    if |tasks| > 0 {
      var first := tasks[0](k);
      assert Extends(first.1, k);
      if first.0.Pass? {
        assert forall i | 0 <= i < |tasks[1..]| :: tasks[1..][i] == tasks[i + 1];
        ProduceOnlyPushes(tasks[1..], first.1);
        ExtendsTransitive(Produce(tasks[1..], first.1).1, first.1, k);
      }
    } else {
      assert k.pushed[..|k.pushed|] == k.pushed;
    }
  }

  /** Running two lists of producers is running the first, then, if it
      passed, the second on what it left. */
  lemma {:induction false} ProduceAppend<T>(a: seq<Producer<T>>, b: seq<Producer<T>>, k: Sink<T>)
    ensures Produce(a + b, k) == if Produce(a, k).0.Fail? then Produce(a, k) else Produce(b, Produce(a, k).1)
    decreases |a|
  {
    if |a| == 0 {
      assert a + b == b;
    } else {
      assert (a + b)[0] == a[0];
      assert (a + b)[1..] == a[1..] + b;
      var first := a[0](k);
      if first.0.Pass? {
        ProduceAppend(a[1..], b, first.1);
      }
    }
  }

  /** The first failing producer's error is the result, and no producer after
      it runs. */
  lemma {:induction false} ProduceStopsAtFirstError<T>(tasks: seq<Producer<T>>, i: nat, k: Sink<T>)
    requires i < |tasks|
    requires Produce(tasks[..i], k).0 == Pass
    requires tasks[i](Produce(tasks[..i], k).1).0.Fail?
    ensures Produce(tasks, k) == tasks[i](Produce(tasks[..i], k).1)
  {
    var mid := Produce(tasks[..i], k).1;
    assert tasks == tasks[..i] + ([tasks[i]] + tasks[i + 1..]);
    ProduceAppend(tasks[..i], [tasks[i]] + tasks[i + 1..], k);
    assert ([tasks[i]] + tasks[i + 1..])[0] == tasks[i];
  }

  /** `ReadFromTask` of stream.go: decoded values are pushed in order until the
      decoder stops or a push is refused. The decoder's `EOF` and a refused
      push both end it without error; any other decoder error is returned. */
  function ReadFrom<T>(src: Source<T>, k: Sink<T>): (r: (Outcome<Error>, Sink<T>))
    ensures r.1 == Sink(k.pushed + src.docs[..Min(|src.docs|, Room(k))], k.cutoff)
    ensures r.0 == if |src.docs| > Room(k) || src.end == EOF then Pass else Fail(src.end)
    decreases |src.docs|
  {
    if |src.docs| == 0 then (if src.end == EOF then Pass else Fail(src.end), k)
    else
      var pushed := Push(k, src.docs[0]);
      if !pushed.0 then (Pass, k)
      else
        var r := ReadFrom(Source(src.docs[1..], src.end), pushed.1);
        assert src.docs[..Min(|src.docs|, Room(k))]
            == [src.docs[0]] + src.docs[1..][..Min(|src.docs[1..]|, Room(pushed.1))];
        r
  }

  function ReadFromTask<T>(src: Source<T>): Producer<T>
  {
    k => ReadFrom(src, k)
  }

  /** A reading task is a well-formed producer. */
  lemma ReadFromTaskOnlyPushes<T(!new)>(src: Source<T>)
    ensures OnlyPushes(ReadFromTask(src))
  {
    forall k: Sink<T> ensures Extends(ReadFromTask(src)(k).1, k) {
      var n := Min(|src.docs|, Room(k));
      assert (k.pushed + src.docs[..n])[..|k.pushed|] == k.pushed;
    }
  }

  // ---------------------------------------------------------------------------
  // Consumers: stages that write what they read.

  /** The text of `vs` encoded one after another. */
  function Encoded<T>(encode: T -> Result<string, Error>, vs: seq<T>): string
    requires forall i | 0 <= i < |vs| :: encode(vs[i]).Ok?
  {
    if |vs| == 0 then [] else Encoded(encode, vs[..|vs| - 1]) + encode(vs[|vs| - 1]).value
  }

  /** The same text read from the front: the first value's encoding, then the rest. */
  lemma {:induction false} EncodedCons<T>(encode: T -> Result<string, Error>, vs: seq<T>)
    requires |vs| > 0 && forall i | 0 <= i < |vs| :: encode(vs[i]).Ok?
    ensures Encoded(encode, vs) == encode(vs[0]).value + Encoded(encode, vs[1..])
    decreases |vs|
  {
    if |vs| > 1 {
      var init := vs[..|vs| - 1];
      assert init[1..] == vs[1..][..|vs[1..]| - 1];
      assert init[0] == vs[0];
      EncodedCons(encode, init);
    } else {
      assert vs[..0] == [] && vs[1..] == [];
    }
  }

  /** The number of leading values `f` accepts. */
  function Accepted<T, U>(f: T -> Result<U, Error>, vs: seq<T>): (n: nat)
    ensures n <= |vs|
    ensures forall i | 0 <= i < n :: f(vs[i]).Ok?
    ensures n < |vs| ==> f(vs[n]).Err?
  {
    if |vs| == 0 || f(vs[0]).Err? then 0 else 1 + Accepted(f, vs[1..])
  }

  /** The values `f` makes of `vs`, when it accepts them all. */
  function Results<T, U>(f: T -> Result<U, Error>, vs: seq<T>): (r: seq<U>)
    requires forall i | 0 <= i < |vs| :: f(vs[i]).Ok?
    ensures |r| == |vs| && forall i | 0 <= i < |vs| :: r[i] == f(vs[i]).value
  {
    if |vs| == 0 then [] else Results(f, vs[..|vs| - 1]) + [f(vs[|vs| - 1]).value]
  }

  lemma ResultsSnoc<T, U>(f: T -> Result<U, Error>, vs: seq<T>, i: nat)
    requires i < |vs| && forall j | 0 <= j <= i :: f(vs[j]).Ok?
    ensures Results(f, vs[..i + 1]) == Results(f, vs[..i]) + [f(vs[i]).value]
  {
    assert vs[..i + 1][..i] == vs[..i];
  }

  /** `s'` is `s` after reading some upstream values; `Consumed` counts them. */
  ghost predicate ReadOnly<T>(s': Stream<T>, s: Stream<T>)
  {
    s'.sink == s.sink && |s'.pending| <= |s.pending| && s'.pending == s.pending[|s.pending| - |s'.pending|..]
  }

  function Consumed<T>(s': Stream<T>, s: Stream<T>): int
  {
    |s.pending| - |s'.pending|
  }

  /** What `StreamWriteTo` leaves: the writer closed and only upstream read.
      It succeeds exactly when every value encodes and the writer takes them
      all, having written them in order; otherwise it stops at the first value
      that fails to encode or to be written, with that error and the text of
      the values before it. */
  ghost predicate WroteStream<T>(encode: T -> Result<string, Error>, w: Writer, s: Stream<T>,
                                 res: Outcome<Error>, w': Writer, s': Stream<T>)
  {
    && w'.closed && ReadOnly(s', s)
    && (res.Pass? <==> (forall i | 0 <= i < |s.pending| :: encode(s.pending[i]).Ok?) && |s.pending| <= w.budget)
    && (res.Pass? ==> s'.pending == [] && w'.text == w.text + Encoded(encode, s.pending))
    && (res.Fail? ==>
          var n := Consumed(s', s) - 1;
          && 0 <= n < |s.pending|
          && (forall i | 0 <= i < n :: encode(s.pending[i]).Ok?)
          && w'.text == w.text + Encoded(encode, s.pending[..n])
          && res.error == (if encode(s.pending[n]).Err? then encode(s.pending[n]).error else WriteFailed)
          && (encode(s.pending[n]).Ok? ==> n == w.budget))
  }

  /** Upstream ran out with every value written. */
  lemma WroteAll<T>(encode: T -> Result<string, Error>, w: Writer, s: Stream<T>, w': Writer, s': Stream<T>)
    requires forall i | 0 <= i < |s.pending| :: encode(s.pending[i]).Ok?
    requires |s.pending| <= w.budget
    requires w'.closed && w'.text == w.text + Encoded(encode, s.pending)
    requires s' == Stream([], s.sink)
    ensures WroteStream(encode, w, s, Pass, w', s')
  {
  }

  /** The value at `i` could not be encoded or written. */
  lemma WroteUpTo<T>(encode: T -> Result<string, Error>, w: Writer, s: Stream<T>, i: nat, err: Error,
                     w': Writer, s': Stream<T>)
    requires i < |s.pending| && i <= w.budget
    requires forall j | 0 <= j < i :: encode(s.pending[j]).Ok?
    requires err == (if encode(s.pending[i]).Err? then encode(s.pending[i]).error else WriteFailed)
    requires encode(s.pending[i]).Ok? ==> i == w.budget
    requires w'.closed && w'.text == w.text + Encoded(encode, s.pending[..i])
    requires s' == Stream(s.pending[i + 1..], s.sink)
    ensures WroteStream(encode, w, s, Fail(err), w', s')
  {
    assert Consumed(s', s) - 1 == i;
  }

  /** `StreamWriteTo`: each upstream value encoded and written, in order, until
      upstream runs out (success) or encoding or writing fails (that error).
      The writer is closed on every path. */
  method StreamWriteTo<T>(encode: T -> Result<string, Error>, w: Writer, s: Stream<T>)
    returns (res: Outcome<Error>, w': Writer, s': Stream<T>)
    ensures WroteStream(encode, w, s, res, w', s')
  {
    var cur := s;
    var out := w;
    var i := 0;
    while true
      invariant 0 <= i <= |s.pending| && cur.pending == s.pending[i..] && cur.sink == s.sink
      invariant forall j | 0 <= j < i :: encode(s.pending[j]).Ok?
      invariant i <= w.budget && out.budget == w.budget - i
      invariant out.text == w.text + Encoded(encode, s.pending[..i])
      decreases |cur.pending|
    {
      var next := Next(cur);
      if next.0.None? {
        assert s.pending[..i] == s.pending;
        WroteAll(encode, w, s, Close(out), cur);
        return Pass, Close(out), cur;
      }
      var text := encode(next.0.value);
      if text.Err? {
        WroteUpTo(encode, w, s, i, text.error, Close(out), next.1);
        return Fail(text.error), Close(out), next.1;
      }
      var written := Write(out, text.value);
      if written.0.Fail? {
        WroteUpTo(encode, w, s, i, WriteFailed, Close(written.1), next.1);
        return written.0, Close(written.1), next.1;
      }
      assert s.pending[..i + 1][..i] == s.pending[..i];
      out := written.1;
      cur := next.1;
      i := i + 1;
    }
  }
}
