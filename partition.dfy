/*
 * The partition driver: the anchor scan over every record, the routing of
 * each dated record by its age into the evaluation buffer, the training
 * stream or nowhere, and the count-then-sample passes that fill the three
 * partitions. The random generator is an input: `draw(k)` is the k-th value
 * `random.random()` returns, and `shuffle` is whatever permutation
 * `random.shuffle` applies to the evaluation buffer.
 */
module Partition {
  import opened Records
  import opened Seqs
  import opened Interactions

  /** A `[start, end]` pair of day offsets from the anchor. */
  datatype Window = Window(start: real, end: real)

  /** `in_range`: the half-open window `start <= days < end`; an empty or inverted window holds no age. */
  predicate InRange(days: real, w: Window): (b: bool)
    ensures b ==> w.start < w.end
  {
    w.start <= days < w.end
  }

  /**
   * Windows that meet end to start, like the default `[0, 7)` and `[7, 30)`,
   * split their union with no overlap: an age on the shared boundary falls
   * in the later window only.
   */
  lemma AdjacentWindows(a: real, b: real, c: real, days: real)
    requires a <= b <= c
    ensures InRange(days, Window(a, c)) <==> InRange(days, Window(a, b)) || InRange(days, Window(b, c))
    ensures !(InRange(days, Window(a, b)) && InRange(days, Window(b, c)))
    ensures InRange(b, Window(a, b)) == false
  {
  }

  /** A record's age in days, `(latest - created).total_seconds() / 86400.0`, computed exactly. */
  function AgeDays(latest: int, created: int): real {
    (latest - created) as real / 86400.0
  }

  /** Where a dated record goes: the evaluation window is tried first, then the training window. */
  datatype Dest = Eval | Train | Drop

  function Route(days: real, evalW: Window, trainW: Window): Dest {
    if InRange(days, evalW) then Eval else if InRange(days, trainW) then Train else Drop
  }

  /** The global anchor: the latest parseable timestamp, the first such record winning ties. */
  function LatestOf(ps: seq<Post>): Option<int> {
    if ps == [] then None
    else
      var l := LatestOf(ps[..|ps| - 1]);
      var p := ps[|ps| - 1];
      if p.created.None? then l
      else if l.None? || p.created.value > l.value then p.created
      else l
  }

  /** The anchor is the maximum of the parseable timestamps, and there is none exactly when nothing parses. */
  lemma {:induction false} LatestIsMax(ps: seq<Post>)
    ensures LatestOf(ps).None? <==> forall p :: p in ps ==> p.created.None?
    ensures LatestOf(ps).Some? ==>
      && (forall p :: p in ps && p.created.Some? ==> p.created.value <= LatestOf(ps).value)
      && (exists p :: p in ps && p.created == LatestOf(ps))
  {
    if ps != [] {
      var init, last := ps[..|ps| - 1], ps[|ps| - 1];
      LatestIsMax(init);
      LastSplit(ps);
      assert forall p :: p in init ==> p in ps;
    }
  }

  /** Every record that is partitioned is no younger than the anchor: its age is never negative. */
  lemma AgesNonNegative(ps: seq<Post>, p: Post)
    requires p in ps && p.created.Some? && LatestOf(ps).Some?
    ensures AgeDays(LatestOf(ps).value, p.created.value) >= 0.0
  {
    LatestIsMax(ps);
  }

  /** The first scan of `main`: the latest timestamp over every record. */
  method ScanLatest(ps: seq<Post>) returns (latest: Option<int>)
    ensures latest == LatestOf(ps)
  {
    latest := None;
    for i := 0 to |ps|
      invariant latest == LatestOf(ps[..i])
    {
      PrefixLast(ps, i);
      var created := ps[i].created;
      if created.Some? {
        if latest.None? || created.value > latest.value {
          latest := created;
        }
      }
    }
    assert ps[..|ps|] == ps;
  }

  /** Where a record goes: undated records go nowhere. */
  function DestOf(p: Post, latest: int, evalW: Window, trainW: Window): Dest {
    if p.created.None? then Drop else Route(AgeDays(latest, p.created.value), evalW, trainW)
  }

  /** The records the classification sends to `d`, in input order. */
  function Routed(ps: seq<Post>, latest: int, evalW: Window, trainW: Window, d: Dest): seq<Post> {
    if ps == [] then []
    else
      var p := ps[|ps| - 1];
      Routed(ps[..|ps| - 1], latest, evalW, trainW, d) + (if DestOf(p, latest, evalW, trainW) == d then [p] else [])
  }

  /** A record is in the evaluation buffer exactly when it is dated and its age is in the evaluation window, whatever the training window says. */
  lemma {:induction false} EvalBufferExactly(ps: seq<Post>, latest: int, evalW: Window, trainW: Window, p: Post)
    ensures p in Routed(ps, latest, evalW, trainW, Eval) <==>
      p in ps && p.created.Some? && InRange(AgeDays(latest, p.created.value), evalW)
  {
    if ps != [] {
      EvalBufferExactly(ps[..|ps| - 1], latest, evalW, trainW, p);
      LastSplit(ps);
    }
  }

  /** A record is a training candidate exactly when it is dated, outside the evaluation window and inside the training window. */
  lemma {:induction false} TrainExactly(ps: seq<Post>, latest: int, evalW: Window, trainW: Window, p: Post)
    ensures p in Routed(ps, latest, evalW, trainW, Train) <==>
      && p in ps && p.created.Some?
      && !InRange(AgeDays(latest, p.created.value), evalW) && InRange(AgeDays(latest, p.created.value), trainW)
  {
    if ps != [] {
      TrainExactly(ps[..|ps| - 1], latest, evalW, trainW, p);
      LastSplit(ps);
    }
  }

  /** The last record joins the list of its own destination and leaves the other two as they were. */
  lemma RoutedStep(ps: seq<Post>, latest: int, evalW: Window, trainW: Window, d: Dest)
    requires ps != []
    ensures var init, p := ps[..|ps| - 1], ps[|ps| - 1];
      Routed(ps, latest, evalW, trainW, d)
      == if DestOf(p, latest, evalW, trainW) == d then Routed(init, latest, evalW, trainW, d) + [p]
         else Routed(init, latest, evalW, trainW, d)
  {
    var init := ps[..|ps| - 1];
    AppendEmpty(Routed(init, latest, evalW, trainW, d));
  }

  /** The record at position `i` joins the list of its own destination; the other lists stay as they were. */
  lemma RouteOne(ps: seq<Post>, i: nat, latest: int, evalW: Window, trainW: Window)
    requires i < |ps|
    ensures var p, e, t, d := ps[i], Routed(ps[..i], latest, evalW, trainW, Eval),
                              Routed(ps[..i], latest, evalW, trainW, Train), Routed(ps[..i], latest, evalW, trainW, Drop);
      var e', t', d' := Routed(ps[..i + 1], latest, evalW, trainW, Eval),
                        Routed(ps[..i + 1], latest, evalW, trainW, Train), Routed(ps[..i + 1], latest, evalW, trainW, Drop);
      || (DestOf(p, latest, evalW, trainW) == Eval && e' == e + [p] && t' == t && d' == d)
      || (DestOf(p, latest, evalW, trainW) == Train && e' == e && t' == t + [p] && d' == d)
      || (DestOf(p, latest, evalW, trainW) == Drop && e' == e && t' == t && d' == d + [p])
  {
    RoutedStep(ps[..i + 1], latest, evalW, trainW, Eval);
    RoutedStep(ps[..i + 1], latest, evalW, trainW, Train);
    RoutedStep(ps[..i + 1], latest, evalW, trainW, Drop);
    PrefixLast(ps, i);
  }

  /** Every record goes to exactly one place: the buffer, the training stream, or nowhere. */
  lemma {:induction false} RoutingPartitions(ps: seq<Post>, latest: int, evalW: Window, trainW: Window)
    ensures multiset(Routed(ps, latest, evalW, trainW, Eval)) + multiset(Routed(ps, latest, evalW, trainW, Train))
          + multiset(Routed(ps, latest, evalW, trainW, Drop)) == multiset(ps)
  {
    if ps != [] {
      var n := |ps| - 1;
      RoutingPartitions(ps[..n], latest, evalW, trainW);
      RouteOne(ps, n, latest, evalW, trainW);
      AddToOne(Routed(ps[..n], latest, evalW, trainW, Eval), Routed(ps[..n], latest, evalW, trainW, Train),
               Routed(ps[..n], latest, evalW, trainW, Drop), ps[..n], ps[n],
               Routed(ps[..n + 1], latest, evalW, trainW, Eval), Routed(ps[..n + 1], latest, evalW, trainW, Train),
               Routed(ps[..n + 1], latest, evalW, trainW, Drop));
      LastSplit(ps);
    }
  }

  /**
   * The records of `cands` whose draw falls below `rate`, in order; the
   * candidate at position `i` uses draw number `off + i`.
   */
  function Sample<T>(cands: seq<T>, draw: nat -> real, off: nat, rate: real): seq<T> {
    if cands == [] then []
    else
      var n := |cands| - 1;
      Sample(cands[..n], draw, off, rate) + (if draw(off + n) < rate then [cands[n]] else [])
  }

  /** Sampling two runs of candidates one after the other samples each with its own draws. */
  lemma {:induction false} SampleAppend<T>(a: seq<T>, b: seq<T>, draw: nat -> real, off: nat, rate: real)
    ensures Sample(a + b, draw, off, rate) == Sample(a, draw, off, rate) + Sample(b, draw, off + |a|, rate)
  {
    if b == [] {
      assert a + b == a;
    } else {
      var n := |b| - 1;
      assert (a + b)[..|a + b| - 1] == a + b[..n];
      SampleAppend(a, b[..n], draw, off, rate);
    }
  }

  /** A sample never invents or repeats a record: it is a sub-multiset of the candidates. */
  lemma {:induction false} SampleSubset<T>(cands: seq<T>, draw: nat -> real, off: nat, rate: real)
    ensures multiset(Sample(cands, draw, off, rate)) <= multiset(cands)
  {
    if cands != [] {
      var n := |cands| - 1;
      SampleSubset(cands[..n], draw, off, rate);
      assert cands == cands[..n] + [cands[n]];
    }
  }

  /** A rate of 1 or more keeps every candidate; a rate of 0 or less keeps none. */
  lemma {:induction false} SampleExtremes<T>(cands: seq<T>, draw: nat -> real, off: nat, rate: real)
    requires forall k :: 0.0 <= draw(k) < 1.0
    ensures rate >= 1.0 ==> Sample(cands, draw, off, rate) == cands
    ensures rate <= 0.0 ==> Sample(cands, draw, off, rate) == []
  {
    if cands != [] {
      var n := |cands| - 1;
      SampleExtremes(cands[..n], draw, off, rate);
      assert cands == cands[..n] + [cands[n]];
    }
  }

  /** The positions, below `n` and in increasing order, whose draw falls below `rate`. */
  function KeptPositions(n: nat, draw: nat -> real, off: nat, rate: real): seq<nat> {
    if n == 0 then []
    else KeptPositions(n - 1, draw, off, rate) + (if draw(off + n - 1) < rate then [n - 1] else [])
  }

  /** `s` picks the elements of `c` at the increasing positions `ks`. */
  ghost predicate Picks<T>(s: seq<T>, ks: seq<nat>, c: seq<T>) {
    && |s| == |ks|
    && (forall k :: 0 <= k < |ks| ==> ks[k] < |c| && s[k] == c[ks[k]])
    && (forall k, l :: 0 <= k < l < |ks| ==> ks[k] < ks[l])
  }

  /** Picking from a prefix stays valid when one more element may be picked at the end. */
  lemma PicksSnoc<T>(s: seq<T>, ks: seq<nat>, c: seq<T>, x: T, keep: bool, s': seq<T>, ks': seq<nat>, c': seq<T>)
    requires Picks(s, ks, c)
    requires s' == s + (if keep then [x] else [])
    requires ks' == ks + (if keep then [|c|] else [])
    requires c' == c + [x]
    ensures Picks(s', ks', c')
  {
  }

  /** The kept positions are exactly those below `n` whose draw falls below `rate`. */
  lemma {:induction false} KeptPositionsIff(n: nat, draw: nat -> real, off: nat, rate: real)
    ensures forall i: nat :: i in KeptPositions(n, draw, off, rate) <==> i < n && draw(off + i) < rate
  {
    if n > 0 {
      KeptPositionsIff(n - 1, draw, off, rate);
    }
  }

  /** The sample picks the candidates at the kept positions. */
  lemma {:induction false} SamplePicks<T>(cands: seq<T>, draw: nat -> real, off: nat, rate: real)
    ensures Picks(Sample(cands, draw, off, rate), KeptPositions(|cands|, draw, off, rate), cands)
  {
    if cands != [] {
      var n := |cands| - 1;
      var init, keep := cands[..n], draw(off + n) < rate;
      SamplePicks(init, draw, off, rate);
      LastSplit(cands);
      PicksSnoc(Sample(init, draw, off, rate), KeptPositions(n, draw, off, rate), init, cands[n], keep,
        Sample(cands, draw, off, rate), KeptPositions(|cands|, draw, off, rate), cands);
    }
  }

  /**
   * A sample is the subsequence of the candidates at exactly the positions
   * whose draw falls below the rate: order is kept, nothing is repeated, and
   * no other candidate gets in.
   */
  lemma SampleSelects<T>(cands: seq<T>, draw: nat -> real, off: nat, rate: real)
    ensures var ks, s := KeptPositions(|cands|, draw, off, rate), Sample(cands, draw, off, rate);
      && Picks(s, ks, cands)
      && (forall i :: 0 <= i < |cands| ==> (i in ks <==> draw(off + i) < rate))
  {
    SamplePicks(cands, draw, off, rate);
    KeptPositionsIff(|cands|, draw, off, rate);
  }

  /** Sampling one more candidate uses the next draw. */
  lemma SampleSnoc<T>(cands: seq<T>, x: T, draw: nat -> real, off: nat, rate: real)
    ensures Sample(cands + [x], draw, off, rate)
         == Sample(cands, draw, off, rate) + (if draw(off + |cands|) < rate then [x] else [])
  {
    assert (cands + [x])[..|cands|] == cands;
  }

  /** The candidate at position `i` is counted, and kept when draw number `off + i` falls below `rate`. */
  lemma CandidateStep(m: Counts, cands: seq<Post>, i: nat, draw: nat -> real, off: nat, rate: real)
    requires i < |cands|
    ensures Sample(cands[..i + 1], draw, off, rate)
         == if draw(off + i) < rate then Sample(cands[..i], draw, off, rate) + [cands[i]] else Sample(cands[..i], draw, off, rate)
    ensures CountPosts(m, cands[..i + 1]) == AddAll(CountPosts(m, cands[..i]), cands[i].author.id, PostInteractors(cands[i]))
  {
    PrefixLast(cands, i);
    AppendEmpty(Sample(cands[..i], draw, off, rate));
  }

  /**
   * The validation and test loops: every candidate's interactions are
   * counted under its own author, and then the candidate is kept when its
   * draw falls below `rate`.
   */
  method CountThenSample(cands: seq<Post>, draw: nat -> real, off: nat, rate: real, counter: Counter)
    returns (kept: seq<Post>)
    modifies counter
    ensures kept == Sample(cands, draw, off, rate)
    ensures counter.counts == CountPosts(old(counter.counts), cands)
  {
    kept := [];
    ghost var m0 := counter.counts;
    for i := 0 to |cands|
      invariant kept == Sample(cands[..i], draw, off, rate)
      invariant counter.counts == CountPosts(m0, cands[..i])
    {
      var rec := cands[i];
      CandidateStep(m0, cands, i, draw, off, rate);
      CountInteractionsInPost(rec, rec.author.id, counter);
      if draw(off + i) < rate {
        kept := kept + [rec];
      }
    }
    assert cands[..|cands|] == cands;
  }

  /**
   * The read loop: a record in the evaluation window joins the buffer; one
   * in the training window has its interactions counted and is kept when
   * the next draw falls below `trainRate`; undated records and the rest are
   * skipped.
   */
  method Distribute(ps: seq<Post>, latest: int, evalW: Window, trainW: Window,
                    draw: nat -> real, trainRate: real, trainCounter: Counter)
    returns (buffer: seq<Post>, train: seq<Post>)
    modifies trainCounter
    ensures buffer == Routed(ps, latest, evalW, trainW, Eval)
    ensures train == Sample(Routed(ps, latest, evalW, trainW, Train), draw, 0, trainRate)
    ensures trainCounter.counts == CountPosts(old(trainCounter.counts), Routed(ps, latest, evalW, trainW, Train))
  {
    buffer, train := [], [];
    ghost var m0 := trainCounter.counts;
    var k: nat := 0;
    for i := 0 to |ps|
      invariant buffer == Routed(ps[..i], latest, evalW, trainW, Eval)
      invariant k == |Routed(ps[..i], latest, evalW, trainW, Train)|
      invariant train == Sample(Routed(ps[..i], latest, evalW, trainW, Train), draw, 0, trainRate)
      invariant trainCounter.counts == CountPosts(m0, Routed(ps[..i], latest, evalW, trainW, Train))
    {
      var rec := ps[i];
      RouteOne(ps, i, latest, evalW, trainW);
      if rec.created.Some? {
        var days := AgeDays(latest, rec.created.value);
        if InRange(days, evalW) {
          buffer := buffer + [rec];
        } else if InRange(days, trainW) {
          ghost var cands := Routed(ps[..i], latest, evalW, trainW, Train);
          SampleSnoc(cands, rec, draw, 0, trainRate);
          CountPostsSnoc(m0, cands, rec);
          CountInteractionsInPost(rec, rec.author.id, trainCounter);
          if draw(k) < trainRate {
            train := train + [rec];
          }
          k := k + 1;
        }
      }
    }
    assert ps[..|ps|] == ps;
  }

  /** One output partition: the records kept and the interaction counts over all its candidates. */
  datatype Part = Part(records: seq<Post>, counts: Counts)

  /** How a run ends: an exit status when no timestamp parses, otherwise the three partitions. */
  datatype Outcome = Exit(status: nat) | Done(val: Part, test: Part, train: Part)

  /**
   * What a run produces. Training candidates use the draws `draw(0)`,
   * `draw(1)`, ... in input order; after the shuffle, the validation
   * candidates (the first half of the shuffled buffer, rounded down) use
   * `evalDraw(0)`, ... and the test candidates (the rest) continue from
   * `evalDraw(mid)`.
   */
  function Partitioned(ps: seq<Post>, evalW: Window, trainW: Window, valRate: real, testRate: real, trainRate: real,
                       draw: nat -> real, evalDraw: nat -> real, shuffle: seq<Post> -> seq<Post>): Outcome
  {
    match LatestOf(ps)
    case None => Exit(2)
    case Some(latest) =>
      var buffer := shuffle(Routed(ps, latest, evalW, trainW, Eval));
      var mid := |buffer| / 2;
      var valC, testC := buffer[..mid], buffer[mid..];
      var trainC := Routed(ps, latest, evalW, trainW, Train);
      Done(Part(Sample(valC, evalDraw, 0, valRate), CountPosts(map[], valC)),
           Part(Sample(testC, evalDraw, mid, testRate), CountPosts(map[], testC)),
           Part(Sample(trainC, draw, 0, trainRate), CountPosts(map[], trainC)))
  }

  /** The non-I/O part of `main`: scan for the anchor, route, shuffle and split the buffer, count then sample. */
  method Run(ps: seq<Post>, evalW: Window, trainW: Window, valRate: real, testRate: real, trainRate: real,
             draw: nat -> real, evalDraw: nat -> real, shuffle: seq<Post> -> seq<Post>)
    returns (out: Outcome)
    ensures out == Partitioned(ps, evalW, trainW, valRate, testRate, trainRate, draw, evalDraw, shuffle)
  {
    var latest := ScanLatest(ps);
    if latest.None? {
      return Exit(2);
    }
    var valCounter := new Counter();
    var testCounter := new Counter();
    var trainCounter := new Counter();
    var buffer, train := Distribute(ps, latest.value, evalW, trainW, draw, trainRate, trainCounter);
    buffer := shuffle(buffer);
    var mid := |buffer| / 2;
    var valKept := CountThenSample(buffer[..mid], evalDraw, 0, valRate, valCounter);
    var testKept := CountThenSample(buffer[mid..], evalDraw, mid, testRate, testCounter);
    out := Done(Part(valKept, valCounter.counts), Part(testKept, testCounter.counts), Part(train, trainCounter.counts));
  }

  /**
   * The cut at `len // 2`: validation candidates followed by test
   * candidates are the shuffled buffer exactly, validation gets the smaller
   * half and test has at most one record more.
   */
  lemma MidpointCut(buffer: seq<Post>)
    ensures var mid := |buffer| / 2;
      && buffer[..mid] + buffer[mid..] == buffer
      && |buffer[..mid]| == |buffer| / 2
      && 0 <= |buffer[mid..]| - |buffer[..mid]| <= 1
  {
    SplitJoin(buffer, |buffer| / 2);
  }

  /** A run exits with status 2 exactly when no record carries a parseable timestamp. */
  lemma ExitIffUndated(ps: seq<Post>, evalW: Window, trainW: Window, valRate: real, testRate: real, trainRate: real,
                       draw: nat -> real, evalDraw: nat -> real, shuffle: seq<Post> -> seq<Post>)
    ensures var out := Partitioned(ps, evalW, trainW, valRate, testRate, trainRate, draw, evalDraw, shuffle);
      (out.Exit? <==> forall p :: p in ps ==> p.created.None?) && (out.Exit? ==> out.status == 2)
  {
    LatestIsMax(ps);
  }

  /** `random.shuffle` only reorders: whatever it does, the buffer keeps its records. */
  ghost predicate Permutes(shuffle: seq<Post> -> seq<Post>) {
    forall s :: multiset(shuffle(s)) == multiset(s)
  }

  /**
   * Interactions are counted over every candidate, sampled or not: the
   * validation and test counts together tally the whole evaluation buffer,
   * however it was shuffled, and the training counts tally every record in
   * the training window.
   */
  lemma CountsCoverCandidates(ps: seq<Post>, evalW: Window, trainW: Window, valRate: real, testRate: real, trainRate: real,
                              draw: nat -> real, evalDraw: nat -> real, shuffle: seq<Post> -> seq<Post>, k: Key)
    requires LatestOf(ps).Some? && Permutes(shuffle)
    ensures var out := Partitioned(ps, evalW, trainW, valRate, testRate, trainRate, draw, evalDraw, shuffle);
      var latest := LatestOf(ps).value;
      && out.Done?
      && Get(out.val.counts, k) + Get(out.test.counts, k) == Tally(Routed(ps, latest, evalW, trainW, Eval), k)
      && Get(out.train.counts, k) == Tally(Routed(ps, latest, evalW, trainW, Train), k)
  {
    var latest := LatestOf(ps).value;
    var evalC := Routed(ps, latest, evalW, trainW, Eval);
    var buffer := shuffle(evalC);
    var mid := |buffer| / 2;
    CountPostsGet(map[], buffer[..mid], k);
    CountPostsGet(map[], buffer[mid..], k);
    CountPostsGet(map[], Routed(ps, latest, evalW, trainW, Train), k);
    HalvesTally(buffer, evalC, k);
  }

  lemma HalvesTally(buffer: seq<Post>, evalC: seq<Post>, k: Key)
    requires multiset(buffer) == multiset(evalC)
    ensures Tally(buffer[..|buffer| / 2], k) + Tally(buffer[|buffer| / 2..], k) == Tally(evalC, k)
  {
    var mid := |buffer| / 2;
    TallyAppend(buffer[..mid], buffer[mid..], k);
    SplitJoin(buffer, mid);
    TallyPermutation(buffer, evalC, k);
  }

  /** Every record kept comes from its partition's candidates, and validation and test never share a buffered record. */
  lemma KeptFromCandidates(ps: seq<Post>, evalW: Window, trainW: Window, valRate: real, testRate: real, trainRate: real,
                           draw: nat -> real, evalDraw: nat -> real, shuffle: seq<Post> -> seq<Post>)
    requires LatestOf(ps).Some? && Permutes(shuffle)
    ensures var out := Partitioned(ps, evalW, trainW, valRate, testRate, trainRate, draw, evalDraw, shuffle);
      var latest := LatestOf(ps).value;
      && out.Done?
      && multiset(out.val.records) + multiset(out.test.records) <= multiset(Routed(ps, latest, evalW, trainW, Eval))
      && multiset(out.train.records) <= multiset(Routed(ps, latest, evalW, trainW, Train))
  {
    var latest := LatestOf(ps).value;
    var buffer := shuffle(Routed(ps, latest, evalW, trainW, Eval));
    var mid := |buffer| / 2;
    SampleSubset(buffer[..mid], evalDraw, 0, valRate);
    SampleSubset(buffer[mid..], evalDraw, mid, testRate);
    SampleSubset(Routed(ps, latest, evalW, trainW, Train), draw, 0, trainRate);
    SplitAt(buffer, mid);
  }

  /** No record kept for training is kept for validation or test: the evaluation window wins. */
  lemma TrainDisjointFromEval(ps: seq<Post>, evalW: Window, trainW: Window, valRate: real, testRate: real, trainRate: real,
                              draw: nat -> real, evalDraw: nat -> real, shuffle: seq<Post> -> seq<Post>, p: Post)
    requires LatestOf(ps).Some? && Permutes(shuffle)
    ensures var out := Partitioned(ps, evalW, trainW, valRate, testRate, trainRate, draw, evalDraw, shuffle);
      out.Done? && (p in out.train.records ==> p !in out.val.records && p !in out.test.records)
  {
    var latest := LatestOf(ps).value;
    var out := Partitioned(ps, evalW, trainW, valRate, testRate, trainRate, draw, evalDraw, shuffle);
    KeptFromCandidates(ps, evalW, trainW, valRate, testRate, trainRate, draw, evalDraw, shuffle);
    EvalBufferExactly(ps, latest, evalW, trainW, p);
    TrainExactly(ps, latest, evalW, trainW, p);
    if p in out.train.records {
      assert p in multiset(out.train.records);
      assert p !in multiset(Routed(ps, latest, evalW, trainW, Eval));
    }
  }

  /**
   * With every rate at 1 or above nothing is dropped by sampling: validation
   * and test together hold the whole buffer, validation the first half
   * rounded down, and training every record of its window in input order.
   */
  lemma FullRatesKeepAll(ps: seq<Post>, evalW: Window, trainW: Window, valRate: real, testRate: real, trainRate: real,
                         draw: nat -> real, evalDraw: nat -> real, shuffle: seq<Post> -> seq<Post>)
    requires LatestOf(ps).Some? && Permutes(shuffle)
    requires forall k :: 0.0 <= draw(k) < 1.0
    requires forall k :: 0.0 <= evalDraw(k) < 1.0
    requires valRate >= 1.0 && testRate >= 1.0 && trainRate >= 1.0
    ensures var out := Partitioned(ps, evalW, trainW, valRate, testRate, trainRate, draw, evalDraw, shuffle);
      var latest := LatestOf(ps).value;
      var evalC := Routed(ps, latest, evalW, trainW, Eval);
      && out.Done?
      && multiset(out.val.records) + multiset(out.test.records) == multiset(evalC)
      && |out.val.records| == |evalC| / 2
      && out.train.records == Routed(ps, latest, evalW, trainW, Train)
  {
    var latest := LatestOf(ps).value;
    var evalC := Routed(ps, latest, evalW, trainW, Eval);
    var buffer := shuffle(evalC);
    var mid := |buffer| / 2;
    SampleExtremes(buffer[..mid], evalDraw, 0, valRate);
    SampleExtremes(buffer[mid..], evalDraw, mid, testRate);
    SampleExtremes(Routed(ps, latest, evalW, trainW, Train), draw, 0, trainRate);
    SplitAt(buffer, mid);
    assert |buffer| == |evalC| by {
      assert |multiset(buffer)| == |multiset(evalC)|;
    }
  }
}
