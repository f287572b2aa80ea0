// java.util.stream.DistinctOps, sequential part: `opWrapSink` chooses how a
// `distinct()` stage filters the elements flowing to the next sink.  A stream
// already known DISTINCT passes through; a SORTED stream drops repeats of the
// last forwarded element; any other stream drops elements already seen.
// Elements are `Option<T>` with `None` for Java's null, and Java `equals` is
// Dafny equality.  The next sink records the calls it receives.
module DistinctOps {
  import opened Outcomes

  /** A call received by the next sink in the pipeline. */
  datatype Event<T> = Began(size: int) | Accepted(item: T) | Ended

  /** The next sink: it records every call made on it. */
  class RecordingSink<T> {
    var events: seq<Event<T>>

    constructor ()
      ensures events == []
    {
      events := [];
    }

    method Begin(size: int)
      modifies this
      ensures events == old(events) + [Began(size)]
    {
      events := events + [Began(size)];
    }

    method Accept(t: T)
      modifies this
      ensures events == old(events) + [Accepted(t)]
    {
      events := events + [Accepted(t)];
    }

    method End()
      modifies this
      ensures events == old(events) + [Ended]
    {
      events := events + [Ended];
    }
  }

  /** The `accept` calls that forward `ys` in order. */
  function Forwarded<T>(ys: seq<T>): (es: seq<Event<T>>)
    ensures |es| == |ys|
  {
    if ys == [] then [] else Forwarded(ys[..|ys| - 1]) + [Accepted(ys[|ys| - 1])]
  }

  lemma ForwardedOne<T>(x: T)
    ensures Forwarded([x]) == [Accepted(x)]
  {
    assert [x][..0] == [];
  }

  lemma {:induction false} ForwardedAppend<T>(a: seq<T>, b: seq<T>)
    ensures Forwarded(a + b) == Forwarded(a) + Forwarded(b)
  {
    if b != [] {
      var init := b[..|b| - 1];
      assert (a + b)[..|a + b| - 1] == a + init;
      ForwardedAppend(a, init);
    } else {
      assert a + b == a;
    }
  }

  /** `xs` without repeats, keeping each element's first occurrence, in input order. */
  function Unique<T(==)>(xs: seq<T>): seq<T>
  {
    if xs == [] then []
    else if xs[|xs| - 1] in xs[..|xs| - 1] then Unique(xs[..|xs| - 1])
    else Unique(xs[..|xs| - 1]) + [xs[|xs| - 1]]
  }

  predicate NoDuplicates<T(==)>(xs: seq<T>)
  {
    forall i, j :: 0 <= i < j < |xs| ==> xs[i] != xs[j]
  }

  /** Equal elements are adjacent: what a SORTED stream guarantees about `equals`. */
  predicate Grouped<T(==)>(xs: seq<T>)
  {
    forall i, j, k :: 0 <= i < j < k < |xs| && xs[i] == xs[k] ==> xs[j] == xs[i]
  }

  /** `Unique` keeps exactly the elements of its input and repeats none of them. */
  lemma {:induction false} UniqueElements<T>(xs: seq<T>)
    ensures NoDuplicates(Unique(xs))
    ensures forall x :: x in Unique(xs) <==> x in xs
  {
    if xs != [] {
      var init := xs[..|xs| - 1];
      UniqueElements(init);
      assert xs == init + [xs[|xs| - 1]];
    }
  }

  /** A stream with no repeats passes through `Unique` unchanged. */
  lemma {:induction false} UniqueOfDistinct<T>(xs: seq<T>)
    requires NoDuplicates(xs)
    ensures Unique(xs) == xs
  {
    if xs != [] {
      var init := xs[..|xs| - 1];
      assert NoDuplicates(init);
      UniqueOfDistinct(init);
      assert xs[|xs| - 1] !in init;
      assert init + [xs[|xs| - 1]] == xs;
    }
  }

  /** The state of the SORTED sink: `seenNull` and `lastSeen`. */
  datatype SortedState<T> = SortedState(seenNull: bool, lastSeen: Option<T>)

  /** One `accept(t)` of the SORTED sink: the new state and what it forwards. */
  function SortedAccept<T(==)>(s: SortedState<T>, t: Option<T>): (SortedState<T>, seq<Option<T>>)
  {
    if t.None? then
      if !s.seenNull then (SortedState(true, None), [None]) else (s, [])
    else if s.lastSeen.None? || t != s.lastSeen then (s.(lastSeen := t), [t])
    else (s, [])
  }

  lemma UniqueSnoc<T>(xs: seq<T>, t: T)
    ensures Unique(xs + [t]) == Unique(xs) + (if t in xs then [] else [t])
  {
    assert (xs + [t])[..|xs|] == xs;
  }

  /** The SORTED sink after `begin` and the `accept` of each element of `xs`. */
  function SortedRun<T(==)>(xs: seq<Option<T>>): (SortedState<T>, seq<Option<T>>)
  {
    if xs == [] then (SortedState(false, None), [])
    else
      var (s, out) := SortedRun(xs[..|xs| - 1]);
      var (s', more) := SortedAccept(s, xs[|xs| - 1]);
      (s', out + more)
  }

  lemma SortedRunSnoc<T>(xs: seq<Option<T>>, t: Option<T>)
    ensures SortedRun(xs + [t]).0 == SortedAccept(SortedRun(xs).0, t).0
    ensures SortedRun(xs + [t]).1 == SortedRun(xs).1 + SortedAccept(SortedRun(xs).0, t).1
  {
    assert (xs + [t])[..|xs|] == xs;
  }

  /**
   * On a SORTED stream the SORTED sink forwards exactly the first
   * occurrences: its state remembers the last element and whether null
   * has gone by.
   */
  lemma {:induction false} SortedRunIsUnique<T>(xs: seq<Option<T>>)
    requires Grouped(xs)
    ensures SortedRun(xs).1 == Unique(xs)
    ensures SortedRun(xs).0.seenNull <==> None in xs
    ensures xs != [] ==> SortedRun(xs).0.lastSeen == xs[|xs| - 1]
    ensures xs == [] ==> SortedRun(xs).0.lastSeen == None
  {
    if xs != [] {
      var init, t := xs[..|xs| - 1], xs[|xs| - 1];
      assert Grouped(init);
      SortedRunIsUnique(init);
      if t.Some? && t in init {
        var i :| 0 <= i < |init| && init[i] == t;
        if i < |init| - 1 {
          assert xs[i] == xs[|xs| - 1];
          assert xs[|init| - 1] == xs[i];
        }
      }
    }
  }

  /** `StreamOpFlag.DISTINCT.isKnown(flags)` and `StreamOpFlag.SORTED.isKnown(flags)`. */
  datatype KnownFlags = KnownFlags(distinct: bool, sorted: bool)

  /** The sink `opWrapSink` returns: the next sink itself, or one of the two filters. */
  datatype SinkKind = PassThrough | SortedFilter | HashFilter

  /** `opWrapSink(flags, sink)`'s choice; a null sink is rejected first. */
  function WrapSink(flags: KnownFlags, sinkIsNull: bool): (r: Result<SinkKind>)
    ensures r.Err? <==> sinkIsNull
    ensures r.Err? ==> r.error == NullPointer
    ensures r == Ok(PassThrough) <==> !sinkIsNull && flags.distinct
    ensures r == Ok(HashFilter) <==> !sinkIsNull && !flags.distinct && !flags.sorted
  {
    if sinkIsNull then Err(NullPointer)
    else if flags.distinct then Ok(PassThrough)
    else if flags.sorted then Ok(SortedFilter)
    else Ok(HashFilter)
  }

  /** What each kind of sink forwards for one traversal of `xs`. */
  function KindOutput<T(==)>(kind: SinkKind, xs: seq<Option<T>>): seq<Option<T>>
  {
    match kind
    case PassThrough => xs
    case SortedFilter => SortedRun(xs).1
    case HashFilter => Unique(xs)
  }

  /**
   * Whatever the flags, the wrapped sink forwards the stream's first
   * occurrences in order, given that a known flag tells the truth.
   */
  lemma WrappedSinkForwardsUnique<T>(flags: KnownFlags, xs: seq<Option<T>>)
    requires flags.distinct ==> NoDuplicates(xs)
    requires flags.sorted ==> Grouped(xs)
    ensures WrapSink(flags, false).Ok?
    ensures KindOutput(WrapSink(flags, false).value, xs) == Unique(xs)
  {
    if flags.distinct {
      UniqueOfDistinct(xs);
    } else if flags.sorted {
      SortedRunIsUnique(xs);
    }
  }

  /** The SORTED sink in state `s`, with `events` received downstream, has accepted `input` since `begin`. */
  ghost predicate SortedTracks<T(!new)>(s: SortedState<T>, events: seq<Event<Option<T>>>,
                                        before: seq<Event<Option<T>>>, input: seq<Option<T>>)
  {
    s == SortedRun(input).0 && events == before + [Began(-1)] + Forwarded(SortedRun(input).1)
  }

  lemma SortedAcceptTracks<T(!new)>(s: SortedState<T>, events: seq<Event<Option<T>>>,
                                    before: seq<Event<Option<T>>>, input: seq<Option<T>>, t: Option<T>)
    requires SortedTracks(s, events, before, input)
    ensures SortedTracks(SortedAccept(s, t).0, events + Forwarded(SortedAccept(s, t).1), before, input + [t])
  {
    SortedRunSnoc(input, t);
    ForwardedAppend(SortedRun(input).1, SortedAccept(s, t).1);
  }

  /** The sink for a SORTED stream: forwards an element unless it repeats the last one forwarded. */
  class SortedDistinctSink<T(==,!new)> {
    const downstream: RecordingSink<Option<T>>
    var seenNull: bool
    var lastSeen: Option<T>
    /** The elements accepted since `begin`. */
    ghost var input: seq<Option<T>>
    /** The calls the next sink had received before `begin`. */
    ghost var before: seq<Event<Option<T>>>

    ghost predicate Valid()
      reads this, downstream
    {
      SortedTracks(SortedState(seenNull, lastSeen), downstream.events, before, input)
    }

    constructor (sink: RecordingSink<Option<T>>)
      ensures downstream == sink && !seenNull && lastSeen == None
    {
      downstream := sink;
      seenNull := false;
      lastSeen := None;
    }

    /** `begin(size)`: clears the state and begins the next sink with an unknown size. */
    method Begin(size: int)
      modifies this, downstream
      ensures Valid() && input == [] && !seenNull && lastSeen == None
      ensures downstream.events == old(downstream.events) + [Began(-1)]
    {
      seenNull := false;
      lastSeen := None;
      input := [];
      before := downstream.events;
      downstream.Begin(-1);
    }

    /** `accept(t)`: null goes through once; anything else unless it equals the last forwarded element. */
    method Accept(t: Option<T>)
      requires Valid()
      modifies this, downstream
      ensures Valid() && input == old(input) + [t] && before == old(before)
      ensures downstream.events == old(downstream.events) + Forwarded(SortedAccept(SortedState(old(seenNull), old(lastSeen)), t).1)
    {
      SortedAcceptTracks(SortedState(seenNull, lastSeen), downstream.events, before, input, t);
      input := input + [t];
      if t.None? {
        if !seenNull {
          seenNull := true;
          lastSeen := None;
          downstream.Accept(None);
          ForwardedOne(t);
        }
      } else if lastSeen.None? || t != lastSeen {
        lastSeen := t;
        downstream.Accept(t);
        ForwardedOne(t);
      }
    }

    /** `end()`: clears the state and ends the next sink. */
    method End()
      modifies this, downstream
      ensures !seenNull && lastSeen == None
      ensures downstream.events == old(downstream.events) + [Ended]
    {
      seenNull := false;
      lastSeen := None;
      downstream.End();
    }
  }

  /** The hash sink holding `seen`, with `events` received downstream, has accepted `input` since `begin`. */
  ghost predicate HashTracks<T(!new)>(seen: set<Option<T>>, events: seq<Event<Option<T>>>,
                                      before: seq<Event<Option<T>>>, input: seq<Option<T>>)
  {
    && (forall x :: x in seen <==> x in input)
    && events == before + [Began(-1)] + Forwarded(Unique(input))
  }

  lemma HashAcceptTracks<T(!new)>(seen: set<Option<T>>, events: seq<Event<Option<T>>>,
                                  before: seq<Event<Option<T>>>, input: seq<Option<T>>, t: Option<T>)
    requires HashTracks(seen, events, before, input)
    ensures t in seen <==> t in input
    ensures HashTracks(seen + {t}, events + Forwarded(if t in seen then [] else [t]), before, input + [t])
  {
    UniqueSnoc(input, t);
    ForwardedAppend(Unique(input), if t in input then [] else [t]);
  }

  /** The sink for any other stream: forwards an element the first time it is seen. */
  class HashDistinctSink<T(==,!new)> {
    const downstream: RecordingSink<Option<T>>
    /** The `HashSet` of elements seen since `begin`; `None` outside a traversal. */
    var seen: Option<set<Option<T>>>
    ghost var input: seq<Option<T>>
    ghost var before: seq<Event<Option<T>>>

    ghost predicate Valid()
      reads this, downstream
    {
      seen.Some? && HashTracks(seen.value, downstream.events, before, input)
    }

    constructor (sink: RecordingSink<Option<T>>)
      ensures downstream == sink && seen == None
    {
      downstream := sink;
      seen := None;
    }

    /** `begin(size)`: a fresh empty set, and the next sink begins with an unknown size. */
    method Begin(size: int)
      modifies this, downstream
      ensures Valid() && input == [] && seen == Some({})
      ensures downstream.events == old(downstream.events) + [Began(-1)]
    {
      seen := Some({});
      input := [];
      before := downstream.events;
      downstream.Begin(-1);
    }

    /** `accept(t)`: forwards `t` and records it, unless it was seen already. */
    method Accept(t: Option<T>)
      requires Valid()
      modifies this, downstream
      ensures Valid() && input == old(input) + [t] && before == old(before)
      ensures t in old(input) ==> downstream.events == old(downstream.events)
      ensures t !in old(input) ==> downstream.events == old(downstream.events) + [Accepted(t)]
    {
      HashAcceptTracks(seen.value, downstream.events, before, input, t);
      input := input + [t];
      if t !in seen.value {
        seen := Some(seen.value + {t});
        downstream.Accept(t);
        ForwardedOne(t);
      } else {
        assert seen.value + {t} == seen.value;
      }
    }

    /** `end()`: drops the set and ends the next sink. */
    method End()
      modifies this, downstream
      ensures seen == None
      ensures downstream.events == old(downstream.events) + [Ended]
    {
      seen := None;
      downstream.End();
    }
  }

  /** The hash sink forwards `1, 2` from `1, 2, 1`, bracketed by begin and end. */
  method HashSinkDropsRepeats() returns (events: seq<Event<Option<int>>>)
    ensures events == [Began(-1), Accepted(Some(1)), Accepted(Some(2)), Ended]
  {
    var next := new RecordingSink<Option<int>>();
    var sink := new HashDistinctSink<int>(next);
    sink.Begin(4);
    sink.Accept(Some(1));
    sink.Accept(Some(2));
    ghost var forwarded := [Began(-1), Accepted(Some(1)), Accepted(Some(2))];
    assert next.events == forwarded;
    assert Some(1) == sink.input[0];
    sink.Accept(Some(1));
    assert next.events == forwarded;
    sink.End();
    events := next.events;
  }

  /** Unlike the hash sink, the sorted sink forwards `1` again after a null in between. */
  method SortedSinkOnUngroupedInput() returns (events: seq<Event<Option<int>>>)
    ensures events == [Began(-1), Accepted(Some(1)), Accepted(None), Accepted(Some(1)), Ended]
  {
    var next := new RecordingSink<Option<int>>();
    var sink := new SortedDistinctSink<int>(next);
    sink.Begin(3);
    sink.Accept(Some(1));
    sink.Accept(None);
    sink.Accept(Some(1));
    sink.End();
    events := next.events;
  }
}
