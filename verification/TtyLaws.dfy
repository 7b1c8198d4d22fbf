/**
  Laws of the decoder: what may keep it waiting, that it does not matter how input is cut into
  deliveries, exactly where a cut does matter, and what a printed mouse report decodes to.
 */
module TtyLaws {
  import opened Basics
  import opened Decimals
  import opened TtyGrammar

  // ----- Waiting and progress -----

  /** An unfinished control sequence. */
  predicate Unfinished(p: Bytes) {
    && |p| >= 2 && p[0] == ESC && p[1] == '[' as Byte && |p| < 64
    && (if StartsMouse(p) then |p| < 6 || FirstReportEnd(p, 3) == |p| else FirstFinal(p, 2) == |p|)
  }

  /** A call on a non-empty buffer does nothing exactly when the buffer is an unfinished sequence. */
  lemma NoProgressIff(p: Bytes, keys: KeyMap, last: Pointer)
    requires p != [] && |p| <= 64
    ensures CallOn(p, keys, last) == Call(None, p, last) <==> Unfinished(p)
    ensures ItemAt(p, keys, last).Wait? <==> Unfinished(p)
  {
    hide ReportFields, CsiKey, MouseOf;
    var item := ItemAt(p, keys, last);
    if !item.Wait? {
      assert |CallOn(p, keys, last).rest| < |p|;
    }
  }

  /** A full buffer never waits. */
  lemma FullNeverWaits(p: Bytes, keys: KeyMap, last: Pointer)
    requires |p| == 64
    ensures |CallOn(p, keys, last).rest| < |p|
  {
    hide ReportFields, CsiKey, MouseOf;
    NoProgressIff(p, keys, last);
  }

  /** Calls until one makes no progress. */
  function DrainByCalls(p: Bytes, keys: KeyMap, last: Pointer): Drained
    decreases |p|
  {
    var call := CallOn(p, keys, last);
    if |call.rest| >= |p| then Drained([], p, last)
    else
      var d := DrainByCalls(call.rest, keys, call.last);
      d.(events := (if call.emitted.Some? then [call.emitted.value] else []) + d.events)
  }

  /** Draining call by call decodes every item in order. */
  lemma {:induction false} CallsDrain(p: Bytes, keys: KeyMap, last: Pointer)
    ensures DrainByCalls(p, keys, last) == Drain(p, keys, last)
    decreases |p|
  {
    hide ItemAt, StartsMouse;
    var item := ItemAt(p, keys, last);
    if !item.Wait? {
      var call := CallOn(p, keys, last);
      CallsDrain(call.rest, keys, call.last);
      if item.Skip? && StartsMouse(p) && !StartsMouse(p[item.used..]) {
        KeysFromKeys(p[item.used..], keys, last);
      }
    }
  }

  lemma KeysFromKeys(p: Bytes, keys: KeyMap, last: Pointer)
    requires !StartsMouse(p)
    ensures ItemAt(p, keys, last).Emit? ==> ItemAt(p, keys, last).event.KeyEvent?
  {
  }

  // ----- Cutting input into deliveries -----

  /** Somewhere while draining, all that is left is one ESC. */
  predicate SeesLoneEsc(p: Bytes, keys: KeyMap, last: Pointer)
    decreases |p|
  {
    var item := ItemAt(p, keys, last);
    if item.Wait? then false
    else p == [ESC] || SeesLoneEsc(p[item.used..], keys, Moved(item, last))
  }

  lemma {:induction false} FirstReportEndStable(p: Bytes, q: Bytes, i: nat)
    requires i <= |p| && FirstReportEnd(p, i) < |p|
    ensures FirstReportEnd(p + q, i) == FirstReportEnd(p, i)
    decreases |p| - i
  {
    if !ReportEnd(p[i]) {
      FirstReportEndStable(p, q, i + 1);
    }
  }

  lemma {:induction false} FirstFinalStable(p: Bytes, q: Bytes, i: nat)
    requires i <= |p| && FirstFinal(p, i) < |p|
    ensures FirstFinal(p + q, i) == FirstFinal(p, i)
    decreases |p| - i
  {
    if !FinalByte(p[i]) {
      FirstFinalStable(p, q, i + 1);
    }
  }

  /** An item that is complete stays the same whatever arrives after it. */
  lemma ItemStable(p: Bytes, q: Bytes, keys: KeyMap, last: Pointer)
    requires p != [] && p != [ESC] && |p| < CAPACITY && !ItemAt(p, keys, last).Wait?
    ensures ItemAt(p + q, keys, last) == ItemAt(p, keys, last)
  {
    hide ReportFields, CsiKey, MouseOf;
    if StartsMouse(p) {
      FirstReportEndStable(p, q, 3);
      assert (p + q)[..FirstReportEnd(p, 3)] == p[..FirstReportEnd(p, 3)];
    } else if p[0] == ESC && p[1] == '[' as Byte {
      FirstFinalStable(p, q, 2);
      assert (p + q)[..FirstFinal(p, 2)] == p[..FirstFinal(p, 2)];
    }
  }

  /** Draining one part and then the rest. */
  function DrainTwice(p: Bytes, q: Bytes, keys: KeyMap, last: Pointer): Drained {
    var d := Drain(p, keys, last);
    var e := Drain(d.rest + q, keys, d.last);
    e.(events := d.events + e.events)
  }

  lemma {:induction false} CutDoesNotMatter(p: Bytes, q: Bytes, keys: KeyMap, last: Pointer)
    requires |p| + |q| <= CAPACITY && !SeesLoneEsc(p, keys, last)
    ensures DrainTwice(p, q, keys, last) == Drain(p + q, keys, last)
    decreases |p|
  {
    hide ItemAt;
    var item := ItemAt(p, keys, last);
    if !item.Wait? {
      var rest := p[item.used..];
      if |p| == CAPACITY {
        assert p + q == p && Drain(p, keys, last).rest + q == Drain(p, keys, last).rest;
        DrainIdempotent(p, keys, last);
      } else {
        NonEmptyItem(p, keys, last);
        ItemStable(p, q, keys, last);
        assert (p + q)[item.used..] == rest + q;
        CutDoesNotMatter(rest, q, keys, Moved(item, last));
      }
    }
  }

  lemma NonEmptyItem(p: Bytes, keys: KeyMap, last: Pointer)
    requires !ItemAt(p, keys, last).Wait?
    ensures p != []
  {
  }

  lemma {:induction false} DrainIdempotent(p: Bytes, keys: KeyMap, last: Pointer)
    ensures var d := Drain(p, keys, last); Drain(d.rest, keys, d.last) == Drained([], d.rest, d.last)
    decreases |p|
  {
    hide ItemAt;
    var item := ItemAt(p, keys, last);
    if !item.Wait? {
      DrainIdempotent(p[item.used..], keys, Moved(item, last));
    }
  }

  lemma {:induction false} LoneEscSplits(p: Bytes, keys: KeyMap, last: Pointer)
    requires |p| < CAPACITY && SeesLoneEsc(p, keys, last)
    ensures DrainTwice(p, ['[' as Byte], keys, last) != Drain(p + ['[' as Byte], keys, last)
    decreases |p|
  {
    hide ItemAt;
    var bracket := ['[' as Byte];
    if p == [ESC] {
      LoneEscBracket(keys, last);
    } else {
      var item := ItemAt(p, keys, last);
      NonEmptyItem(p, keys, last);
      ItemStable(p, bracket, keys, last);
      var rest, next := p[item.used..], Moved(item, last);
      assert (p + bracket)[item.used..] == rest + bracket;
      LoneEscSplits(rest, keys, next);
      SamePrefix(Emitted(item), DrainTwice(rest, bracket, keys, next).events, Drain(rest + bracket, keys, next).events);
      assert DrainTwice(p, bracket, keys, last).events ==
             Emitted(item) + DrainTwice(rest, bracket, keys, next).events;
    }
  }

  lemma SamePrefix<A>(e: seq<A>, s: seq<A>, t: seq<A>)
    ensures e + s == e + t <==> s == t
  {
    assert (e + s)[|e|..] == s && (e + t)[|e|..] == t;
  }

  lemma LoneEscBracket(keys: KeyMap, last: Pointer)
    ensures DrainTwice([ESC], ['[' as Byte], keys, last).events == [ESCAPE_KEY, PlainKey('[' as Byte)]
    ensures Drain([ESC] + ['[' as Byte], keys, last).events == []
  {
    assert [ESC][1..] == [] && ['[' as Byte][1..] == [];
    assert Drain([ESC], keys, last) == Drained([ESCAPE_KEY], [], last);
    assert [] + ['[' as Byte] == ['[' as Byte];
    assert Drain(['[' as Byte], keys, last) == Drained([PlainKey('[' as Byte)], [], last);
    assert [ESC] + ['[' as Byte] == [ESC, '[' as Byte];
  }

  /**
    A delivery may be cut after `p`, whatever follows, exactly when draining `p` never comes to a
    lone ESC.
   */
  lemma CutIffNoLoneEsc(p: Bytes, keys: KeyMap, last: Pointer)
    requires |p| < CAPACITY
    ensures !SeesLoneEsc(p, keys, last) <==>
            forall q: Bytes :: |p| + |q| <= CAPACITY ==> DrainTwice(p, q, keys, last) == Drain(p + q, keys, last)
  {
    hide ItemAt, SeesLoneEsc, Drain, DrainTwice;
    if SeesLoneEsc(p, keys, last) {
      LoneEscSplits(p, keys, last);
      assert |p| + |['[' as Byte]| <= CAPACITY;
    } else {
      forall q: Bytes | |p| + |q| <= CAPACITY
        ensures DrainTwice(p, q, keys, last) == Drain(p + q, keys, last)
      {
        CutDoesNotMatter(p, q, keys, last);
      }
    }
  }

  // ----- Any number of deliveries -----

  function Concat(chunks: seq<Bytes>): Bytes {
    if chunks == [] then [] else chunks[0] + Concat(chunks[1..])
  }

  /** Drains after each delivery. */
  function DrainChunks(rest: Bytes, chunks: seq<Bytes>, keys: KeyMap, last: Pointer): Drained
    decreases |chunks|
  {
    if chunks == [] then Drained([], rest, last)
    else
      var d := Drain(rest + chunks[0], keys, last);
      var e := DrainChunks(d.rest, chunks[1..], keys, d.last);
      e.(events := d.events + e.events)
  }

  /** No drain but the last comes to a lone ESC. */
  predicate NoLoneEscBeforeLast(rest: Bytes, chunks: seq<Bytes>, keys: KeyMap, last: Pointer)
    decreases |chunks|
  {
    |chunks| <= 1 ||
    (!SeesLoneEsc(rest + chunks[0], keys, last) &&
     var d := Drain(rest + chunks[0], keys, last);
     NoLoneEscBeforeLast(d.rest, chunks[1..], keys, d.last))
  }

  /** However at most 64 bytes are cut up, the events and what is left over are the same. */
  lemma {:induction false} ChunksDoNotMatter(rest: Bytes, chunks: seq<Bytes>, keys: KeyMap, last: Pointer)
    requires chunks != [] && |rest| + |Concat(chunks)| <= CAPACITY
    requires NoLoneEscBeforeLast(rest, chunks, keys, last)
    ensures DrainChunks(rest, chunks, keys, last) == Drain(rest + Concat(chunks), keys, last)
    decreases |chunks|
  {
    hide Drain, SeesLoneEsc;
    var p := rest + chunks[0];
    var d := Drain(p, keys, last);
    if |chunks| == 1 {
      assert Concat(chunks[1..]) == [];
      assert rest + Concat(chunks) == p;
    } else {
      var q := Concat(chunks[1..]);
      assert rest + Concat(chunks) == p + q;
      CutDoesNotMatter(p, q, keys, last);
      ChunksDoNotMatter(d.rest, chunks[1..], keys, d.last);
    }
  }

  // ----- Deliveries and single calls in any order -----

  /** What the platform does with the decoder: hand it bytes that were read, or call it once. */
  datatype Move = Deliver(bytes: Bytes) | Poll

  function Delivered(moves: seq<Move>): Bytes {
    if moves == [] then []
    else (if moves[0].Deliver? then moves[0].bytes else []) + Delivered(moves[1..])
  }

  /** A call decodes a lone ESC: it is all there is, or all that a report thrown away leaves. */
  predicate TakesLoneEsc(p: Bytes, keys: KeyMap, last: Pointer) {
    || p == [ESC]
    || (var item := ItemAt(p, keys, last); item.Skip? && StartsMouse(p) && p[item.used..] == [ESC])
  }

  /** The events, the bytes left and the pointer after a run of deliveries and calls. */
  function Play(p: Bytes, moves: seq<Move>, keys: KeyMap, last: Pointer): Drained
    decreases |moves|
  {
    if moves == [] then Drained([], p, last)
    else
      match moves[0]
      case Deliver(bytes) => Play(p + bytes, moves[1..], keys, last)
      case Poll =>
        var call := CallOn(p, keys, last);
        var d := Play(call.rest, moves[1..], keys, call.last);
        d.(events := Called(call) + d.events)
  }

  function Called(call: Call): seq<Event> {
    if call.emitted.Some? then [call.emitted.value] else []
  }

  /** No call decodes a lone ESC while there are bytes still to be delivered. */
  predicate NoEarlyEsc(p: Bytes, moves: seq<Move>, keys: KeyMap, last: Pointer)
    decreases |moves|
  {
    moves == [] ||
    match moves[0]
    case Deliver(bytes) => NoEarlyEsc(p + bytes, moves[1..], keys, last)
    case Poll =>
      && (Delivered(moves) == [] || !TakesLoneEsc(p, keys, last))
      && var call := CallOn(p, keys, last);
         NoEarlyEsc(call.rest, moves[1..], keys, call.last)
  }

  /** The first move of a run, and the rest. */
  lemma PlayStep(p: Bytes, moves: seq<Move>, keys: KeyMap, last: Pointer)
    requires moves != []
    ensures moves[0].Deliver? ==>
              && Play(p, moves, keys, last) == Play(p + moves[0].bytes, moves[1..], keys, last)
              && p + Delivered(moves) == p + moves[0].bytes + Delivered(moves[1..])
    ensures moves[0].Poll? ==>
              var call := CallOn(p, keys, last);
              var d := Play(call.rest, moves[1..], keys, call.last);
              && Play(p, moves, keys, last) == d.(events := Called(call) + d.events)
              && Delivered(moves) == Delivered(moves[1..])
  {
    hide CallOn;
    if moves[0].Deliver? {
      assert p + (moves[0].bytes + Delivered(moves[1..])) == p + moves[0].bytes + Delivered(moves[1..]);
    }
  }

  lemma EventsJoin(a: seq<Event>, b: seq<Event>, c: seq<Event>)
    ensures a + b + c == a + (b + c)
  {
  }

  lemma DrainItem(p: Bytes, keys: KeyMap, last: Pointer)
    ensures var item := ItemAt(p, keys, last);
            !item.Wait? ==>
              var d := Drain(p[item.used..], keys, Moved(item, last));
              Drain(p, keys, last) == d.(events := Emitted(item) + d.events)
  {
    hide ItemAt, Moved, Emitted;
  }

  /** An item taken before more bytes arrive is the item that would be taken after. */
  lemma ItemThenMore(p: Bytes, q: Bytes, keys: KeyMap, last: Pointer)
    requires |p| + |q| <= CAPACITY && (q == [] || p != [ESC]) && !ItemAt(p, keys, last).Wait?
    ensures var used := ItemAt(p, keys, last).used;
            ItemAt(p + q, keys, last) == ItemAt(p, keys, last) && (p + q)[used..] == p[used..] + q
  {
    hide ItemAt;
    if q == [] {
      assert p + q == p;
    } else {
      NonEmptyItem(p, keys, last);
      ItemStable(p, q, keys, last);
    }
  }

  lemma TakeThenMore(p: Bytes, q: Bytes, keys: KeyMap, last: Pointer)
    requires |p| + |q| <= CAPACITY && (q == [] || p != [ESC])
    ensures var item := ItemAt(p, keys, last);
            !item.Wait? ==>
              var d := Drain(p[item.used..] + q, keys, Moved(item, last));
              Drain(p + q, keys, last) == d.(events := Emitted(item) + d.events)
  {
    hide ItemAt, Drain, Moved, Emitted;
    if !ItemAt(p, keys, last).Wait? {
      DrainItem(p + q, keys, last);
      ItemThenMore(p, q, keys, last);
    }
  }

  /** A call before more bytes arrive takes nothing away from what the bytes together decode to. */
  lemma CallThenMore(p: Bytes, q: Bytes, keys: KeyMap, last: Pointer)
    requires |p| + |q| <= CAPACITY && (q == [] || !TakesLoneEsc(p, keys, last))
    ensures var call := CallOn(p, keys, last);
            var d := Drain(call.rest + q, keys, call.last);
            |call.rest| <= |p| && Drain(p + q, keys, last) == d.(events := Called(call) + d.events)
  {
    hide ItemAt, StartsMouse, Drain;
    var item := ItemAt(p, keys, last);
    TakeThenMore(p, q, keys, last);
    if item.Skip? {
      var rest := p[item.used..];
      if StartsMouse(p) && !StartsMouse(rest) {
        TakeThenMore(rest, q, keys, last);
        KeysFromKeys(rest, keys, last);
      }
    }
  }

  /**
    Whatever the order of deliveries and single calls, the events so far and those still in the
    buffer are the events of all the bytes at once, for at most 64 bytes in all and no lone ESC
    decoded too early.
   */
  lemma {:induction false} AnyOrderDecodesAll(p: Bytes, moves: seq<Move>, keys: KeyMap, last: Pointer)
    requires |p| + |Delivered(moves)| <= CAPACITY && NoEarlyEsc(p, moves, keys, last)
    ensures var d := Play(p, moves, keys, last);
            var e := Drain(d.rest, keys, d.last);
            e.(events := d.events + e.events) == Drain(p + Delivered(moves), keys, last)
    decreases |moves|
  {
    hide Drain, CallOn, TakesLoneEsc, Play, Delivered;
    if moves == [] {
      NothingPlayed(p, keys, last);
      Prepended([], Drain(p, keys, last));
    } else {
      PlayStep(p, moves, keys, last);
      if moves[0].Deliver? {
        AnyOrderDecodesAll(p + moves[0].bytes, moves[1..], keys, last);
      } else {
        var call := CallOn(p, keys, last);
        CallThenMore(p, Delivered(moves[1..]), keys, last);
        AnyOrderDecodesAll(call.rest, moves[1..], keys, call.last);
        var d := Play(call.rest, moves[1..], keys, call.last);
        EventsJoin(Called(call), d.events, Drain(d.rest, keys, d.last).events);
      }
    }
  }

  lemma NothingPlayed(p: Bytes, keys: KeyMap, last: Pointer)
    ensures Play(p, [], keys, last) == Drained([], p, last) && p + Delivered([]) == p
  {
  }

  lemma Prepended(events: seq<Event>, d: Drained)
    ensures events == [] ==> d.(events := events + d.events) == d
  {
  }

  // ----- Input without end -----

  /** A control sequence without its final byte so far. */
  predicate Endless(p: Bytes) {
    && |p| >= 2 && p[0] == ESC && p[1] == '[' as Byte
    && (if StartsMouse(p) then FirstReportEnd(p, 3) == |p| else FirstFinal(p, 2) == |p|)
  }

  /** The buffer is full and holds nothing but an unfinished sequence: the next call has to give it up. */
  predicate Overflows(p: Bytes) {
    |p| == CAPACITY && Endless(p)
  }

  /** What stands at the head of input of any length: an unfinished sequence is waited for, however long. */
  function StreamItem(p: Bytes, keys: KeyMap, last: Pointer): (item: Item)
    ensures !item.Wait? ==> 0 < item.used <= |p|
  {
    if Overflows(p) then Wait else ItemAt(p, keys, last)
  }

  /** What input of any length decodes to. */
  function StreamDrain(p: Bytes, keys: KeyMap, last: Pointer): Drained
    decreases |p|
  {
    var item := StreamItem(p, keys, last);
    if item.Wait? then Drained([], p, last)
    else
      var d := StreamDrain(p[item.used..], keys, Moved(item, last));
      d.(events := Emitted(item) + d.events)
  }

  /** Each delivery fits what is free, no call meets an overflow, and none decodes a lone ESC before more bytes. */
  predicate Smooth(p: Bytes, moves: seq<Move>, keys: KeyMap, last: Pointer)
    decreases |moves|
  {
    moves == [] ||
    match moves[0]
    case Deliver(bytes) => |p| + |bytes| <= CAPACITY && Smooth(p + bytes, moves[1..], keys, last)
    case Poll =>
      && !Overflows(p) && (Delivered(moves) == [] || !TakesLoneEsc(p, keys, last))
      && var call := CallOn(p, keys, last);
         Smooth(call.rest, moves[1..], keys, call.last)
  }

  /** A complete item stays the same, however much arrives after it. */
  lemma StreamItemStable(p: Bytes, q: Bytes, keys: KeyMap, last: Pointer)
    requires p != [] && (q == [] || p != [ESC]) && !StreamItem(p, keys, last).Wait?
    ensures StreamItem(p + q, keys, last) == StreamItem(p, keys, last)
  {
    hide ReportFields, CsiKey, MouseOf;
    if q == [] {
      assert p + q == p;
    } else if StartsMouse(p) {
      FirstReportEndStable(p, q, 3);
      assert (p + q)[..FirstReportEnd(p, 3)] == p[..FirstReportEnd(p, 3)];
    } else if p[0] == ESC && p[1] == '[' as Byte {
      FirstFinalStable(p, q, 2);
      assert (p + q)[..FirstFinal(p, 2)] == p[..FirstFinal(p, 2)];
    }
  }

  lemma StreamThenMore(p: Bytes, q: Bytes, keys: KeyMap, last: Pointer)
    requires q == [] || p != [ESC]
    ensures var item := StreamItem(p, keys, last);
            !item.Wait? ==>
              var d := StreamDrain(p[item.used..] + q, keys, Moved(item, last));
              StreamDrain(p + q, keys, last) == d.(events := Emitted(item) + d.events)
  {
    hide ItemAt, Overflows, Moved, Emitted;
    var item := StreamItem(p, keys, last);
    if !item.Wait? {
      StreamItemStable(p, q, keys, last);
      assert (p + q)[item.used..] == p[item.used..] + q;
    }
  }

  lemma StreamCall(p: Bytes, q: Bytes, keys: KeyMap, last: Pointer)
    requires |p| <= CAPACITY && !Overflows(p) && (q == [] || !TakesLoneEsc(p, keys, last))
    ensures var call := CallOn(p, keys, last);
            var d := StreamDrain(call.rest + q, keys, call.last);
            |call.rest| <= |p| && StreamDrain(p + q, keys, last) == d.(events := Called(call) + d.events)
  {
    hide ItemAt, StartsMouse, StreamDrain, Endless;
    var item := ItemAt(p, keys, last);
    StreamThenMore(p, q, keys, last);
    if item.Skip? {
      var rest := p[item.used..];
      if StartsMouse(p) && !StartsMouse(rest) {
        StreamThenMore(rest, q, keys, last);
        KeysFromKeys(rest, keys, last);
      }
    }
  }

  /**
    Sessions of any length: with deliveries and single calls in any order, the events so far and
    those still in the buffer are the events of all the bytes ever delivered, and the same bytes are
    left, as long as each delivery fits what is free, no call finds the buffer full of an unfinished
    sequence and none decodes a lone ESC before more bytes.
   */
  lemma {:induction false} StreamDecodesAll(p: Bytes, moves: seq<Move>, keys: KeyMap, last: Pointer)
    requires |p| <= CAPACITY && Smooth(p, moves, keys, last)
    ensures var d := Play(p, moves, keys, last);
            var e := StreamDrain(d.rest, keys, d.last);
            e.(events := d.events + e.events) == StreamDrain(p + Delivered(moves), keys, last)
    decreases |moves|
  {
    hide StreamDrain, CallOn, TakesLoneEsc, Overflows, Play, Delivered;
    if moves == [] {
      NothingPlayed(p, keys, last);
      Prepended([], StreamDrain(p, keys, last));
    } else {
      PlayStep(p, moves, keys, last);
      if moves[0].Deliver? {
        StreamDecodesAll(p + moves[0].bytes, moves[1..], keys, last);
      } else {
        var call := CallOn(p, keys, last);
        StreamCall(p, Delivered(moves[1..]), keys, last);
        StreamDecodesAll(call.rest, moves[1..], keys, call.last);
        var d := Play(call.rest, moves[1..], keys, call.last);
        EventsJoin(Called(call), d.events, StreamDrain(d.rest, keys, d.last).events);
      }
    }
  }

  // ----- Printed reports -----

  lemma {:induction false} ValueOfDecimal(a: Bytes, n: nat, b: Bytes, j: nat)
    requires j == |a| + |Decimal(n)|
    ensures var s := a + Decimal(n) + b;
            && (forall k :: |a| <= k < j ==> Digit(s[k]))
            && Value(s, |a|, j) == n
    decreases n
  {
    var s := a + Decimal(n) + b;
    assert forall k :: |a| <= k < j ==> s[k] == Decimal(n)[k - |a|];
    if n >= 10 {
      var b' := [0x30 + n % 10] + b;
      ValueOfDecimal(a, n / 10, b', j - 1);
      assert s == a + Decimal(n / 10) + b';
      assert DigitValue(s[j - 1]) == n % 10;
    } else {
      assert Value(s, |a|, j - 1) == 0;
    }
  }

  lemma {:induction false} RunEndIs(s: Bytes, i: nat, j: nat)
    requires i <= j <= |s| && (forall k :: i <= k < j ==> Digit(s[k])) && (j < |s| ==> !Digit(s[j]))
    ensures RunEnd(s, i) == j
    decreases j - i
  {
    if i < j {
      RunEndIs(s, i + 1, j);
    }
  }

  /** A printed number is read back, capped at INT32_MAX, up to the first byte that is no digit. */
  lemma NumberOfDecimal(a: Bytes, n: nat, b: Bytes)
    requires b != [] ==> !Digit(b[0])
    ensures Number(a + Decimal(n) + b, |a|) == Some((Capped(n), |a| + |Decimal(n)|))
  {
    var s, j := a + Decimal(n) + b, |a| + |Decimal(n)|;
    ValueOfDecimal(a, n, b, j);
    RunEndIs(s, |a|, j);
  }

  const REPORT_START: Bytes := [ESC, '[' as Byte, '<' as Byte]

  function PrintReport(button: nat, x: nat, y: nat, end: Byte): Bytes {
    REPORT_START + Decimal(button) + [';' as Byte] + Decimal(x) + [';' as Byte] + Decimal(y) + [end]
  }

  lemma Regroup<A>(a: seq<A>, b: seq<A>, c: seq<A>, d: seq<A>, e: seq<A>, f: seq<A>)
    ensures a + b + c + d + e + f == a + b + (c + d + e + f)
    ensures a + b + c + d + e + f == (a + b + c) + d + (e + f)
    ensures a + b + c + d + e + f == (a + b + c + d + e) + f + []
  {
  }

  lemma Separators<A>(a: seq<A>, b: seq<A>, c: A, d: seq<A>, e: A, f: seq<A>)
    ensures (a + b + [c] + d + [e] + f)[|a| + |b|] == c
    ensures (a + b + [c] + d + [e] + f)[|a| + |b| + 1 + |d|] == e
    ensures |a + b + [c]| == |a| + |b| + 1 && |a + b + [c] + d + [e]| == |a| + |b| + 1 + |d| + 1
    ensures |a + b + [c] + d + [e] + f| == |a| + |b| + 1 + |d| + 1 + |f|
  {
  }

  lemma FieldsOfPrinted(button: nat, x: nat, y: nat)
    ensures ReportFields(REPORT_START + Decimal(button) + [';' as Byte] + Decimal(x) + [';' as Byte] + Decimal(y))
            == Some(Report(Capped(button), Capped(x), Capped(y)))
  {
    FieldsOf(Decimal(button), Decimal(x), Decimal(y), button, x, y);
  }

  lemma FieldsOf(b: Bytes, c: Bytes, d: Bytes, button: nat, x: nat, y: nat)
    requires b == Decimal(button) && c == Decimal(x) && d == Decimal(y)
    ensures ReportFields(REPORT_START + b + [';' as Byte] + c + [';' as Byte] + d)
            == Some(Report(Capped(button), Capped(x), Capped(y)))
  {
    hide Number, Decimal, ReportFields, Capped;
    var semi := [';' as Byte];
    var s := REPORT_START + b + semi + c + semi + d;
    Regroup(REPORT_START, b, semi, c, semi, d);
    Separators(REPORT_START, b, ';' as Byte, c, ';' as Byte, d);
    NumberOfDecimal(REPORT_START, button, semi + c + semi + d);
    NumberOfDecimal(REPORT_START + b + semi, x, semi + d);
    NumberOfDecimal(REPORT_START + b + semi + c + semi, y, []);
    FieldsAre(s, 3 + |b|, 3 + |b| + 1 + |c|, Capped(button), Capped(x), Capped(y));
  }

  lemma FieldsAre(s: Bytes, j: nat, k: nat, button: nat, x: nat, y: nat)
    requires j < |s| && k < |s| && s[j] == ';' as Byte && s[k] == ';' as Byte
    requires Number(s, 3) == Some((button, j)) && Number(s, j + 1) == Some((x, k))
    requires Number(s, k + 1) == Some((y, |s|))
    ensures ReportFields(s) == Some(Report(button, x, y))
  {
    hide Number;
  }

  lemma {:induction false} FirstReportEndIs(p: Bytes, i: nat, k: nat)
    requires i <= k < |p| && ReportEnd(p[k]) && forall j :: i <= j < k ==> !ReportEnd(p[j])
    ensures FirstReportEnd(p, i) == k
    decreases k - i
  {
    if i < k {
      FirstReportEndIs(p, i + 1, k);
    }
  }

  /**
    A printed report, followed by any bytes that fit, is decoded by one call: exactly its bytes are
    consumed, and it yields the zero-based place and the button that its numbers mean.
   */
  lemma PrintedReportDecodes(button: nat, x: nat, y: nat, end: Byte, after: Bytes, keys: KeyMap, last: Pointer)
    requires ReportEnd(end) && |PrintReport(button, x, y, end) + after| <= CAPACITY
    ensures var m := MouseOf(Report(Capped(button), Capped(x), Capped(y)), end == 'm' as Byte, last);
            && CallOn(PrintReport(button, x, y, end) + after, keys, last) ==
               Call(Some(Mouse(m)), after, Pointer(m.x, m.y))
            && m.x == ZeroBased(Capped(x)) && m.y == ZeroBased(Capped(y))
  {
    hide ReportFields, Decimal, FirstReportEnd;
    var semi := [';' as Byte];
    var body := REPORT_START + Decimal(button) + semi + Decimal(x) + semi + Decimal(y);
    var report := PrintReport(button, x, y, end);
    var p := report + after;
    assert report == body + [end];
    assert p[..|body|] == body && p[|report|..] == after;
    NoReportEndIn(button, x, y);
    assert forall j :: 3 <= j < |body| ==> p[j] == body[j];
    FirstReportEndIs(p, 3, |body|);
    FieldsOfPrinted(button, x, y);
    assert StartsMouse(p);
  }

  lemma NoReportEndIn(button: nat, x: nat, y: nat)
    ensures var semi := [';' as Byte];
            var body := REPORT_START + Decimal(button) + semi + Decimal(x) + semi + Decimal(y);
            forall j :: 3 <= j < |body| ==> !ReportEnd(body[j])
  {
    var semi := [';' as Byte];
    NoEndInDecimal(button);
    NoEndInDecimal(x);
    NoEndInDecimal(y);
  }

  lemma NoEndInDecimal(n: nat)
    ensures forall k :: 0 <= k < |Decimal(n)| ==> !ReportEnd(Decimal(n)[k])
  {
    assert forall k :: 0 <= k < |Decimal(n)| ==> Digit(Decimal(n)[k]);
  }
}
