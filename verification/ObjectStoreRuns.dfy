/** What every sequence of calls on the object store keeps: etags, conditional writes and visibility. */
module ObjectStoreRuns {
  import opened Keys
  import opened ObjectStore
  import opened Options

  datatype Event = Event(call: Call, dice: Dice)

  ghost function Run(config: Config, s: State, events: seq<Event>): (r: State)
    decreases events
  {
    if events == [] then s
    else Run(config, Step(config, s, events[0].call, events[0].dice).0, events[1..])
  }

  /** Etags in the store were issued, and no two keys share one. */
  ghost predicate Inv(s: State) {
    && (forall k :: k in s.objects ==> s.objects[k].etag <= s.etags)
    && (forall j, k :: j in s.objects && k in s.objects && s.objects[j].etag == s.objects[k].etag ==> j == k)
  }

  lemma StepInv(config: Config, s: State, call: Call, dice: Dice)
    requires Inv(s)
    ensures Inv(Step(config, s, call, dice).0)
    ensures s.etags <= Step(config, s, call, dice).0.etags
  {
  }

  lemma {:induction false} RunInv(config: Config, s: State, events: seq<Event>)
    requires Inv(s)
    ensures Inv(Run(config, s, events)) && s.etags <= Run(config, s, events).etags
    decreases events
  {
    if events == [] {
    } else {
      StepInv(config, s, events[0].call, events[0].dice);
      RunInv(config, Step(config, s, events[0].call, events[0].dice).0, events[1..]);
    }
  }

  /** The call stored bytes under the key, torn or whole, whatever it replied. */
  ghost predicate Stores(config: Config, s: State, event: Event, key: string) {
    && !event.dice.error
    && match event.call
       case Put(k, _) => k == key
       case PutIfAbsent(k, _) => k == key && key !in s.objects
       case PutIfMatch(k, _, etag) => k == key && key in s.objects && Decimal(s.objects[key].etag) == etag
       case _ => false
  }

  /** The call took the key away. */
  ghost predicate Removes(event: Event, key: string) {
    event.call.Reset? || (event.call.Delete? && event.call.key == key && !event.dice.error)
  }

  /** No call of the run stored or took the key. */
  ghost predicate Untouched(config: Config, s: State, events: seq<Event>, key: string)
    decreases events
  {
    events == [] ||
    (&& !Stores(config, s, events[0], key) && !Removes(events[0], key)
     && Untouched(config, Step(config, s, events[0].call, events[0].dice).0, events[1..], key))
  }

  ghost predicate NeverRemoved(events: seq<Event>, key: string) {
    forall e :: e in events ==> !Removes(e, key)
  }

  /** A call changes a key's object exactly when it stores or takes it; a stored object's etag is new. */
  lemma StepOnKey(config: Config, s: State, event: Event, key: string)
    ensures var t := Step(config, s, event.call, event.dice).0;
            && (Stores(config, s, event, key) ==> key in t.objects && t.objects[key].etag == t.etags == s.etags + 1)
            && (Removes(event, key) ==> key !in t.objects)
            && (!Stores(config, s, event, key) && !Removes(event, key) ==>
                  (key in t.objects <==> key in s.objects) && (key in s.objects ==> t.objects[key] == s.objects[key]))
  {
  }

  /** From now on the key holds no etag up to `bound`. */
  lemma {:induction false} StaysAbove(config: Config, s: State, events: seq<Event>, key: string, bound: nat)
    requires bound <= s.etags
    requires key in s.objects ==> bound < s.objects[key].etag
    ensures var t := Run(config, s, events); key in t.objects ==> bound < t.objects[key].etag
    decreases events
  {
    if events == [] {
    } else {
      StepOnKey(config, s, events[0], key);
      StaysAbove(config, Step(config, s, events[0].call, events[0].dice).0, events[1..], key, bound);
    }
  }

  /** A key keeps its etag over a run exactly when no call of the run stored or took it: no etag comes back. */
  lemma {:induction false} EtagKeptIff(config: Config, s: State, events: seq<Event>, key: string)
    requires Inv(s) && key in s.objects
    ensures var t := Run(config, s, events);
            (key in t.objects && t.objects[key].etag == s.objects[key].etag) <==> Untouched(config, s, events, key)
    ensures var t := Run(config, s, events);
            Untouched(config, s, events, key) ==> key in t.objects && t.objects[key] == s.objects[key]
    decreases events
  {
    if events == [] {
    } else {
      var next := Step(config, s, events[0].call, events[0].dice).0;
      StepInv(config, s, events[0].call, events[0].dice);
      StepOnKey(config, s, events[0], key);
      if Stores(config, s, events[0], key) || Removes(events[0], key) {
        StaysAbove(config, next, events[1..], key, s.objects[key].etag);
      } else {
        EtagKeptIff(config, next, events[1..], key);
      }
    }
  }

  lemma DecimalInjective(a: nat, b: nat)
    requires Decimal(a) == Decimal(b)
    ensures a == b
  {
    DecimalRoundTrip(a);
    DecimalRoundTrip(b);
  }

  /**
   * Compare-and-swap: with the etag a key had when it was last seen, the swap takes effect exactly when no call
   * in between stored or took the key. A swap back to equal bytes, a torn write and a reset all spoil it.
   */
  lemma SwapIff(config: Config, s: State, events: seq<Event>, key: string, swap: Event)
    requires Inv(s) && key in s.objects
    requires swap.call.PutIfMatch? && swap.call.key == key && swap.call.etag == Decimal(s.objects[key].etag)
    requires !swap.dice.error
    ensures var t := Run(config, s, events);
            && (Stores(config, t, swap, key) <==> Untouched(config, s, events, key))
            && (Step(config, t, swap.call, swap.dice).1 == Cas(None) <==> !Untouched(config, s, events, key))
  {
    var t := Run(config, s, events);
    EtagKeptIff(config, s, events, key);
    if key in t.objects && Decimal(t.objects[key].etag) == swap.call.etag {
      DecimalInjective(t.objects[key].etag, s.objects[key].etag);
    }
  }

  lemma {:induction false} StaysPresent(config: Config, s: State, events: seq<Event>, key: string)
    requires key in s.objects && NeverRemoved(events, key)
    ensures key in Run(config, s, events).objects
    decreases events
  {
    if events == [] {
    } else {
      assert events[0] in events;
      StepOnKey(config, s, events[0], key);
      StaysPresent(config, Step(config, s, events[0].call, events[0].dice).0, events[1..], key);
    }
  }

  /** Of all creations of a key, at most one takes effect until the key is taken away, seen by readers or not. */
  lemma CreatedOnce(config: Config, s: State, first: Event, events: seq<Event>, second: Event, key: string)
    requires first.call.PutIfAbsent? && Stores(config, s, first, key)
    requires NeverRemoved(events, key)
    requires second.call.PutIfAbsent? && second.call.key == key
    ensures var t := Run(config, Step(config, s, first.call, first.dice).0, events);
            && !Stores(config, t, second, key)
            && Step(config, t, second.call, second.dice).1 == (if second.dice.error then Failed else Cas(None))
  {
    StepOnKey(config, s, first, key);
    StaysPresent(config, Step(config, s, first.call, first.dice).0, events, key);
  }

  function Operations(events: seq<Event>): (r: nat) {
    if events == [] then 0 else (if events[0].call.Reset? then 0 else 1) + Operations(events[1..])
  }

  /** Every call counts but a reset, which leaves the count alone. */
  lemma {:induction false} OpsCount(config: Config, s: State, events: seq<Event>)
    ensures Run(config, s, events).ops == s.ops + Operations(events)
    decreases events
  {
    if events == [] {
    } else {
      OpsCount(config, Step(config, s, events[0].call, events[0].dice).0, events[1..]);
    }
  }

  /** Which lags a delay of `d` milliseconds allows. */
  lemma LagAllowedIff(config: Config, dice: Dice, d: nat)
    requires config.delayMs == Some(d)
    ensures LagAllowed(config, dice) <==> dice.lag == 2 || (2 < dice.lag <= 16 && 10 * dice.lag <= d)
  {
  }

  /** The data is longer than a write may be. */
  ghost predicate TooLong(config: Config, data: Bytes) {
    match config.partialLimit
    case None => false
    case Some(limit) => limit < |data|
  }

  /** The bytes that a call leaves under its key: cut at the limit if it is longer, else its data, of which at most the
      flipped byte differs. */
  ghost predicate Leaves(config: Config, write: Event, body: Bytes)
    requires write.call.Put? || write.call.PutIfAbsent? || write.call.PutIfMatch?
  {
    var data := write.call.data;
    if TooLong(config, data) then body == data[..config.partialLimit.value]
    else
      && |body| == |data|
      && forall i :: 0 <= i < |data| && !(write.dice.flip.Some? && write.dice.flip.value.at == i) ==> body[i] == data[i]
  }

  /** What a write stores and answers. It is refused if and only if its condition does not hold, and it fails if and
      only if a fault strikes: an error, after which nothing changed, or a cut. */
  lemma WriteAnswer(config: Config, s: State, write: Event, key: string)
    requires write.call.Put? || write.call.PutIfAbsent? || write.call.PutIfMatch?
    requires write.call.key == key
    ensures var (t, reply) := Step(config, s, write.call, write.dice);
            && (Stores(config, s, write, key) ==> key in t.objects && Leaves(config, write, t.objects[key].data))
            && (!Stores(config, s, write, key) ==> t.objects == s.objects)
            && (reply == Failed <==>
                  write.dice.error || (Stores(config, s, write, key) && TooLong(config, write.call.data)))
            && (reply == Cas(None) <==> !write.dice.error && !Stores(config, s, write, key))
            && (reply == Done ==> write.call.Put?)
            && (reply.Cas? && reply.etag.Some? ==> reply.etag == Some(Decimal(t.objects[key].etag)))
  {
  }

  /** What the other calls answer: a fault is reported and changes nothing, and otherwise each says what it did. */
  lemma ReplyKind(config: Config, s: State, event: Event)
    requires event.call.Get? || event.call.Exists? || event.call.List? || event.call.Delete? || event.call.Reset?
    ensures var (t, reply) := Step(config, s, event.call, event.dice);
            && (reply == Failed <==> event.dice.error && !event.call.Reset?)
            && (reply.Data? <==> event.call.Get? && !event.dice.error)
            && (reply.Found? <==> event.call.Exists? && !event.dice.error)
            && (reply.Listed? <==> event.call.List? && !event.dice.error)
            && (reply == Done <==> event.call.Reset? || (event.call.Delete? && !event.dice.error))
            && (!event.call.Delete? && !event.call.Reset? ==> t.objects == s.objects)
            && (reply == Failed ==> t.objects == s.objects) && t.etags == s.etags
  {
  }

  lemma StoredWhen(config: Config, s: State, write: Event, key: string)
    requires Stores(config, s, write, key)
    ensures var t := Step(config, s, write.call, write.dice).0;
            && t.ops == s.ops + 1
            && t.objects[key].visibleAfter == if config.delayMs.Some? then t.ops + write.dice.lag else 0
  {
  }

  lemma {:induction false} UntouchedCounts(config: Config, s: State, events: seq<Event>, key: string)
    requires Untouched(config, s, events, key)
    ensures Operations(events) == |events|
    decreases events
  {
    if events == [] {
    } else {
      UntouchedCounts(config, Step(config, s, events[0].call, events[0].dice).0, events[1..], key);
    }
  }

  /** The call reads the key: a get, an existence check, or a listing whose prefix and cursor admit it. */
  ghost predicate ReadsKey(call: Call, key: string) {
    match call
    case Get(k) => k == key
    case Exists(k) => k == key
    case List(prefix, after) => prefix <= key && (after.Some? ==> Before(after.value, key))
    case _ => false
  }

  ghost predicate Sees(reply: Reply, key: string) {
    (reply.Data? && reply.data.Some?) || (reply.Found? && reply.found) || (reply.Listed? && key in reply.keys)
  }

  /**
   * Bounded staleness: while no other call stores or takes the key, a reader that comes after `events` sees what
   * was stored exactly from the operation its lag names on. Under eventual consistency the very next call misses
   * it, the sixteenth at the latest finds it, and a get returns the bytes that were stored.
   */
  lemma VisibleIff(config: Config, s: State, write: Event, events: seq<Event>, key: string, read: Event)
    requires Inv(s) && LagAllowed(config, write.dice) && Stores(config, s, write, key)
    requires Untouched(config, Step(config, s, write.call, write.dice).0, events, key)
    requires ReadsKey(read.call, key) && !read.dice.error
    ensures var t := Step(config, s, write.call, write.dice).0;
            var reply := Step(config, Run(config, t, events), read.call, read.dice).1;
            && (Sees(reply, key) <==> config.delayMs.None? || |events| + 1 >= write.dice.lag)
            && (config.delayMs.Some? && events == [] ==> !Sees(reply, key))
            && (|events| >= 15 ==> Sees(reply, key))
            && (reply.Data? && Sees(reply, key) ==>
                  reply.data == Some(t.objects[key].data) && Leaves(config, write, reply.data.value))
  {
    var t := Step(config, s, write.call, write.dice).0;
    StepInv(config, s, write.call, write.dice);
    StepOnKey(config, s, write, key);
    EtagKeptIff(config, t, events, key);
    UntouchedCounts(config, t, events, key);
    OpsCount(config, t, events);
    StoredWhen(config, s, write, key);
    WriteAnswer(config, s, write, key);
  }

  lemma {:induction false} RunSplit(config: Config, s: State, events: seq<Event>, i: nat)
    requires i <= |events|
    ensures Run(config, s, events) == Run(config, Run(config, s, events[..i]), events[i..])
    decreases events
  {
    if i == 0 {
      assert events[0..] == events;
    } else {
      assert events[..i][1..] == events[1..][..i - 1] && events[1..][i - 1..] == events[i..];
      RunSplit(config, Step(config, s, events[0].call, events[0].dice).0, events[1..], i - 1);
    }
  }

  lemma RunOne(config: Config, s: State, events: seq<Event>, i: nat)
    requires i < |events|
    ensures Run(config, s, events[..i + 1]) ==
            Step(config, Run(config, s, events[..i]), events[i].call, events[i].dice).0
  {
    var all, t := events[..i + 1], Run(config, s, events[..i]);
    RunSplit(config, s, all, i);
    assert all[..i] == events[..i] && all[i..] == [events[i]];
    assert Run(config, t, [events[i]]) == Run(config, Step(config, t, events[i].call, events[i].dice).0, []);
  }

  /** Call `i` stored the key. */
  ghost predicate StoresAt(config: Config, s: State, events: seq<Event>, key: string, i: nat)
    requires i < |events|
  {
    Stores(config, Run(config, s, events[..i]), events[i], key)
  }

  lemma {:induction false} UntouchedAt(config: Config, s: State, events: seq<Event>, key: string, i: nat)
    requires Untouched(config, s, events, key) && i < |events|
    ensures !StoresAt(config, s, events, key, i) && !Removes(events[i], key)
    decreases events
  {
    if i == 0 {
      assert Run(config, s, events[..0]) == s;
    } else {
      assert events[..i][1..] == events[1..][..i - 1];
      UntouchedAt(config, Step(config, s, events[0].call, events[0].dice).0, events[1..], key, i - 1);
    }
  }

  /** The last call that stored or took the key, if there is one. */
  lemma {:induction false} LastTouch(config: Config, s: State, events: seq<Event>, key: string)
    returns (i: Option<nat>)
    ensures i.None? ==> Untouched(config, s, events, key)
    ensures i.Some? ==>
              && i.value < |events|
              && (StoresAt(config, s, events, key, i.value) || Removes(events[i.value], key))
              && Untouched(config, Run(config, s, events[..i.value + 1]), events[i.value + 1..], key)
    decreases events
  {
    i := None;
    if events == [] {
    } else {
      var next := Step(config, s, events[0].call, events[0].dice).0;
      i := LastTouch(config, next, events[1..], key);
      if i.Some? {
        var j := i.value;
        assert events[..j + 1][1..] == events[1..][..j] && events[..j + 2][1..] == events[1..][..j + 1];
        assert events[1..][j + 1..] == events[j + 2..];
        i := Some(j + 1);
      } else if Stores(config, s, events[0], key) || Removes(events[0], key) {
        i := Some(0);
        RunOne(config, s, events, 0);
        assert Run(config, s, events[..0]) == s;
      }
    }
  }

  /** Call `i` stored the key and no later call touched it. */
  ghost predicate Current(config: Config, s: State, events: seq<Event>, key: string, i: nat)
    requires i < |events|
  {
    && StoresAt(config, s, events, key, i)
    && Untouched(config, Run(config, s, events[..i + 1]), events[i + 1..], key)
  }

  lemma LaterUntouched(config: Config, s: State, events: seq<Event>, key: string, i: nat, j: nat)
    requires i < j < |events| && Untouched(config, Run(config, s, events[..i + 1]), events[i + 1..], key)
    ensures !StoresAt(config, s, events, key, j) && !Removes(events[j], key)
  {
    var t, rest := Run(config, s, events[..i + 1]), events[i + 1..];
    RunSplit(config, s, events[..j], i + 1);
    assert events[..j][..i + 1] == events[..i + 1] && events[..j][i + 1..] == rest[..j - i - 1];
    UntouchedAt(config, t, rest, key, j - i - 1);
  }

  /** No call touched the key after call `i`, so another one that did came before it. */
  lemma NoneAfter(config: Config, s: State, events: seq<Event>, key: string, i: nat, j: nat)
    requires i < |events| && Untouched(config, Run(config, s, events[..i + 1]), events[i + 1..], key)
    requires j < |events| && (StoresAt(config, s, events, key, j) || Removes(events[j], key))
    ensures j <= i
  {
    if j > i {
      LaterUntouched(config, s, events, key, i, j);
    }
  }

  /** The object can be seen by a reader behind the run. */
  ghost predicate Due(config: Config, events: seq<Event>, i: nat)
    requires i < |events|
  {
    config.delayMs.None? || |events| - i >= events[i].dice.lag
  }

  lemma {:induction false} StaysAbsent(config: Config, s: State, events: seq<Event>, key: string)
    requires key !in s.objects && Untouched(config, s, events, key)
    ensures key !in Run(config, s, events).objects
    decreases events
  {
    if events == [] {
    } else {
      StepOnKey(config, s, events[0], key);
      StaysAbsent(config, Step(config, s, events[0].call, events[0].dice).0, events[1..], key);
    }
  }

  /** A key that is absent, or that the call does not read, is not seen. */
  lemma AbsentUnseen(config: Config, t: State, key: string, read: Event)
    requires key !in t.objects || !ReadsKey(read.call, key)
    requires ReadsKey(read.call, key) || read.call.List?
    ensures !Sees(Step(config, t, read.call, read.dice).1, key)
  {
  }

  /** What a reader sees of a key behind any run on a store that did not hold it. */
  ghost predicate SeesLast(config: Config, s: State, events: seq<Event>, key: string, read: Event, reply: Reply) {
    && (Sees(reply, key) <==>
          ReadsKey(read.call, key) &&
          exists i :: 0 <= i < |events| && Current(config, s, events, key, i) && Due(config, events, i))
    && (reply.Data? && Sees(reply, key) ==>
          forall i :: 0 <= i < |events| && Current(config, s, events, key, i) ==>
            Leaves(config, events[i], reply.data.value))
  }

  lemma SeesCurrent(config: Config, s: State, events: seq<Event>, key: string, read: Event, i: nat)
    requires Inv(s) && key !in s.objects && (forall e :: e in events ==> LagAllowed(config, e.dice)) && !read.dice.error
    requires ReadsKey(read.call, key) && i < |events| && Current(config, s, events, key, i)
    ensures SeesLast(config, s, events, key, read, Step(config, Run(config, s, events), read.call, read.dice).1)
  {
    var before := Run(config, s, events[..i]);
    RunInv(config, s, events[..i]);
    RunOne(config, s, events, i);
    RunSplit(config, s, events, i + 1);
    assert events[i] in events;
    VisibleIff(config, before, events[i], events[i + 1..], key, read);
    forall j | 0 <= j < |events| && Current(config, s, events, key, j)
      ensures j == i
    {
      NoneAfter(config, s, events, key, i, j);
      NoneAfter(config, s, events, key, j, i);
    }
  }

  /** The key was never touched, or the last call that touched it took it. */
  ghost predicate Gone(config: Config, s: State, events: seq<Event>, key: string, last: Option<nat>) {
    match last
    case None => Untouched(config, s, events, key)
    case Some(i) =>
      && i < |events| && Removes(events[i], key)
      && Untouched(config, Run(config, s, events[..i + 1]), events[i + 1..], key)
  }

  /** Then nothing is current. */
  lemma NotCurrent(config: Config, s: State, events: seq<Event>, key: string, i: nat, last: Option<nat>)
    requires i < |events| && Gone(config, s, events, key, last)
    ensures !Current(config, s, events, key, i)
  {
    if last.None? {
      UntouchedAt(config, s, events, key, i);
    } else if Current(config, s, events, key, i) {
      NoneAfter(config, s, events, key, i, last.value);
      NoneAfter(config, s, events, key, last.value, i);
    }
  }

  lemma GoneAtEnd(config: Config, s: State, events: seq<Event>, key: string, last: Option<nat>)
    requires key !in s.objects && Gone(config, s, events, key, last)
    ensures key !in Run(config, s, events).objects
  {
    if last.None? {
      StaysAbsent(config, s, events, key);
    } else {
      var i := last.value;
      RunOne(config, s, events, i);
      StepOnKey(config, Run(config, s, events[..i]), events[i], key);
      RunSplit(config, s, events, i + 1);
      StaysAbsent(config, Run(config, s, events[..i + 1]), events[i + 1..], key);
    }
  }

  /**
   * Reads over whole runs: behind any sequence of calls a get, an existence check or a listing sees a key exactly when
   * it asks for it and the last call that touched the key stored it long enough ago, and a get then returns what that
   * call left. Nothing else is ever seen: no key that was taken, none that was never stored, none that the prefix or
   * the cursor shuts out.
   */
  lemma ReadsLastWrite(config: Config, s: State, events: seq<Event>, key: string, read: Event)
    requires Inv(s) && key !in s.objects && (forall e :: e in events ==> LagAllowed(config, e.dice)) && !read.dice.error
    requires ReadsKey(read.call, key) || read.call.List?
    ensures SeesLast(config, s, events, key, read, Step(config, Run(config, s, events), read.call, read.dice).1)
  {
    var t := Run(config, s, events);
    var last := LastTouch(config, s, events, key);
    if !ReadsKey(read.call, key) {
      AbsentUnseen(config, t, key, read);
    } else if last.Some? && StoresAt(config, s, events, key, last.value) {
      SeesCurrent(config, s, events, key, read, last.value);
    } else {
      forall i | 0 <= i < |events|
        ensures !Current(config, s, events, key, i)
      {
        NotCurrent(config, s, events, key, i, last);
      }
      GoneAtEnd(config, s, events, key, last);
      AbsentUnseen(config, t, key, read);
    }
  }
}
