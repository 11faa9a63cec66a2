/**
 * The pardon ("unset") command for one infraction type: find the target's
 * active infractions of that type and, for each in turn, cancel its expiry
 * job, reverse it and send the three notices. Every effect on the outside
 * world is recorded as an event, so the order and completeness of the
 * effects are properties of the returned trace.
 */
module InfractionUnset {
  import opened Wrappers
  import opened Text
  import opened InfractionNotices

  /** An effect of the command on the chat platform, the database or the scheduler. */
  datatype Event =
    | PostMessage(text: string)                              // a plain message in the invoking channel
    | QueryActiveInfractions(memberId: int)                  // the database query for the member
    | CancelJob(infractionId: string)                        // the pending expiry job is cancelled
    | Reverse(infractionId: string, targetId: int, expires: Option<int>) // the reversal action
    | DirectMessage(infractionId: string, userId: int, embed: Embed)
    | ChannelNotice(infractionId: string, embed: Embed)
    | ModLogNotice(infractionId: string, embed: Embed)

  /** The infraction an event is about, for the per-infraction events. */
  function About(e: Event): Option<string> {
    match e
    case PostMessage(_) => None
    case QueryActiveInfractions(_) => None
    case CancelJob(id) => Some(id)
    case Reverse(id, _, _) => Some(id)
    case DirectMessage(id, _, _) => Some(id)
    case ChannelNotice(id, _) => Some(id)
    case ModLogNotice(id, _) => Some(id)
  }

  /** The elements of `s` that satisfy `p`, in their order in `s`. */
  function Filter<T(!new)>(s: seq<T>, p: T -> bool): (r: seq<T>)
    ensures |r| <= |s|
    ensures forall x :: x in r <==> x in s && p(x)
  {
    if s == [] then []
    else if p(s[0]) then [s[0]] + Filter(s[1..], p)
    else Filter(s[1..], p)
  }

  /** Filtering a single element keeps it exactly when it satisfies `p`. */
  lemma FilterSingleton<T(!new)>(x: T, p: T -> bool)
    ensures Filter([x], p) == if p(x) then [x] else []
  {
    assert [x][1..] == [];
  }

  /**
   * Filtering distributes over concatenation. With `FilterSingleton` this
   * pins `Filter` down: the result is the subsequence of `s` kept by `p`,
   * order and duplicates included.
   */
  lemma {:induction false} FilterAppend<T(!new)>(a: seq<T>, b: seq<T>, p: T -> bool)
    ensures Filter(a + b, p) == Filter(a, p) + Filter(b, p)
  {
    if a == [] {
      assert a + b == b;
    } else {
      assert (a + b)[0] == a[0];
      assert (a + b)[1..] == a[1..] + b;
      FilterAppend(a[1..], b, p);
    }
  }

  /** The database query for a member's active infractions, as a filter of the stored records. */
  function ActiveInfractionsByUser(store: seq<Infraction>, memberId: int): seq<Infraction> {
    Filter(store, (i: Infraction) => i.active && i.targetId == memberId)
  }

  /** The query result narrowed to the command's own infraction type. */
  function Matching(store: seq<Infraction>, memberId: int, t: InfractionType): seq<Infraction> {
    Filter(ActiveInfractionsByUser(store, memberId), (i: Infraction) => i.infractionType == t)
  }

  /** The stored records a pardon processes: exactly the member's active ones of the given type. */
  lemma MatchingIff(store: seq<Infraction>, memberId: int, t: InfractionType, i: Infraction)
    ensures i in Matching(store, memberId, t)
        <==> i in store && i.active && i.targetId == memberId && i.infractionType == t
  {
  }

  /** The matches of two stretches of the store are the matches of the first, then those of the second. */
  lemma MatchingAppend(s1: seq<Infraction>, s2: seq<Infraction>, memberId: int, t: InfractionType)
    ensures Matching(s1 + s2, memberId, t) == Matching(s1, memberId, t) + Matching(s2, memberId, t)
  {
    FilterAppend(s1, s2, (i: Infraction) => i.active && i.targetId == memberId);
    FilterAppend(ActiveInfractionsByUser(s1, memberId), ActiveInfractionsByUser(s2, memberId),
                 (i: Infraction) => i.infractionType == t);
  }

  /** The direct message: sent only for types that relay pardons to their target. */
  function UserNotice(t: InfractionType, infraction: Infraction): seq<Event> {
    if t.relay then [DirectMessage(infraction.id, infraction.targetId, UserEmbed(t, infraction))] else []
  }

  /** The effects of pardoning one infraction, in the order the command performs them. */
  function PardonEvents(t: InfractionType, infraction: Infraction, memberId: int, author: User): seq<Event> {
    [CancelJob(infraction.id), Reverse(infraction.id, memberId, None)]
    + UserNotice(t, infraction)
    + [ChannelNotice(infraction.id, ChannelEmbed(t, infraction)),
       ModLogNotice(infraction.id, ModLogEmbed(t, infraction, author))]
  }

  /** The body of the loop, as a function of the infraction it handles. */
  function Pardoner(t: InfractionType, memberId: int, author: User): Infraction -> seq<Event> {
    x => PardonEvents(t, x, memberId, author)
  }

  /** The effects of running `step` on each infraction of `xs` in turn. */
  function Concat(xs: seq<Infraction>, step: Infraction -> seq<Event>): seq<Event> {
    if xs == [] then [] else Concat(xs[..|xs| - 1], step) + step(xs[|xs| - 1])
  }

  /** The effects of pardoning each infraction of `infractions` in turn. */
  function PardonAll(t: InfractionType, infractions: seq<Infraction>, memberId: int, author: User): seq<Event> {
    Concat(infractions, Pardoner(t, memberId, author))
  }

  /** Running the step once more at the end appends its effects. */
  lemma ConcatLast(init: seq<Infraction>, last: Infraction, step: Infraction -> seq<Event>)
    ensures Concat(init + [last], step) == Concat(init, step) + step(last)
  {
    assert (init + [last])[..|init|] == init;
  }

  /**
   * Regrouping `(p + q) + e` as `p + (q + e)`; stated generically, so that it
   * is used without looking inside the elements.
   */
  lemma Regroup<T>(whole: seq<T>, init: seq<T>, p: seq<T>, q: seq<T>, e: seq<T>, qe: seq<T>)
    requires whole == init + e && init == p + q && qe == q + e
    ensures whole == p + qe
  {
  }

  /** `q + (p1 + p2)` is `q + p1 + p2`; stated generically, like `Regroup`. */
  lemma Reassociate<T>(q: seq<T>, rest: seq<T>, p1: seq<T>, p2: seq<T>)
    requires rest == p1 + p2
    ensures q + rest == q + p1 + p2
  {
  }

  /** Running the step over `a + b` is running it over `a` and then over `b`. */
  lemma {:induction false} ConcatAppend(a: seq<Infraction>, b: seq<Infraction>, step: Infraction -> seq<Event>)
    ensures Concat(a + b, step) == Concat(a, step) + Concat(b, step)
  {
    if b != [] {
      var n := |b| - 1;
      var init := a + b[..n];
      ConcatAppend(a, b[..n], step);
      assert a + b == init + [b[n]];
      assert b == b[..n] + [b[n]];
      ConcatLast(init, b[n], step);
      ConcatLast(b[..n], b[n], step);
      Regroup(Concat(a + b, step), Concat(init, step), Concat(a, step), Concat(b[..n], step),
              step(b[n]), Concat(b, step));
    } else {
      assert a + b == a;
    }
  }

  /** Pardoning one more infraction appends its effects. */
  lemma PardonAllSnoc(t: InfractionType, infractions: seq<Infraction>, k: nat, memberId: int, author: User)
    requires k < |infractions|
    ensures PardonAll(t, infractions[..k + 1], memberId, author)
      == PardonAll(t, infractions[..k], memberId, author) + PardonEvents(t, infractions[k], memberId, author)
  {
    assert infractions[..k + 1] == infractions[..k] + [infractions[k]];
    ConcatLast(infractions[..k], infractions[k], Pardoner(t, memberId, author));
  }

  /** One turn of the loop in `undoInfraction` extends the trace by one infraction's effects. */
  lemma PardonAllStep(t: InfractionType, infractions: seq<Infraction>, k: nat, memberId: int,
                      author: User, events: seq<Event>, step: seq<Event>)
    requires k < |infractions|
    requires events == [QueryActiveInfractions(memberId)] + PardonAll(t, infractions[..k], memberId, author)
    requires step == PardonEvents(t, infractions[k], memberId, author)
    ensures events + step == [QueryActiveInfractions(memberId)] + PardonAll(t, infractions[..k + 1], memberId, author)
  {
    PardonAllSnoc(t, infractions, k, memberId, author);
  }

  /** Pardoning `a + b` is pardoning `a` and then `b`. */
  lemma PardonAllAppend(t: InfractionType, a: seq<Infraction>, b: seq<Infraction>, memberId: int, author: User)
    ensures PardonAll(t, a + b, memberId, author)
      == PardonAll(t, a, memberId, author) + PardonAll(t, b, memberId, author)
  {
    ConcatAppend(a, b, Pardoner(t, memberId, author));
  }

  const NoMatchText: string := " Unable to find a matching active infraction for that user."

  /**
   * Everything the command does for one invocation. `memberId` and
   * `memberMessage` are what the member lookup produced: an id, or none and
   * the explanation to send instead.
   */
  function UndoEvents(t: InfractionType, store: seq<Infraction>, memberId: Option<int>,
                      memberMessage: string, author: User): seq<Event>
  {
    match memberId
    case None => [PostMessage(author.mention + " " + memberMessage)]
    case Some(m) =>
      var matches := Matching(store, m, t);
      [QueryActiveInfractions(m)]
      + if matches == [] then [PostMessage(author.mention + NoMatchText)]
        else PardonAll(t, matches, m, author)
  }

  /** How many effects pardoning one infraction has: four, and the direct message when relayed. */
  function BlockSize(t: InfractionType): nat {
    if t.relay then 5 else 4
  }

  /** Where the effects of the k-th pardon of a batch start: k blocks of `BlockSize` in. */
  function Offset(t: InfractionType, k: nat): (r: nat)
    ensures r == if t.relay then 5 * k else 4 * k
  {
    BlockSize(t) * k
  }

  /** The reversal actions a trace performs, in order. */
  function Reversals(events: seq<Event>): seq<Event> {
    if events == [] then []
    else (if events[0].Reverse? then [events[0]] else []) + Reversals(events[1..])
  }

  /** The expiry jobs a trace cancels, in order. */
  function Cancellations(events: seq<Event>): seq<string> {
    if events == [] then []
    else (if events[0].CancelJob? then [events[0].infractionId] else []) + Cancellations(events[1..])
  }

  lemma {:induction false} ReversalsAppend(a: seq<Event>, b: seq<Event>)
    ensures Reversals(a + b) == Reversals(a) + Reversals(b)
  {
    if a != [] {
      var head := (if a[0].Reverse? then [a[0]] else []);
      assert (a + b)[0] == a[0];
      assert (a + b)[1..] == a[1..] + b;
      assert Reversals(a + b) == head + Reversals(a[1..] + b);
      ReversalsAppend(a[1..], b);
    } else {
      assert a + b == b;
    }
  }

  lemma {:induction false} CancellationsAppend(a: seq<Event>, b: seq<Event>)
    ensures Cancellations(a + b) == Cancellations(a) + Cancellations(b)
  {
    if a != [] {
      var head := (if a[0].CancelJob? then [a[0].infractionId] else []);
      assert (a + b)[0] == a[0];
      assert (a + b)[1..] == a[1..] + b;
      assert Cancellations(a + b) == head + Cancellations(a[1..] + b);
      CancellationsAppend(a[1..], b);
    } else {
      assert a + b == b;
    }
  }

  /** A trace of messages and notices only reverses nothing and cancels nothing. */
  lemma {:induction false} NoActions(events: seq<Event>)
    requires forall e :: e in events ==> !e.Reverse? && !e.CancelJob?
    ensures Reversals(events) == [] && Cancellations(events) == []
  {
    if events != [] {
      assert events[0] in events;
      assert forall e :: e in events[1..] ==> e in events;
      NoActions(events[1..]);
    }
  }

  /** Pardoning one infraction reverses it once and cancels its job once. */
  lemma PardonEventsEffects(t: InfractionType, infraction: Infraction, memberId: int, author: User)
    ensures var step := PardonEvents(t, infraction, memberId, author);
      && |step| == BlockSize(t)
      && step[0] == CancelJob(infraction.id)
      && step[1] == Reverse(infraction.id, memberId, None)
      && Reversals(step) == [Reverse(infraction.id, memberId, None)]
      && Cancellations(step) == [infraction.id]
      && forall e :: e in step ==> About(e) == Some(infraction.id)
  {
    var actions := [CancelJob(infraction.id), Reverse(infraction.id, memberId, None)];
    var relayed := UserNotice(t, infraction);
    var notices := [ChannelNotice(infraction.id, ChannelEmbed(t, infraction)),
                    ModLogNotice(infraction.id, ModLogEmbed(t, infraction, author))];
    assert actions[1..] == [actions[1]];
    NoActions(relayed);
    NoActions(notices);
    ReversalsAppend(actions, relayed);
    ReversalsAppend(actions + relayed, notices);
    CancellationsAppend(actions, relayed);
    CancellationsAppend(actions + relayed, notices);
  }

  /** One pardon direct-messages the target exactly when the type is relayed. */
  lemma PardonEventsRelay(t: InfractionType, infraction: Infraction, memberId: int, author: User)
    ensures (exists e :: e in PardonEvents(t, infraction, memberId, author) && e.DirectMessage?) <==> t.relay
  {
    var step := PardonEvents(t, infraction, memberId, author);
    if t.relay {
      assert step[2].DirectMessage?;
    } else {
      assert step == [step[0], step[1], step[2], step[3]];
    }
  }

  /*
   * The inductions over the loop, stated for any step function with the
   * property of one pardon, so that they are done without looking inside
   * the notices.
   */

  /** Steps of `BlockSize(t)` effects opening with a cancellation and a reversal, laid end to end. */
  lemma {:induction false} ConcatBlocks(t: InfractionType, xs: seq<Infraction>, step: Infraction -> seq<Event>,
                                        memberId: int)
    requires forall x :: && |step(x)| == BlockSize(t)
                         && step(x)[0] == CancelJob(x.id)
                         && step(x)[1] == Reverse(x.id, memberId, None)
    ensures var trace := Concat(xs, step);
      && |trace| == Offset(t, |xs|)
      && forall k :: 0 <= k < |xs| ==>
           && trace[Offset(t, k)] == CancelJob(xs[k].id)
           && trace[Offset(t, k) + 1] == Reverse(xs[k].id, memberId, None)
  {
    if xs != [] {
      var n := |xs| - 1;
      var init, last := xs[..n], xs[n];
      ConcatBlocks(t, init, step, memberId);
      assert xs == init + [last];
      ConcatLast(init, last, step);
      var prefix := Concat(init, step);
      forall k | 0 <= k < |xs|
        ensures && (prefix + step(last))[Offset(t, k)] == CancelJob(xs[k].id)
                && (prefix + step(last))[Offset(t, k) + 1] == Reverse(xs[k].id, memberId, None)
      {
        if k < n {
          assert xs[k] == init[k];
        }
      }
    }
  }

  /** Steps that each reverse their infraction once, laid end to end. */
  lemma {:induction false} ConcatReversals(xs: seq<Infraction>, step: Infraction -> seq<Event>, memberId: int)
    requires forall x :: Reversals(step(x)) == [Reverse(x.id, memberId, None)]
    ensures var r := Reversals(Concat(xs, step));
      && |r| == |xs|
      && forall k :: 0 <= k < |xs| ==> r[k] == Reverse(xs[k].id, memberId, None)
  {
    if xs != [] {
      var n := |xs| - 1;
      var init, last := xs[..n], xs[n];
      ConcatReversals(init, step, memberId);
      assert xs == init + [last];
      ConcatLast(init, last, step);
      ReversalsAppend(Concat(init, step), step(last));
    }
  }

  /** Steps that each cancel the job of their infraction once, laid end to end. */
  lemma {:induction false} ConcatCancellations(xs: seq<Infraction>, step: Infraction -> seq<Event>)
    requires forall x :: Cancellations(step(x)) == [x.id]
    ensures var c := Cancellations(Concat(xs, step));
      && |c| == |xs|
      && forall k :: 0 <= k < |xs| ==> c[k] == xs[k].id
  {
    if xs != [] {
      var n := |xs| - 1;
      var init, last := xs[..n], xs[n];
      ConcatCancellations(init, step);
      assert xs == init + [last];
      ConcatLast(init, last, step);
      CancellationsAppend(Concat(init, step), step(last));
    }
  }

  /** Steps whose effects are all about their own infraction, laid end to end. */
  lemma {:induction false} ConcatAbout(xs: seq<Infraction>, step: Infraction -> seq<Event>)
    requires forall x, e :: e in step(x) ==> About(e) == Some(x.id)
    ensures forall e :: e in Concat(xs, step) ==> exists x :: x in xs && About(e) == Some(x.id)
  {
    if xs != [] {
      var n := |xs| - 1;
      var init, last := xs[..n], xs[n];
      ConcatAbout(init, step);
      assert xs == init + [last];
      ConcatLast(init, last, step);
      forall e | e in Concat(init, step) + step(last)
        ensures exists x :: x in xs && About(e) == Some(x.id)
      {
        if e in Concat(init, step) {
          var x :| x in init && About(e) == Some(x.id);
          assert x in xs;
        } else {
          assert last in xs;
        }
      }
    }
  }

  /** Some effect of `events` is a direct message. */
  predicate Messages(events: seq<Event>) {
    exists e :: e in events && e.DirectMessage?
  }

  /** Steps that each direct-message exactly when `relay` holds, laid end to end. */
  lemma {:induction false} ConcatRelays(xs: seq<Infraction>, step: Infraction -> seq<Event>, relay: bool)
    requires forall x :: Messages(step(x)) <==> relay
    ensures Messages(Concat(xs, step)) <==> relay && xs != []
  {
    if xs != [] {
      var n := |xs| - 1;
      var init, last := xs[..n], xs[n];
      ConcatRelays(init, step, relay);
      assert xs == init + [last];
      ConcatLast(init, last, step);
      if relay {
        var e :| e in step(last) && e.DirectMessage?;
        assert e in Concat(init, step) + step(last);
      }
    }
  }

  /**
   * The trace of a batch pardon: `BlockSize` effects per infraction, the
   * k-th block opening with the cancellation and then the reversal of the
   * k-th infraction.
   */
  lemma PardonAllBlocks(t: InfractionType, infractions: seq<Infraction>, memberId: int, author: User)
    ensures var trace := PardonAll(t, infractions, memberId, author);
      && |trace| == Offset(t, |infractions|)
      && forall k :: 0 <= k < |infractions| ==>
           && trace[Offset(t, k)] == CancelJob(infractions[k].id)
           && trace[Offset(t, k) + 1] == Reverse(infractions[k].id, memberId, None)
  {
    var step := Pardoner(t, memberId, author);
    forall x
      ensures && |step(x)| == BlockSize(t)
              && step(x)[0] == CancelJob(x.id)
              && step(x)[1] == Reverse(x.id, memberId, None)
    {
      PardonEventsEffects(t, x, memberId, author);
    }
    ConcatBlocks(t, infractions, step, memberId);
  }

  /** A batch pardon reverses each infraction exactly once, in order, with no expiry and the member's id. */
  lemma PardonAllReversals(t: InfractionType, infractions: seq<Infraction>, memberId: int, author: User)
    ensures var r := Reversals(PardonAll(t, infractions, memberId, author));
      && |r| == |infractions|
      && forall k :: 0 <= k < |infractions| ==> r[k] == Reverse(infractions[k].id, memberId, None)
  {
    var step := Pardoner(t, memberId, author);
    forall x
      ensures Reversals(step(x)) == [Reverse(x.id, memberId, None)]
    {
      PardonEventsEffects(t, x, memberId, author);
    }
    ConcatReversals(infractions, step, memberId);
  }

  /** A batch pardon cancels the job of each infraction exactly once, in order. */
  lemma PardonAllCancellations(t: InfractionType, infractions: seq<Infraction>, memberId: int, author: User)
    ensures var c := Cancellations(PardonAll(t, infractions, memberId, author));
      && |c| == |infractions|
      && forall k :: 0 <= k < |infractions| ==> c[k] == infractions[k].id
  {
    var step := Pardoner(t, memberId, author);
    forall x
      ensures Cancellations(step(x)) == [x.id]
    {
      PardonEventsEffects(t, x, memberId, author);
    }
    ConcatCancellations(infractions, step);
  }

  /** Every effect of a batch pardon is about one of the infractions in the batch. */
  lemma PardonAllAbout(t: InfractionType, infractions: seq<Infraction>, memberId: int, author: User)
    ensures forall e :: e in PardonAll(t, infractions, memberId, author) ==>
      exists x :: x in infractions && About(e) == Some(x.id)
  {
    var step := Pardoner(t, memberId, author);
    forall x, e | e in step(x)
      ensures About(e) == Some(x.id)
    {
      PardonEventsEffects(t, x, memberId, author);
    }
    ConcatAbout(infractions, step);
  }

  /** A batch pardon direct-messages someone exactly when the type is relayed and the batch is not empty. */
  lemma PardonAllRelays(t: InfractionType, infractions: seq<Infraction>, memberId: int, author: User)
    ensures (exists e :: e in PardonAll(t, infractions, memberId, author) && e.DirectMessage?)
      <==> t.relay && infractions != []
  {
    var step := Pardoner(t, memberId, author);
    forall x
      ensures Messages(step(x)) <==> t.relay
    {
      PardonEventsRelay(t, x, memberId, author);
    }
    ConcatRelays(infractions, step, t.relay);
  }

  /**
   * The relay gate of the whole invocation: a member is direct-messaged
   * exactly when the type is relayed and some infraction was pardoned.
   */
  lemma RelayGate(t: InfractionType, store: seq<Infraction>, memberId: Option<int>, memberMessage: string,
                  author: User)
    ensures (exists e :: e in UndoEvents(t, store, memberId, memberMessage, author) && e.DirectMessage?)
      <==> t.relay && memberId.Some? && Matching(store, memberId.value, t) != []
  {
    if memberId.Some? {
      var m := memberId.value;
      var matches := Matching(store, m, t);
      var rest := if matches == [] then [PostMessage(author.mention + NoMatchText)]
                  else PardonAll(t, matches, m, author);
      assert UndoEvents(t, store, memberId, memberMessage, author) == [QueryActiveInfractions(m)] + rest;
      PardonAllRelays(t, matches, m, author);
    }
  }

  /** Without a member id only the explanation is sent: no query, cancellation, reversal or notice. */
  lemma NoMemberNoEffects(t: InfractionType, store: seq<Infraction>, memberMessage: string, author: User)
    ensures UndoEvents(t, store, None, memberMessage, author) == [PostMessage(author.mention + " " + memberMessage)]
    ensures Reversals(UndoEvents(t, store, None, memberMessage, author)) == []
    ensures Cancellations(UndoEvents(t, store, None, memberMessage, author)) == []
  {
  }

  /** With no match, the query is followed only by the "unable to find" reply. */
  lemma NoMatchNoEffects(t: InfractionType, store: seq<Infraction>, memberId: int, memberMessage: string,
                         author: User)
    requires Matching(store, memberId, t) == []
    ensures UndoEvents(t, store, Some(memberId), memberMessage, author)
      == [QueryActiveInfractions(memberId), PostMessage(author.mention + NoMatchText)]
    ensures Reversals(UndoEvents(t, store, Some(memberId), memberMessage, author)) == []
  {
    NoActions(UndoEvents(t, store, Some(memberId), memberMessage, author));
  }

  /**
   * Every matching infraction is processed, in query order: the k-th one's
   * job is cancelled and then it is reversed with the member's id and no
   * expiry, and the step for it comes before the step for the next one.
   */
  lemma PardonInOrder(t: InfractionType, store: seq<Infraction>, memberId: int, memberMessage: string,
                      author: User)
    requires Matching(store, memberId, t) != []
    ensures var events := UndoEvents(t, store, Some(memberId), memberMessage, author);
      var matches := Matching(store, memberId, t);
      && events[0] == QueryActiveInfractions(memberId)
      && |events| == 1 + Offset(t, |matches|)
      && forall k :: 0 <= k < |matches| ==>
           && events[1 + Offset(t, k)] == CancelJob(matches[k].id)
           && events[2 + Offset(t, k)] == Reverse(matches[k].id, memberId, None)
  {
    PardonAllBlocks(t, Matching(store, memberId, t), memberId, author);
  }

  /**
   * Across the whole invocation, the reversals are exactly one per matching
   * infraction, in query order, and so are the cancellations.
   */
  lemma ReversalsExactlyMatches(t: InfractionType, store: seq<Infraction>, memberId: int,
                                memberMessage: string, author: User)
    ensures var events := UndoEvents(t, store, Some(memberId), memberMessage, author);
      var matches := Matching(store, memberId, t);
      && |Reversals(events)| == |matches|
      && (forall k :: 0 <= k < |matches| ==> Reversals(events)[k] == Reverse(matches[k].id, memberId, None))
      && |Cancellations(events)| == |matches|
      && (forall k :: 0 <= k < |matches| ==> Cancellations(events)[k] == matches[k].id)
  {
    var matches := Matching(store, memberId, t);
    var events := UndoEvents(t, store, Some(memberId), memberMessage, author);
    var rest := if matches == [] then [PostMessage(author.mention + NoMatchText)]
                else PardonAll(t, matches, memberId, author);
    assert events == [QueryActiveInfractions(memberId)] + rest;
    ReversalsAppend([QueryActiveInfractions(memberId)], rest);
    CancellationsAppend([QueryActiveInfractions(memberId)], rest);
    PardonAllReversals(t, matches, memberId, author);
    PardonAllCancellations(t, matches, memberId, author);
  }

  /**
   * Query order is kept: when the store is `s1 + s2`, the effects for every
   * match in `s1` come before the effects for every match in `s2`.
   */
  lemma QueryOrderKept(t: InfractionType, s1: seq<Infraction>, s2: seq<Infraction>, memberId: int,
                       memberMessage: string, author: User)
    requires Matching(s1 + s2, memberId, t) != []
    ensures UndoEvents(t, s1 + s2, Some(memberId), memberMessage, author)
      == [QueryActiveInfractions(memberId)]
         + PardonAll(t, Matching(s1, memberId, t), memberId, author)
         + PardonAll(t, Matching(s2, memberId, t), memberId, author)
  {
    var m1, m2 := Matching(s1, memberId, t), Matching(s2, memberId, t);
    var matches := Matching(s1 + s2, memberId, t);
    var q := [QueryActiveInfractions(memberId)];
    assert UndoEvents(t, s1 + s2, Some(memberId), memberMessage, author) == q + PardonAll(t, matches, memberId, author);
    MatchingAppend(s1, s2, memberId, t);
    PardonAllAppend(t, m1, m2, memberId, author);
    Reassociate(q, PardonAll(t, matches, memberId, author),
                PardonAll(t, m1, memberId, author), PardonAll(t, m2, memberId, author));
  }

  /** No two stored infractions share an id. */
  predicate UniqueIds(store: seq<Infraction>) {
    forall i, j :: 0 <= i < |store| && 0 <= j < |store| && store[i].id == store[j].id ==> i == j
  }

  /**
   * A stored infraction that is inactive, of another member or of another
   * type is left alone: no cancellation, reversal or notice is about it.
   */
  lemma NonMatchingUntouched(t: InfractionType, store: seq<Infraction>, memberId: Option<int>,
                             memberMessage: string, author: User, other: Infraction)
    requires UniqueIds(store)
    requires other in store
    requires memberId.Some? ==>
      !(other.active && other.targetId == memberId.value && other.infractionType == t)
    ensures forall e :: e in UndoEvents(t, store, memberId, memberMessage, author) ==> About(e) != Some(other.id)
  {
    if memberId.Some? {
      var m := memberId.value;
      var matches := Matching(store, m, t);
      var events := UndoEvents(t, store, memberId, memberMessage, author);
      if matches != [] {
        PardonAllAbout(t, matches, m, author);
        forall e | e in events
          ensures About(e) != Some(other.id)
        {
          if e in PardonAll(t, matches, m, author) {
            var x :| x in matches && About(e) == Some(x.id);
            MatchingIff(store, m, t, x);
            var i :| 0 <= i < |store| && store[i] == x;
            var j :| 0 <= j < |store| && store[j] == other;
            assert i != j;
          }
        }
      }
    }
  }

  /** `sendToUser`: the direct message, behind the relay gate. */
  method SendToUser(t: InfractionType, infraction: Infraction) returns (notice: seq<Event>)
    ensures notice == UserNotice(t, infraction)
  {
    notice := [];
    if t.relay {
      var description := GetInfractionMessage(false, infraction, t, true);
      notice := [DirectMessage(infraction.id, infraction.targetId,
                               Embed(Capitalize(t.actionText) + "!", description,
                                     "Infraction ID: " + infraction.id))];
    }
  }

  /** `sendToChannel`: the public acknowledgement. */
  method SendToChannel(t: InfractionType, infraction: Infraction) returns (notice: Event)
    ensures notice == ChannelNotice(infraction.id, ChannelEmbed(t, infraction))
  {
    var description := GetInfractionMessage(true, infraction, t, false);
    notice := ChannelNotice(infraction.id, Embed("Infraction pardoned", description, "ID: " + infraction.id));
  }

  /** `sendToModLog`: the moderation-log entry. */
  method SendToModLog(t: InfractionType, infraction: Infraction, actor: User) returns (notice: Event)
    ensures notice == ModLogNotice(infraction.id, ModLogEmbed(t, infraction, actor))
  {
    var description := ModLogDescription(infraction, t, actor);
    notice := ModLogNotice(infraction.id, Embed("Infraction Pardoned", description, "ID: " + infraction.id));
  }

  /** The body of the loop in `undoInfraction`: cancel, reverse, then notify. */
  method PardonOne(t: InfractionType, infraction: Infraction, memberId: int, author: User)
    returns (step: seq<Event>)
    ensures step == PardonEvents(t, infraction, memberId, author)
  {
    step := [CancelJob(infraction.id)];
    step := step + [Reverse(infraction.id, memberId, None)];
    var toUser := SendToUser(t, infraction);
    step := step + toUser;
    var toChannel := SendToChannel(t, infraction);
    step := step + [toChannel];
    var toModLog := SendToModLog(t, infraction, author);
    step := step + [toModLog];
  }

  /** `undoInfraction`: the early returns, the query and the loop over the matches. */
  method UndoInfraction(t: InfractionType, store: seq<Infraction>, memberId: Option<int>,
                        memberMessage: string, author: User) returns (events: seq<Event>)
    ensures events == UndoEvents(t, store, memberId, memberMessage, author)
  {
    if memberId.None? {
      return [PostMessage(author.mention + " " + memberMessage)];
    }
    var m := memberId.value;
    events := [QueryActiveInfractions(m)];
    var infractions := Matching(store, m, t);
    if infractions == [] {
      events := events + [PostMessage(author.mention + NoMatchText)];
      return;
    }
    for k := 0 to |infractions|
      invariant events == [QueryActiveInfractions(m)] + PardonAll(t, infractions[..k], m, author)
    {
      var step := PardonOne(t, infractions[k], m, author);
      PardonAllStep(t, infractions, k, m, author, events, step);
      events := events + step;
    }
    assert infractions[..|infractions|] == infractions;
  }
}
