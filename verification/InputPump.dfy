/**
 Dealing messages cut from a socket to their process callbacks: the last message is parked to be processed in
 place, every earlier one is queued to a thread of its own. Parsing, reading and starting threads are the
 environment's; what they answer is given as data.
 */
module InputPump {
  import opened Options

  datatype Handler = Handler(hasProcess: bool, hasVerify: bool)

  // One answer of CutInputMessage, with what the steps behind it will meet: whether verify() accepts the message,
  // whether the socket is read progressively, and whether threads can be started.
  datatype Parsed =
    | NotEnoughData
    | Wrong
    | Cut(msg: Option<nat>, index: nat, verified: bool, progressive: bool, startsParked: bool, startsOwn: bool)

  predicate ValidParses(handlers: seq<Handler>, parses: seq<Parsed>)
  {
    forall p <- parses :: p.Cut? ==> p.index < |handlers|
  }

  // ---- what should happen to each message, without parking or threads ----

  // Messages in cut order, those handed to a callback, those destroyed, calls of verify(), and whether to go on.
  datatype Deal = Deal(cut: seq<nat>, handed: seq<nat>, destroyed: seq<nat>, verifies: nat, auth: bool, ok: bool)

  predicate Accepts(h: Handler, p: Parsed, auth: bool)
    requires p.Cut?
  {
    h.hasProcess && (!h.hasVerify || auth || p.verified)
  }

  function Nothing(auth: bool, ok: bool): Deal { Deal([], [], [], 0, auth, ok) }

  // One deal after another.
  function Then(d: Deal, e: Deal): Deal
  {
    Deal(d.cut + e.cut, d.handed + e.handed, d.destroyed + e.destroyed, d.verifies + e.verifies, e.auth, e.ok)
  }

  // One message: destroyed without a callback or on failed verification, which also ends the pass.
  function One(h: Handler, p: Parsed, auth: bool): Deal
    requires p.Cut? && p.msg.Some?
  {
    var (m, fights) := (p.msg.value, h.hasProcess && h.hasVerify && !auth);
    if Accepts(h, p, auth) then Deal([m], [m], [], if fights then 1 else 0, auth || fights, true)
    else Deal([m], [], [m], if fights then 1 else 0, auth || fights, !h.hasProcess)
  }

  function Dealt(handlers: seq<Handler>, auth: bool, parses: seq<Parsed>): Deal
    requires ValidParses(handlers, parses)
    decreases parses
  {
    if parses == [] || parses[0].NotEnoughData? then Nothing(auth, true)
    else if parses[0].Wrong? then Nothing(auth, false)
    else if parses[0].msg.None? then Dealt(handlers, auth, parses[1..])
    else
      var d := One(handlers[parses[0].index], parses[0], auth);
      if d.ok then Then(d, Dealt(handlers, d.auth, parses[1..])) else d
  }

  predicate Subsequence(a: seq<nat>, b: seq<nat>)
  {
    if a == [] then true
    else if b == [] then false
    else if a[0] == b[0] then Subsequence(a[1..], b[1..]) || Subsequence(a, b[1..])
    else Subsequence(a, b[1..])
  }

  // Every message is handed over once or destroyed once, in cut order; verify() is called at most once.
  ghost predicate Conserves(d: Deal, auth: bool)
  {
    && multiset(d.cut) == multiset(d.handed) + multiset(d.destroyed)
    && Subsequence(d.handed, d.cut) && Subsequence(d.destroyed, d.cut)
    && d.verifies <= (if auth then 0 else 1) && (auth || d.verifies > 0 ==> d.auth)
  }

  lemma {:induction false} SubsequenceOfBoth(a: seq<nat>, b: seq<nat>, c: seq<nat>, d: seq<nat>)
    requires Subsequence(a, b) && Subsequence(c, d)
    ensures Subsequence(a + c, b + d)
    decreases |b|
  {
    if b == [] {
      assert a + c == c && b + d == d;
    } else {
      assert (b + d)[0] == b[0] && (b + d)[1..] == b[1..] + d;
      if a != [] && a[0] == b[0] && Subsequence(a[1..], b[1..]) {
        assert (a + c)[0] == b[0] && (a + c)[1..] == a[1..] + c;
        SubsequenceOfBoth(a[1..], b[1..], c, d);
      } else {
        SubsequenceOfBoth(a, b[1..], c, d);
        SubsequenceSkip(a + c, b[1..] + d, b[0]);
      }
    }
  }

  lemma SubsequenceSkip(a: seq<nat>, b: seq<nat>, x: nat)
    requires Subsequence(a, b)
    ensures Subsequence(a, [x] + b)
  {
    assert ([x] + b)[1..] == b;
  }

  lemma ThenConserves(d: Deal, e: Deal, auth: bool)
    requires Conserves(d, auth) && Conserves(e, d.auth)
    ensures Conserves(Then(d, e), auth)
  {
    hide Subsequence;
    SubsequenceOfBoth(d.handed, d.cut, e.handed, e.cut);
    SubsequenceOfBoth(d.destroyed, d.cut, e.destroyed, e.cut);
  }

  lemma NothingConserves(auth: bool)
    ensures forall ok :: Conserves(Nothing(auth, ok), auth)
  {
  }

  lemma OneConserves(h: Handler, p: Parsed, auth: bool)
    requires p.Cut? && p.msg.Some?
    ensures Conserves(One(h, p, auth), auth)
  {
    var m := p.msg.value;
    assert [m][1..] == [] && Subsequence([m], [m]);
  }

  lemma {:induction false} MessagesAreConserved(handlers: seq<Handler>, auth: bool, parses: seq<Parsed>)
    requires ValidParses(handlers, parses)
    ensures Conserves(Dealt(handlers, auth, parses), auth)
    decreases parses
  {
    hide One, Conserves, Then;
    NothingConserves(auth);
    if parses != [] && parses[0].Cut? {
      if parses[0].msg.None? {
        MessagesAreConserved(handlers, auth, parses[1..]);
      } else {
        var d := One(handlers[parses[0].index], parses[0], auth);
        OneConserves(handlers[parses[0].index], parses[0], auth);
        if d.ok {
          MessagesAreConserved(handlers, d.auth, parses[1..]);
          ThenConserves(d, Dealt(handlers, d.auth, parses[1..]), auth);
        }
      }
    }
  }

  // ---- which messages those are, told from the answers of the parser alone ----

  // A message that calls for authentication: its handler has a callback and a verify().
  predicate Authenticates(handlers: seq<Handler>, p: Parsed)
    requires p.Cut? ==> p.index < |handlers|
  {
    p.Cut? && p.msg.Some? && handlers[p.index].hasProcess && handlers[p.index].hasVerify
  }

  // Some message among the first n does.
  predicate Met(handlers: seq<Handler>, parses: seq<Parsed>, n: nat)
    requires ValidParses(handlers, parses) && n <= |parses|
  {
    exists k :: 0 <= k < n && Authenticates(handlers, parses[k])
  }

  // The message at k is the first to, on a socket where nobody has authenticated, and verify() rejects it.
  predicate FailsAt(handlers: seq<Handler>, auth: bool, parses: seq<Parsed>, k: nat)
    requires ValidParses(handlers, parses) && k < |parses|
  {
    !auth && Authenticates(handlers, parses[k]) && !parses[k].verified && !Met(handlers, parses, k)
  }

  // A read comes to its end at n: answers before n are messages that pass, the one at n is not.
  predicate EndsAt(handlers: seq<Handler>, auth: bool, parses: seq<Parsed>, n: nat)
    requires ValidParses(handlers, parses)
  {
    && n <= |parses|
    && (forall k :: 0 <= k < n ==> parses[k].Cut? && !FailsAt(handlers, auth, parses, k))
    && (n < |parses| ==> !parses[n].Cut? || FailsAt(handlers, auth, parses, n))
  }

  function MessagesOf(parses: seq<Parsed>): seq<nat>
  {
    if parses == [] then []
    else (if parses[0].Cut? && parses[0].msg.Some? then [parses[0].msg.value] else []) + MessagesOf(parses[1..])
  }

  // Those whose handler has a callback, or has none.
  function MessagesFor(handlers: seq<Handler>, parses: seq<Parsed>, callback: bool): seq<nat>
    requires ValidParses(handlers, parses)
  {
    if parses == [] then []
    else
      (if parses[0].Cut? && parses[0].msg.Some? && handlers[parses[0].index].hasProcess == callback
       then [parses[0].msg.value] else []) +
      MessagesFor(handlers, parses[1..], callback)
  }

  predicate Fails(handlers: seq<Handler>, auth: bool, parses: seq<Parsed>, n: nat)
    requires ValidParses(handlers, parses)
  {
    n < |parses| && FailsAt(handlers, auth, parses, n)
  }

  // The deal that a read which ends at n is due.
  ghost function Due(handlers: seq<Handler>, auth: bool, parses: seq<Parsed>, n: nat): Deal
    requires ValidParses(handlers, parses) && n <= |parses|
  {
    var fails := Fails(handlers, auth, parses, n);
    var seen := if fails then n + 1 else n;
    var met := Met(handlers, parses, seen);
    Deal(MessagesOf(parses[..seen]),
         MessagesFor(handlers, parses[..n], true),
         MessagesFor(handlers, parses[..n], false) + (if fails then [parses[n].msg.value] else []),
         if !auth && met then 1 else 0,
         auth || met,
         n == |parses| || parses[n].NotEnoughData?)
  }

  // Meeting and failing behind the first answer.
  lemma MetBehind(handlers: seq<Handler>, parses: seq<Parsed>, n: nat)
    requires ValidParses(handlers, parses) && n < |parses|
    ensures Met(handlers, parses, n + 1) <==> Authenticates(handlers, parses[0]) || Met(handlers, parses[1..], n)
  {
    if k :| 0 <= k < n && Authenticates(handlers, parses[1..][k]) {
      assert Authenticates(handlers, parses[k + 1]);
    }
    if k :| 0 < k < n + 1 && Authenticates(handlers, parses[k]) {
      assert Authenticates(handlers, parses[1..][k - 1]);
    }
  }

  lemma FailsBehind(handlers: seq<Handler>, auth: bool, parses: seq<Parsed>, k: nat)
    requires ValidParses(handlers, parses) && 0 < k < |parses|
    ensures FailsAt(handlers, auth, parses, k) <==>
            FailsAt(handlers, auth || Authenticates(handlers, parses[0]), parses[1..], k - 1)
  {
    MetBehind(handlers, parses, k - 1);
  }

  lemma EndsBehind(handlers: seq<Handler>, auth: bool, parses: seq<Parsed>, n: nat)
    requires ValidParses(handlers, parses) && 0 < n && EndsAt(handlers, auth, parses, n)
    ensures EndsAt(handlers, auth || Authenticates(handlers, parses[0]), parses[1..], n - 1)
  {
    hide FailsAt;
    forall k | 0 <= k < n - 1
      ensures parses[1..][k].Cut? && !FailsAt(handlers, auth || Authenticates(handlers, parses[0]), parses[1..], k)
    {
      FailsBehind(handlers, auth, parses, k + 1);
    }
    if n < |parses| {
      FailsBehind(handlers, auth, parses, n);
    }
  }

  // The messages of the first n answers, the first one apart.
  lemma PrefixMessages(handlers: seq<Handler>, parses: seq<Parsed>, n: nat)
    requires ValidParses(handlers, parses) && 0 < n <= |parses| && parses[0].Cut?
    ensures var (p, rest) := (parses[0], parses[1..]);
            var m := if p.msg.Some? then [p.msg.value] else [];
            && MessagesOf(parses[..n]) == m + MessagesOf(rest[..n - 1])
            && forall callback :: MessagesFor(handlers, parses[..n], callback) ==
                 (if handlers[p.index].hasProcess == callback then m else []) + MessagesFor(handlers, rest[..n - 1], callback)
  {
    assert parses[..n][0] == parses[0] && parses[..n][1..] == parses[1..][..n - 1];
  }

  // A first answer that passes: what it adds to the deal.
  function First(h: Handler, p: Parsed, auth: bool): Deal
    requires p.Cut?
  {
    var m := if p.msg.Some? then [p.msg.value] else [];
    var fights := !auth && p.msg.Some? && h.hasProcess && h.hasVerify;
    Deal(m, if h.hasProcess then m else [], if h.hasProcess then [] else m, if fights then 1 else 0, auth || fights, true)
  }

  lemma DueFurther(handlers: seq<Handler>, auth: bool, parses: seq<Parsed>, n: nat)
    requires ValidParses(handlers, parses) && 0 < n <= |parses| && parses[0].Cut?
    ensures Due(handlers, auth, parses, n) ==
            Then(First(handlers[parses[0].index], parses[0], auth),
                 Due(handlers, auth || Authenticates(handlers, parses[0]), parses[1..], n - 1))
  {
    hide FailsAt, Met, MessagesOf, MessagesFor;
    var (h, rest) := (handlers[parses[0].index], parses[1..]);
    var auth' := auth || Authenticates(handlers, parses[0]);
    var (d, f, e) := (Due(handlers, auth, parses, n), First(h, parses[0], auth), Due(handlers, auth', rest, n - 1));
    if n < |parses| {
      FailsBehind(handlers, auth, parses, n);
      MetBehind(handlers, parses, n);
      PrefixMessages(handlers, parses, n + 1);
    }
    assert Fails(handlers, auth, parses, n) == Fails(handlers, auth', rest, n - 1);
    PrefixMessages(handlers, parses, n);
    MetBehind(handlers, parses, n - 1);
    assert d.cut == f.cut + e.cut;
    assert d.handed == f.handed + e.handed;
    assert d.destroyed == f.destroyed + e.destroyed;
  }

  lemma NothingMet(handlers: seq<Handler>, auth: bool, parses: seq<Parsed>)
    requires ValidParses(handlers, parses) && parses != []
    ensures FailsAt(handlers, auth, parses, 0) <==> !auth && Authenticates(handlers, parses[0]) && !parses[0].verified
  {
  }

  // Every read: what is cut are the messages up to the first answer that asks for more data, is wrong, or is a
  // message that fails verification, which is cut too; those with a callback are handed over and the others
  // destroyed; verify() is called if one of them calls for it.
  lemma {:induction false} ReadIsDealt(handlers: seq<Handler>, auth: bool, parses: seq<Parsed>, n: nat)
    requires ValidParses(handlers, parses) && EndsAt(handlers, auth, parses, n)
    ensures Dealt(handlers, auth, parses) == Due(handlers, auth, parses, n)
    decreases parses
  {
    hide Due, Then, One, First;
    if n == 0 {
      ReadEndsAtOnce(handlers, auth, parses);
    } else {
      var auth' := auth || Authenticates(handlers, parses[0]);
      EndsBehind(handlers, auth, parses, n);
      ReadIsDealt(handlers, auth', parses[1..], n - 1);
      DueFurther(handlers, auth, parses, n);
      FirstPasses(handlers, auth, parses, Dealt(handlers, auth', parses[1..]));
    }
  }

  lemma ReadEndsAtOnce(handlers: seq<Handler>, auth: bool, parses: seq<Parsed>)
    requires ValidParses(handlers, parses) && EndsAt(handlers, auth, parses, 0)
    ensures Dealt(handlers, auth, parses) == Due(handlers, auth, parses, 0)
  {
    assert parses[..0] == [];
    if parses != [] {
      NothingMet(handlers, auth, parses);
      assert parses[..1] == [parses[0]] && [parses[0]][1..] == [];
      assert Met(handlers, parses, 1) <==> Authenticates(handlers, parses[0]);
      assert MessagesOf([]) == [] && MessagesFor(handlers, [], true) == [] && MessagesFor(handlers, [], false) == [];
    }
  }

  lemma FirstPasses(handlers: seq<Handler>, auth: bool, parses: seq<Parsed>, e: Deal)
    requires ValidParses(handlers, parses) && parses != [] && parses[0].Cut? && !FailsAt(handlers, auth, parses, 0)
    ensures var (h, p) := (handlers[parses[0].index], parses[0]);
            var f := First(h, p, auth);
            && f.ok && f.auth == (auth || Authenticates(handlers, p))
            && (p.msg.Some? ==> One(h, p, auth) == f)
            && (p.msg.None? ==> f.auth == auth && Then(f, e) == e)
  {
    NothingMet(handlers, auth, parses);
  }

  // Every read comes to an end somewhere.
  lemma {:induction false} ReadEnds(handlers: seq<Handler>, auth: bool, parses: seq<Parsed>) returns (n: nat)
    requires ValidParses(handlers, parses)
    ensures EndsAt(handlers, auth, parses, n)
    decreases parses
  {
    if parses == [] || !parses[0].Cut? || FailsAt(handlers, auth, parses, 0) {
      n := 0;
    } else {
      hide FailsAt;
      var n' := ReadEnds(handlers, auth || Authenticates(handlers, parses[0]), parses[1..]);
      n := n' + 1;
      forall k | 0 < k < |parses|
        ensures FailsAt(handlers, auth, parses, k) <==>
                FailsAt(handlers, auth || Authenticates(handlers, parses[0]), parses[1..], k - 1)
      {
        FailsBehind(handlers, auth, parses, k);
      }
      forall k | 0 <= k < n
        ensures parses[k].Cut? && !FailsAt(handlers, auth, parses, k)
      {
        if k > 0 {
          assert parses[1..][k - 1] == parses[k];
        }
      }
    }
  }

  lemma {:induction false} AllCallable(handlers: seq<Handler>, parses: seq<Parsed>)
    requires ValidParses(handlers, parses) && forall h <- handlers :: h.hasProcess
    ensures MessagesFor(handlers, parses, true) == MessagesOf(parses) && MessagesFor(handlers, parses, false) == []
  {
    if parses != [] {
      AllCallable(handlers, parses[1..]);
    }
  }

  // With every callback in place and nothing to reject, all messages up to the first answer that is none are handed
  // over.
  lemma NothingIsDropped(handlers: seq<Handler>, auth: bool, parses: seq<Parsed>, n: nat)
    requires ValidParses(handlers, parses)
    requires forall h <- handlers :: h.hasProcess
    requires auth || (forall h <- handlers :: !h.hasVerify) || (forall p <- parses :: p.Cut? ==> p.verified)
    requires n <= |parses| && (forall k :: 0 <= k < n ==> parses[k].Cut?) && (n < |parses| ==> !parses[n].Cut?)
    ensures var d := Dealt(handlers, auth, parses); d.destroyed == [] && d.handed == d.cut == MessagesOf(parses[..n])
  {
    hide Dealt, MessagesFor, MessagesOf;
    assert forall k :: 0 <= k < |parses| ==> parses[k] in parses;
    ReadIsDealt(handlers, auth, parses, n);
    AllCallable(handlers, parses[..n]);
  }

  // ---- the message that is processed in place ----

  // The last of the messages that were cut, handed over and not read progressively is parked; earlier ones, and any
  // others, are not.
  function ParkedAfter(handlers: seq<Handler>, auth: bool, parses: seq<Parsed>, before: Option<nat>): Option<nat>
    requires ValidParses(handlers, parses)
    decreases parses
  {
    if parses == [] || !parses[0].Cut? then before
    else if parses[0].msg.None? then ParkedAfter(handlers, auth, parses[1..], before)
    else
      var (h, p) := (handlers[parses[0].index], parses[0]);
      var (now, d) := (Parks(h, p, auth), One(h, p, auth));
      if d.ok then ParkedAfter(handlers, d.auth, parses[1..], now) else now
  }

  function Parks(h: Handler, p: Parsed, auth: bool): Option<nat>
    requires p.Cut?
  {
    if Accepts(h, p, auth) && !p.progressive then p.msg else None
  }

  function LastMessage(parses: seq<Parsed>): Option<Parsed>
  {
    if parses == [] then None
    else
      var last := parses[|parses| - 1];
      if last.Cut? && last.msg.Some? then Some(last) else LastMessage(parses[..|parses| - 1])
  }

  lemma {:induction false} LastMessageBehind(parses: seq<Parsed>)
    requires parses != []
    ensures LastMessage(parses) ==
            if LastMessage(parses[1..]).Some? then LastMessage(parses[1..])
            else if parses[0].Cut? && parses[0].msg.Some? then Some(parses[0]) else None
    ensures LastMessage(parses).Some? ==> LastMessage(parses).value in parses && LastMessage(parses).value.Cut?
  {
    var (front, last) := (parses[..|parses| - 1], parses[|parses| - 1]);
    if |parses| > 1 {
      assert parses[1..][|parses| - 2] == last && parses[1..][..|parses| - 2] == front[1..] && front[0] == parses[0];
      LastMessageBehind(front);
    } else {
      assert parses[1..] == [] && front == [];
    }
  }

  // What a read that ends at n leaves parked: its last message, if that has a callback, passes and is not read
  // progressively; what was parked before if there is no message.
  lemma {:induction false} ParkedIsLast(handlers: seq<Handler>, auth: bool, parses: seq<Parsed>, n: nat, before: Option<nat>)
    requires ValidParses(handlers, parses) && EndsAt(handlers, auth, parses, n)
    ensures ParkedAfter(handlers, auth, parses, before) ==
            if Fails(handlers, auth, parses, n) then None
            else if LastMessage(parses[..n]).None? then before
            else LeftBy(handlers, parses, n)
    decreases parses
  {
    hide One, Parks, FailsAt, EndsAt, LastMessage, Authenticates, ParkedAfter;
    if n == 0 {
      ParkedAtOnce(handlers, auth, parses, before);
    } else {
      EndsLater(handlers, auth, parses, n);
      var (p, rest) := (parses[0], parses[1..]);
      var auth' := auth || Authenticates(handlers, p);
      EndsBehind(handlers, auth, parses, n);
      if n < |parses| {
        FailsBehind(handlers, auth, parses, n);
      }
      assert parses[..n][1..] == rest[..n - 1] && parses[..n][0] == p;
      LastMessageBehind(parses[..n]);
      FirstPasses(handlers, auth, parses, Nothing(auth, true));
      FirstParks(handlers, auth, parses);
      ParkedNext(handlers, auth, parses, before);
      ParkedIsLast(handlers, auth', rest, n - 1, if p.msg.None? then before else Parks(handlers[p.index], p, auth));
    }
  }

  lemma EndsLater(handlers: seq<Handler>, auth: bool, parses: seq<Parsed>, n: nat)
    requires ValidParses(handlers, parses) && EndsAt(handlers, auth, parses, n) && n > 0
    ensures parses != [] && n <= |parses| && parses[0].Cut? && !FailsAt(handlers, auth, parses, 0)
  {
  }

  lemma ParkedNext(handlers: seq<Handler>, auth: bool, parses: seq<Parsed>, before: Option<nat>)
    requires ValidParses(handlers, parses) && parses != [] && parses[0].Cut? && !FailsAt(handlers, auth, parses, 0)
    ensures var p := parses[0];
            ParkedAfter(handlers, auth, parses, before) ==
            ParkedAfter(handlers, auth || Authenticates(handlers, p), parses[1..],
                        if p.msg.None? then before else Parks(handlers[p.index], p, auth))
  {
    hide Parks;
    FirstPasses(handlers, auth, parses, Nothing(auth, true));
  }

  function LeftBy(handlers: seq<Handler>, parses: seq<Parsed>, n: nat): Option<nat>
    requires ValidParses(handlers, parses) && n <= |parses| && LastMessage(parses[..n]).Some?
  {
    var p := LastMessage(parses[..n]).value;
    if p.Cut? && p.index < |handlers| && handlers[p.index].hasProcess && !p.progressive then p.msg else None
  }

  lemma ParkedAtOnce(handlers: seq<Handler>, auth: bool, parses: seq<Parsed>, before: Option<nat>)
    requires ValidParses(handlers, parses) && EndsAt(handlers, auth, parses, 0)
    ensures ParkedAfter(handlers, auth, parses, before) == if Fails(handlers, auth, parses, 0) then None else before
    ensures parses[..0] == [] && LastMessage(parses[..0]).None?
  {
    assert parses[..0] == [];
    if parses != [] {
      NothingMet(handlers, auth, parses);
    }
  }

  lemma FirstParks(handlers: seq<Handler>, auth: bool, parses: seq<Parsed>)
    requires ValidParses(handlers, parses) && parses != [] && parses[0].Cut? && !FailsAt(handlers, auth, parses, 0)
    ensures var p := parses[0];
            Parks(handlers[p.index], p, auth) == if handlers[p.index].hasProcess && !p.progressive then p.msg else None
  {
    NothingMet(handlers, auth, parses);
  }

  // ---- one pass of OnNewMessages ----

  // One read from the socket.
  datatype Read =
    | Data(parses: seq<Parsed>)      // bytes arrived
    | Eof(parses: seq<Parsed>)
    | Again(moreEvents: bool)        // nothing to read now
    | Interrupted
    | Failed

  predicate ValidReads(handlers: seq<Handler>, rs: seq<Read>)
  {
    forall r <- rs :: r.Data? || r.Eof? ==> ValidParses(handlers, r.parses)
  }

  function DealtAll(handlers: seq<Handler>, auth: bool, rs: seq<Read>): Deal
    requires ValidReads(handlers, rs)
    decreases rs
  {
    if rs == [] || rs[0].Failed? || (rs[0].Again? && !rs[0].moreEvents) then Nothing(auth, true)
    else if rs[0].Again? || rs[0].Interrupted? then DealtAll(handlers, auth, rs[1..])
    else
      var d := Dealt(handlers, auth, rs[0].parses);
      if d.ok && rs[0].Data? then Then(d, DealtAll(handlers, d.auth, rs[1..])) else d
  }

  // The same over a whole pass, whatever the reads bring.
  lemma {:induction false} PassConservesMessages(handlers: seq<Handler>, auth: bool, rs: seq<Read>)
    requires ValidReads(handlers, rs)
    ensures Conserves(DealtAll(handlers, auth, rs), auth)
    decreases rs
  {
    hide Dealt;
    if rs != [] && (rs[0].Again? || rs[0].Interrupted?) {
      PassConservesMessages(handlers, auth, rs[1..]);
    } else if rs != [] && (rs[0].Data? || rs[0].Eof?) {
      MessagesAreConserved(handlers, auth, rs[0].parses);
      var d := Dealt(handlers, auth, rs[0].parses);
      if d.ok && rs[0].Data? {
        PassConservesMessages(handlers, d.auth, rs[1..]);
        ThenConserves(d, DealtAll(handlers, d.auth, rs[1..]), auth);
      }
    }
  }

  // The answers a pass goes by: those of each read up to the first that asks for more data, of the reads up to the end
  // of the stream, a failure, or the last event.
  function UpToNeed(parses: seq<Parsed>): seq<Parsed>
  {
    if parses == [] || parses[0].NotEnoughData? then [] else [parses[0]] + UpToNeed(parses[1..])
  }

  function AnswersOf(rs: seq<Read>): seq<Parsed>
  {
    if rs == [] || rs[0].Failed? || (rs[0].Again? && !rs[0].moreEvents) then []
    else if rs[0].Again? || rs[0].Interrupted? then AnswersOf(rs[1..])
    else UpToNeed(rs[0].parses) + if rs[0].Data? then AnswersOf(rs[1..]) else []
  }

  lemma {:induction false} UpToNeedIsValid(handlers: seq<Handler>, parses: seq<Parsed>)
    requires ValidParses(handlers, parses)
    ensures ValidParses(handlers, UpToNeed(parses)) && forall p <- UpToNeed(parses) :: !p.NotEnoughData?
  {
    if parses != [] && !parses[0].NotEnoughData? {
      UpToNeedIsValid(handlers, parses[1..]);
    }
  }

  lemma {:induction false} AnswersAreValid(handlers: seq<Handler>, rs: seq<Read>)
    requires ValidReads(handlers, rs)
    ensures ValidParses(handlers, AnswersOf(rs))
  {
    if rs != [] {
      AnswersAreValid(handlers, rs[1..]);
      if rs[0].Data? || rs[0].Eof? {
        UpToNeedIsValid(handlers, rs[0].parses);
      }
    }
  }

  lemma {:induction false} DealtUpToNeed(handlers: seq<Handler>, auth: bool, parses: seq<Parsed>)
    requires ValidParses(handlers, parses) && ValidParses(handlers, UpToNeed(parses))
    ensures Dealt(handlers, auth, UpToNeed(parses)) == Dealt(handlers, auth, parses)
    decreases parses
  {
    hide One, Then;
    if parses != [] && !parses[0].NotEnoughData? {
      var u := UpToNeed(parses);
      assert u[0] == parses[0] && u[1..] == UpToNeed(parses[1..]);
      DealtUpToNeed(handlers, auth, parses[1..]);
      if parses[0].Cut? && parses[0].msg.Some? {
        DealtUpToNeed(handlers, One(handlers[parses[0].index], parses[0], auth).auth, parses[1..]);
      }
    }
  }

  // Answers in front of others.
  lemma {:induction false} DealtBoth(handlers: seq<Handler>, auth: bool, a: seq<Parsed>, b: seq<Parsed>)
    requires ValidParses(handlers, a) && ValidParses(handlers, b) && forall p <- a :: !p.NotEnoughData?
    ensures var d := Dealt(handlers, auth, a);
            Dealt(handlers, auth, a + b) == if d.ok then Then(d, Dealt(handlers, d.auth, b)) else d
    decreases a
  {
    hide One;
    if a == [] {
      assert a + b == b;
    } else {
      assert (a + b)[0] == a[0] && (a + b)[1..] == a[1..] + b && a[0] in a;
      if a[0].Cut? && a[0].msg.None? {
        DealtBoth(handlers, auth, a[1..], b);
      } else if a[0].Cut? {
        var d := One(handlers[a[0].index], a[0], auth);
        DealtBoth(handlers, d.auth, a[1..], b);
        var e := Dealt(handlers, d.auth, a[1..]);
        ThenThen(d, e, Dealt(handlers, e.auth, b));
      }
    }
  }

  lemma ThenThen(d: Deal, e: Deal, f: Deal)
    ensures Then(Then(d, e), f) == Then(d, Then(e, f))
  {
    assert d.cut + e.cut + f.cut == d.cut + (e.cut + f.cut);
    assert d.handed + e.handed + f.handed == d.handed + (e.handed + f.handed);
    assert d.destroyed + e.destroyed + f.destroyed == d.destroyed + (e.destroyed + f.destroyed);
  }

  // A pass deals its messages as one read of all its answers would.
  lemma {:induction false} PassIsDealt(handlers: seq<Handler>, auth: bool, rs: seq<Read>)
    requires ValidReads(handlers, rs) && ValidParses(handlers, AnswersOf(rs))
    ensures DealtAll(handlers, auth, rs) == Dealt(handlers, auth, AnswersOf(rs))
    decreases rs
  {
    hide Dealt, One, UpToNeed;
    if rs == [] || rs[0].Failed? || (rs[0].Again? && !rs[0].moreEvents) {
      NoAnswers(handlers, auth);
    } else if rs[0].Again? || rs[0].Interrupted? {
      PassIsDealt(handlers, auth, rs[1..]);
    } else {
      var parses := rs[0].parses;
      var a := UpToNeed(parses);
      UpToNeedIsValid(handlers, parses);
      DealtUpToNeed(handlers, auth, parses);
      var d := Dealt(handlers, auth, parses);
      if rs[0].Data? {
        var b := AnswersOf(rs[1..]);
        AnswersAreValid(handlers, rs[1..]);
        DealtBoth(handlers, auth, a, b);
        PassIsDealt(handlers, d.auth, rs[1..]);
      } else {
        assert a + [] == a;
      }
    }
  }

  lemma NoAnswers(handlers: seq<Handler>, auth: bool)
    ensures Dealt(handlers, auth, []) == Nothing(auth, true)
  {
  }

  function ParkedAll(handlers: seq<Handler>, auth: bool, rs: seq<Read>, before: Option<nat>): Option<nat>
    requires ValidReads(handlers, rs)
    decreases rs
  {
    if rs == [] || rs[0].Failed? || (rs[0].Again? && !rs[0].moreEvents) then before
    else if rs[0].Again? || rs[0].Interrupted? then ParkedAll(handlers, auth, rs[1..], before)
    else
      var (d, now) := (Dealt(handlers, auth, rs[0].parses), ParkedAfter(handlers, auth, rs[0].parses, before));
      if d.ok && rs[0].Data? then ParkedAll(handlers, d.auth, rs[1..], now) else now
  }

  lemma {:induction false} ParkedUpToNeed(handlers: seq<Handler>, auth: bool, parses: seq<Parsed>, before: Option<nat>)
    requires ValidParses(handlers, parses) && ValidParses(handlers, UpToNeed(parses))
    ensures ParkedAfter(handlers, auth, UpToNeed(parses), before) == ParkedAfter(handlers, auth, parses, before)
    decreases parses
  {
    hide One, Parks;
    if parses != [] && !parses[0].NotEnoughData? {
      var u := UpToNeed(parses);
      assert u[0] == parses[0] && u[1..] == UpToNeed(parses[1..]);
      if parses[0].Cut? {
        var (h, p) := (handlers[parses[0].index], parses[0]);
        if p.msg.None? {
          ParkedUpToNeed(handlers, auth, parses[1..], before);
        } else {
          ParkedUpToNeed(handlers, One(h, p, auth).auth, parses[1..], Parks(h, p, auth));
        }
      }
    }
  }

  lemma {:induction false} ParkedBoth(handlers: seq<Handler>, auth: bool, a: seq<Parsed>, b: seq<Parsed>, before: Option<nat>)
    requires ValidParses(handlers, a) && ValidParses(handlers, b) && forall p <- a :: !p.NotEnoughData?
    ensures var (d, now) := (Dealt(handlers, auth, a), ParkedAfter(handlers, auth, a, before));
            ParkedAfter(handlers, auth, a + b, before) == if d.ok then ParkedAfter(handlers, d.auth, b, now) else now
    decreases a
  {
    hide One, Parks;
    if a == [] {
      assert a + b == b;
    } else {
      assert (a + b)[0] == a[0] && (a + b)[1..] == a[1..] + b && a[0] in a;
      if a[0].Cut? {
        var (h, p) := (handlers[a[0].index], a[0]);
        if p.msg.None? {
          ParkedBoth(handlers, auth, a[1..], b, before);
        } else {
          ParkedBoth(handlers, One(h, p, auth).auth, a[1..], b, Parks(h, p, auth));
        }
      }
    }
  }

  // A pass parks what one read of all its answers would.
  lemma {:induction false} PassParksLast(handlers: seq<Handler>, auth: bool, rs: seq<Read>, before: Option<nat>)
    requires ValidReads(handlers, rs) && ValidParses(handlers, AnswersOf(rs))
    ensures ParkedAll(handlers, auth, rs, before) == ParkedAfter(handlers, auth, AnswersOf(rs), before)
    decreases rs
  {
    hide Dealt, One, UpToNeed, Parks;
    if rs == [] || rs[0].Failed? || (rs[0].Again? && !rs[0].moreEvents) {
    } else if rs[0].Again? || rs[0].Interrupted? {
      PassParksLast(handlers, auth, rs[1..], before);
    } else {
      var parses := rs[0].parses;
      var a := UpToNeed(parses);
      UpToNeedIsValid(handlers, parses);
      DealtUpToNeed(handlers, auth, parses);
      ParkedUpToNeed(handlers, auth, parses, before);
      if rs[0].Data? {
        AnswersAreValid(handlers, rs[1..]);
        ParkedBoth(handlers, auth, a, AnswersOf(rs[1..]), before);
        PassParksLast(handlers, Dealt(handlers, auth, parses).auth, rs[1..], ParkedAfter(handlers, auth, parses, before));
      } else {
        assert a + [] == a;
      }
    }
  }

  // ---- the code ----

  class InputMessenger {
    const handlers: seq<Handler>
    var parked: Option<nat>       // the closure of the last message
    var handed: seq<nat>
    var inPlace: seq<nat>         // those of them that were processed by this thread, out of the closure
    var destroyed: seq<nat>
    var verifies: nat
    var auth: bool                // someone fought for authentication on this socket
    var unflushed: nat            // threads started but not signalled yet
    ghost var cut: seq<nat>

    constructor (handlers: seq<Handler>)
      ensures this.handlers == handlers && parked == None
      ensures View() == Nothing(false, true) && unflushed == 0 && inPlace == []
    {
      this.handlers, parked, handed, destroyed, verifies, auth := handlers, None, [], [], 0, false;
      unflushed, cut, inPlace := 0, [], [];
    }

    // What was dealt so far, counting the parked message as handed over: it will be next.
    ghost function View(): Deal
      reads this
    {
      Deal(cut, handed + (if parked.Some? then [parked.value] else []), destroyed, verifies, auth, true)
    }

    method QueueMessage(msg: Option<nat>, starts: bool)
      modifies this`handed, this`unflushed
      ensures handed == if msg.Some? then old(handed) + [msg.value] else old(handed)
      ensures unflushed == old(unflushed) + if msg.Some? && starts then 1 else 0
    {
      if msg.None? {
        return;
      }
      handed := handed + [msg.value];
      if starts {
        unflushed := unflushed + 1;
      }
    }

    // Process the message in the closure, if any, and put another one there.
    method Reset(msg: Option<nat>)
      modifies this`parked, this`handed, this`inPlace
      ensures parked == msg
      ensures handed == if old(parked).Some? then old(handed) + [old(parked).value] else old(handed)
      ensures inPlace == old(inPlace) + if old(parked).Some? then [old(parked).value] else []
    {
      if parked.Some? {
        handed := handed + [parked.value];
        inPlace := inPlace + [parked.value];
      }
      parked := msg;
    }

    // Take the message out of the closure and queue it.
    method QueueParked(starts: bool)
      modifies this`parked, this`handed, this`unflushed
      ensures View() == old(View()) && parked == None
    {
      var last := parked;
      parked := None;
      QueueMessage(last, starts);
      assert handed + [] == handed;
    }

    method FlushThreads()
      modifies this`unflushed
      ensures View() == old(View()) && unflushed == 0
    {
      unflushed := 0;
    }

    // A message from the parser: queue the parked one, authenticate if nobody has, then park or queue this one.
    method Dispatch(p: Parsed) returns (ok: bool)
      requires p.Cut? && p.msg.Some? && p.index < |handlers|
      modifies this
      ensures View().(ok := ok) == Then(old(View()), One(handlers[p.index], p, old(auth)))
      ensures parked == Parks(handlers[p.index], p, old(auth)) && inPlace == old(inPlace)
    {
      var msg := p.msg.value;
      QueueParked(p.startsParked);
      cut := cut + [msg];
      var h := handlers[p.index];
      if !h.hasProcess {
        destroyed := destroyed + [msg];
        return true;
      }
      if h.hasVerify && !auth {
        auth, verifies := true, verifies + 1;
        if !p.verified {
          destroyed := destroyed + [msg];
          return false;
        }
      }
      Keep(msg, p.progressive, p.startsOwn);
      ok := true;
    }

    // Park a message that is to be processed, or queue it if the socket is read progressively.
    method Keep(msg: nat, progressive: bool, starts: bool)
      requires parked == None
      modifies this`parked, this`handed, this`inPlace, this`unflushed
      ensures handed + (if parked.Some? then [parked.value] else []) == old(handed) + [msg]
      ensures parked == (if progressive then None else Some(msg)) && inPlace == old(inPlace)
    {
      if !progressive {
        Reset(Some(msg));
      } else {
        QueueMessage(Some(msg), starts);
        FlushThreads();
      }
    }

    method ProcessNewMessage(parses: seq<Parsed>) returns (ok: bool)
      requires ValidParses(handlers, parses)
      modifies this
      ensures View().(ok := ok) == Then(old(View()), Dealt(handlers, old(auth), parses))
      ensures ok ==> unflushed == 0
      ensures parked == ParkedAfter(handlers, old(auth), parses, old(parked)) && inPlace == old(inPlace)
    {
      hide View, Then, One, Parks;
      var i := 0;
      assert parses[0..] == parses;
      AuthIsViewed();
      while i < |parses| && !parses[i].NotEnoughData?
        invariant 0 <= i <= |parses| && auth == View().auth
        invariant Then(View(), Dealt(handlers, auth, parses[i..])) == Then(old(View()), Dealt(handlers, old(auth), parses))
        invariant ParkedAfter(handlers, auth, parses[i..], parked) == ParkedAfter(handlers, old(auth), parses, old(parked))
        invariant inPlace == old(inPlace)
      {
        var p := parses[i];
        assert p in parses && parses[i..][0] == p && parses[i..][1..] == parses[i + 1..];
        i := i + 1;
        if p.Wrong? {
          ThenNothing(View(), false);
          return false;
        }
        if p.msg.None? {
          continue;
        }
        ghost var (before, d) := (View(), One(handlers[p.index], p, auth));
        ok := Dispatch(p);
        AuthIsViewed();
        DealtNext(before, d, View(), ok, Dealt(handlers, d.auth, parses[i..]));
        if !ok {
          return false;
        }
      }
      ThenNothing(View(), true);
      if unflushed > 0 {
        FlushThreads();
      }
      ok := true;
    }

    lemma AuthIsViewed()
      ensures auth == View().auth && View().ok
    {
    }

    // A whole pass; on every way out the parked message is processed.
    method OnNewMessages(rs: seq<Read>)
      requires ValidReads(handlers, rs) && parked == None
      modifies this
      ensures parked == None
      ensures View() == Then(old(View()), DealtAll(handlers, old(auth), rs)).(ok := true)
      ensures var last := ParkedAll(handlers, old(auth), rs, None);
              inPlace == old(inPlace) + if last.Some? then [last.value] else []
    {
      Pass(rs);
      Reset(None);
    }

    method Pass(rs: seq<Read>)
      requires ValidReads(handlers, rs)
      modifies this
      ensures View() == Then(old(View()), DealtAll(handlers, old(auth), rs)).(ok := true)
      ensures parked == ParkedAll(handlers, old(auth), rs, old(parked)) && inPlace == old(inPlace)
    {
      hide View, Then, Dealt, ParkedAfter;
      var i := 0;
      assert rs[0..] == rs;
      AuthIsViewed();
      while i < |rs|
        invariant 0 <= i <= |rs| && auth == View().auth
        invariant Then(View(), DealtAll(handlers, auth, rs[i..])) == Then(old(View()), DealtAll(handlers, old(auth), rs))
        invariant ParkedAll(handlers, auth, rs[i..], parked) == ParkedAll(handlers, old(auth), rs, old(parked))
        invariant inPlace == old(inPlace)
      {
        var r := rs[i];
        assert r in rs && rs[i..][0] == r && rs[i..][1..] == rs[i + 1..];
        i := i + 1;
        AuthIsViewed();
        if r.Failed? || (r.Again? && !r.moreEvents) {
          ThenNothing(View(), true);
          return;
        }
        if r.Again? || r.Interrupted? {
          continue;
        }
        ghost var (before, d) := (View(), Dealt(handlers, auth, r.parses));
        var ok := ProcessNewMessage(r.parses);
        AuthIsViewed();
        DealtNext(before, d, View(), ok, DealtAll(handlers, d.auth, rs[i..]));
        if !ok || r.Eof? {
          return;
        }
      }
      AuthIsViewed();
      ThenNothing(View(), true);
    }
  }

  lemma ThenNothing(v: Deal, ok: bool)
    ensures Then(v, Nothing(v.auth, ok)) == v.(ok := ok)
  {
  }

  // A deal `d` after `before`, seen as `v`, and whatever comes next.
  lemma DealtNext(before: Deal, d: Deal, v: Deal, ok: bool, next: Deal)
    requires v.(ok := ok) == Then(before, d) && v.ok
    ensures v.auth == d.auth && ok == d.ok
    ensures Then(v, next) == Then(before, Then(d, next))
  {
    assert before.cut + d.cut + next.cut == before.cut + (d.cut + next.cut);
    assert before.handed + d.handed + next.handed == before.handed + (d.handed + next.handed);
    assert before.destroyed + d.destroyed + next.destroyed == before.destroyed + (d.destroyed + next.destroyed);
  }
}
