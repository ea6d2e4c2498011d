/** The sessions table: expiry kept as second-truncated text, checked against a nanosecond
    clock, pruned by text comparison. */
module Sessions {
  import opened CivilTime
  import opened TimeText

  /** token_hash -> expires_at */
  type Table = map<string, string>

  /** Every expiry was written by FmtTime. */
  ghost predicate Stored(tab: Table) {
    forall token :: token in tab ==> exists t: Instant :: tab[token] == FmtTime(t)
  }

  predicate Valid(tab: Table, token: string, now: Instant) {
    token in tab && ParseTime(tab[token]) > now
  }

  function AfterCreate(tab: Table, token: string, expires: Instant): Table {
    if token in tab then tab else tab[token := FmtTime(expires)]
  }

  function AfterTouch(tab: Table, token: string, expires: Instant): Table {
    if token in tab then tab[token := FmtTime(expires)] else tab
  }

  function AfterPrune(tab: Table, now: Instant): Table {
    map token | token in tab && !TextAtMost(tab[token], FmtTime(now)) :: tab[token]
  }

  class SessionStore {
    var sessions: Table

    ghost predicate Inv()
      reads this
    {
      Stored(sessions)
    }

    constructor ()
      ensures Inv() && sessions == map[]
    {
      sessions := map[];
    }

    /** ok is false where the primary key refuses a second row for the token. */
    method CreateSession(token: string, expires: Instant) returns (ok: bool)
      requires Inv()
      modifies this
      ensures Inv() && ok == (token !in old(sessions))
      ensures sessions == if ok then old(sessions)[token := FmtTime(expires)] else old(sessions)
      ensures sessions == AfterCreate(old(sessions), token, expires)
    {
      hide FmtTime, ParseTime, TextAtMost;
      ok := token !in sessions;
      if ok {
        sessions := sessions[token := FmtTime(expires)];
      }
    }

    method ValidSession(token: string, now: Instant) returns (ok: bool)
      requires Inv()
      ensures ok == Valid(sessions, token, now)
      ensures ok <==> token in sessions && ParseTime(sessions[token]) > now
    {
      hide FmtTime, ParseTime, TextAtMost;
      if token !in sessions {
        return false;
      }
      return ParseTime(sessions[token]) > now;
    }

    method TouchSession(token: string, expires: Instant)
      requires Inv()
      modifies this
      ensures Inv() && sessions.Keys == old(sessions).Keys
      ensures sessions == if token in old(sessions) then old(sessions)[token := FmtTime(expires)] else old(sessions)
      ensures sessions == AfterTouch(old(sessions), token, expires)
    {
      hide FmtTime, ParseTime, TextAtMost;
      if token in sessions {
        sessions := sessions[token := FmtTime(expires)];
      }
    }

    method DeleteSession(token: string)
      requires Inv()
      modifies this
      ensures Inv() && sessions == old(sessions) - {token}
    {
      hide FmtTime, ParseTime, TextAtMost;
      sessions := sessions - {token};
    }

    /** What is left is exactly what was valid; n rows went. */
    method PruneSessions(now: Instant) returns (n: nat)
      requires Inv()
      modifies this
      ensures Inv() && sessions == AfterPrune(old(sessions), now)
      ensures forall token :: token in sessions <==> Valid(old(sessions), token, now)
      ensures forall token :: token in sessions ==> sessions[token] == old(sessions)[token]
      ensures n == |old(sessions)| - |sessions|
    {
      hide FmtTime, ParseTime, TextAtMost;
      var dead := set token | token in sessions && TextAtMost(sessions[token], FmtTime(now));
      forall token
        ensures token in AfterPrune(sessions, now) <==> Valid(sessions, token, now)
      {
        PruneIsExact(sessions, token, now);
      }
      assert (sessions - dead).Keys == sessions.Keys - dead;
      assert sessions - dead == AfterPrune(sessions, now);
      sessions := sessions - dead;
      n := |dead|;
    }

    /** The authentication wrapper's two statements, each with its own clock reading: check, and
        slide the expiry only when the check passed. Nothing comes in between here. */
    method RequireAuth(token: string, now: Instant, later: Instant, ttl: int) returns (ok: bool)
      requires Inv() && now <= later && 0 <= later + ttl < DAY_COUNT * DAY_SECONDS * SECOND
      modifies this
      ensures Inv() && ok == Valid(old(sessions), token, now)
      ensures sessions == if ok then old(sessions)[token := FmtTime(later + ttl)] else old(sessions)
      ensures sessions == After(old(sessions), Visit(token, now, later + ttl))
    {
      hide FmtTime, ParseTime, TextAtMost;
      ok := ValidSession(token, now);
      if ok {
        TouchSession(token, later + ttl);
      }
    }
  }

  /** Pruning removes a session if and only if it is no longer valid at that instant, although
      one compares truncated texts and the other full-precision times. */
  lemma PruneIsExact(tab: Table, token: string, now: Instant)
    requires Stored(tab)
    ensures token in AfterPrune(tab, now) <==> Valid(tab, token, now)
  {
    if token in tab {
      var t: Instant :| tab[token] == FmtTime(t);
      TextOrderIsTimeOrder(t, now);
      StoredTimeReadsBack(t);
    }
  }

  // ---------- whole runs ----------

  datatype Event =
    | Login(token: string, at: Instant, expires: Instant)
    | Visit(token: string, at: Instant, expires: Instant)  // check, then slide, in one step
    | Peek(token: string, at: Instant)
    | Slide(token: string, at: Instant, expires: Instant)  // the second half of a visit alone
    | Logout(token: string, at: Instant)
    | Prune(at: Instant)

  function After(tab: Table, e: Event): Table {
    match e
    case Login(token, _, expires) => AfterCreate(tab, token, expires)
    case Visit(token, at, expires) => if Valid(tab, token, at) then AfterTouch(tab, token, expires) else tab
    case Peek(_, _) => tab
    case Slide(token, _, expires) => AfterTouch(tab, token, expires)
    case Logout(token, _) => tab - {token}
    case Prune(at) => AfterPrune(tab, at)
  }

  /** What the caller of one step sees: login success, or validity. */
  function Answer(tab: Table, e: Event): seq<bool> {
    match e
    case Login(token, _, _) => [token !in tab]
    case Visit(token, at, _) => [Valid(tab, token, at)]
    case Peek(token, at) => [Valid(tab, token, at)]
    case Slide(_, _, _) => []
    case Logout(_, _) => []
    case Prune(_) => []
  }

  function Answers(tab: Table, run: seq<Event>): seq<bool>
    decreases |run|
  {
    if run == [] then [] else Answer(tab, run[0]) + Answers(After(tab, run[0]), run[1..])
  }

  function WithoutPrunes(run: seq<Event>): seq<Event> {
    if run == [] then []
    else if run[0].Prune? then WithoutPrunes(run[1..])
    else [run[0]] + WithoutPrunes(run[1..])
  }

  /** The clock starts at now and never goes back. */
  predicate Ordered(run: seq<Event>, now: Instant) {
    run != [] ==> now <= run[0].at && Ordered(run[1..], run[0].at)
  }

  /** Logins never reuse a token. */
  predicate Fresh(run: seq<Event>, used: set<string>) {
    run != [] ==>
      (run[0].Login? ==> run[0].token !in used) &&
      Fresh(run[1..], used + if run[0].Login? then {run[0].token} else {})
  }

  /** A slide that lands on a stored but expired session and gives it an expiry still ahead. */
  predicate Revives(tab: Table, e: Event) {
    e.Slide? && e.token in tab && !Valid(tab, e.token, e.at) && FloorSecond(e.expires) * SECOND > e.at
  }

  /** No slide of the run, started on tab, brings an expired session back. */
  predicate NoRevival(tab: Table, run: seq<Event>)
    decreases |run|
  {
    run != [] ==> !Revives(tab, run[0]) && NoRevival(After(tab, run[0]), run[1..])
  }

  predicate NoPrunes(run: seq<Event>) {
    forall i :: 0 <= i < |run| ==> !run[i].Prune?
  }

  /** The pruned table lacks only sessions of the full one that are dead by now. */
  ghost predicate Shadows(pruned: Table, full: Table, now: Instant) {
    && pruned.Keys <= full.Keys
    && (forall token :: token in pruned ==> pruned[token] == full[token])
    && (forall token :: token in full && token !in pruned ==> ParseTime(full[token]) <= now)
  }

  /** A session's whole life: a login or an admitted visit makes the token valid at exactly the
      instants before its expiry's second, a refused visit changes nothing, a logout ends it, and
      no other token is affected. */
  lemma SessionLifetime(tab: Table, e: Event, other: string, t: Instant)
    requires e.Login? || e.Visit? || e.Logout?
    ensures (e.Login? && e.token !in tab) || (e.Visit? && Valid(tab, e.token, e.at)) ==>
              (Valid(After(tab, e), e.token, t) <==> t < FloorSecond(e.expires) * SECOND)
    ensures (e.Login? && e.token in tab) || (e.Visit? && !Valid(tab, e.token, e.at)) ==> After(tab, e) == tab
    ensures e.Logout? ==> !Valid(After(tab, e), e.token, t)
    ensures other != e.token ==> (Valid(After(tab, e), other, t) <==> Valid(tab, other, t))
  {
    hide FmtTime, ParseTime;
    if !e.Logout? {
      StoredTimeReadsBack(e.expires);
    }
  }

  lemma StoredAfter(tab: Table, e: Event)
    requires Stored(tab)
    ensures Stored(After(tab, e))
  {
    hide FmtTime, ParseTime, TextAtMost;
  }

  lemma ShadowStep(pruned: Table, full: Table, e: Event, used: set<string>)
    requires Shadows(pruned, full, e.at) && !e.Prune? && !Revives(full, e)
    requires full.Keys <= used && (e.Login? ==> e.token !in used)
    ensures Answer(pruned, e) == Answer(full, e)
    ensures Shadows(After(pruned, e), After(full, e), e.at)
    ensures After(full, e).Keys <= used + if e.Login? then {e.token} else {}
  {
    hide FmtTime, ParseTime, TextAtMost;
    if e.Slide? {
      StoredTimeReadsBack(e.expires);
    }
  }

  lemma ShadowPrune(pruned: Table, full: Table, now: Instant)
    requires Shadows(pruned, full, now) && Stored(pruned)
    ensures Shadows(AfterPrune(pruned, now), full, now)
  {
    forall token | token in full && token !in AfterPrune(pruned, now)
      ensures ParseTime(full[token]) <= now
    {
      PruneIsExact(pruned, token, now);
    }
  }

  lemma {:induction false} ShadowRun(pruned: Table, full: Table, run: seq<Event>, now: Instant, used: set<string>)
    requires Shadows(pruned, full, now) && Stored(pruned) && full.Keys <= used
    requires Ordered(run, now) && Fresh(WithoutPrunes(run), used) && NoRevival(full, WithoutPrunes(run))
    ensures Answers(pruned, run) == Answers(full, WithoutPrunes(run))
    decreases |run|
  {
    hide Stored, After, Answer, AfterPrune, FmtTime, ParseTime, TextAtMost, Valid, Revives;
    if run != [] {
      var e := run[0];
      assert Shadows(pruned, full, e.at);
      StoredAfter(pruned, e);
      if e.Prune? {
        assert e == Prune(e.at);
        ShadowPrune(pruned, full, e.at);
        PruneStep(pruned, e.at);
        ShadowRun(After(pruned, e), full, run[1..], e.at, used);
      } else {
        var rest := WithoutPrunes(run[1..]);
        assert ([e] + rest)[1..] == rest;
        ShadowStep(pruned, full, e, used);
        var used' := used + if e.Login? then {e.token} else {};
        ShadowRun(After(pruned, e), After(full, e), run[1..], e.at, used');
      }
    }
  }

  lemma PruneStep(tab: Table, at: Instant)
    ensures After(tab, Prune(at)) == AfterPrune(tab, at) && Answer(tab, Prune(at)) == []
  {}

  /** Prunes anywhere change no answer of a run whose slides all come in time. */
  lemma PruneIsInvisibleInTime(run: seq<Event>, now: Instant)
    requires Ordered(run, now) && Fresh(WithoutPrunes(run), {}) && NoRevival(map[], WithoutPrunes(run))
    ensures Answers(map[], run) == Answers(map[], WithoutPrunes(run))
  {
    ShadowRun(map[], map[], run, now, {});
  }

  // ---------- the condition is exact ----------

  /** Whatever prunes are put into base or a beginning of it, every answer stays as it was, and so
      does the validity that any token would be found to have next. */
  ghost predicate PrunesUnseen(tab: Table, base: seq<Event>, now: Instant) {
    forall run: seq<Event>, next: Event ::
      next.Peek? && Ordered(run + [next], now) && WithoutPrunes(run) <= base ==>
        Answers(tab, run + [next]) == Answers(tab, WithoutPrunes(run) + [next])
  }

  lemma {:induction false} WithoutPrunesAppend(run: seq<Event>, next: Event)
    requires !next.Prune?
    ensures WithoutPrunes(run + [next]) == WithoutPrunes(run) + [next]
  {
    if run == [] {
      WithoutPrunesCons(next, [], [next]);
      assert run + [next] == [next] && WithoutPrunes(run) + [next] == [next];
    } else {
      assert run + [next] == [run[0]] + (run[1..] + [next]);
      WithoutPrunesCons(run[0], run[1..] + [next], run + [next]);
      WithoutPrunesAppend(run[1..], next);
      assert [run[0]] + (WithoutPrunes(run[1..]) + [next]) == [run[0]] + WithoutPrunes(run[1..]) + [next];
    }
  }

  lemma {:induction false} WithoutPrunesOfPruneFree(run: seq<Event>)
    requires NoPrunes(run)
    ensures WithoutPrunes(run) == run
  {
    if run != [] {
      assert forall i :: 0 <= i < |run[1..]| ==> run[1..][i] == run[i + 1];
      WithoutPrunesOfPruneFree(run[1..]);
      assert run == [run[0]] + run[1..];
    }
  }

  /** Beginnings of a fresh run without revivals, followed by a look, are such runs. */
  lemma {:induction false} Beginnings(tab: Table, base: seq<Event>, part: seq<Event>, next: Event, used: set<string>)
    requires part <= base && next.Peek? && Fresh(base, used) && NoRevival(tab, base)
    ensures Fresh(part + [next], used) && NoRevival(tab, part + [next])
    decreases |part|
  {
    hide After, Revives;
    var all := part + [next];
    if part == [] {
      assert all == [next] && all[1..] == [];
      PeekRevivesNothing(tab, next);
    } else {
      var used' := used + if base[0].Login? then {base[0].token} else {};
      assert all[0] == base[0] && all[1..] == part[1..] + [next];
      Beginnings(After(tab, base[0]), base[1..], part[1..], next, used');
    }
  }

  lemma PeekRevivesNothing(tab: Table, e: Event)
    requires e.Peek?
    ensures !Revives(tab, e)
  {}

  /** One prune just before a reviving slide is seen by the next look at the token. */
  lemma RevivalIsSeen(tab: Table, slide: Event)
    requires Stored(tab) && Revives(tab, slide)
    ensures var next := Peek(slide.token, slide.at);
            Answers(tab, [Prune(slide.at), slide, next]) == [false] && Answers(tab, [slide, next]) == [true]
  {
    hide FmtTime, ParseTime, TextAtMost, Answers;
    var at, next := slide.at, Peek(slide.token, slide.at);
    PruneIsExact(tab, slide.token, at);
    StoredTimeReadsBack(slide.expires);
    var pruned := AfterPrune(tab, at);
    AnswersCons(tab, Prune(at), [slide, next], [Prune(at), slide, next]);
    AnswersCons(pruned, slide, [next], [slide, next]);
    AnswersCons(pruned, next, [], [next]);
    AnswersCons(tab, slide, [next], [slide, next]);
    AnswersCons(After(tab, slide), next, [], [next]);
  }

  /** A run with a revival has prunes that are seen. */
  lemma {:induction false} FindRevival(tab: Table, base: seq<Event>, now: Instant) returns (run: seq<Event>, next: Event)
    requires Stored(tab) && NoPrunes(base) && Ordered(base, now) && !NoRevival(tab, base)
    ensures next.Peek? && Ordered(run + [next], now) && WithoutPrunes(run) <= base
    ensures Answers(tab, run + [next]) != Answers(tab, WithoutPrunes(run) + [next])
    decreases |base|
  {
    hide After, Revives, Stored, Answers, Valid, AfterPrune;
    var e, rest := base[0], base[1..];
    if Revives(tab, e) {
      SlidesRevive(tab, e);
      run, next := [Prune(e.at), e], Peek(e.token, e.at);
      RevivalIsSeen(tab, e);
      WithoutPrunesCons(e, [], [e]);
      WithoutPrunesCons(Prune(e.at), [e], run);
      assert run + [next] == [Prune(e.at), e, next] && [e] + [next] == [e, next];
      assert WithoutPrunes(run) == [e] <= base;
      OrderedCons(next, [], now);
      OrderedCons(e, [next], e.at);
      OrderedCons(Prune(e.at), [e, next], now);
    } else {
      StoredAfter(tab, e);
      assert forall i :: 0 <= i < |rest| ==> rest[i] == base[i + 1];
      var run', next' := FindRevival(After(tab, e), rest, e.at);
      run, next := [e] + run', next';
      var part := WithoutPrunes(run');
      WithoutPrunesCons(e, run', run);
      assert base == [e] + rest;
      assert run + [next] == [e] + (run' + [next]) && ([e] + part) + [next] == [e] + (part + [next]);
      OrderedCons(e, run' + [next], now);
      AnswersCons(tab, e, run' + [next], run + [next]);
      AnswersCons(tab, e, part + [next], [e] + part + [next]);
      Cancel(Answer(tab, e), Answers(After(tab, e), run' + [next]), Answers(After(tab, e), part + [next]));
    }
  }

  lemma Cancel(a: seq<bool>, b: seq<bool>, c: seq<bool>)
    ensures a + b == a + c ==> b == c
  {
    assert (a + b)[|a|..] == b && (a + c)[|a|..] == c;
  }

  lemma SlidesRevive(tab: Table, e: Event)
    requires Revives(tab, e)
    ensures e.Slide?
  {}

  lemma OrderedCons(e: Event, rest: seq<Event>, now: Instant)
    ensures Ordered([e] + rest, now) <==> now <= e.at && Ordered(rest, e.at)
  {
    assert ([e] + rest)[1..] == rest;
  }

  /** For every fresh run of logins, checks, slides and logouts on a clock that never goes back:
      prunes in it go unseen if and only if no slide brings an expired session back. Visits that
      check and slide in one step are always in time. */
  lemma PrunesUnseenExactly(base: seq<Event>, now: Instant)
    requires NoPrunes(base) && Ordered(base, now) && Fresh(base, {})
    ensures PrunesUnseen(map[], base, now) <==> NoRevival(map[], base)
  {
    hide Answers, NoRevival, Fresh, WithoutPrunes, Ordered;
    if NoRevival(map[], base) {
      forall run: seq<Event>, next: Event | next.Peek? && Ordered(run + [next], now) && WithoutPrunes(run) <= base
        ensures Answers(map[], run + [next]) == Answers(map[], WithoutPrunes(run) + [next])
      {
        WithoutPrunesAppend(run, next);
        Beginnings(map[], base, WithoutPrunes(run), next, {});
        PruneIsInvisibleInTime(run + [next], now);
      }
    } else {
      var run, next := FindRevival(map[], base, now);
      assert Answers(map[], run + [next]) != Answers(map[], WithoutPrunes(run) + [next]);
    }
  }

  // ---------- the wrapper in one step and in two ----------

  predicate NoSlides(run: seq<Event>) {
    forall i :: 0 <= i < |run| ==> !run[i].Slide?
  }

  lemma {:induction false} VisitsAreInTime(tab: Table, run: seq<Event>)
    requires NoSlides(run)
    ensures NoRevival(tab, WithoutPrunes(run))
    decreases |run|
  {
    if run != [] {
      var rest := WithoutPrunes(run[1..]);
      assert ([run[0]] + rest)[1..] == rest;
      assert forall i :: 0 <= i < |run[1..]| ==> run[1..][i] == run[i + 1];
      VisitsAreInTime(tab, run[1..]);
      VisitsAreInTime(After(tab, run[0]), run[1..]);
    }
  }

  /** With the check and the slide of each visit in one step, prunes change no answer. */
  lemma PruneIsInvisible(run: seq<Event>, now: Instant)
    requires Ordered(run, now) && Fresh(WithoutPrunes(run), {}) && NoSlides(run)
    ensures Answers(map[], run) == Answers(map[], WithoutPrunes(run))
  {
    VisitsAreInTime(map[], run);
    PruneIsInvisibleInTime(run, now);
  }

  /** A visit is its check followed, when admitted, by its slide, with nothing in between; in two
      steps the same slide is in time as long as the session has not expired meanwhile. */
  lemma VisitIsCheckThenSlide(tab: Table, token: string, at: Instant, later: Instant, expires: Instant)
    requires at <= later
    ensures Answer(tab, Visit(token, at, expires)) == Answer(tab, Peek(token, at))
    ensures After(tab, Visit(token, at, expires)) ==
            if Valid(tab, token, at) then After(After(tab, Peek(token, at)), Slide(token, at, expires)) else tab
    ensures Valid(tab, token, at) ==>
              (Revives(After(tab, Peek(token, at)), Slide(token, later, expires)) <==>
               ParseTime(tab[token]) <= later < FloorSecond(expires) * SECOND)
  {
    hide FmtTime, ParseTime;
  }

  /** The run that shows it, for every lifetime of whole seconds: a prune at the expiry, between
      the check and the slide, loses the session that the slide would have kept. */
  lemma PruneBetweenCheckAndSlideIsSeen(s: Instant, ttl: nat)
    requires ttl > 0 && ttl % SECOND == 0 && s % SECOND == 0
    requires s + 2 * ttl < DAY_COUNT * DAY_SECONDS * SECOND
    ensures var run := [Login("t", s, s + ttl), Peek("t", s), Prune(s + ttl),
                        Slide("t", s + ttl, s + ttl + ttl), Peek("t", s + ttl)];
            Ordered(run, s) &&
            Answers(map[], run) == [true, true, false] &&
            Answers(map[], WithoutPrunes(run)) == [true, true, true]
  {
    hide FmtTime, ParseTime, TextAtMost, Answers, WithoutPrunes, Ordered, FloorSecond;
    var a, b, c, d, e := Login("t", s, s + ttl), Peek("t", s), Prune(s + ttl),
      Slide("t", s + ttl, s + ttl + ttl), Peek("t", s + ttl);
    var tab: Table := map["t" := FmtTime(s + ttl)];
    WholeSeconds(s, ttl);
    assert IsStored(tab, "t", s + ttl);
    StoredTimeReadsBack(s + ttl);
    assert Stored(tab);
    RevivalIsSeen(tab, d);
    LoginThenPeek(s, s + ttl, [c, d, e], [a, b, c, d, e]);
    LoginThenPeek(s, s + ttl, [d, e], [a, b, d, e]);
    WithoutPrunesCons(e, [], [e]);
    WithoutPrunesCons(d, [e], [d, e]);
    WithoutPrunesCons(c, [d, e], [c, d, e]);
    WithoutPrunesCons(b, [c, d, e], [b, c, d, e]);
    WithoutPrunesCons(a, [b, c, d, e], [a, b, c, d, e]);
    assert WithoutPrunes([a, b, c, d, e]) == [a, b, d, e];
    OrderedCons(e, [], s + ttl);
    OrderedCons(d, [e], s + ttl);
    OrderedCons(c, [d, e], s);
    OrderedCons(b, [c, d, e], s);
    OrderedCons(a, [b, c, d, e], s);
    assert [a] + [b, c, d, e] == [a, b, c, d, e] && [b] + [c, d, e] == [b, c, d, e];
    assert [c] + [d, e] == [c, d, e] && [d] + [e] == [d, e] && [e] + [] == [e];
    EmptyIsOrdered(s + ttl);
  }

  lemma EmptyIsOrdered(now: Instant)
    ensures Ordered([], now)
  {}

  predicate IsStored(tab: Table, token: string, t: Instant) {
    token in tab && tab[token] == FmtTime(t)
  }

  lemma WholeSeconds(s: Instant, ttl: nat)
    requires ttl % SECOND == 0 && s % SECOND == 0 && s + 2 * ttl < DAY_COUNT * DAY_SECONDS * SECOND
    ensures FloorSecond(s + ttl) * SECOND == s + ttl && FloorSecond(s + ttl + ttl) * SECOND == s + ttl + ttl
  {
    var k, l := s / SECOND, ttl / SECOND;
    hide FloorSecond;
    WholeSecond(k + l);
    WholeSecond(k + l + l);
  }

  lemma WholeSecond(n: nat)
    requires n < DAY_COUNT * DAY_SECONDS
    ensures FloorSecond(n * SECOND) == n
  {}

  /** A login and a look at the same instant, ahead of the rest of a run. */
  lemma LoginThenPeek(s: Instant, expires: Instant, rest: seq<Event>, run: seq<Event>)
    requires run == [Login("t", s, expires), Peek("t", s)] + rest
    requires ParseTime(FmtTime(expires)) > s
    ensures Answers(map[], run) == [true, true] + Answers(map["t" := FmtTime(expires)], rest)
  {
    hide FmtTime, ParseTime, Answers;
    var tab: Table := map["t" := FmtTime(expires)];
    var peek := Peek("t", s);
    AnswersCons(map[], Login("t", s, expires), [peek] + rest, run);
    AnswersCons(tab, peek, rest, [peek] + rest);
    assert [true] + ([true] + Answers(tab, rest)) == [true, true] + Answers(tab, rest);
  }

  lemma AnswersCons(tab: Table, e: Event, rest: seq<Event>, run: seq<Event>)
    requires run == [e] + rest
    ensures Answers(tab, run) == Answer(tab, e) + Answers(After(tab, e), rest)
    ensures Answers(tab, []) == []
  {
    assert ([e] + rest)[1..] == rest;
  }

  lemma WithoutPrunesCons(e: Event, rest: seq<Event>, run: seq<Event>)
    requires run == [e] + rest
    ensures WithoutPrunes(run) == if e.Prune? then WithoutPrunes(rest) else [e] + WithoutPrunes(rest)
    ensures WithoutPrunes([]) == []
  {
    assert ([e] + rest)[1..] == rest;
  }
}
