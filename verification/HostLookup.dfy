/**
  Looking up a host by name (ares_gethostbyname.c).  The lookup walks a string of methods, 'b'
  for DNS and 'f' for the hosts file, and makes DNS searches whose answers arrive one by one in
  later calls.  A search delivers exactly one answer; what it delivers, and what the hosts file
  says, is up to the environment.
 */
module HostLookup {
  import opened Wire

  datatype Family = AF_INET | AF_INET6 | AF_UNSPEC | AF_OTHER

  /** What a search delivers: its status, how often it timed out, and, if it succeeded, what the
      reply parser for the family that was asked for makes of the reply. */
  datatype Answer = Answer(status: Status, timeouts: int, parsed: Status)

  /** What a lookup does, in order.  Done is the call of the user's callback. */
  datatype Event =
    | Search(family: Family)
    | FileLookup(result: Status)
    | Done(status: Status, timeouts: int, host: bool)

  /** The environment: the answers of all searches and the results of all file lookups. */
  datatype Env = Env(answers: nat -> Answer, files: nat -> Status)

  // ----- the lookup in direct style

  /** An AAAA search that was of no use, so that an A search follows it. */
  predicate FallsBack(want: Family, ans: Answer) {
    want == AF_UNSPEC &&
    if ans.status == SUCCESS then ans.parsed in {ENODATA, EBADRESP}
    else ans.status in {ENODATA, EBADRESP, ETIMEOUT}
  }

  /** What an answer means to the user. */
  function StatusOf(ans: Answer): Status {
    if ans.status == SUCCESS then ans.parsed else ans.status
  }

  /** What a lookup does from the methods `lookups` on: `code` is the status to report when they
      are exhausted, `t` the timeouts so far, a and f count the searches and file lookups made. */
  function Resolve(env: Env, want: Family, lookups: string, code: Status, t: int, a: nat, f: nat): seq<Event>
    decreases |lookups|, 1
  {
    if lookups == "" then
      [Done(code, t, false)]
    else if lookups[0] == 'b' then
      if want == AF_INET6 || want == AF_UNSPEC then
        [Search(AF_INET6)] + React(env, want, AF_INET6, lookups[1..], t, a, f)
      else
        [Search(AF_INET)] + React(env, want, AF_INET, lookups[1..], t, a, f)
    else if lookups[0] == 'f' then
      [FileLookup(env.files(f))] +
      if env.files(f) == SUCCESS then [Done(SUCCESS, t, true)]
      else Resolve(env, want, lookups[1..], code, t, a, f + 1)
    else
      Resolve(env, want, lookups[1..], code, t, a, f)
  }

  /** What follows the answer to search number a. */
  function React(env: Env, want: Family, sent: Family, rest: string, t: int, a: nat, f: nat): seq<Event>
    decreases |rest|, if sent == AF_INET6 then 3 else 2
  {
    var ans := env.answers(a);
    var t' := t + ans.timeouts;
    if sent == AF_INET6 && FallsBack(want, ans) then
      [Search(AF_INET)] + React(env, want, AF_INET, rest, t', a + 1, f)
    else if ans.status == SUCCESS || ans.status == EDESTRUCTION then
      [Done(StatusOf(ans), t', StatusOf(ans) == SUCCESS)]
    else
      Resolve(env, want, rest, ans.status, t', a + 1, f)
  }

  // ----- what holds of every run

  function Searches(es: seq<Event>): nat {
    if es == [] then 0 else (if es[0].Search? then 1 else 0) + Searches(es[1..])
  }

  function FileLookups(es: seq<Event>): nat {
    if es == [] then 0 else (if es[0].FileLookup? then 1 else 0) + FileLookups(es[1..])
  }

  function Count(s: string, c: char): nat {
    if s == "" then 0 else (if s[0] == c then 1 else 0) + Count(s[1..], c)
  }

  function MostSearches(want: Family, slots: nat): nat {
    if want == AF_UNSPEC then 2 * slots else slots
  }

  /** The timeouts that n searches from number a on report. */
  function TimeoutSum(env: Env, a: nat, n: nat): int
    decreases n
  {
    if n == 0 then 0 else env.answers(a).timeouts + TimeoutSum(env, a + 1, n - 1)
  }

  /** The callback is called once, and nothing happens after it. */
  predicate CompletesOnce(es: seq<Event>) {
    |es| > 0 && es[|es| - 1].Done? && forall i :: 0 <= i < |es| - 1 ==> !es[i].Done?
  }

  /** An A search for a user who wants either family comes directly after an AAAA search; a user
      who wants one family gets searches for that family only. */
  predicate InOrder(before: Option<Event>, es: seq<Event>, want: Family)
    decreases es
  {
    es != [] ==>
      && (es[0] == Search(AF_INET) ==> want != AF_INET6 && (want == AF_UNSPEC ==> before == Some(Search(AF_INET6))))
      && (es[0] == Search(AF_INET6) ==> want == AF_INET6 || want == AF_UNSPEC)
      && (es[0].Search? ==> es[0].family == AF_INET || es[0].family == AF_INET6)
      && InOrder(Some(es[0]), es[1..], want)
  }

  /** The file lookup that ended the run, if one did. */
  predicate EndedByFile(es: seq<Event>) {
    |es| > 1 && es[|es| - 2] == FileLookup(SUCCESS)
  }

  /** What the callback reports after a run that began with status `code`, t timeouts and a
      searches: all timeouts, and unless a file lookup succeeded, the verdict of the very last
      search, or `code` when there was none. */
  predicate ReportsFairly(env: Env, es: seq<Event>, code: Status, t: int, a: nat)
    requires CompletesOnce(es)
  {
    var n, last := Searches(es), es[|es| - 1];
    && last.timeouts == t + TimeoutSum(env, a, n)
    && if EndedByFile(es) then last.status == SUCCESS && last.host
       else if n == 0 then last.status == code && !last.host
       else last.status == StatusOf(env.answers(a + n - 1)) && (last.host <==> last.status == SUCCESS)
  }

  lemma Prepended(e: Event, es: seq<Event>)
    requires !e.Done? && CompletesOnce(es)
    ensures CompletesOnce([e] + es) && ([e] + es)[|es|] == es[|es| - 1] && ([e] + es)[1..] == es
    ensures Searches([e] + es) == (if e.Search? then 1 else 0) + Searches(es)
    ensures FileLookups([e] + es) == (if e.FileLookup? then 1 else 0) + FileLookups(es)
    ensures EndedByFile([e] + es) <==> EndedByFile(es) || (|es| == 1 && e == FileLookup(SUCCESS))
  {
    var r := [e] + es;
    assert r[1..] == es;
    assert forall i :: 0 < i < |r| ==> r[i] == es[i - 1];
  }

  lemma PrependSearch(env: Env, e: Event, es: seq<Event>, code: Status, t: int, a: nat)
    requires e.Search? && CompletesOnce(es)
    requires ReportsFairly(env, es, StatusOf(env.answers(a)), t + env.answers(a).timeouts, a + 1)
    requires Searches(es) == 0 && !EndedByFile(es) ==> StatusOf(env.answers(a)) != SUCCESS
    ensures CompletesOnce([e] + es) && ReportsFairly(env, [e] + es, code, t, a)
    ensures Searches([e] + es) == 1 + Searches(es) && FileLookups([e] + es) == FileLookups(es)
  {
    Prepended(e, es);
  }

  lemma PrependFile(env: Env, r: Status, es: seq<Event>, code: Status, t: int, a: nat)
    requires r != SUCCESS && CompletesOnce(es) && ReportsFairly(env, es, code, t, a)
    ensures CompletesOnce([FileLookup(r)] + es) && ReportsFairly(env, [FileLookup(r)] + es, code, t, a)
    ensures Searches([FileLookup(r)] + es) == Searches(es) && FileLookups([FileLookup(r)] + es) == 1 + FileLookups(es)
  {
    Prepended(FileLookup(r), es);
  }

  lemma DoneInOrder(before: Option<Event>, d: Event, want: Family)
    requires d.Done?
    ensures InOrder(before, [d], want)
  {
    assert [d][1..] == [];
  }

  lemma JustDone(env: Env, d: Event, a: nat)
    requires d.Done?
    ensures CompletesOnce([d]) && Searches([d]) == 0 && FileLookups([d]) == 0
    ensures TimeoutSum(env, a, 0) == 0 && TimeoutSum(env, a, 1) == env.answers(a).timeouts
  {
    assert [d][1..] == [];
    assert TimeoutSum(env, a + 1, 0) == 0;
  }

  /** A search whose answer ends the lookup. */
  lemma LastSearch(env: Env, e: Event, code: Status, t: int, a: nat)
    requires e.Search?
    ensures var ans := env.answers(a);
            var es := [e] + [Done(StatusOf(ans), t + ans.timeouts, StatusOf(ans) == SUCCESS)];
            CompletesOnce(es) && ReportsFairly(env, es, code, t, a) && Searches(es) == 1
  {
    var ans := env.answers(a);
    var d := Done(StatusOf(ans), t + ans.timeouts, StatusOf(ans) == SUCCESS);
    JustDone(env, d, a);
    Prepended(e, [d]);
  }

  predicate Inet(want: Family) {
    want == AF_INET || want == AF_INET6 || want == AF_UNSPEC
  }

  /** The runs of one slot of the lookup string: a search and everything after it. */
  lemma {:induction false} SlotRun(env: Env, want: Family, sent: Family, rest: string, code: Status, t: int, a: nat,
                                   f: nat)
    requires Inet(want)
    requires sent == AF_INET || sent == AF_INET6
    ensures var es := [Search(sent)] + React(env, want, sent, rest, t, a, f);
            CompletesOnce(es) && ReportsFairly(env, es, code, t, a) && Searches(es) >= 1
    decreases |rest|, if sent == AF_INET6 then 3 else 2
  {
    hide CompletesOnce, ReportsFairly, Searches, EndedByFile, FileLookups, TimeoutSum, Resolve, FallsBack;
    var ans := env.answers(a);
    var t' := t + ans.timeouts;
    var after := React(env, want, sent, rest, t, a, f);
    if sent == AF_INET6 && FallsBack(want, ans) {
      SlotRun(env, want, AF_INET, rest, StatusOf(ans), t', a + 1, f);
      PrependSearch(env, Search(sent), after, code, t, a);
    } else if ans.status == SUCCESS || ans.status == EDESTRUCTION {
      LastSearch(env, Search(sent), code, t, a);
    } else {
      ResolveRun(env, want, rest, ans.status, t', a + 1, f);
      PrependSearch(env, Search(sent), after, code, t, a);
    }
  }

  /** Every run of a lookup, whatever the environment does, calls the callback exactly once, as
      its last action, and reports what ReportsFairly says. */
  lemma {:induction false} ResolveRun(env: Env, want: Family, lookups: string, code: Status, t: int, a: nat, f: nat)
    requires Inet(want)
    ensures var es := Resolve(env, want, lookups, code, t, a, f);
            CompletesOnce(es) && ReportsFairly(env, es, code, t, a)
    decreases |lookups|, 1
  {
    var es := Resolve(env, want, lookups, code, t, a, f);
    if lookups == "" {
      JustDone(env, es[0], a);
    } else if lookups[0] == 'b' {
      SlotRun(env, want, if want == AF_INET then AF_INET else AF_INET6, lookups[1..], code, t, a, f);
    } else if lookups[0] == 'f' {
      if env.files(f) == SUCCESS {
        JustDone(env, Done(SUCCESS, t, true), a);
        Prepended(es[0], [Done(SUCCESS, t, true)]);
      } else {
        ResolveRun(env, want, lookups[1..], code, t, a, f + 1);
        PrependFile(env, env.files(f), Resolve(env, want, lookups[1..], code, t, a, f + 1), code, t, a);
      }
    } else {
      ResolveRun(env, want, lookups[1..], code, t, a, f);
    }
  }

  lemma ResolveStep(env: Env, want: Family, lookups: string, code: Status, t: int, a: nat, f: nat)
    ensures lookups == "" ==> Resolve(env, want, lookups, code, t, a, f) == [Done(code, t, false)]
    ensures lookups != "" && lookups[0] == 'b' ==>
              var sent := if want == AF_INET6 || want == AF_UNSPEC then AF_INET6 else AF_INET;
              Resolve(env, want, lookups, code, t, a, f) ==
                [Search(sent)] + React(env, want, sent, lookups[1..], t, a, f)
    ensures lookups != "" && lookups[0] == 'f' ==>
              Resolve(env, want, lookups, code, t, a, f) ==
                [FileLookup(env.files(f))] +
                if env.files(f) == SUCCESS then [Done(SUCCESS, t, true)]
                else Resolve(env, want, lookups[1..], code, t, a, f + 1)
    ensures lookups != "" && lookups[0] != 'b' && lookups[0] != 'f' ==>
              Resolve(env, want, lookups, code, t, a, f) == Resolve(env, want, lookups[1..], code, t, a, f)
  {
  }

  /** At most one search a 'b' for one family and two for either, one file lookup an 'f'; and the
      families are searched in order. */
  lemma {:induction false} ResolveAccounts(env: Env, want: Family, lookups: string, code: Status, t: int, a: nat,
                                           f: nat,
                                           before: Option<Event>)
    requires Inet(want)
    ensures var es := Resolve(env, want, lookups, code, t, a, f);
            && Searches(es) <= MostSearches(want, Count(lookups, 'b'))
            && FileLookups(es) <= Count(lookups, 'f')
            && InOrder(before, es, want)
    decreases |lookups|, 1
  {
    hide React, Resolve;
    ResolveStep(env, want, lookups, code, t, a, f);
    var es := Resolve(env, want, lookups, code, t, a, f);
    if lookups == "" {
      JustDone(env, es[0], a);
      DoneInOrder(before, es[0], want);
    } else if lookups[0] == 'b' {
      var sent := if want == AF_INET then AF_INET else AF_INET6;
      var after := React(env, want, sent, lookups[1..], t, a, f);
      assert es == [Search(sent)] + after && es[1..] == after;
      ReactAccounts(env, want, sent, lookups[1..], t, a, f);
    } else if lookups[0] == 'f' {
      if env.files(f) == SUCCESS {
        JustDone(env, Done(SUCCESS, t, true), a);
        Prepended(es[0], [Done(SUCCESS, t, true)]);
        assert es[1..] == [Done(SUCCESS, t, true)];
        DoneInOrder(Some(es[0]), Done(SUCCESS, t, true), want);
      } else {
        assert es[1..] == Resolve(env, want, lookups[1..], code, t, a, f + 1);
        ResolveAccounts(env, want, lookups[1..], code, t, a, f + 1, Some(es[0]));
      }
    } else {
      ResolveAccounts(env, want, lookups[1..], code, t, a, f, before);
    }
  }

  lemma {:induction false} ReactAccounts(env: Env, want: Family, sent: Family, rest: string, t: int, a: nat, f: nat)
    requires Inet(want)
    requires sent == AF_INET || sent == AF_INET6
    ensures var es := React(env, want, sent, rest, t, a, f);
            && Searches(es) <= MostSearches(want, Count(rest, 'b'))
                               + (if want == AF_UNSPEC && sent == AF_INET6 then 1 else 0)
            && FileLookups(es) <= Count(rest, 'f')
            && InOrder(Some(Search(sent)), es, want)
    decreases |rest|, if sent == AF_INET6 then 3 else 2
  {
    var ans := env.answers(a);
    var t' := t + ans.timeouts;
    var es := React(env, want, sent, rest, t, a, f);
    if sent == AF_INET6 && FallsBack(want, ans) {
      assert es[1..] == React(env, want, AF_INET, rest, t', a + 1, f);
      ReactAccounts(env, want, AF_INET, rest, t', a + 1, f);
    } else if ans.status == SUCCESS || ans.status == EDESTRUCTION {
      assert es[1..] == [];
    } else {
      ResolveAccounts(env, want, rest, ans.status, t', a + 1, f, Some(Search(sent)));
    }
  }

  // ----- a run told from its past

  /** The lookups that mean something. */
  function Methods(lookups: string): (ms: string)
    ensures forall c :: c in ms ==> c == 'b' || c == 'f'
  {
    if lookups == "" then ""
    else (if lookups[0] == 'b' || lookups[0] == 'f' then [lookups[0]] else "") + Methods(lookups[1..])
  }

  /** How many of them are used up: a lookup of the hosts file, an AAAA search, or an A search when
      only IPv4 is wanted, takes one; an A search after an AAAA search takes none. */
  function Used(want: Family, past: seq<Event>): nat {
    if past == [] then 0
    else
      var e := past[|past| - 1];
      Used(want, past[..|past| - 1]) +
      if e.FileLookup? || e == Search(AF_INET6) || (e == Search(AF_INET) && want == AF_INET) then 1 else 0
  }

  /** The next method, or the end when there is none: with the status of the last search, or that
      of a refused connection when there was no search. */
  function MovesOn(env: Env, want: Family, ms: string, past: seq<Event>): Event {
    var used, n := Used(want, past), Searches(past);
    if used < |ms| && ms[used] == 'f' then FileLookup(env.files(FileLookups(past)))
    else if used < |ms| then Search(if want == AF_INET then AF_INET else AF_INET6)
    else Done(if n == 0 then ECONNREFUSED else env.answers(n - 1).status, TimeoutSum(env, 0, n), false)
  }

  /** What a lookup does next, as far as its past tells: the answers to its searches and the
      results of its file lookups so far decide. */
  function Expected(env: Env, want: Family, ms: string, past: seq<Event>): Event {
    if past == [] then MovesOn(env, want, ms, past)
    else
      var last, n := past[|past| - 1], Searches(past);
      if last == FileLookup(SUCCESS) then Done(SUCCESS, TimeoutSum(env, 0, n), true)
      else if last.Search? && n > 0 then
        var ans := env.answers(n - 1);
        if && last.family == AF_INET6 && want == AF_UNSPEC
           && (ans.status == ENODATA || ans.status == EBADRESP || ans.status == ETIMEOUT
               || (ans.status == SUCCESS && (ans.parsed == ENODATA || ans.parsed == EBADRESP)))
        then Search(AF_INET)
        else if ans.status == SUCCESS then Done(ans.parsed, TimeoutSum(env, 0, n), ans.parsed == SUCCESS)
        else if ans.status == EDESTRUCTION then Done(EDESTRUCTION, TimeoutSum(env, 0, n), false)
        else MovesOn(env, want, ms, past)
      else MovesOn(env, want, ms, past)
  }

  /** Every event is what the events before it make one expect, and the run ends with the call of
      the callback. */
  predicate AsExpected(env: Env, want: Family, ms: string, trace: seq<Event>) {
    && (forall i :: 0 <= i < |trace| ==> trace[i] == Expected(env, want, ms, trace[..i]))
    && CompletesOnce(trace)
  }

  /** The same from some point on. */
  predicate GoesOn(env: Env, want: Family, ms: string, past: seq<Event>, es: seq<Event>)
    decreases |es|
  {
    es != [] ==> es[0] == Expected(env, want, ms, past) && GoesOn(env, want, ms, past + [es[0]], es[1..])
  }

  lemma {:induction false} GoesOnAt(env: Env, want: Family, ms: string, past: seq<Event>, es: seq<Event>, i: nat)
    requires GoesOn(env, want, ms, past, es) && i < |es|
    ensures es[i] == Expected(env, want, ms, past + es[..i])
    decreases i
  {
    hide Expected;
    if i == 0 {
      assert past + es[..0] == past;
    } else {
      GoesOnAt(env, want, ms, past + [es[0]], es[1..], i - 1);
      assert past + [es[0]] + es[1..][..i - 1] == past + es[..i];
    }
  }

  lemma {:induction false} CountsSnoc(es: seq<Event>, e: Event)
    ensures Searches(es + [e]) == Searches(es) + if e.Search? then 1 else 0
    ensures FileLookups(es + [e]) == FileLookups(es) + if e.FileLookup? then 1 else 0
  {
    if es == [] {
      assert ([] + [e])[1..] == [];
    } else {
      CountsSnoc(es[1..], e);
      assert (es + [e])[1..] == es[1..] + [e];
    }
  }

  lemma {:induction false} SumSnoc(env: Env, a: nat, n: nat)
    ensures TimeoutSum(env, a, n + 1) == TimeoutSum(env, a, n) + env.answers(a + n).timeouts
    decreases n
  {
    if n == 0 {
      assert TimeoutSum(env, a + 1, 0) == 0;
    } else {
      SumSnoc(env, a + 1, n - 1);
    }
  }

  lemma PastAndNow(env: Env, want: Family, past: seq<Event>, e: Event)
    ensures (past + [e])[|past|] == e
    ensures Searches(past + [e]) == Searches(past) + if e.Search? then 1 else 0
    ensures FileLookups(past + [e]) == FileLookups(past) + if e.FileLookup? then 1 else 0
    ensures Used(want, past + [e]) ==
              Used(want, past) +
              if e.FileLookup? || e == Search(AF_INET6) || (e == Search(AF_INET) && want == AF_INET) then 1 else 0
    ensures TimeoutSum(env, 0, Searches(past) + 1) ==
              TimeoutSum(env, 0, Searches(past)) + env.answers(Searches(past)).timeouts
  {
    hide Searches, FileLookups, TimeoutSum;
    assert (past + [e])[..|past|] == past;
    CountsSnoc(past, e);
    SumSnoc(env, 0, Searches(past));
  }

  /** What a point of a run has in common with its past. */
  predicate Reached(env: Env, want: Family, ms: string, past: seq<Event>, rest: string, t: int, a: nat, f: nat) {
    && Searches(past) == a && FileLookups(past) == f && TimeoutSum(env, 0, a) == t
    && Used(want, past) <= |ms| && ms[Used(want, past)..] == Methods(rest)
  }

  lemma Skips(rest: string)
    requires rest != ""
    ensures Methods(rest) == (if rest[0] == 'b' || rest[0] == 'f' then [rest[0]] else "") + Methods(rest[1..])
    ensures Methods("") == ""
  {
  }

  lemma NoMethods()
    ensures Methods("") == ""
  {
  }

  lemma EndsHere(env: Env, want: Family, ms: string, past: seq<Event>, d: Event)
    requires d == Expected(env, want, ms, past)
    ensures GoesOn(env, want, ms, past, [d])
  {
    assert [d][1..] == [];
  }

  lemma ExpectedAfterFile(env: Env, want: Family, ms: string, past: seq<Event>, e: Event)
    requires e.FileLookup?
    ensures Expected(env, want, ms, past + [e]) ==
              if e.result == SUCCESS then Done(SUCCESS, TimeoutSum(env, 0, Searches(past)), true)
              else MovesOn(env, want, ms, past + [e])
  {
    PastAndNow(env, want, past, e);
  }

  lemma FallsBackMeaning(want: Family, ans: Answer)
    ensures FallsBack(want, ans) <==>
              && want == AF_UNSPEC
              && (ans.status == ENODATA || ans.status == EBADRESP || ans.status == ETIMEOUT
                  || (ans.status == SUCCESS && (ans.parsed == ENODATA || ans.parsed == EBADRESP)))
  {
  }

  lemma ExpectedAfterSearch(env: Env, want: Family, ms: string, past: seq<Event>, sent: Family)
    ensures var ans, now := env.answers(Searches(past)), past + [Search(sent)];
            Expected(env, want, ms, now) ==
              if sent == AF_INET6 && FallsBack(want, ans) then Search(AF_INET)
              else if ans.status == SUCCESS || ans.status == EDESTRUCTION then
                Done(StatusOf(ans), TimeoutSum(env, 0, Searches(past) + 1), StatusOf(ans) == SUCCESS)
              else MovesOn(env, want, ms, now)
  {
    hide MovesOn, TimeoutSum, Searches, FallsBack, FileLookups, Used;
    PastAndNow(env, want, past, Search(sent));
    FallsBackMeaning(want, env.answers(Searches(past)));
  }

  lemma ReactStep(env: Env, want: Family, sent: Family, rest: string, t: int, a: nat, f: nat)
    ensures var ans, t' := env.answers(a), t + env.answers(a).timeouts;
            React(env, want, sent, rest, t, a, f) ==
              if sent == AF_INET6 && FallsBack(want, ans) then
                [Search(AF_INET)] + React(env, want, AF_INET, rest, t', a + 1, f)
              else if ans.status == SUCCESS || ans.status == EDESTRUCTION then
                [Done(StatusOf(ans), t', StatusOf(ans) == SUCCESS)]
              else Resolve(env, want, rest, ans.status, t', a + 1, f)
  {
  }

  lemma {:induction false} ReactGoesOn(env: Env, want: Family, ms: string, now: seq<Event>, sent: Family, rest: string,
                                       t: int, a: nat, f: nat)
    requires Inet(want) && (sent == AF_INET || sent == AF_INET6) && now != [] && now[|now| - 1] == Search(sent)
    requires Reached(env, want, ms, now, rest, t + env.answers(a).timeouts, a + 1, f)
    ensures GoesOn(env, want, ms, now, React(env, want, sent, rest, t, a, f))
    decreases |rest|, if sent == AF_INET6 then 3 else 2
  {
    hide Expected, Resolve, React, Searches, FileLookups, Used, TimeoutSum, Methods, MovesOn, FallsBack, StatusOf;
    var past := now[..|now| - 1];
    assert now == past + [Search(sent)];
    ReactStep(env, want, sent, rest, t, a, f);
    PastAndNow(env, want, past, Search(sent));
    ExpectedAfterSearch(env, want, ms, past, sent);
    var es := React(env, want, sent, rest, t, a, f);
    var ans, t' := env.answers(a), t + env.answers(a).timeouts;
    if sent == AF_INET6 && FallsBack(want, ans) {
      FallsBackMeaning(want, ans);
      PastAndNow(env, want, now, Search(AF_INET));
      ReactGoesOn(env, want, ms, now + [Search(AF_INET)], AF_INET, rest, t', a + 1, f);
      assert es[1..] == React(env, want, AF_INET, rest, t', a + 1, f);
    } else if ans.status == SUCCESS || ans.status == EDESTRUCTION {
      EndsHere(env, want, ms, now, Done(StatusOf(ans), t', StatusOf(ans) == SUCCESS));
    } else {
      ResolveGoesOn(env, want, ms, now, rest, ans.status, t', a + 1, f);
    }
  }

  lemma {:induction false} ResolveGoesOn(env: Env, want: Family, ms: string, past: seq<Event>, rest: string,
                                         code: Status, t: int, a: nat, f: nat)
    requires Inet(want) && Reached(env, want, ms, past, rest, t, a, f)
    requires code == if a == 0 then ECONNREFUSED else env.answers(a - 1).status
    requires Expected(env, want, ms, past) == MovesOn(env, want, ms, past)
    ensures GoesOn(env, want, ms, past, Resolve(env, want, rest, code, t, a, f))
    decreases |rest|, 1
  {
    hide Expected, Resolve, React, Searches, FileLookups, Used, TimeoutSum, Methods;
    ResolveStep(env, want, rest, code, t, a, f);
    var es := Resolve(env, want, rest, code, t, a, f);
    var used := Used(want, past);
    if rest == "" {
      NoMethods();
    } else {
      Skips(rest);
      if rest[0] == 'b' {
        assert ms[used..][0] == 'b' && ms[used + 1..] == ms[used..][1..];
        var sent := if want == AF_INET then AF_INET else AF_INET6;
        PastAndNow(env, want, past, Search(sent));
        ReactGoesOn(env, want, ms, past + [Search(sent)], sent, rest[1..], t, a, f);
        assert es[1..] == React(env, want, sent, rest[1..], t, a, f);
      } else if rest[0] == 'f' {
        assert ms[used..][0] == 'f' && ms[used + 1..] == ms[used..][1..];
        var e := FileLookup(env.files(f));
        PastAndNow(env, want, past, e);
        ExpectedAfterFile(env, want, ms, past, e);
        if env.files(f) == SUCCESS {
          assert es[1..] == [Done(SUCCESS, t, true)];
          EndsHere(env, want, ms, past + [e], Done(SUCCESS, t, true));
        } else {
          ResolveGoesOn(env, want, ms, past + [e], rest[1..], code, t, a, f + 1);
          assert es[1..] == Resolve(env, want, rest[1..], code, t, a, f + 1);
        }
      } else {
        ResolveGoesOn(env, want, ms, past, rest[1..], code, t, a, f);
      }
    }
  }

  /** Every whole run is as its past makes one expect, all along. */
  lemma WholeRun(env: Env, want: Family, lookups: string)
    requires Inet(want)
    ensures AsExpected(env, want, Methods(lookups), Resolve(env, want, lookups, ECONNREFUSED, 0, 0, 0))
  {
    hide Resolve, Methods, GoesOn, CompletesOnce, ReportsFairly;
    var es, ms := Resolve(env, want, lookups, ECONNREFUSED, 0, 0, 0), Methods(lookups);
    ResolveRun(env, want, lookups, ECONNREFUSED, 0, 0, 0);
    ResolveGoesOn(env, want, ms, [], lookups, ECONNREFUSED, 0, 0, 0);
    forall i | 0 <= i < |es| ensures es[i] == Expected(env, want, ms, es[..i]) {
      GoesOnAt(env, want, ms, [], es, i);
      assert [] + es[..i] == es[..i];
    }
  }

  /** What follows a search, by position: an A search after an AAAA search exactly if either family
      is wanted and the answer was of no use, the end exactly if the answer settles the lookup or
      no method is left, and otherwise the next method. */
  lemma AfterSearch(env: Env, want: Family, ms: string, trace: seq<Event>, i: nat)
    requires Inet(want) && AsExpected(env, want, ms, trace) && i < |trace| && trace[i].Search?
    ensures i + 1 < |trace|
    ensures var ans, used := env.answers(Searches(trace[..i])), Used(want, trace[..i + 1]);
            var useless := ans.status in {ENODATA, EBADRESP, ETIMEOUT}
                           || (ans.status == SUCCESS && ans.parsed in {ENODATA, EBADRESP});
            var settled := ans.status == SUCCESS || ans.status == EDESTRUCTION;
            if trace[i].family == AF_INET6 && want == AF_UNSPEC && useless then trace[i + 1] == Search(AF_INET)
            else
              && !(trace[i].family == AF_INET6 && trace[i + 1] == Search(AF_INET))
              && (trace[i + 1].Done? <==> settled || used >= |ms|)
              && (settled ==> trace[i + 1].status == if ans.status == SUCCESS then ans.parsed else EDESTRUCTION)
              && (!settled && used < |ms| ==>
                    if ms[used] == 'f' then trace[i + 1].FileLookup?
                    else trace[i + 1] == Search(if want == AF_INET then AF_INET else AF_INET6))
  {
    hide Searches, Used, FileLookups, TimeoutSum;
    var e, past := trace[i], trace[..i];
    assert e == Expected(env, want, ms, past);
    assert trace[..i + 1] == past + [e];
    PastAndNow(env, want, past, e);
    assert trace[i + 1] == Expected(env, want, ms, past + [e]);
  }

  // ----- the step machine

  lemma Reassociate(es: seq<Event>, e: Event, rest: seq<Event>)
    ensures es + ([e] + rest) == es + [e] + rest
  {
  }

  /** struct host_query, with a record of what it has done. */
  class HostQuery {
    const wantFamily: Family
    var sentFamily: Option<Family>
    var remaining: string
    var timeouts: int

    var trace: seq<Event>
    var asked: nat
    var fileLookups: nat

    constructor (want: Family, lookups: string)
      ensures wantFamily == want && sentFamily == None && remaining == lookups && timeouts == 0
      ensures trace == [] && asked == 0 && fileLookups == 0
    {
      wantFamily, sentFamily, remaining, timeouts := want, None, lookups, 0;
      trace, asked, fileLookups := [], 0, 0;
    }

    predicate Ended()
      reads this
    {
      trace != [] && trace[|trace| - 1].Done?
    }

    /** A search is under way whose answer will be delivered. */
    predicate Pending()
      reads this
    {
      && trace != [] && trace[|trace| - 1].Search? && sentFamily == Some(trace[|trace| - 1].family) && asked > 0
      && (sentFamily == Some(AF_INET) || sentFamily == Some(AF_INET6))
    }

    /** What is still to come. */
    ghost function Future(env: Env): seq<Event>
      reads this
    {
      if Pending() then React(env, wantFamily, sentFamily.value, remaining, timeouts, asked - 1, fileLookups) else []
    }

    predicate CanFallBack()
      reads this
    {
      sentFamily == Some(AF_INET6) && wantFamily == AF_UNSPEC
    }

    method StartSearch(family: Family)
      requires family == AF_INET || family == AF_INET6
      modifies this`sentFamily, this`trace, this`asked
      ensures sentFamily == Some(family) && trace == old(trace) + [Search(family)] && asked == old(asked) + 1
      ensures Pending()
    {
      sentFamily := Some(family);
      trace, asked := trace + [Search(family)], asked + 1;
    }

    /** end_hquery: the user's callback, after which the record is freed. */
    method EndHquery(status: Status, host: bool)
      requires !Ended()
      modifies this`trace
      ensures trace == old(trace) + [Done(status, timeouts, host)] && Ended()
    {
      trace := trace + [Done(status, timeouts, host)];
    }

    /** next_lookup: goes on with the remaining lookups until one of them answers or has to wait. */
    method NextLookup(env: Env, statusCode: Status)
      requires Inet(wantFamily) && !Ended()
      modifies this
      ensures Ended() || Pending()
      ensures Pending() ==> |remaining| < |old(remaining)|
      ensures trace + Future(env) ==
                old(trace) + old(Resolve(env, wantFamily, remaining, statusCode, timeouts, asked, fileLookups))
    {
      hide React, Resolve;
      ghost var all := trace + Resolve(env, wantFamily, remaining, statusCode, timeouts, asked, fileLookups);
      var p := remaining;
      while p != ""
        invariant !Ended() && |p| <= |remaining| && remaining == old(remaining)
        invariant all == trace + Resolve(env, wantFamily, p, statusCode, timeouts, asked, fileLookups)
        decreases |p|
      {
        ghost var before := trace;
        ResolveStep(env, wantFamily, p, statusCode, timeouts, asked, fileLookups);
        if p[0] == 'b' {
          remaining := p[1..];
          StartSearch(if wantFamily == AF_INET6 || wantFamily == AF_UNSPEC then AF_INET6 else AF_INET);
          Reassociate(before, trace[|before|], Future(env));
          return;
        } else if p[0] == 'f' {
          var status := env.files(fileLookups);
          trace, fileLookups := trace + [FileLookup(status)], fileLookups + 1;
          if status == SUCCESS {
            EndHquery(SUCCESS, true);
            Reassociate(before, FileLookup(status), [Done(SUCCESS, timeouts, true)]);
            return;
          }
          Reassociate(before, FileLookup(status),
                      Resolve(env, wantFamily, p[1..], statusCode, timeouts, asked, fileLookups));
        }
        p := p[1..];
      }
      ResolveStep(env, wantFamily, "", statusCode, timeouts, asked, fileLookups);
      EndHquery(statusCode, false);
    }

    /** host_callback: the answer of the search that is under way. */
    method HostCallback(env: Env)
      requires Inet(wantFamily) && Pending()
      modifies this
      ensures Ended() || Pending()
      ensures Pending() ==> |remaining| < |old(remaining)|
                            || (remaining == old(remaining) && old(CanFallBack()) && !CanFallBack())
      ensures trace + Future(env) == old(trace) + old(Future(env))
    {
      hide React, Resolve;
      ghost var before := trace;
      ReactStep(env, wantFamily, sentFamily.value, remaining, timeouts, asked - 1, fileLookups);
      var answer := env.answers(asked - 1);
      var status, host := answer.status, false;
      timeouts := timeouts + answer.timeouts;
      if status == SUCCESS {
        if sentFamily == Some(AF_INET) {
          status := answer.parsed;
          host := status == SUCCESS;
        } else if sentFamily == Some(AF_INET6) {
          status := answer.parsed;
          if (status == ENODATA || status == EBADRESP) && wantFamily == AF_UNSPEC {
            StartSearch(AF_INET);
            Reassociate(before, Search(AF_INET), Future(env));
            return;
          }
          host := status == SUCCESS;
        }
        EndHquery(status, host);
      } else if (status == ENODATA || status == EBADRESP || status == ETIMEOUT)
                && sentFamily == Some(AF_INET6) && wantFamily == AF_UNSPEC {
        StartSearch(AF_INET);
        Reassociate(before, Search(AF_INET), Future(env));
      } else if status == EDESTRUCTION {
        EndHquery(status, false);
      } else {
        NextLookup(env, status);
      }
    }
  }

  // ----- whole lookups

  function Periods(name: string): nat {
    if name == "" then 0 else (if name[0] == '.' then 1 else 0) + Periods(name[1..])
  }

  predicate DigitsAndPeriods(s: string) {
    forall i :: 0 <= i < |s| ==> '0' <= s[i] <= '9' || s[i] == '.'
  }

  /** Digits and periods only, with exactly three periods. */
  predicate DottedQuad(name: string) {
    Periods(name) == 3 && DigitsAndPeriods(name)
  }

  predicate Digits(s: string) {
    forall i :: 0 <= i < |s| ==> '0' <= s[i] <= '9'
  }

  lemma {:induction false} NoPeriods(s: string)
    requires DigitsAndPeriods(s)
    ensures Digits(s) <==> Periods(s) == 0
  {
    if s != "" {
      NoPeriods(s[1..]);
      assert s == [s[0]] + s[1..];
    }
  }

  lemma {:induction false} PeriodsConcat(s: string, t: string)
    ensures Periods(s + t) == Periods(s) + Periods(t)
  {
    if s == "" {
      assert "" + t == t;
    } else {
      PeriodsConcat(s[1..], t);
      assert (s + t)[1..] == s[1..] + t;
    }
  }

  /** Digits up to the first period, and what follows it. */
  lemma {:induction false} FirstPeriod(s: string) returns (a: string, rest: string)
    requires Periods(s) > 0 && DigitsAndPeriods(s)
    ensures Digits(a) && s == a + "." + rest && Periods(rest) == Periods(s) - 1 && DigitsAndPeriods(rest)
  {
    if s[0] == '.' {
      return "", s[1..];
    }
    var b;
    b, rest := FirstPeriod(s[1..]);
    a := [s[0]] + b;
  }

  lemma OnePeriod()
    ensures Periods(".") == 1
  {
    assert "."[1..] == "";
  }

  predicate IsQuad(name: string, a: string, b: string, c: string, d: string) {
    Digits(a) && Digits(b) && Digits(c) && Digits(d) && name == a + "." + b + "." + c + "." + d
  }

  lemma QuadHasPeriods(name: string, a: string, b: string, c: string, d: string)
    requires IsQuad(name, a, b, c, d)
    ensures DottedQuad(name)
  {
    hide Periods;
    NoPeriods(a);
    NoPeriods(b);
    NoPeriods(c);
    NoPeriods(d);
    OnePeriod();
    PeriodsConcat(a + "." + b + "." + c + ".", d);
    PeriodsConcat(a + "." + b + "." + c, ".");
    PeriodsConcat(a + "." + b + ".", c);
    PeriodsConcat(a + "." + b, ".");
    PeriodsConcat(a + ".", b);
    PeriodsConcat(a, ".");
  }

  lemma QuadSplits(name: string) returns (a: string, b: string, c: string, d: string)
    requires DottedQuad(name)
    ensures IsQuad(name, a, b, c, d)
  {
    hide Periods, Digits;
    var r1, r2;
    a, r1 := FirstPeriod(name);
    b, r2 := FirstPeriod(r1);
    c, d := FirstPeriod(r2);
    NoPeriods(d);
    assert name == a + "." + b + "." + c + "." + d;
  }

  /** Such a name consists of four strings of digits, possibly empty, between periods. */
  lemma QuadMeaning(name: string)
    ensures DottedQuad(name) <==> exists a, b, c, d :: IsQuad(name, a, b, c, d)
  {
    hide DottedQuad, IsQuad;
    if DottedQuad(name) {
      var a, b, c, d := QuadSplits(name);
    }
    if a, b, c, d :| IsQuad(name, a, b, c, d) {
      QuadHasPeriods(name, a, b, c, d);
    }
  }

  /** A name that is an address literal is not looked up.  v4 and v6 tell whether the platform's
      address parsers accept it. */
  predicate Literal(name: string, family: Family, v4: bool, v6: bool) {
    (family == AF_INET || family == AF_INET6) && ((DottedQuad(name) && v4) || (family == AF_INET6 && v6))
  }

  /** For IPv4 only quads are literals; for IPv6 quads and IPv6 addresses are; for either, none. */
  lemma LiteralMeaning(name: string, family: Family, v4: bool, v6: bool)
    ensures Literal(name, family, v4, v6) <==>
              || (family == AF_INET && v4 && exists a, b, c, d :: IsQuad(name, a, b, c, d))
              || (family == AF_INET6 && (v6 || (v4 && exists a, b, c, d :: IsQuad(name, a, b, c, d))))
  {
    hide DottedQuad, IsQuad;
    QuadMeaning(name);
  }

  lemma PeriodsSnoc(name: string, c: char)
    ensures Periods(name + [c]) == Periods(name) + if c == '.' then 1 else 0
  {
    if name == "" {
      assert ("" + [c])[1..] == "";
    } else {
      PeriodsSnoc(name[1..], c);
      assert (name + [c])[1..] == name[1..] + [c];
    }
  }

  /** fake_hostent, as far as it decides whether the name is a literal. */
  method FakeHostent(name: string, family: Family, v4: bool, v6: bool) returns (result: bool)
    ensures result <==> Literal(name, family, v4, v6)
  {
    result := false;
    var fam := family;
    if fam == AF_INET || fam == AF_INET6 {
      var numdots, valid, p := 0, true, 0;
      while p < |name|
        invariant p <= |name| && valid && numdots == Periods(name[..p])
        invariant forall i :: 0 <= i < p ==> '0' <= name[i] <= '9' || name[i] == '.'
      {
        if !('0' <= name[p] <= '9') && name[p] != '.' {
          valid := false;
          break;
        } else if name[p] == '.' {
          numdots := numdots + 1;
        }
        PeriodsSnoc(name[..p], name[p]);
        assert name[..p + 1] == name[..p] + [name[p]];
        p := p + 1;
      }
      assert valid ==> name[..p] == name;
      result := numdots == 3 && valid && v4;
      if result {
        fam := AF_INET;
      }
    }
    if fam == AF_INET6 {
      result := v6;
    }
  }

  /** A whole lookup as the user sees it, from ares_gethostbyname to the callback: the searches
      that it starts are answered one after the other.  That it ends is part of the statement:
      each answer uses up a 'b' of the lookup string or the one fallback to A. */
  method GetHostByName(name: string, family: Family, lookups: string, env: Env, v4: bool, v6: bool)
      returns (trace: seq<Event>)
    ensures family == AF_OTHER ==> trace == [Done(ENOTIMP, 0, false)]
    ensures Literal(name, family, v4, v6) ==> trace == [Done(SUCCESS, 0, true)]
    ensures family != AF_OTHER && !Literal(name, family, v4, v6) ==>
              trace == Resolve(env, family, lookups, ECONNREFUSED, 0, 0, 0)
    ensures CompletesOnce(trace)
    ensures family != AF_OTHER && !Literal(name, family, v4, v6) ==>
              && ReportsFairly(env, trace, ECONNREFUSED, 0, 0)
              && Searches(trace) <= MostSearches(family, Count(lookups, 'b'))
              && FileLookups(trace) <= Count(lookups, 'f')
              && InOrder(None, trace, family)
              && AsExpected(env, family, Methods(lookups), trace)
  {
    hide AsExpected, Methods, Resolve, React, FallsBack, Searches, FileLookups, InOrder, ReportsFairly, DottedQuad;
    if family == AF_OTHER {
      return [Done(ENOTIMP, 0, false)];
    }
    var fake := FakeHostent(name, family, v4, v6);
    if fake {
      return [Done(SUCCESS, 0, true)];
    }
    ghost var all := Resolve(env, family, lookups, ECONNREFUSED, 0, 0, 0);
    ResolveRun(env, family, lookups, ECONNREFUSED, 0, 0, 0);
    ResolveAccounts(env, family, lookups, ECONNREFUSED, 0, 0, 0, None);
    WholeRun(env, family, lookups);
    var hquery := new HostQuery(family, lookups);
    assert hquery.trace + all == all;
    hquery.NextLookup(env, ECONNREFUSED);
    while hquery.Pending()
      invariant fresh(hquery) && Inet(hquery.wantFamily)
      invariant hquery.Ended() || hquery.Pending()
      invariant hquery.trace + hquery.Future(env) == all
      decreases if hquery.Pending() then |hquery.remaining| + 1 else 0, hquery.CanFallBack()
    {
      hquery.HostCallback(env);
    }
    return hquery.trace;
  }
}
