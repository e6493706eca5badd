/** From which store each read of the DRAM-timed model is answered. */
module ReadStores {
  import opened Axi
  import opened ByteStore
  import opened WriteEngine
  import opened DramMemory
  import opened DramHistory
  import opened ReadOrder
  import opened BusLog

  // ---------- one cycle ----------

  /** The answers from a position on are given from one store. */
  ghost predicate AnsweredFrom(answers: seq<Answer>, from: nat, store: Store) {
    forall k :: from <= k < |answers| ==> answers[k].at == store
  }

  lemma CompletionAnswers(h: DramRun, t: Transaction)
    requires DramInv(h) && Outstanding(h.s, t)
    ensures var r := RunComplete1(h, t);
            && h.answers <= r.answers && AnsweredFrom(r.answers, |h.answers|, h.s.store)
            && r.s.store == h.s.store
  {
    Complete1Safe(h.s, t);
  }

  lemma AnswersTogether(a: seq<Answer>, b: seq<Answer>, c: seq<Answer>, store: Store)
    requires a <= b <= c && AnsweredFrom(b, |a|, store) && AnsweredFrom(c, |b|, store)
    ensures a <= c && AnsweredFrom(c, |a|, store)
  {
    forall k | |a| <= k < |c| ensures c[k].at == store {
      assert k < |b| ==> c[k] == b[k];
    }
  }

  /** A completed read is answered from the store of the moment, and answers are only added. */
  lemma {:induction false} CompletionsAnswer(h: DramRun, done: seq<Transaction>)
    requires DramInv(h) && MayComplete(h.s, done)
    ensures h.answers <= RunCompleteAll(h, done).answers
    ensures AnsweredFrom(RunCompleteAll(h, done).answers, |h.answers|, h.s.store)
    decreases |done|
  {
    if done != [] {
      var h1 := RunComplete1(h, done[0]);
      CompleteKeepsInv(h, done[0]);
      CompletionAnswers(h, done[0]);
      CompletionsAnswer(h1, done[1..]);
      AnswersTogether(h.answers, h1.answers, RunCompleteAll(h1, done[1..]).answers, h.s.store);
    }
  }

  lemma BeforeUpdateKeepsAnswers(h: DramRun, i: Inputs, accept: bool)
    requires DramInv(h) && LegalTick(h.s, i)
    ensures RunBeforeUpdate(h, i, accept).answers == h.answers
  {
    IssueKeepsInv(h, accept);
    IssueFacts(h, accept);
    assert RunChannels(RunIssue(h, accept), i, accept).answers == RunIssue(h, accept).answers;
  }

  /** The reads that a cycle answers see the write beats accepted up to its end. */
  lemma StepAnswers(h: DramRun, c: Cycle)
    requires DramInv(h) && LegalCycle(h, c)
    ensures h.answers <= RunStep(h, c).answers
    ensures AnsweredFrom(RunStep(h, c).answers, |h.answers|, RunStep(h, c).s.store)
  {
    BeforeUpdateKeepsAnswers(h, c.i, c.accept);
    CompletionsAnswer(RunBeforeUpdate(h, c.i, c.accept), c.done);
  }

  // ---------- the moments of a run ----------

  /** A run so far and the transfers of its bus so far. */
  datatype Moment = Moment(h: DramRun, log: seq<Event>)

  /** The moments between the cycles, the first and the last included. */
  ghost function Moments(h: DramRun, cs: seq<Cycle>, log: seq<Event>): (ms: seq<Moment>)
    requires DramInv(h) && LegalRun(h, cs)
    ensures |ms| == |cs| + 1 && ms[0] == Moment(h, log)
    decreases |cs|
  {
    [Moment(h, log)] +
    if cs == [] then [] else Moments(RunStep(h, cs[0]), cs[1..], log + DramCycleLog(h, cs[0]))
  }

  /** A cycle adds to the log and answers reads from the store it leaves. */
  ghost predicate Follows(m: Moment, next: Moment) {
    && next.h.initial == m.h.initial && m.log <= next.log
    && m.h.answers <= next.h.answers
    && AnsweredFrom(next.h.answers, |m.h.answers|, next.h.s.store)
  }

  /** An answer takes the next request of its identifier. */
  ghost predicate TakesNext(accepted: seq<Tagged>, answers: seq<Answer>, k: nat)
    requires k < |answers|
  {
    var d := answers[k].t.req.id;
    var j := |AnswersOf(answers[..k], d)|;
    j < |OfId(accepted, d)| && OfId(accepted, d)[j] == answers[k].t
  }

  /** The log makes the initial store into the present one, and contains the request of every
      answer. */
  ghost predicate Explains(m: Moment) {
    && DramAccounts(m.log, m.h)
    && (forall b :: b in BurstsOf(m.log) ==> BurstOk(b, m.h.initial.word))
    && m.h.s.store == ApplyBursts(m.h.initial, BurstsOf(m.log))
    && forall k :: 0 <= k < |m.h.answers| ==> TakesNext(m.h.accepted, m.h.answers, k)
  }

  ghost predicate Connected(ms: seq<Moment>) {
    forall i, j :: 0 <= i && j == i + 1 < |ms| ==> Follows(ms[i], ms[j])
  }

  ghost predicate Sound(ms: seq<Moment>) {
    Connected(ms) && forall i :: 0 <= i < |ms| ==> Explains(ms[i])
  }

  lemma AnswerTakesNext(accepted: seq<Tagged>, answers: seq<Answer>, flight: map<nat, Tagged>, queued: seq<Tagged>,
                        k: nat)
    requires OrderInv(accepted, answers, flight, queued) && k < |answers|
    ensures TakesNext(accepted, answers, k)
  {
    var t := answers[k].t;
    var d := t.req.id;
    var front, rest := Answered(answers[..k]), Answered(answers[k + 1..]);
    AnsweredOf(answers[..k], d);
    assert Answered(answers) == front + [t] + rest;
    OfIdConcat(front + [t], rest, d);
    OfIdConcat(front, [t], d);
    OfIdOne(t, d);
  }

  lemma AccountsExplains(h: DramRun, log: seq<Event>)
    requires DramInv(h) && DramAccounts(log, h)
    ensures Explains(Moment(h, log))
  {
    forall k: nat | k < |h.answers| ensures TakesNext(h.accepted, h.answers, k) {
      AnswerTakesNext(h.accepted, h.answers, h.flight, h.queued, k);
    }
  }

  lemma CycleFollows(h: DramRun, c: Cycle, log: seq<Event>)
    requires DramInv(h) && LegalCycle(h, c) && DramAccounts(log, h)
    ensures var log' := log + DramCycleLog(h, c);
            DramAccounts(log', RunStep(h, c)) && Follows(Moment(h, log), Moment(RunStep(h, c), log'))
  {
    DramCycle(h, c, log);
    StepAnswers(h, c);
  }

  lemma SoundBefore(m: Moment, ms: seq<Moment>)
    requires Explains(m) && Sound(ms) && ms != [] && Follows(m, ms[0])
    ensures Sound([m] + ms)
  {
    var all := [m] + ms;
    forall i, j | 0 <= i && j == i + 1 < |all| ensures Follows(all[i], all[j]) {
      if i > 0 {
        assert all[i] == ms[i - 1] && all[j] == ms[j - 1];
      }
    }
  }

  lemma {:induction false} MomentsAreSound(h: DramRun, cs: seq<Cycle>, log: seq<Event>)
    requires DramInv(h) && LegalRun(h, cs) && DramAccounts(log, h)
    ensures Sound(Moments(h, cs, log))
    decreases |cs|
  {
    AccountsExplains(h, log);
    if cs != [] {
      var log' := log + DramCycleLog(h, cs[0]);
      CycleFollows(h, cs[0], log);
      MomentsAreSound(RunStep(h, cs[0]), cs[1..], log');
      SoundBefore(Moment(h, log), Moments(RunStep(h, cs[0]), cs[1..], log'));
    }
  }

  lemma LastOf(m: Moment, ms: seq<Moment>)
    ensures ([m] + ms)[|ms|] == if ms == [] then m else ms[|ms| - 1]
  {
  }

  /** The last moment is that of the whole run. */
  lemma {:induction false} LastMoment(h: DramRun, cs: seq<Cycle>, log: seq<Event>)
    requires DramInv(h) && LegalRun(h, cs)
    ensures Moments(h, cs, log)[|cs|] == Moment(RunFrom(h, cs), log + DramLog(h, cs))
    decreases |cs|
  {
    if cs == [] {
      LastOf(Moment(h, log), []);
      Nothing(log);
    } else {
      var h1, log' := RunStep(h, cs[0]), log + DramCycleLog(h, cs[0]);
      LastMoment(h1, cs[1..], log');
      LastOf(Moment(h, log), Moments(h1, cs[1..], log'));
      Assoc(log, DramCycleLog(h, cs[0]), DramLog(h1, cs[1..]));
    }
  }

  // ---------- every answer ----------

  ghost predicate Extends(m: Moment, next: Moment) {
    next.h.initial == m.h.initial && m.log <= next.log && m.h.answers <= next.h.answers
  }

  lemma {:induction false} Later(ms: seq<Moment>, i: nat, j: nat)
    requires Connected(ms) && i <= j < |ms|
    ensures Extends(ms[i], ms[j])
    decreases j
  {
    if i < j {
      Later(ms, i, j - 1);
      assert Follows(ms[j - 1], ms[j]);
    }
  }

  /** Answer k is given in cycle n, from the store as it is at the end of that cycle. */
  ghost predicate AnsweredIn(ms: seq<Moment>, k: nat, n: nat) {
    n + 1 < |ms| &&
    var before, after, end := ms[n], ms[n + 1], ms[|ms| - 1];
    Extends(after, end) && |before.h.answers| <= k < |after.h.answers| && after.h.answers[k].at == after.h.s.store
  }

  lemma AnsweredBy(ms: seq<Moment>, k: nat, n: nat)
    requires Connected(ms) && n + 1 < |ms| && |ms[n].h.answers| <= k < |ms[n + 1].h.answers|
    ensures AnsweredIn(ms, k, n)
  {
    Later(ms, n + 1, |ms| - 1);
    assert Follows(ms[n], ms[n + 1]);
  }

  lemma {:induction false} EveryAnswer(ms: seq<Moment>, k: nat, j: nat)
    requires Connected(ms) && j < |ms| && |ms[0].h.answers| <= k < |ms[j].h.answers|
    ensures exists n: nat :: AnsweredIn(ms, k, n)
    decreases j
  {
    if k < |ms[j - 1].h.answers| {
      EveryAnswer(ms, k, j - 1);
    } else {
      AnsweredBy(ms, k, j - 1);
    }
  }

  /** Every read is answered from the store as it is at the end of the cycle that answers it. At
      each moment between cycles the store is the initial one after exactly the write beats in
      the log so far, and every answer so far has taken the next request of its identifier in
      that log. So no answer misses a beat accepted before it or shows one accepted later. */
  lemma AnswersFromLog(store: Store, ids: nat, cs: seq<Cycle>, k: nat)
    requires LegalRun(RunStart(store, ids), cs) && k < |RunFrom(RunStart(store, ids), cs).answers|
    ensures var ms := Moments(RunStart(store, ids), cs, []);
            && ms[|cs|] == Moment(RunFrom(RunStart(store, ids), cs), [] + DramLog(RunStart(store, ids), cs))
            && (forall i :: 0 <= i < |ms| ==> Explains(ms[i]))
            && exists n: nat :: AnsweredIn(ms, k, n)
  {
    var h := RunStart(store, ids);
    MomentsAreSound(h, cs, []);
    LastMoment(h, cs, []);
    EveryAnswer(Moments(h, cs, []), k, |cs|);
  }
}
