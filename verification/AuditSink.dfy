/** Emission: the sink, its threads, and restarts on an existing file. */
module AuditSink {
  import opened Basics
  import opened AuditChain

  /** What a caller asks to have recorded; the clock is part of the input. */
  datatype Request = Request(timestamp: string, actor: string, action: string, target: Target, outcome: string)

  predicate IsControl(c: char) {
    c < ' ' || '\U{007F}' <= c <= '\U{009F}'
  }

  function StripControl(s: string): string {
    if s == [] then []
    else (if !IsControl(s[0]) || s[0] == '\t' then [s[0]] else []) + StripControl(s[1..])
  }

  /** Control characters go, tabs stay, and the rest is cut at `max` characters. */
  function SanitizeField(s: string, max: nat): string {
    var cleaned := StripControl(s);
    if |cleaned| <= max then cleaned else cleaned[..max]
  }

  function SanitizeTarget(t: Target): Target {
    Target(SanitizeField(t.memoryId, 128), SanitizeField(t.namespace, 128),
           if t.title.Some? then Some(SanitizeField(t.title.value, 200)) else None)
  }

  /**
   What a field looks like on a line: within its length, no control character but
   the tab; sanitizing again changes nothing.
   */
  lemma SanitizeLaws(s: string, max: nat)
    ensures var r := SanitizeField(s, max);
            && |r| <= max && (forall c :: c in r ==> !IsControl(c) || c == '\t')
            && SanitizeField(r, max) == r
            && (|s| <= max && (forall c :: c in s ==> !IsControl(c) || c == '\t') ==> r == s)
  {
    StripLaws(s);
    StripLaws(SanitizeField(s, max));
  }

  lemma {:induction false} StripLaws(s: string)
    ensures forall c :: c in StripControl(s) ==> !IsControl(c) || c == '\t'
    ensures (forall c :: c in s ==> !IsControl(c) || c == '\t') ==> StripControl(s) == s
  {
    if s != [] {
      StripLaws(s[1..]);
      assert s == [s[0]] + s[1..];
      assert s[0] in s;
    }
  }

  /** What is kept: printable ASCII, what lies beyond the C1 controls, and the tab. */
  predicate Printable(c: char) {
    32 <= c as int < 127 || c as int >= 160 || c == '\t'
  }

  /** Every printable character survives in its place among the others, and the rest go. */
  lemma SurvivorsInOrder(before: string, c: char, after: string)
    ensures StripControl("") == ""
    ensures StripControl(before + [c] + after) ==
              StripControl(before) + (if Printable(c) then [c] else []) + StripControl(after)
  {
    StripConcat(before + [c], after);
    StripConcat(before, [c]);
    StripOne(c);
  }

  lemma StripOne(c: char)
    ensures StripControl([c]) == if Printable(c) then [c] else []
  {
    assert [c][1..] == [];
  }

  /** A field is the first `max` of the survivors. */
  lemma FieldIsFront(s: string, max: nat)
    ensures SanitizeField(s, max) <= StripControl(s)
    ensures |SanitizeField(s, max)| == max || SanitizeField(s, max) == StripControl(s)
  {
  }

  lemma {:induction false} StripConcat(a: string, b: string)
    ensures StripControl(a + b) == StripControl(a) + StripControl(b)
  {
    if a == [] {
      assert a + b == b;
    } else {
      assert (a + b)[1..] == a[1..] + b;
      StripConcat(a[1..], b);
    }
  }

  /** A recorded target: ids and namespaces within 128 characters, titles within 200, clean ones as they are. */
  lemma TargetLaws(t: Target)
    ensures var r := SanitizeTarget(t);
            && |r.memoryId| <= 128 && |r.namespace| <= 128 && (r.title.Some? <==> t.title.Some?)
            && (r.title.Some? ==> |r.title.value| <= 200)
            && (|t.memoryId| <= 128 && (forall c :: c in t.memoryId ==> Printable(c)) ==> r.memoryId == t.memoryId)
            && (|t.namespace| <= 128 && (forall c :: c in t.namespace ==> Printable(c)) ==> r.namespace == t.namespace)
            && (t.title.Some? && |t.title.value| <= 200 && (forall c :: c in t.title.value ==> Printable(c)) ==>
                  r.title == t.title)
  {
    SanitizeLaws(t.memoryId, 128);
    SanitizeLaws(t.namespace, 128);
    if t.title.Some? { SanitizeLaws(t.title.value, 200); }
  }

  /** The event as it is written, with both hashes in place. */
  function Seal(wire: Wire, r: Request, sequence: nat, prevHash: string): Event {
    var e := Event(r.timestamp, sequence, r.actor, r.action, SanitizeTarget(r.target), r.outcome, prevHash, "");
    e.(selfHash := ComputeSelfHash(wire, e))
  }

  lemma SealedIsHashed(wire: Wire, r: Request, sequence: nat, prevHash: string)
    ensures var e := Seal(wire, r, sequence, prevHash);
            e.selfHash == ComputeSelfHash(wire, e) && e.prevHash == prevHash && e.sequence == sequence
  {
  }

  /** The file, the chain head held in memory, and the process-wide counter. */
  datatype SinkState = SinkState(lines: seq<string>, lastHash: string, counter: nat)

  /** One emission: the number is spent even when the write fails. */
  function Emit(wire: Wire, s: SinkState, r: Request, writeOk: bool): SinkState {
    var e := Seal(wire, r, s.counter + 1, s.lastHash);
    if writeOk then SinkState(s.lines + [wire.render(e)], e.selfHash, s.counter + 1)
    else s.(counter := s.counter + 1)
  }

  /** Opening a file: the chain head is the last line that parses, the counter starts over. */
  function Opened(wire: Wire, lines: seq<string>): SinkState {
    SinkState(lines, TailHash(Events(wire, lines)), 0)
  }

  class Sink {
    var lines: seq<string>
    var lastHash: string
    var sequence: nat

    function State(): SinkState
      reads this
    {
      SinkState(lines, lastHash, sequence)
    }

    constructor (wire: Wire, file: seq<string>)
      ensures State() == Opened(wire, file)
    {
      var tail := ReadChainTail(wire, file);
      lines := file;
      lastHash := match tail case Some(h) => h case None => CHAIN_HEAD;
      sequence := 0;
    }

    method TryEmit(wire: Wire, r: Request, writeOk: bool)
      modifies this
      ensures State() == Emit(wire, old(State()), r, writeOk)
    {
      sequence := sequence + 1;
      var e := Event(r.timestamp, sequence, r.actor, r.action, SanitizeTarget(r.target), r.outcome, lastHash, "");
      var selfHash := ComputeSelfHash(wire, e);
      e := e.(selfHash := selfHash);
      if !writeOk { return; }
      lines := lines + [wire.render(e)];
      lastHash := selfHash;
    }
  }

  /** The hash of the last line that parses; malformed lines after it are passed over. */
  method ReadChainTail(wire: Wire, file: seq<string>) returns (last: Option<string>)
    ensures last.None? <==> Events(wire, file) == []
    ensures last.Some? ==> last.value == TailHash(Events(wire, file))
  {
    last := None;
    for i := 0 to |file|
      invariant last.None? <==> Events(wire, file[..i]) == []
      invariant last.Some? ==> last.value == TailHash(Events(wire, file[..i]))
    {
      assert file[..i + 1][..i] == file[..i];
      if !Blank(file[i]) {
        match wire.parse(file[i]) {
          case None =>
          case Some(e) => last := Some(e.selfHash);
        }
      }
    }
    assert file[..|file|] == file;
  }

  /**
   The comment promises a fresh chain after a malformed last line. Whatever lines
   that do not parse follow, a file opens on the hash of the last one that does,
   and afresh only if none does.
   */
  lemma {:induction false} MalformedTailIsPassedOver(wire: Wire, lines: seq<string>, bad: seq<string>)
    requires forall i :: 0 <= i < |bad| ==> Blank(bad[i]) || wire.parse(bad[i]).None?
    ensures Opened(wire, lines + bad).lastHash == Opened(wire, lines).lastHash
    ensures Events(wire, lines + bad) == Events(wire, lines)
  {
    if bad == [] {
      assert lines + bad == lines;
    } else {
      var n := |bad| - 1;
      assert (lines + bad)[..|lines + bad| - 1] == lines + bad[..n];
      MalformedTailIsPassedOver(wire, lines, bad[..n]);
    }
  }

  // ----- one emission ---------------------------------------------------

  /** The head in memory is the head on disk, and every link holds. */
  ghost predicate InStep(wire: Wire, s: SinkState) {
    s.lastHash == TailHash(Events(wire, s.lines)) && Linked(wire, Events(wire, s.lines))
  }

  /** A sealed event on top of the file's last hash extends the chain by itself. */
  lemma AppendedLinks(wire: Wire, lines: seq<string>, e: Event)
    requires Faithful(wire) && Linked(wire, Events(wire, lines))
    requires e.prevHash == TailHash(Events(wire, lines)) && e.selfHash == ComputeSelfHash(wire, e)
    ensures Events(wire, lines + [wire.render(e)]) == Events(wire, lines) + [e]
    ensures Linked(wire, Events(wire, lines + [wire.render(e)]))
    ensures TailHash(Events(wire, lines + [wire.render(e)])) == e.selfHash
  {
    var all := lines + [wire.render(e)];
    assert all[..|all| - 1] == lines;
    LinkedExtend(wire, Events(wire, lines), e);
  }

  lemma EmitKeepsInStep(wire: Wire, s: SinkState, r: Request, writeOk: bool)
    requires Faithful(wire) && InStep(wire, s)
    ensures InStep(wire, Emit(wire, s, r, writeOk))
    ensures writeOk ==> Events(wire, Emit(wire, s, r, writeOk).lines) ==
                          Events(wire, s.lines) + [Seal(wire, r, s.counter + 1, s.lastHash)]
  {
    if writeOk {
      SealedIsHashed(wire, r, s.counter + 1, s.lastHash);
      AppendedLinks(wire, s.lines, Seal(wire, r, s.counter + 1, s.lastHash));
    }
  }

  // ----- threads --------------------------------------------------------

  type ThreadId = nat

  datatype Phase =
    | Idle
    | Waiting(r: Request)              // has the sink, wants its lock
    | Locked(r: Request)               // holds the lock
    | Numbered(r: Request, n: nat)     // holds the lock and a sequence number

  datatype Threads = Threads(sink: SinkState, lock: Option<ThreadId>, phases: map<ThreadId, Phase>,
                             written: seq<Request>)

  datatype Action =
    | Begin(t: ThreadId, r: Request)
    | Acquire(t: ThreadId)
    | TakeNumber(t: ThreadId)
    | Append(t: ThreadId, writeOk: bool)

  predicate CanAct(s: Threads, a: Action) {
    a.t in s.phases &&
    match a
    case Begin(t, _) => s.phases[t].Idle?
    case Acquire(t) => s.phases[t].Waiting? && s.lock.None?
    case TakeNumber(t) => s.phases[t].Locked?
    case Append(t, _) => s.phases[t].Numbered?
  }

  function Act(wire: Wire, s: Threads, a: Action): Threads
    requires CanAct(s, a)
  {
    match a
    case Begin(t, r) => s.(phases := s.phases[t := Waiting(r)])
    case Acquire(t) => s.(phases := s.phases[t := Locked(s.phases[t].r)], lock := Some(t))
    case TakeNumber(t) =>
      s.(sink := s.sink.(counter := s.sink.counter + 1),
         phases := s.phases[t := Numbered(s.phases[t].r, s.sink.counter + 1)])
    case Append(t, writeOk) =>
      var e := Seal(wire, s.phases[t].r, s.phases[t].n, s.sink.lastHash);
      var freed := s.(phases := s.phases[t := Idle], lock := None);
      if writeOk then freed.(sink := SinkState(s.sink.lines + [wire.render(e)], e.selfHash, s.sink.counter),
                             written := s.written + [s.phases[t].r])
      else freed
  }

  /** A thread that is not interrupted does exactly one emission. */
  lemma UninterruptedIsEmit(wire: Wire, s: Threads, t: ThreadId, r: Request, writeOk: bool)
    requires t in s.phases && s.phases[t] == Waiting(r) && s.lock.None?
    ensures var locked := Act(wire, s, Acquire(t));
            var numbered := Act(wire, locked, TakeNumber(t));
            var done := Act(wire, numbered, Append(t, writeOk));
            && done.sink == Emit(wire, s.sink, r, writeOk) && done.lock.None? && done.phases == s.phases[t := Idle]
            && done.written == s.written + if writeOk then [r] else []
  {
  }

  ghost predicate Interleaving(wire: Wire, ss: seq<Threads>, acts: seq<Action>) {
    && |ss| == |acts| + 1
    && forall i :: 0 <= i < |acts| ==> CanAct(ss[i], acts[i]) && ss[i + 1] == Act(wire, ss[i], acts[i])
  }

  /** A fresh file and idle threads. */
  ghost predicate Started(s: Threads) {
    && s.sink == SinkState([], CHAIN_HEAD, 0) && s.lock.None? && s.written == []
    && forall t :: t in s.phases ==> s.phases[t].Idle?
  }

  /** The events carry the written requests, one each and in order. */
  ghost predicate Records(es: seq<Event>, rs: seq<Request>) {
    && |es| == |rs|
    && forall i :: 0 <= i < |es| ==>
         && es[i].timestamp == rs[i].timestamp && es[i].actor == rs[i].actor && es[i].action == rs[i].action
         && es[i].target == SanitizeTarget(rs[i].target) && es[i].outcome == rs[i].outcome
  }

  ghost predicate StrictlyIncreasing(es: seq<Event>) {
    forall i, j :: 0 <= i < j < |es| ==> es[i].sequence < es[j].sequence
  }

  ghost predicate ThreadsInv(wire: Wire, s: Threads) {
    var es := Events(wire, s.sink.lines);
    && InStep(wire, s.sink) && AllParse(wire, s.sink.lines) && |s.sink.lines| == |es|
    && Records(es, s.written) && StrictlyIncreasing(es)
    && (forall i :: 0 <= i < |es| ==> 1 <= es[i].sequence <= s.sink.counter)
    && (forall t :: t in s.phases && (s.phases[t].Locked? || s.phases[t].Numbered?) ==> s.lock == Some(t))
    && (forall t :: t in s.phases && s.phases[t].Numbered? ==>
          s.phases[t].n == s.sink.counter && TailSequence(es) < s.phases[t].n)
  }

  lemma ActKeepsInv(wire: Wire, s: Threads, a: Action)
    requires Faithful(wire) && ThreadsInv(wire, s) && CanAct(s, a)
    ensures ThreadsInv(wire, Act(wire, s, a))
  {
    if a.Append? && a.writeOk { AppendKeepsInv(wire, s, a.t); }
  }

  lemma AppendKeepsInv(wire: Wire, s: Threads, t: ThreadId)
    requires Faithful(wire) && ThreadsInv(wire, s) && CanAct(s, Append(t, true))
    ensures ThreadsInv(wire, Act(wire, s, Append(t, true)))
  {
    var es, r, n := Events(wire, s.sink.lines), s.phases[t].r, s.phases[t].n;
    var e := Seal(wire, r, n, s.sink.lastHash);
    SealedIsHashed(wire, r, n, s.sink.lastHash);
    AppendedLinks(wire, s.sink.lines, e);
    NumbersRise(es, e, s.sink.counter);
    RecordsExtend(es, s.written, e, r);
  }

  lemma NumbersRise(es: seq<Event>, e: Event, counter: nat)
    requires StrictlyIncreasing(es) && TailSequence(es) < e.sequence == counter
    requires forall i :: 0 <= i < |es| ==> 1 <= es[i].sequence <= counter
    ensures StrictlyIncreasing(es + [e])
    ensures forall i :: 0 <= i < |es + [e]| ==> 1 <= (es + [e])[i].sequence <= counter
  {
  }

  lemma RecordsExtend(es: seq<Event>, rs: seq<Request>, e: Event, r: Request)
    requires Records(es, rs)
    requires e.timestamp == r.timestamp && e.actor == r.actor && e.action == r.action
    requires e.target == SanitizeTarget(r.target) && e.outcome == r.outcome
    ensures Records(es + [e], rs + [r])
  {
  }

  lemma {:induction false} InterleavingKeepsInv(wire: Wire, ss: seq<Threads>, acts: seq<Action>, i: nat)
    requires Faithful(wire) && Interleaving(wire, ss, acts) && Started(ss[0]) && i < |ss|
    ensures ThreadsInv(wire, ss[i])
  {
    if i > 0 {
      InterleavingKeepsInv(wire, ss, acts, i - 1);
      ActKeepsInv(wire, ss[i - 1], acts[i - 1]);
      assert ss[i] == Act(wire, ss[i - 1], acts[i - 1]);
    }
  }

  /**
   Every interleaving of emitting threads, with any writes failing, leaves a log
   the verifier accepts, one line per successful emission, numbered strictly upwards.
   */
  lemma InterleavingAccepted(wire: Wire, ss: seq<Threads>, acts: seq<Action>, i: nat)
    requires Faithful(wire) && Interleaving(wire, ss, acts) && Started(ss[0]) && i < |ss|
    ensures Clean(wire, ss[i].sink.lines)
    ensures |ss[i].sink.lines| == |ss[i].written| && Records(Events(wire, ss[i].sink.lines), ss[i].written)
    ensures StrictlyIncreasing(Events(wire, ss[i].sink.lines))
  {
    InterleavingKeepsInv(wire, ss, acts, i);
    CleanIffIntact(wire, ss[i].sink.lines);
  }

  // ----- restarts -------------------------------------------------------

  datatype Attempt = Attempt(r: Request, writeOk: bool)

  function EmitAll(wire: Wire, s: SinkState, attempts: seq<Attempt>): SinkState {
    if attempts == [] then s
    else Emit(wire, EmitAll(wire, s, attempts[..|attempts| - 1]),
              attempts[|attempts| - 1].r, attempts[|attempts| - 1].writeOk)
  }

  /** A file that lives through process after process. */
  function AfterRuns(wire: Wire, lines: seq<string>, runs: seq<seq<Attempt>>): seq<string> {
    if runs == [] then lines
    else EmitAll(wire, Opened(wire, AfterRuns(wire, lines, runs[..|runs| - 1])), runs[|runs| - 1]).lines
  }

  lemma {:induction false} EmitAllInStep(wire: Wire, s: SinkState, attempts: seq<Attempt>)
    requires Faithful(wire) && InStep(wire, s)
    ensures InStep(wire, EmitAll(wire, s, attempts))
    ensures EmitAll(wire, s, attempts).counter == s.counter + |attempts|
  {
    if attempts != [] {
      EmitAllInStep(wire, s, attempts[..|attempts| - 1]);
      EmitKeepsInStep(wire, EmitAll(wire, s, attempts[..|attempts| - 1]),
                      attempts[|attempts| - 1].r, attempts[|attempts| - 1].writeOk);
    }
  }

  /**
   Two sinks on one file: both took their chain head before either wrote. However
   many lines one has written, the other's first line breaks the chain, unless the
   last of those happens to hash to the very head both started from.
   */
  lemma SecondWriterBreaksChain(wire: Wire, s: SinkState, mine: seq<Attempt>, theirs: Request, counter: nat)
    requires Faithful(wire) && InStep(wire, s)
    ensures var first := EmitAll(wire, s, mine);
            var second := Seal(wire, theirs, counter + 1, s.lastHash);
            Fault(wire, first.lines + [wire.render(second)], |first.lines|) == Some(ChainBreak) <==>
              first.lastHash != s.lastHash
  {
    EmitAllInStep(wire, s, mine);
    var first := EmitAll(wire, s, mine);
    assert (first.lines + [wire.render(Seal(wire, theirs, counter + 1, s.lastHash))])[..|first.lines|] == first.lines;
  }

  /** Across any number of restarts no hash link breaks, whatever unparsable lines lie between. */
  lemma {:induction false} RestartsKeepLinks(wire: Wire, lines: seq<string>, runs: seq<seq<Attempt>>)
    requires Faithful(wire) && Linked(wire, Events(wire, lines))
    ensures Linked(wire, Events(wire, AfterRuns(wire, lines, runs)))
  {
    if runs != [] {
      RestartsKeepLinks(wire, lines, runs[..|runs| - 1]);
      EmitAllInStep(wire, Opened(wire, AfterRuns(wire, lines, runs[..|runs| - 1])), runs[|runs| - 1]);
    }
  }

  /** The first line a run manages to write: its number counts the failures before it. */
  lemma {:induction false} FailuresOnlyCount(wire: Wire, s: SinkState, attempts: seq<Attempt>)
    requires forall i :: 0 <= i < |attempts| ==> !attempts[i].writeOk
    ensures EmitAll(wire, s, attempts) == s.(counter := s.counter + |attempts|)
  {
    if attempts != [] { FailuresOnlyCount(wire, s, attempts[..|attempts| - 1]); }
  }

  /** Later emissions only append. */
  lemma {:induction false} EmitAllAppends(wire: Wire, s: SinkState, attempts: seq<Attempt>, n: nat)
    requires n <= |attempts|
    ensures EmitAll(wire, s, attempts[..n]).lines <= EmitAll(wire, s, attempts).lines
    decreases |attempts|
  {
    if n < |attempts| {
      var init := attempts[..|attempts| - 1];
      assert init[..n] == attempts[..n];
      EmitAllAppends(wire, s, init, n);
    } else {
      assert attempts[..n] == attempts;
    }
  }

  /**
   The verdict on a restart. The new run's first line sits right after the old
   log; it is flagged `Sequence` exactly when its number, one more than the
   writes that failed before it, has not passed the old log's last number.
   */
  lemma RestartVerdict(wire: Wire, lines: seq<string>, attempts: seq<Attempt>, k: nat)
    requires Faithful(wire) && Clean(wire, lines) && Events(wire, lines) != []
    requires k < |attempts| && attempts[k].writeOk && forall i :: 0 <= i < k ==> !attempts[i].writeOk
    ensures var file := EmitAll(wire, Opened(wire, lines), attempts).lines;
            && |file| > |lines| && file[..|lines|] == lines
            && Fault(wire, file, |lines|) ==
                 (if k + 1 <= TailSequence(Events(wire, lines)) then Some(Sequence) else None)
  {
    var s0 := Opened(wire, lines);
    var failed := attempts[..k];
    assert attempts[..k + 1][..k] == failed;
    FailuresOnlyCount(wire, s0, failed);
    var s1 := EmitAll(wire, s0, attempts[..k + 1]);
    var e := Seal(wire, attempts[k].r, k + 1, s0.lastHash);
    SealedIsHashed(wire, attempts[k].r, k + 1, s0.lastHash);
    assert s1.lines == lines + [wire.render(e)];
    EmitAllAppends(wire, s0, attempts, k + 1);
    var file := EmitAll(wire, s0, attempts).lines;
    assert file[|lines|] == s1.lines[|lines|] == wire.render(e);
    assert file[..|lines|] == lines;
  }

  // ----- exactly when a log across restarts is accepted -------------------

  /** The number of a run's first written event, zero if it writes none. */
  function FirstSuccess(attempts: seq<Attempt>): (n: nat)
    ensures n == 0 <==> forall i :: 0 <= i < |attempts| ==> !attempts[i].writeOk
    ensures n > 0 ==> n <= |attempts| && attempts[n - 1].writeOk && forall i :: 0 <= i < n - 1 ==> !attempts[i].writeOk
  {
    if attempts == [] then 0
    else
      var n := FirstSuccess(attempts[..|attempts| - 1]);
      if n == 0 && attempts[|attempts| - 1].writeOk then |attempts| else n
  }

  /** The last number in the log after a run, where `before` was the last number. */
  function LastNumber(before: nat, attempts: seq<Attempt>): (n: nat)
    ensures FirstSuccess(attempts) == 0 ==> n == before
    ensures FirstSuccess(attempts) > 0 ==> 1 <= n <= |attempts| && attempts[n - 1].writeOk
    ensures FirstSuccess(attempts) > 0 ==> forall i :: n <= i < |attempts| ==> !attempts[i].writeOk
  {
    if attempts == [] then before
    else if attempts[|attempts| - 1].writeOk then |attempts|
    else LastNumber(before, attempts[..|attempts| - 1])
  }

  /** The run writes nothing, or its first number has passed the log's last one. */
  predicate SeamPasses(before: nat, attempts: seq<Attempt>) {
    FirstSuccess(attempts) == 0 || FirstSuccess(attempts) > before
  }

  /**
   One run on an accepted log: the whole file is accepted exactly when the seam
   passes, and its last number is then known.
   */
  lemma {:induction false} RestartAcceptedIff(wire: Wire, lines: seq<string>, attempts: seq<Attempt>)
    requires Faithful(wire) && Clean(wire, lines)
    ensures var s, before := EmitAll(wire, Opened(wire, lines), attempts), TailSequence(Events(wire, lines));
            && (Clean(wire, s.lines) <==> SeamPasses(before, attempts))
            && TailSequence(Events(wire, s.lines)) == LastNumber(before, attempts)
  {
    if attempts != [] {
      var init, last := attempts[..|attempts| - 1], attempts[|attempts| - 1];
      RestartAcceptedIff(wire, lines, init);
      CleanIffIntact(wire, lines);
      EmitAllInStep(wire, Opened(wire, lines), init);
      if last.writeOk { WriteAcceptedIff(wire, EmitAll(wire, Opened(wire, lines), init), last.r); }
    }
  }

  /** One more line of the sink that is in step with the file. */
  lemma WriteAcceptedIff(wire: Wire, s: SinkState, r: Request)
    requires Faithful(wire) && InStep(wire, s)
    ensures var after := Emit(wire, s, r, true);
            && (Clean(wire, after.lines) <==>
                  Clean(wire, s.lines) && TailSequence(Events(wire, s.lines)) < s.counter + 1)
            && TailSequence(Events(wire, after.lines)) == s.counter + 1
  {
    var e := Seal(wire, r, s.counter + 1, s.lastHash);
    SealedIsHashed(wire, r, s.counter + 1, s.lastHash);
    EmitKeepsInStep(wire, s, r, true);
    CleanExtend(wire, s.lines, wire.render(e));
    assert (s.lines + [wire.render(e)])[..|s.lines|] == s.lines;
  }

  /** The last number of a log after any number of runs. */
  function NumberAfter(before: nat, runs: seq<seq<Attempt>>): nat {
    if runs == [] then before else LastNumber(NumberAfter(before, runs[..|runs| - 1]), runs[|runs| - 1])
  }

  /** Every run's seam passes. */
  ghost predicate SeamsPass(before: nat, runs: seq<seq<Attempt>>) {
    forall i :: 0 <= i < |runs| ==> SeamPasses(NumberAfter(before, runs[..i]), runs[i])
  }

  /**
   A log that lives through any number of restarts is accepted exactly when every
   run that writes at all writes its first event under a number, one more than the
   writes that failed before it, above the last number any earlier run has left.
   */
  lemma {:induction false} RestartsAcceptedIff(wire: Wire, lines: seq<string>, runs: seq<seq<Attempt>>)
    requires Faithful(wire) && Clean(wire, lines)
    ensures var file, before := AfterRuns(wire, lines, runs), TailSequence(Events(wire, lines));
            && lines <= file
            && (Clean(wire, file) <==> SeamsPass(before, runs))
            && (Clean(wire, file) ==> TailSequence(Events(wire, file)) == NumberAfter(before, runs))
  {
    if runs != [] {
      var init, last := runs[..|runs| - 1], runs[|runs| - 1];
      RestartsAcceptedIff(wire, lines, init);
      OneMoreRun(wire, AfterRuns(wire, lines, init), last);
      SeamsSplit(TailSequence(Events(wire, lines)), runs);
    }
  }

  /** One more run, on a file that is accepted or not. */
  lemma OneMoreRun(wire: Wire, lines: seq<string>, attempts: seq<Attempt>)
    requires Faithful(wire)
    ensures var file, before := EmitAll(wire, Opened(wire, lines), attempts).lines, TailSequence(Events(wire, lines));
            && lines <= file
            && (Clean(wire, file) <==> Clean(wire, lines) && SeamPasses(before, attempts))
            && (Clean(wire, file) ==> TailSequence(Events(wire, file)) == LastNumber(before, attempts))
  {
    var file := EmitAll(wire, Opened(wire, lines), attempts).lines;
    EmitAllAppends(wire, Opened(wire, lines), attempts, 0);
    assert EmitAll(wire, Opened(wire, lines), attempts[..0]).lines == lines;
    if Clean(wire, file) {
      CleanPrefix(wire, file, |lines|);
      assert file[..|lines|] == lines;
    }
    if Clean(wire, lines) { RestartAcceptedIff(wire, lines, attempts); }
  }

  lemma SeamsSplit(before: nat, runs: seq<seq<Attempt>>)
    requires runs != []
    ensures var init, last := runs[..|runs| - 1], runs[|runs| - 1];
            SeamsPass(before, runs) <==> SeamsPass(before, init) && SeamPasses(NumberAfter(before, init), last)
  {
    var init := runs[..|runs| - 1];
    forall i | 0 <= i < |init| ensures init[..i] == runs[..i] {}
    if SeamsPass(before, init) && SeamPasses(NumberAfter(before, init), runs[|runs| - 1]) {
      forall i | 0 <= i < |runs| ensures SeamPasses(NumberAfter(before, runs[..i]), runs[i]) {
        if i < |init| { assert SeamPasses(NumberAfter(before, init[..i]), init[i]); }
      }
    }
    if SeamsPass(before, runs) {
      forall i | 0 <= i < |init| ensures SeamPasses(NumberAfter(before, init[..i]), init[i]) {
        assert SeamPasses(NumberAfter(before, runs[..i]), runs[i]);
      }
      assert SeamPasses(NumberAfter(before, runs[..|init|]), runs[|init|]);
    }
  }

  /** With no failed write, two non-empty runs make a log that verification rejects at the seam. */
  lemma SecondRunIsFlagged(wire: Wire, first: seq<Attempt>, second: seq<Attempt>)
    requires Faithful(wire) && first != [] && second != []
    requires forall a :: a in first + second ==> a.writeOk
    ensures var before := AfterRuns(wire, [], [first]);
            var file := AfterRuns(wire, [], [first, second]);
            && |before| == |first| && Clean(wire, before)
            && |file| > |before| && file[..|before|] == before
            && Fault(wire, file, |before|) == Some(Sequence) && !Clean(wire, file)
  {
    var before := AfterRuns(wire, [], [first]);
    assert [first][..0] == [] && [first, second][..1] == [first];
    assert AfterRuns(wire, [], [first][..0]) == [];
    assert before == EmitAll(wire, Opened(wire, []), first).lines;
    forall a | a in first ensures a.writeOk { assert a in first + second; }
    FreshRunIsClean(wire, first);
    assert second[0] in first + second;
    RestartAcceptedIff(wire, before, second);
    RestartVerdict(wire, before, second, 0);
  }

  lemma {:induction false} FreshRunIsClean(wire: Wire, attempts: seq<Attempt>)
    requires Faithful(wire) && forall a :: a in attempts ==> a.writeOk
    ensures var s := EmitAll(wire, Opened(wire, []), attempts);
            && InStep(wire, s) && Clean(wire, s.lines)
            && |s.lines| == |attempts| == |Events(wire, s.lines)| == s.counter
            && TailSequence(Events(wire, s.lines)) == |attempts|
  {
    if attempts != [] {
      var init, last := attempts[..|attempts| - 1], attempts[|attempts| - 1];
      FreshRunIsClean(wire, init);
      assert last in attempts;
      var s := EmitAll(wire, Opened(wire, []), init);
      var e := Seal(wire, last.r, s.counter + 1, s.lastHash);
      SealedIsHashed(wire, last.r, s.counter + 1, s.lastHash);
      EmitKeepsInStep(wire, s, last.r, true);
      CleanExtend(wire, s.lines, wire.render(e));
      assert (s.lines + [wire.render(e)])[..|s.lines|] == s.lines;
    }
  }

  // ----- several processes on one fresh file -------------------------------

  type ProcessId = nat

  /** A process's chain head and counter; it opened the file while it was empty. */
  datatype Head = Head(lastHash: string, counter: nat)

  datatype Shared = Shared(lines: seq<string>, heads: map<ProcessId, Head>)

  datatype Turn = Turn(p: ProcessId, r: Request, writeOk: bool)

  function HeadOf(s: Shared, p: ProcessId): Head {
    if p in s.heads then s.heads[p] else Head(CHAIN_HEAD, 0)
  }

  function SinkOf(s: Shared, p: ProcessId): SinkState {
    SinkState(s.lines, HeadOf(s, p).lastHash, HeadOf(s, p).counter)
  }

  /** The processes' emissions in the order in which they reach the file. */
  function AfterTurns(wire: Wire, turns: seq<Turn>): Shared {
    if turns == [] then Shared([], map[])
    else
      var s, t := AfterTurns(wire, turns[..|turns| - 1]), turns[|turns| - 1];
      var sink := Emit(wire, SinkOf(s, t.p), t.r, t.writeOk);
      Shared(sink.lines, s.heads[t.p := Head(sink.lastHash, sink.counter)])
  }

  ghost predicate Wrote(turns: seq<Turn>, p: ProcessId) {
    exists i :: 0 <= i < |turns| && turns[i].p == p && turns[i].writeOk
  }

  /** No process but `p` has written a line. */
  ghost predicate OnlyWriter(turns: seq<Turn>, p: ProcessId) {
    forall i :: 0 <= i < |turns| && turns[i].writeOk ==> turns[i].p == p
  }

  lemma {:induction false} HeadOfSilent(wire: Wire, turns: seq<Turn>, p: ProcessId)
    requires !Wrote(turns, p)
    ensures HeadOf(AfterTurns(wire, turns), p).lastHash == CHAIN_HEAD
  {
    if turns != [] {
      var init := turns[..|turns| - 1];
      forall i | 0 <= i < |init| ensures !(init[i].p == p && init[i].writeOk) { assert init[i] == turns[i]; }
      HeadOfSilent(wire, init, p);
    }
  }

  /** What a single writer leaves is in step with its head, accepted, and numbered up to its counter. */
  lemma {:induction false} OnlyWriterAccepted(wire: Wire, turns: seq<Turn>, p: ProcessId)
    requires Faithful(wire) && OnlyWriter(turns, p)
    ensures var s := AfterTurns(wire, turns);
            && InStep(wire, SinkOf(s, p)) && Clean(wire, s.lines)
            && TailSequence(Events(wire, s.lines)) <= HeadOf(s, p).counter
            && (Wrote(turns, p) ==> Events(wire, s.lines) != [])
            && (!Wrote(turns, p) ==> s.lines == [])
  {
    if turns != [] {
      var init, t := turns[..|turns| - 1], turns[|turns| - 1];
      forall i | 0 <= i < |init| && init[i].writeOk ensures init[i].p == p { assert init[i] == turns[i]; }
      OnlyWriterAccepted(wire, init, p);
      WroteSnoc(init, t, p);
      assert turns == init + [t];
      var sink := SinkOf(AfterTurns(wire, init), p);
      if t.writeOk {
        EmitKeepsInStep(wire, sink, t.r, true);
        WriteAcceptedIff(wire, sink, t.r);
      }
    }
  }

  lemma WroteSnoc(init: seq<Turn>, t: Turn, p: ProcessId)
    ensures Wrote(init + [t], p) <==> Wrote(init, p) || (t.p == p && t.writeOk)
  {
    var turns := init + [t];
    if i :| 0 <= i < |init| && init[i].p == p && init[i].writeOk { assert turns[i] == init[i]; }
    if t.p == p && t.writeOk { assert turns[|init|] == t; }
  }

  /**
   Several processes on one fresh file: what they leave is accepted exactly when
   one of them has written every line, except that an event hashing to the
   all-zero head could hide a second writer.
   */
  lemma {:induction false} SharedFileAcceptedIff(wire: Wire, turns: seq<Turn>)
    requires Faithful(wire)
    ensures var s := AfterTurns(wire, turns);
            && ((exists p :: OnlyWriter(turns, p)) ==> Clean(wire, s.lines))
            && (Clean(wire, s.lines) ==> (exists p :: OnlyWriter(turns, p)) || HitsHead(wire, Events(wire, s.lines)))
  {
    if p :| OnlyWriter(turns, p) {
      OnlyWriterAccepted(wire, turns, p);
    } else if Clean(wire, AfterTurns(wire, turns).lines) {
      SecondWriterNeedsHead(wire, turns);
    }
  }

  /** The first line of a second writer follows the zero head, and so must the log. */
  lemma {:induction false} SecondWriterNeedsHead(wire: Wire, turns: seq<Turn>)
    requires Faithful(wire) && Clean(wire, AfterTurns(wire, turns).lines)
    requires forall p :: !OnlyWriter(turns, p)
    ensures HitsHead(wire, Events(wire, AfterTurns(wire, turns).lines))
  {
    if turns == [] {
      assert OnlyWriter(turns, 0);
    } else {
      var init, t := turns[..|turns| - 1], turns[|turns| - 1];
      assert turns == init + [t];
      var s := AfterTurns(wire, init);
      if t.writeOk { KeepsWitness(wire, s, t); }
      if q :| OnlyWriter(init, q) {
        OnlyWriterSnoc(init, t, q);
        assert !Wrote(init, t.p);
        HeadOfSilent(wire, init, t.p);
        OnlyWriterAccepted(wire, init, q);
        FollowsHead(wire, s, t);
      } else {
        SecondWriterNeedsHead(wire, init);
      }
    }
  }

  /** After one more turn there is still one writer, or a second one has just begun. */
  lemma OnlyWriterSnoc(init: seq<Turn>, t: Turn, q: ProcessId)
    requires OnlyWriter(init, q)
    ensures var turns := init + [t];
            OnlyWriter(turns, q) || OnlyWriter(turns, t.p) || (t.writeOk && t.p != q && Wrote(init, q))
  {
    if !Wrote(init, q) { assert forall i :: 0 <= i < |init| ==> !init[i].writeOk; }
  }

  /** A write keeps the log before it accepted, if what it leaves is, and the witnesses in it. */
  lemma KeepsWitness(wire: Wire, s: Shared, t: Turn)
    requires Faithful(wire) && t.writeOk && Clean(wire, Emit(wire, SinkOf(s, t.p), t.r, true).lines)
    ensures Clean(wire, s.lines)
    ensures HitsHead(wire, Events(wire, s.lines)) ==>
              HitsHead(wire, Events(wire, Emit(wire, SinkOf(s, t.p), t.r, true).lines))
  {
    var e := Seal(wire, t.r, HeadOf(s, t.p).counter + 1, HeadOf(s, t.p).lastHash);
    var lines := s.lines + [wire.render(e)];
    CleanPrefix(wire, lines, |s.lines|);
    assert lines[..|s.lines|] == s.lines && lines[..|lines| - 1] == s.lines;
    assert Events(wire, lines) == Events(wire, s.lines) + [e];
  }

  /** A line that follows the zero head on a log that has events already. */
  lemma FollowsHead(wire: Wire, s: Shared, t: Turn)
    requires Faithful(wire) && t.writeOk && Clean(wire, Emit(wire, SinkOf(s, t.p), t.r, true).lines)
    requires HeadOf(s, t.p).lastHash == CHAIN_HEAD && Events(wire, s.lines) != []
    ensures HitsHead(wire, Events(wire, Emit(wire, SinkOf(s, t.p), t.r, true).lines))
  {
    var es := Events(wire, s.lines);
    var e := Seal(wire, t.r, HeadOf(s, t.p).counter + 1, CHAIN_HEAD);
    var lines := s.lines + [wire.render(e)];
    KeepsWitness(wire, s, t);
    assert Fault(wire, lines, |s.lines|).None? && lines[..|s.lines|] == s.lines;
    CleanIffIntact(wire, s.lines);
    assert LinkedAt(wire, es, |es| - 1) && es[|es| - 1] in es;
    assert HitsHead(wire, es);
  }
}
