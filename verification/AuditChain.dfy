/**
 The hash-chained audit log: events, what an intact chain is, and the verifier.
 The hash is an arbitrary function. JSON is any printer and parser that round-trip.
 */
module AuditChain {
  import opened Basics

  datatype Target = Target(memoryId: string, namespace: string, title: Option<string>)

  datatype Event = Event(timestamp: string, sequence: nat, actor: string, action: string,
                         target: Target, outcome: string, prevHash: string, selfHash: string)

  /** The printer, the parser and the hash, which the log uses and does not define. */
  datatype Wire = Wire(render: Event -> string, parse: string -> Option<Event>, hash: string -> string)

  const CHAIN_HEAD: string := "0000000000000000000000000000000000000000000000000000000000000000"

  predicate IsSpace(c: char) {
    c == ' ' || c == '\t' || c == '\r' || c == '\n'
  }

  predicate Blank(line: string) {
    forall i :: 0 <= i < |line| ==> IsSpace(line[i])
  }

  /** Blank is what nothing but spaces, tabs and line ends make, and an event's line is not. */
  lemma BlankMeans(line: string)
    ensures Blank(line) <==> forall c :: c in line ==> c in " \t\r\n"
  {
    if forall c :: c in line ==> c in " \t\r\n" {
      forall i | 0 <= i < |line| ensures IsSpace(line[i]) { assert line[i] in line; }
    }
  }

  /** Printing an event yields a non-blank line that parses back to it. */
  ghost predicate Faithful(wire: Wire) {
    forall e {:trigger wire.render(e)} :: wire.parse(wire.render(e)) == Some(e) && !Blank(wire.render(e))
  }

  /** The text that is hashed: the event as printed with an empty `self_hash`. */
  function Canonical(wire: Wire, e: Event): string {
    wire.render(e.(selfHash := ""))
  }

  function ComputeSelfHash(wire: Wire, e: Event): string {
    wire.hash(Canonical(wire, e))
  }

  // ----- the log as a sequence of events --------------------------------

  /** The events of the lines that parse, in order. */
  function Events(wire: Wire, lines: seq<string>): seq<Event> {
    if lines == [] then []
    else
      var init, last := lines[..|lines| - 1], lines[|lines| - 1];
      if Blank(last) || wire.parse(last).None? then Events(wire, init)
      else Events(wire, init) + [wire.parse(last).value]
  }

  function TailHash(es: seq<Event>): string {
    if es == [] then CHAIN_HEAD else es[|es| - 1].selfHash
  }

  function TailSequence(es: seq<Event>): nat {
    if es == [] then 0 else es[|es| - 1].sequence
  }

  /** The event names its predecessor's hash and carries its own. */
  predicate LinkedAt(wire: Wire, es: seq<Event>, i: nat)
    requires i < |es|
  {
    es[i].prevHash == TailHash(es[..i]) && es[i].selfHash == ComputeSelfHash(wire, es[i])
  }

  ghost predicate Linked(wire: Wire, es: seq<Event>) {
    forall i :: 0 <= i < |es| ==> LinkedAt(wire, es, i)
  }

  /** The number passes its predecessor's, except that anything may follow a zero. */
  predicate RisingAt(es: seq<Event>, i: nat)
    requires i < |es|
  {
    TailSequence(es[..i]) == 0 || TailSequence(es[..i]) < es[i].sequence
  }

  ghost predicate Rising(es: seq<Event>) {
    forall i :: 0 <= i < |es| ==> RisingAt(es, i)
  }

  ghost predicate AllParse(wire: Wire, lines: seq<string>) {
    forall i :: 0 <= i < |lines| ==> Blank(lines[i]) || wire.parse(lines[i]).Some?
  }

  /** An intact log, said of the events alone. */
  ghost predicate Intact(wire: Wire, lines: seq<string>) {
    AllParse(wire, lines) && Linked(wire, Events(wire, lines)) && Rising(Events(wire, lines))
  }

  // ----- what can be wrong with one line --------------------------------

  datatype FailureKind = Parse | SelfHash | ChainBreak | Sequence

  datatype Failure = Failure(lineNumber: nat, kind: FailureKind)

  datatype Report = Report(totalLines: nat, firstFailure: Option<Failure>)

  /** The fault of line `i`, judged against the events before it. */
  function Fault(wire: Wire, lines: seq<string>, i: nat): Option<FailureKind>
    requires i < |lines|
  {
    if Blank(lines[i]) then None
    else
      var before := Events(wire, lines[..i]);
      match wire.parse(lines[i])
      case None => Some(Parse)
      case Some(e) =>
        if e.prevHash != TailHash(before) then Some(ChainBreak)
        else if e.sequence <= TailSequence(before) && TailSequence(before) != 0 then Some(Sequence)
        else if ComputeSelfHash(wire, e) != e.selfHash then Some(SelfHash)
        else None
  }

  ghost predicate Clean(wire: Wire, lines: seq<string>) {
    forall i :: 0 <= i < |lines| ==> Fault(wire, lines, i).None?
  }

  function NonBlankCount(lines: seq<string>): nat {
    if lines == [] then 0
    else NonBlankCount(lines[..|lines| - 1]) + if Blank(lines[|lines| - 1]) then 0 else 1
  }

  /** The count is that of the positions of non-blank lines. */
  lemma {:induction false} CountedLines(lines: seq<string>)
    ensures NonBlankCount(lines) == |NonBlankAt(lines)|
  {
    if lines != [] {
      var n := |lines| - 1;
      CountedLines(lines[..n]);
      assert NonBlankAt(lines) == NonBlankAt(lines[..n]) + if Blank(lines[n]) then {} else {n};
    }
  }

  function NonBlankAt(lines: seq<string>): set<nat> {
    set i: nat | i < |lines| && !Blank(lines[i])
  }

  /** What each verdict on a line says of the line, and the order of the checks. */
  lemma FaultMeans(wire: Wire, lines: seq<string>, i: nat)
    requires i < |lines|
    ensures var before, e, fault := Events(wire, lines[..i]), wire.parse(lines[i]), Fault(wire, lines, i);
            && (fault.Some? ==> exists c :: c in lines[i] && c !in " \t\r\n")
            && (fault.Some? ==> (fault.value == Parse <==> e.None?))
            && (fault.Some? ==> (fault.value == ChainBreak <==> e.Some? && e.value.prevHash != TailHash(before)))
            && (fault.Some? ==> (fault.value == Sequence <==> e.Some? && e.value.prevHash == TailHash(before)
                                                              && 0 != TailSequence(before) >= e.value.sequence))
            && (fault == Some(SelfHash) ==> e.value.selfHash != wire.hash(wire.render(e.value.(selfHash := ""))))
  {
    if !Blank(lines[i]) {
      var x :| 0 <= x < |lines[i]| && !IsSpace(lines[i][x]);
      assert lines[i][x] in lines[i];
    }
  }

  /** The verifier loop: one pass, carrying the last hash and the last sequence number. */
  method VerifyChainFromReader(wire: Wire, lines: seq<string>) returns (report: Report)
    ensures report.firstFailure.None? <==> Clean(wire, lines)
    ensures report.firstFailure.Some? ==>
              var f := report.firstFailure.value;
              && 1 <= f.lineNumber <= |lines|
              && Fault(wire, lines, f.lineNumber - 1) == Some(f.kind)
              && (forall i :: 0 <= i < f.lineNumber - 1 ==> Fault(wire, lines, i).None?)
              && report.totalLines == NonBlankCount(lines[..f.lineNumber])
    ensures report.firstFailure.Some? ==>
              var f := report.firstFailure.value;
              var before, line := Events(wire, lines[..f.lineNumber - 1]), lines[f.lineNumber - 1];
              var e := wire.parse(line);
              && (exists c :: c in line && c !in " \t\r\n")
              && (f.kind == Parse <==> e.None?)
              && (f.kind == ChainBreak <==> e.Some? && e.value.prevHash != TailHash(before))
              && (f.kind == Sequence <==> e.Some? && e.value.prevHash == TailHash(before)
                                          && 0 != TailSequence(before) >= e.value.sequence)
              && (f.kind == SelfHash ==> e.value.selfHash != wire.hash(wire.render(e.value.(selfHash := ""))))
    ensures report.firstFailure.None? ==> report.totalLines == NonBlankCount(lines)
  {
    var total, prevHash, prevSeq := 0, CHAIN_HEAD, 0;
    for i := 0 to |lines|
      invariant total == NonBlankCount(lines[..i])
      invariant prevHash == TailHash(Events(wire, lines[..i]))
      invariant prevSeq == TailSequence(Events(wire, lines[..i]))
      invariant forall j :: 0 <= j < i ==> Fault(wire, lines, j).None?
    {
      assert lines[..i + 1][..i] == lines[..i];
      ghost var fault := Fault(wire, lines, i);
      if Blank(lines[i]) { continue; }
      total := total + 1;
      FaultMeans(wire, lines, i);
      match wire.parse(lines[i]) {
        case None =>
          return Report(total, Some(Failure(i + 1, Parse)));
        case Some(e) =>
          if e.prevHash != prevHash { return Report(total, Some(Failure(i + 1, ChainBreak))); }
          if e.sequence <= prevSeq && prevSeq != 0 { return Report(total, Some(Failure(i + 1, Sequence))); }
          if ComputeSelfHash(wire, e) != e.selfHash { return Report(total, Some(Failure(i + 1, SelfHash))); }
          prevHash, prevSeq := e.selfHash, e.sequence;
      }
    }
    assert lines[..|lines|] == lines;
    report := Report(total, None);
  }

  // ----- acceptance -----------------------------------------------------

  /** Acceptance of a prefix: the verifier never looks ahead. */
  lemma CleanPrefix(wire: Wire, lines: seq<string>, n: nat)
    requires n <= |lines| && Clean(wire, lines)
    ensures Clean(wire, lines[..n])
  {
    forall i | 0 <= i < n ensures Fault(wire, lines[..n], i).None? {
      assert lines[..n][..i] == lines[..i];
      assert Fault(wire, lines, i).None?;
    }
  }

  lemma CleanExtend(wire: Wire, lines: seq<string>, line: string)
    ensures Clean(wire, lines + [line]) <==> Clean(wire, lines) && Fault(wire, lines + [line], |lines|).None?
  {
    var all := lines + [line];
    if Clean(wire, all) {
      CleanPrefix(wire, all, |lines|);
      assert all[..|lines|] == lines;
    }
    if Clean(wire, lines) && Fault(wire, all, |lines|).None? {
      forall i | 0 <= i < |all| ensures Fault(wire, all, i).None? {
        if i < |lines| {
          assert all[..i] == lines[..i];
          assert Fault(wire, lines, i).None?;
        }
      }
    }
  }

  lemma LinkedExtend(wire: Wire, es: seq<Event>, e: Event)
    ensures Linked(wire, es + [e]) <==>
              Linked(wire, es) && e.prevHash == TailHash(es) && e.selfHash == ComputeSelfHash(wire, e)
  {
    var all := es + [e];
    assert all[..|es|] == es;
    assert LinkedAt(wire, all, |es|) <==> e.prevHash == TailHash(es) && e.selfHash == ComputeSelfHash(wire, e);
    forall i | 0 <= i < |es| ensures LinkedAt(wire, all, i) <==> LinkedAt(wire, es, i) {
      assert all[..i] == es[..i];
    }
  }

  lemma RisingExtend(es: seq<Event>, e: Event)
    ensures Rising(es + [e]) <==>
              Rising(es) && (TailSequence(es) == 0 || TailSequence(es) < e.sequence)
  {
    var all := es + [e];
    assert all[..|es|] == es;
    assert RisingAt(all, |es|) <==> TailSequence(es) == 0 || TailSequence(es) < e.sequence;
    forall i | 0 <= i < |es| ensures RisingAt(all, i) <==> RisingAt(es, i) {
      assert all[..i] == es[..i];
    }
  }

  /** The line-by-line verdict is the property of the event sequence. */
  lemma {:induction false} CleanIffIntact(wire: Wire, lines: seq<string>)
    ensures Clean(wire, lines) <==> Intact(wire, lines)
  {
    if lines != [] {
      var init, last := lines[..|lines| - 1], lines[|lines| - 1];
      assert lines == init + [last];
      assert lines[..|init|] == init;
      CleanIffIntact(wire, init);
      CleanExtend(wire, init, last);
      assert AllParse(wire, lines) <==> AllParse(wire, init) && (Blank(last) || wire.parse(last).Some?);
      if !Blank(last) && wire.parse(last).Some? {
        LinkedExtend(wire, Events(wire, init), wire.parse(last).value);
        RisingExtend(Events(wire, init), wire.parse(last).value);
      }
    }
  }

  // ----- tamper evidence ------------------------------------------------

  /**
   One event of an accepted log is edited, its two stored hashes kept and its number
   not lowered to or below its predecessor's: the verifier stops at that very line
   and finds its hash wrong, unless the two events are different texts of one hash.
   */
  lemma EditedEventIsFound(wire: Wire, lines: seq<string>, i: nat, edited: Event)
    requires Faithful(wire) && Clean(wire, lines) && i < |lines| && !Blank(lines[i])
    requires wire.parse(lines[i]).Some? && wire.parse(lines[i]).value != edited
    requires var e := wire.parse(lines[i]).value; edited.prevHash == e.prevHash && edited.selfHash == e.selfHash
    requires var last := TailSequence(Events(wire, lines[..i])); last == 0 || last < edited.sequence
    ensures var tampered := lines[i := wire.render(edited)];
            var e := wire.parse(lines[i]).value;
            || ((forall j :: 0 <= j < i ==> Fault(wire, tampered, j).None?)
                && Fault(wire, tampered, i) == Some(SelfHash))
            || (Canonical(wire, edited) != Canonical(wire, e)
                && ComputeSelfHash(wire, edited) == ComputeSelfHash(wire, e))
  {
    var tampered := lines[i := wire.render(edited)];
    var e := wire.parse(lines[i]).value;
    assert Fault(wire, lines, i).None? && tampered[..i] == lines[..i];
    forall j | 0 <= j < i ensures Fault(wire, tampered, j).None? {
      assert tampered[..j] == lines[..j] && Fault(wire, lines, j).None?;
    }
    assert wire.parse(Canonical(wire, e)) == Some(e.(selfHash := ""));
    assert wire.parse(Canonical(wire, edited)) == Some(edited.(selfHash := ""));
  }

  /** A line that does not parse, put anywhere into an accepted log, is found there, for what it is. */
  lemma ForeignLineIsFound(wire: Wire, lines: seq<string>, i: nat, line: string)
    requires Clean(wire, lines) && i <= |lines| && !Blank(line) && wire.parse(line).None?
    ensures var longer := lines[..i] + [line] + lines[i..];
            (forall j :: 0 <= j < i ==> Fault(wire, longer, j).None?) && Fault(wire, longer, i) == Some(Parse)
  {
    var longer := lines[..i] + [line] + lines[i..];
    forall j | 0 <= j < i ensures Fault(wire, longer, j).None? {
      assert longer[..j] == lines[..j] && Fault(wire, lines, j).None?;
    }
  }

  /** An event taken out of an accepted log breaks the chain at the next one, unless its hash is its predecessor's. */
  lemma RemovedEventIsFound(wire: Wire, lines: seq<string>, i: nat)
    requires Clean(wire, lines) && i + 1 < |lines| && !Blank(lines[i]) && !Blank(lines[i + 1])
    ensures var shorter := lines[..i] + lines[i + 1..];
            && (forall j :: 0 <= j < i ==> Fault(wire, shorter, j).None?)
            && (Fault(wire, shorter, i) == Some(ChainBreak) <==>
                  TailHash(Events(wire, lines[..i + 1])) != TailHash(Events(wire, lines[..i])))
  {
    var shorter := lines[..i] + lines[i + 1..];
    assert Fault(wire, lines, i).None? && Fault(wire, lines, i + 1).None?;
    assert shorter[..i] == lines[..i] && shorter[i] == lines[i + 1];
    assert lines[..i + 1][..i] == lines[..i];
    forall j | 0 <= j < i ensures Fault(wire, shorter, j).None? {
      assert shorter[..j] == lines[..j] && Fault(wire, lines, j).None?;
    }
  }

  /** Two different hashed texts, one from each log, with one hash. */
  ghost predicate Collision(wire: Wire, a: seq<Event>, b: seq<Event>) {
    exists x, y :: x in a && y in b && Canonical(wire, x) != Canonical(wire, y)
                   && ComputeSelfHash(wire, x) == ComputeSelfHash(wire, y)
  }

  /** An event whose hash is the all-zero head of a chain. */
  ghost predicate HitsHead(wire: Wire, es: seq<Event>) {
    exists x :: x in es && ComputeSelfHash(wire, x) == CHAIN_HEAD
  }

  /**
   The final hash commits to the whole log: two linked logs with one final hash
   are the same events, or they exhibit a hash collision, or a preimage of the zero head.
   */
  lemma {:induction false} TailHashCommits(wire: Wire, a: seq<Event>, b: seq<Event>)
    requires Faithful(wire) && Linked(wire, a) && Linked(wire, b)
    requires TailHash(a) == TailHash(b)
    ensures a == b || Collision(wire, a, b) || HitsHead(wire, a) || HitsHead(wire, b)
    decreases |a| + |b|
  {
    if a == [] && b != [] {
      assert LinkedAt(wire, b, |b| - 1) && b[|b| - 1] in b;
    } else if a != [] && b == [] {
      assert LinkedAt(wire, a, |a| - 1) && a[|a| - 1] in a;
    } else if a != [] && b != [] {
      var x, y := a[|a| - 1], b[|b| - 1];
      var a', b' := a[..|a| - 1], b[..|b| - 1];
      assert a == a' + [x] && b == b' + [y];
      LinkedExtend(wire, a', x);
      LinkedExtend(wire, b', y);
      assert x in a && y in b;
      if Canonical(wire, x) == Canonical(wire, y) {
        assert wire.parse(Canonical(wire, x)) == Some(x.(selfHash := ""));
        assert wire.parse(Canonical(wire, y)) == Some(y.(selfHash := ""));
        assert x == y;
        TailHashCommits(wire, a', b');
        WitnessesSurvive(wire, a', b', x, y);
      }
    }
  }

  lemma WitnessesSurvive(wire: Wire, a: seq<Event>, b: seq<Event>, x: Event, y: Event)
    ensures Collision(wire, a, b) ==> Collision(wire, a + [x], b + [y])
    ensures HitsHead(wire, a) ==> HitsHead(wire, a + [x])
    ensures HitsHead(wire, b) ==> HitsHead(wire, b + [y])
  {
  }

  /** The same, said of two files the verifier accepts. */
  lemma AcceptedLogsCommit(wire: Wire, lines: seq<string>, tampered: seq<string>)
    requires Faithful(wire) && Clean(wire, lines) && Clean(wire, tampered)
    requires TailHash(Events(wire, lines)) == TailHash(Events(wire, tampered))
    ensures var a, b := Events(wire, lines), Events(wire, tampered);
            a == b || Collision(wire, a, b) || HitsHead(wire, a) || HitsHead(wire, b)
  {
    CleanIffIntact(wire, lines);
    CleanIffIntact(wire, tampered);
    TailHashCommits(wire, Events(wire, lines), Events(wire, tampered));
  }
}
