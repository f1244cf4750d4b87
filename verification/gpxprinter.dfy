/** The serial-port stand-in OctoPrint talks to (octoprint_GPX/gpxprinter.py).
    OctoPrint writes G-code lines and reads reply lines; the adapter hands each
    command to the native GPX translator and queues whatever the translator
    answers, one reply line per queue item. The translator is an oracle here:
    each call says what it answered, and the model records the calls made. */
module GpxPrinter {
  import opened Text

  /** The adapter's state: the baud rate OctoPrint asks for, the one last
      handed to the translator, the sticky baud-failure flag, and the queue of
      reply lines not yet read. */
  datatype Printer = Printer(requested: int, applied: int, baudError: bool, outgoing: seq<string>)

  /** A call into the translator. */
  datatype Call = SetBaud(rate: int) | Send(command: string) | Poll

  /** The translator's side of one `write`: whether it accepts a new baud rate,
      how many times it reports a full buffer before it takes the command, and
      what it answers then. */
  datatype WriteOracle = WriteOracle(acceptsBaud: bool, overflows: nat, output: string)

  /** The translator's side of one `readline`: the `write` that a pending baud
      change triggers, and what polling returns. */
  datatype ReadOracle = ReadOracle(write: WriteOracle, poll: string)

  /** The state after an operation and the translator calls it made, in order. */
  datatype Step = Step(printer: Printer, calls: seq<Call>)

  datatype ReadResult = ReadResult(printer: Printer, line: string, calls: seq<Call>)

  // ---------------------------------------------------------------------------
  // _append
  // ---------------------------------------------------------------------------

  /** No queued line holds a newline. */
  predicate Clean(queue: seq<string>) {
    forall i :: 0 <= i < |queue| ==> '\n' !in queue[i]
  }

  /** `_append(s)`: nothing for an empty answer, otherwise every piece between
      newlines, in order. */
  function Enqueue(queue: seq<string>, s: string): (r: seq<string>)
    ensures |r| >= |queue| && r[..|queue|] == queue
    ensures s == "" <==> r == queue
    ensures s != "" ==> |r| > |queue| && JoinLines(r[|queue|..]) == s
    ensures Clean(queue) ==> Clean(r)
  {
    if s == "" then queue
    else
      var r := queue + SplitLines(s);
      assert r[|queue|..] == SplitLines(s);
      r
  }

  /** Enqueuing lines joined by newlines queues exactly those lines, unless
      the only line is empty. */
  lemma EnqueueJoined(queue: seq<string>, lines: seq<string>)
    requires |lines| >= 1 && Clean(lines) && lines != [""]
    ensures Enqueue(queue, JoinLines(lines)) == queue + lines
  {
    SplitJoin(lines);
    SplitEmpty();
  }

  /** A trailing newline adds one empty piece at the end. */
  lemma {:induction false} SplitTrailingNewline(s: string)
    ensures SplitLines(s + "\n") == SplitLines(s) + [""]
    decreases |s|
  {
    var t := s + "\n";
    assert t[..|s|] == s;
    match IndexOf(s, '\n')
    case None =>
      IndexOfFirst(t, '\n', |s|);
      assert t[|s| + 1..] == "";
      SplitEmpty();
      assert SplitLines(s) == [s];
    case Some(i) =>
      assert t[..i] == s[..i];
      IndexOfFirst(t, '\n', i);
      assert t[i + 1..] == s[i + 1..] + "\n";
      SplitTrailingNewline(s[i + 1..]);
      assert SplitLines(s) == [s[..i]] + SplitLines(s[i + 1..]);
      ConcatAssoc([s[..i]], SplitLines(s[i + 1..]), [""]);
  }

  /** So an answer ending in a newline queues an empty line after its last
      line: `"ok\n"` queues `"ok"` and then `""`. */
  lemma EnqueueTerminated(queue: seq<string>, s: string)
    ensures Enqueue(queue, s + "\n") == queue + SplitLines(s) + [""]
  {
    SplitTrailingNewline(s);
  }

  // ---------------------------------------------------------------------------
  // write
  // ---------------------------------------------------------------------------

  /** The command handed to the translator: the stripped line cut just before
      its last `*`, which drops OctoPrint's checksum. */
  function CommandOf(data: string): (r: string)
    ensures |r| <= |Strip(data)| && r == Strip(data)[..|r|]
    ensures '*' in Strip(data) ==> |r| < |Strip(data)| && Strip(data)[|r|] == '*' && '*' !in Strip(data)[|r| + 1..]
    ensures '*' !in Strip(data) ==> r == Strip(data)
  {
    var line := Strip(data);
    match LastIndexOf(line, '*')
    case Some(i) => line[..i]
    case None => line
  }

  /** A command followed by `*` and a checksum without `*` comes back whole. */
  lemma CommandOfChecksummed(command: string, checksum: string)
    requires '*' !in checksum
    requires Strip(command + "*" + checksum) == command + "*" + checksum
    ensures CommandOf(command + "*" + checksum) == command
  {
    var line := command + "*" + checksum;
    assert line[|command|] == '*';
    assert line[|command| + 1..] == checksum;
    assert line[..|command|] == command;
  }

  /** The translator loop: each full-buffer report queues `wait` and retries;
      the first accepted send queues the answer and ends the loop. */
  function SendLoop(p: Printer, command: string, o: WriteOracle, calls: seq<Call>): (r: Step)
    ensures r.printer == p.(outgoing := r.printer.outgoing)
    ensures |r.printer.outgoing| >= |p.outgoing| + o.overflows && r.printer.outgoing[..|p.outgoing|] == p.outgoing
    ensures |r.calls| == |calls| + o.overflows + 1 && r.calls[..|calls|] == calls
    ensures forall i :: |calls| <= i < |r.calls| ==> r.calls[i] == Send(command)
    decreases o.overflows
  {
    if o.overflows == 0 then
      Step(p.(outgoing := Enqueue(p.outgoing, o.output)), calls + [Send(command)])
    else
      SendLoop(p.(outgoing := Enqueue(p.outgoing, "wait")), command, o.(overflows := o.overflows - 1), calls + [Send(command)])
  }

  /** `n` copies of `x`. */
  function Repeat<T>(x: T, n: nat): (r: seq<T>)
    ensures |r| == n && forall i :: 0 <= i < n ==> r[i] == x
  {
    seq(n, _ => x)
  }

  /** The loop sends the same command once per full-buffer report and once
      more, queues one `wait` per report, then queues the answer. */
  lemma {:induction false} SendLoopEffect(p: Printer, command: string, o: WriteOracle, calls: seq<Call>)
    ensures SendLoop(p, command, o, calls) ==
      Step(p.(outgoing := Enqueue(p.outgoing + Repeat("wait", o.overflows), o.output)),
           calls + Repeat(Send(command), o.overflows + 1))
    decreases o.overflows
  {
    if o.overflows > 0 {
      var p1 := p.(outgoing := Enqueue(p.outgoing, "wait"));
      assert SplitLines("wait") == ["wait"];
      assert p1.outgoing == p.outgoing + ["wait"];
      SendLoopEffect(p1, command, o.(overflows := o.overflows - 1), calls + [Send(command)]);
      assert ["wait"] + Repeat("wait", o.overflows - 1) == Repeat("wait", o.overflows);
      ConcatAssoc(p.outgoing, ["wait"], Repeat("wait", o.overflows - 1));
      assert [Send(command)] + Repeat(Send(command), o.overflows) == Repeat(Send(command), o.overflows + 1);
      ConcatAssoc(calls, [Send(command)], Repeat(Send(command), o.overflows));
    }
  }

  /** `write(data)`. A pending baud change is applied first, whatever the
      translator then says; if it refuses, the error flag goes up, an empty
      reply is queued and nothing is sent. */
  function Write(p: Printer, data: string, o: WriteOracle): (r: Step)
    ensures r.printer.requested == p.requested && r.printer.applied == p.requested
    ensures |r.printer.outgoing| >= |p.outgoing| && r.printer.outgoing[..|p.outgoing|] == p.outgoing
    ensures |r.calls| >= 1
    ensures r.calls == [SetBaud(p.requested)] || r.calls[|r.calls| - 1] == Send(CommandOf(data))
  {
    var command := CommandOf(data);
    if p.requested != p.applied then
      var p1 := p.(applied := p.requested);
      if !o.acceptsBaud then
        Step(p1.(baudError := true, outgoing := p1.outgoing + [""]), [SetBaud(p.requested)])
      else
        SendLoop(p1.(baudError := false), command, o, [SetBaud(p.requested)])
    else
      SendLoop(p, command, o, [])
  }

  /** After `write` the translator runs at the requested rate, and the error
      flag records whether the last change of rate was refused. */
  lemma WriteBaud(p: Printer, data: string, o: WriteOracle)
    ensures Write(p, data, o).printer.requested == p.requested
    ensures Write(p, data, o).printer.applied == p.requested
    ensures Write(p, data, o).printer.baudError == (if p.requested != p.applied then !o.acceptsBaud else p.baudError)
    ensures p.requested != p.applied ==> |Write(p, data, o).calls| >= 1 && Write(p, data, o).calls[0] == SetBaud(p.requested)
    ensures p.requested == p.applied ==> SetBaud(p.requested) !in Write(p, data, o).calls
  {
    if p.requested != p.applied && o.acceptsBaud {
      SendLoopEffect(p.(applied := p.requested, baudError := false), CommandOf(data), o, [SetBaud(p.requested)]);
    } else if p.requested == p.applied {
      SendLoopEffect(p, CommandOf(data), o, []);
    }
  }

  /** A refused baud change queues exactly one empty line and sends nothing. */
  lemma WriteRefused(p: Printer, data: string, o: WriteOracle)
    requires p.requested != p.applied && !o.acceptsBaud
    ensures Write(p, data, o).printer.outgoing == p.outgoing + [""]
    ensures Write(p, data, o).calls == [SetBaud(p.requested)]
    ensures forall c :: c in Write(p, data, o).calls ==> !c.Send?
  {
  }

  /** Otherwise the command goes to the translator once per full-buffer report
      and once more; one `wait` line is queued per report, then the answer's
      lines. */
  lemma WriteSends(p: Printer, data: string, o: WriteOracle)
    requires p.requested == p.applied || o.acceptsBaud
    ensures var s := Write(p, data, o);
      && s.printer.outgoing == Enqueue(p.outgoing + Repeat("wait", o.overflows), o.output)
      && s.calls == (if p.requested != p.applied then [SetBaud(p.requested)] else []) + Repeat(Send(CommandOf(data)), o.overflows + 1)
  {
    if p.requested != p.applied {
      SendLoopEffect(p.(applied := p.requested, baudError := false), CommandOf(data), o, [SetBaud(p.requested)]);
    } else {
      SendLoopEffect(p, CommandOf(data), o, []);
      assert [] + Repeat(Send(CommandOf(data)), o.overflows + 1) == Repeat(Send(CommandOf(data)), o.overflows + 1);
    }
  }

  // ---------------------------------------------------------------------------
  // readline
  // ---------------------------------------------------------------------------

  /** The oldest queued line, or `''` from an empty queue. */
  function Take(p: Printer, calls: seq<Call>): (r: ReadResult)
    ensures |p.outgoing| > 0 ==> r.line == p.outgoing[0] && r.printer.outgoing == p.outgoing[1..]
    ensures |p.outgoing| == 0 ==> r.line == "" && r.printer == p
    ensures r.calls == calls
    ensures r.printer.(outgoing := p.outgoing) == p
  {
    if |p.outgoing| > 0 then ReadResult(p.(outgoing := p.outgoing[1..]), p.outgoing[0], calls)
    else ReadResult(p, "", calls)
  }

  /** `readline()`. While the error flag is up it answers `''`, first retrying
      the baud change with an `M105` when one is pending. Otherwise it answers
      the oldest queued line, polling the translator once when the queue is
      empty. */
  function Readline(p: Printer, o: ReadOracle): (r: ReadResult)
    ensures r.printer.requested == p.requested
    ensures p.baudError ==> r.line == ""
    ensures !p.baudError ==> !r.printer.baudError && (r.calls == [] || r.calls == [Poll])
  {
    if p.baudError then
      if p.applied != p.requested then
        var s := Write(p, "M105", o.write);
        ReadResult(s.printer, "", s.calls)
      else ReadResult(p, "", [])
    else if |p.outgoing| > 0 then Take(p, [])
    else Take(p.(outgoing := Enqueue(p.outgoing, o.poll)), [Poll])
  }

  /** With the error flag up and no baud change pending, `readline` answers
      `''`, changes nothing and calls nothing. */
  lemma ReadlineWhileError(p: Printer, o: ReadOracle)
    requires p.baudError && p.applied == p.requested
    ensures Readline(p, o) == ReadResult(p, "", [])
  {
  }

  /** With the error flag up and a baud change pending, `readline` answers
      `''` after retrying the change through `write("M105")`. */
  lemma ReadlineRetriesBaud(p: Printer, o: ReadOracle)
    requires p.baudError && p.applied != p.requested
    ensures Readline(p, o).line == ""
    ensures Readline(p, o).printer.applied == p.requested
    ensures |Readline(p, o).calls| >= 1 && Readline(p, o).calls[0] == SetBaud(p.requested)
    ensures o.write.acceptsBaud ==> !Readline(p, o).printer.baudError && Send("M105") in Readline(p, o).calls
    ensures !o.write.acceptsBaud ==> Readline(p, o).printer.baudError && Readline(p, o).printer.outgoing == p.outgoing + [""]
  {
    WriteBaud(p, "M105", o.write);
    if o.write.acceptsBaud {
      WriteSends(p, "M105", o.write);
      StripFixpoint("M105");
      assert CommandOf("M105") == "M105";
      var calls := Readline(p, o).calls;
      assert calls[1] == Send("M105");
    }
  }

  /** Without the error flag, `readline` hands out the oldest queued line
      without calling the translator; only from an empty queue does it poll,
      once, and then answer the first line of the poll's answer, or `''`. */
  lemma ReadlineDelivers(p: Printer, o: ReadOracle)
    requires !p.baudError
    ensures |p.outgoing| > 0 ==> Readline(p, o) == ReadResult(p.(outgoing := p.outgoing[1..]), p.outgoing[0], [])
    ensures |p.outgoing| == 0 ==> Readline(p, o).calls == [Poll]
    ensures |p.outgoing| == 0 && o.poll == "" ==> Readline(p, o) == ReadResult(p, "", [Poll])
    ensures |p.outgoing| == 0 && o.poll != "" ==>
      Readline(p, o).line == SplitLines(o.poll)[0] && Readline(p, o).printer.outgoing == SplitLines(o.poll)[1..]
  {
  }

  /** `readline` called once per oracle, collecting the lines. */
  function ReadMany(p: Printer, os: seq<ReadOracle>): (Printer, seq<string>)
    decreases |os|
  {
    if |os| == 0 then (p, [])
    else
      var r := Readline(p, os[0]);
      var (q, lines) := ReadMany(r.printer, os[1..]);
      (q, [r.line] + lines)
  }

  /** First in, first out: reading as many lines as are queued returns them
      in the order they were queued, whatever the translator would have
      answered to a poll. */
  lemma {:induction false} FifoDelivery(p: Printer, os: seq<ReadOracle>)
    requires !p.baudError && |os| <= |p.outgoing|
    ensures ReadMany(p, os).1 == p.outgoing[..|os|]
    ensures ReadMany(p, os).0 == p.(outgoing := p.outgoing[|os|..])
    decreases |os|
  {
    if |os| > 0 {
      var p1 := p.(outgoing := p.outgoing[1..]);
      assert Readline(p, os[0]) == ReadResult(p1, p.outgoing[0], []);
      FifoDelivery(p1, os[1..]);
      assert p.outgoing[1..][..|os| - 1] == p.outgoing[1..|os|];
      assert p.outgoing[..|os|] == [p.outgoing[0]] + p.outgoing[1..|os|];
      assert p.outgoing[1..][|os| - 1..] == p.outgoing[|os|..];
    }
  }

  /** The error flag is sticky: once it is up and no baud change is pending,
      every `readline` answers `''` and nothing changes. */
  lemma {:induction false} ErrorSticky(p: Printer, os: seq<ReadOracle>)
    requires p.baudError && p.applied == p.requested
    ensures ReadMany(p, os).0 == p
    ensures ReadMany(p, os).1 == Repeat("", |os|)
    decreases |os|
  {
    if |os| > 0 {
      ErrorSticky(p, os[1..]);
      assert [""] + Repeat("", |os| - 1) == Repeat("", |os|);
    }
  }

  /** No queued line ever holds a newline. */
  lemma StaysClean(p: Printer, data: string, wo: WriteOracle, ro: ReadOracle)
    requires Clean(p.outgoing)
    ensures Clean(Write(p, data, wo).printer.outgoing)
    ensures Clean(Readline(p, ro).printer.outgoing)
    ensures '\n' !in Readline(p, ro).line
  {
    assert Clean(p.outgoing + [""]);
    assert Clean(p.outgoing + Repeat("wait", wo.overflows));
    WriteSendsOrRefuses(p, data, wo);
    if p.baudError && p.applied != p.requested {
      WriteSendsOrRefuses(p, "M105", ro.write);
      assert Clean(p.outgoing + Repeat("wait", ro.write.overflows));
    }
    if !p.baudError && |p.outgoing| == 0 && ro.poll != "" {
      assert Clean(Enqueue(p.outgoing, ro.poll));
    }
  }

  /** Every `write` either queues one empty line after a refused baud change
      or queues waits and then the answer. */
  lemma WriteSendsOrRefuses(p: Printer, data: string, o: WriteOracle)
    ensures Write(p, data, o).printer.outgoing == p.outgoing + [""] ||
            Write(p, data, o).printer.outgoing == Enqueue(p.outgoing + Repeat("wait", o.overflows), o.output)
  {
    if p.requested == p.applied || o.acceptsBaud {
      WriteSends(p, data, o);
    }
  }

  // ---------------------------------------------------------------------------
  // Construction and the requested rate
  // ---------------------------------------------------------------------------

  datatype Created = Created(printer: Printer) | AutoBaudRejected | ConnectFailed

  /** `GpxPrinter(port, baudrate)`: baud rate 0 (auto-detect) is refused
      before anything else; otherwise the translator connects at that rate and
      its greeting is queued. `connect` is `None` when connecting raises. */
  function Create(baudrate: int, connect: Option<string>): (r: Created)
    ensures r.AutoBaudRejected? <==> baudrate == 0
    ensures r.ConnectFailed? <==> baudrate != 0 && connect.None?
    ensures r.Created? ==>
      && r.printer.requested == baudrate && r.printer.applied == baudrate
      && !r.printer.baudError
      && r.printer.outgoing == Enqueue([], connect.value)
  {
    if baudrate == 0 then AutoBaudRejected
    else match connect
      case None => ConnectFailed
      case Some(greeting) => Created(Printer(baudrate, baudrate, false, Enqueue([], greeting)))
  }

  /** OctoPrint setting the `baudrate` attribute: only the requested rate
      changes; the translator hears of it at the next `write`. */
  function SetBaudrate(p: Printer, rate: int): (r: Printer)
    ensures r.requested != r.applied <==> rate != p.applied
    ensures r.(requested := p.requested) == p
  {
    p.(requested := rate)
  }

  /** A rate change is passed on at the next `write`, which calls
      `set_baudrate` with it before anything else. */
  lemma RateReachesTranslator(p: Printer, rate: int, data: string, o: WriteOracle)
    requires rate != p.applied
    ensures |Write(SetBaudrate(p, rate), data, o).calls| >= 1 && Write(SetBaudrate(p, rate), data, o).calls[0] == SetBaud(rate)
    ensures Write(SetBaudrate(p, rate), data, o).printer.applied == rate
  {
    WriteBaud(SetBaudrate(p, rate), data, o);
  }
}
